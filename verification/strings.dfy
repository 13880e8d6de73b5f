/**
 String operations over `seq<char>`: `startsWith` and `padStart` (with a
 one-character fill), which the address encoder calls; `endsWith`, which the
 contracts use to say "is a suffix of"; and a repeat and a left trim of one
 repeated character, which the proofs and the reference decoder use.
 */
module Strings {

  /** JavaScript `s.startsWith(p)`: `p` occurs at index 0 of `s`. */
  predicate StartsWith(s: string, p: string) {
    |p| <= |s| && s[..|p|] == p
  }

  /** JavaScript `s.endsWith(t)`: `t` occurs at the end of `s`. */
  predicate EndsWith(s: string, t: string) {
    |t| <= |s| && s[|s| - |t|..] == t
  }

  /** True when every character of `s` is `c`. */
  predicate AllOf(s: string, c: char) {
    forall i :: 0 <= i < |s| ==> s[i] == c
  }

  function Max(a: int, b: int): (m: int) {
    if a < b then b else a
  }

  /** `k` copies of the character `c`. */
  function Repeat(c: char, k: nat): (r: string)
    ensures |r| == k
    ensures AllOf(r, c)
  {
    if k == 0 then [] else [c] + Repeat(c, k - 1)
  }

  /**
   JavaScript `s.padStart(target, fill)` for a one-character `fill`: copies of
   `fill` are put in front of `s` until the length reaches `target`. A string
   that is already at least `target` long comes back as it is; nothing is
   ever cut off.
   */
  function PadStart(s: string, target: nat, fill: char): (r: string)
    ensures |r| == Max(target, |s|)
    ensures EndsWith(r, s)
    ensures AllOf(r[..|r| - |s|], fill)
  {
    if |s| < target then Repeat(fill, target - |s|) + s else s
  }

  /** What `PadStart` puts in front of `s` is a run of `fill` of the missing length. */
  lemma PadStartSplit(s: string, target: nat, fill: char)
    ensures PadStart(s, target, fill) == Repeat(fill, Max(target, |s|) - |s|) + s
  {
    if |s| >= target {
      assert Repeat(fill, 0) + s == s;
    }
  }

  /** One more `c` in front of a run of `c`s is a run one longer. */
  lemma PrependRun(c: char, k: nat, t: string)
    ensures [c] + (Repeat(c, k) + t) == Repeat(c, k + 1) + t
  {
    assert Repeat(c, k + 1) == [c] + Repeat(c, k);
  }

  /**
   Drops every leading occurrence of `c`: the input is a run of `c`s followed
   by the result, and the result does not start with `c`, so it is the longest
   suffix of `s` that does not.
   */
  function TrimStart(s: string, c: char): (r: string)
    ensures |r| <= |s|
    ensures s == Repeat(c, |s| - |r|) + r
    ensures |r| == 0 || r[0] != c
  {
    if |s| > 0 && s[0] == c then
      var r := TrimStart(s[1..], c);
      PrependRun(c, |s| - 1 - |r|, r);
      assert s == [c] + s[1..];
      r
    else
      assert Repeat(c, 0) + s == s;
      s
  }

  /** Trimming `c` undoes a run of `c`s put in front of a string that does not start with `c`. */
  lemma {:induction false} TrimStartRepeat(c: char, k: nat, s: string)
    requires |s| == 0 || s[0] != c
    ensures TrimStart(Repeat(c, k) + s, c) == s
    decreases k
  {
    if k > 0 {
      assert Repeat(c, k) + s == [c] + (Repeat(c, k - 1) + s);
      assert (Repeat(c, k) + s)[1..] == Repeat(c, k - 1) + s;
      TrimStartRepeat(c, k - 1, s);
    } else {
      assert Repeat(c, k) + s == s;
    }
  }

  /** A string that starts with `p` is `p` followed by the rest. */
  lemma StartsWithSplit(s: string, p: string)
    requires StartsWith(s, p)
    ensures s == p + s[|p|..]
  {
  }
}
