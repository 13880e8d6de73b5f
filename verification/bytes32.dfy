/**
 The address-to-bytes32 encoder: an address string becomes a `0x`-prefixed
 word whose digits are the address behind a `'1'` marker, left-padded with
 `'0'` to 64 digits (66 characters in all for an address of at most 63
 digits after its prefix).
 */
module Bytes32 {
  import opened Strings

  datatype Option<T> = None | Some(value: T)

  /** The prefix `cutPrefix` removes and the encoder writes. Case-sensitive: `"0X"` is not it. */
  const HexPrefix: string := "0x"

  /** The number of digits `padStart` pads the marked address to. */
  const WordDigits: nat := 64

  /** The character written in front of the address digits. */
  const Marker: char := '1'

  /** The fill character `padStart` uses. */
  const Fill: char := '0'

  /**
   Removes one leading `"0x"` when there is one. The result is always a suffix
   of `data`; it is two characters shorter exactly when `data` starts with
   `"0x"`, and otherwise it is `data` itself.
   */
  function CutPrefix(data: string): (r: string)
    ensures EndsWith(data, r)
    ensures StartsWith(data, HexPrefix) ==> |r| == |data| - 2
    ensures !StartsWith(data, HexPrefix) ==> r == data
  {
    if StartsWith(data, HexPrefix) then data[2..] else data
  }

  /**
   The word for any string: `"0x"`, then the `'1'` marker and the prefix-less
   address, padded on the left with `'0'` to 64 digits. It is 66 characters
   long when the prefix-less part has at most 63 characters. No padding
   happens once the marked address is already 64 digits or longer, and
   nothing is cut off.
   */
  function AddressToBytes32(address: string): (r: string)
    ensures StartsWith(r, HexPrefix)
    ensures |r| == |HexPrefix| + Max(WordDigits, |CutPrefix(address)| + 1)
    ensures EndsWith(r, [Marker] + CutPrefix(address))
    ensures AllOf(r[|HexPrefix|..|r| - |CutPrefix(address)| - 1], Fill)
  {
    var prefixLess := CutPrefix(address);
    var padded := PadStart([Marker] + prefixLess, WordDigits, Fill);
    assert (HexPrefix + padded)[|HexPrefix|..] == padded;
    HexPrefix + padded
  }

  /**
   Reference decoder, the inverse the encoder is built for: after `"0x"`, skip
   the leading `'0'`s; the first other character must be the marker, and what
   follows it is the address. A word it accepts is therefore `"0x"`, a run of
   `'0'`s, the marker and the decoded address, in that order.
   */
  function Decode(word: string): (r: Option<string>)
    ensures r.Some? ==> |HexPrefix| + |r.value| + 1 <= |word|
    ensures r.Some? ==>
      word == HexPrefix + (Repeat(Fill, |word| - |HexPrefix| - |r.value| - 1) + ([Marker] + r.value))
  {
    if !StartsWith(word, HexPrefix) then None
    else
      var rest := word[|HexPrefix|..];
      var digits := TrimStart(rest, Fill);
      if |digits| > 0 && digits[0] == Marker then
        assert digits == [Marker] + digits[1..];
        StartsWithSplit(word, HexPrefix);
        Some(digits[1..])
      else None
  }

  /** The encoded word, spelled out: prefix, a run of fill characters, marker, address. */
  lemma AddressToBytes32Shape(address: string)
    ensures var p := CutPrefix(address);
      AddressToBytes32(address)
      == HexPrefix + (Repeat(Fill, Max(WordDigits, |p| + 1) - |p| - 1) + ([Marker] + p))
  {
    var p := CutPrefix(address);
    PadStartSplit([Marker] + p, WordDigits, Fill);
  }

  /** `cutPrefix` strips exactly one `"0x"`, even when another one follows. */
  lemma CutPrefixOnce(s: string)
    ensures CutPrefix(HexPrefix + s) == s
  {
    assert (HexPrefix + s)[..2] == HexPrefix;
  }

  /** Applying `cutPrefix` twice changes nothing exactly when its first result has no `"0x"` left. */
  lemma CutPrefixIdempotentIff(data: string)
    ensures CutPrefix(CutPrefix(data)) == CutPrefix(data)
      <==> !StartsWith(CutPrefix(data), HexPrefix)
  {
  }

  /** The cases the prefix test distinguishes: upper-case `"0X"` is kept, and `"0x0xab"` loses only one prefix. */
  lemma CutPrefixExamples()
    ensures CutPrefix("0Xab") == "0Xab"
    ensures CutPrefix("0x0xab") == "0xab"
    ensures CutPrefix(CutPrefix("0x0xab")) != CutPrefix("0x0xab")
  {
    assert "0Xab"[1] != HexPrefix[1];
    CutPrefixOnce("0xab");
    assert "0x0xab" == HexPrefix + "0xab";
    CutPrefixOnce("ab");
    assert "0xab" == HexPrefix + "ab";
  }

  /** An address of at most 63 digits after its prefix gives a word of exactly 66 characters. */
  lemma AddressToBytes32Length(address: string)
    requires |CutPrefix(address)| <= WordDigits - 1
    ensures |AddressToBytes32(address)| == 66
  {
  }

  /** At 64 digits or more there is no padding: the word is `"0x"`, the marker and the address. */
  lemma AddressToBytes32NoTruncation(address: string)
    requires |CutPrefix(address)| >= WordDigits
    ensures AddressToBytes32(address) == HexPrefix + [Marker] + CutPrefix(address)
  {
    AddressToBytes32Shape(address);
    assert Repeat(Fill, 0) == [];
  }

  /** Writing the `"0x"` prefix or leaving it off gives the same word. */
  lemma AddressToBytes32PrefixIrrelevant(s: string)
    requires !StartsWith(s, HexPrefix)
    ensures AddressToBytes32(HexPrefix + s) == AddressToBytes32(s)
  {
    CutPrefixOnce(s);
  }

  /** Decoding the word gives back the prefix-less address. */
  lemma DecodeAddressToBytes32(address: string)
    ensures Decode(AddressToBytes32(address)) == Some(CutPrefix(address))
  {
    var p := CutPrefix(address);
    var k := Max(WordDigits, |p| + 1) - |p| - 1;
    var word := AddressToBytes32(address);
    AddressToBytes32Shape(address);
    assert word[|HexPrefix|..] == Repeat(Fill, k) + ([Marker] + p);
    TrimStartRepeat(Fill, k, [Marker] + p);
    assert ([Marker] + p)[1..] == p;
  }

  /** Two addresses give the same word exactly when they agree after their prefix is cut. */
  lemma AddressToBytes32InjectiveIff(a: string, b: string)
    ensures AddressToBytes32(a) == AddressToBytes32(b) <==> CutPrefix(a) == CutPrefix(b)
  {
    if AddressToBytes32(a) == AddressToBytes32(b) {
      DecodeAddressToBytes32(a);
      DecodeAddressToBytes32(b);
    }
  }

  /** A word of the encoder's length that decodes to `cutPrefix(x)` is the encoder's word for `x`. */
  lemma AddressToBytes32OfDecodeCut(word: string, x: string)
    requires Decode(word) == Some(CutPrefix(x))
    requires |word| == |HexPrefix| + Max(WordDigits, |CutPrefix(x)| + 1)
    ensures AddressToBytes32(x) == word
  {
    AddressToBytes32Shape(x);
  }

  /**
   Every word of the encoder's length that decodes to a prefix-less address is
   the encoder's word for that address.
   */
  lemma AddressToBytes32OfDecode(word: string, address: string)
    requires Decode(word) == Some(address)
    requires !StartsWith(address, HexPrefix)
    requires |word| == |HexPrefix| + Max(WordDigits, |address| + 1)
    ensures AddressToBytes32(address) == word
  {
    AddressToBytes32OfDecodeCut(word, address);
  }

  /**
   The encoder's image is exactly what the decoder accepts at the encoder's
   length: a word that decodes to any address, with or without a leading
   `"0x"`, is the encoder's word for that address with `"0x"` put in front.
   */
  lemma AddressToBytes32OfDecodeAny(word: string, address: string)
    requires Decode(word) == Some(address)
    requires |word| == |HexPrefix| + Max(WordDigits, |address| + 1)
    ensures AddressToBytes32(HexPrefix + address) == word
  {
    CutPrefixOnce(address);
    AddressToBytes32OfDecodeCut(word, HexPrefix + address);
  }
}
