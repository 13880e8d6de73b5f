# Address-to-bytes32 encoder

This project models the string helper in `utils/addressToBytes32.ts` of the
Crosmiint contract repository. The helper turns a hex address into a 32-byte
word in hex text. It has two functions:

- `cutPrefix(data)` removes one leading `"0x"` when there is one. The test is
  case-sensitive, so a leading `"0X"` stays.
- `addressToBytes32(address)` cuts the prefix and puts a `'1'` marker in front
  of the remaining digits. JavaScript `padStart(64, "0")` then pads that string
  on the left with `'0'` to 64 characters, and `"0x"` goes in front. `padStart`
  only pads and never truncates.

Both are pure functions over strings, modelled as `seq<char>`. The project has
two modules:

- `Strings` (`strings.dfy`) holds `startsWith` and `padStart` with a
  one-character fill, which the helper calls. It also holds `endsWith`, which
  the contracts use to say "is a suffix of", and a left trim and a repeat,
  which the proofs and the decoder use.
- `Bytes32` (`bytes32.dfy`) holds `CutPrefix` and `AddressToBytes32`.
  `CutPrefix` models JavaScript `slice(2)` as the sequence suffix `data[2..]`.
  The module also holds `Decode`, a reference decoder that the source does not have. `Decode`
  reads the word back: skip `"0x"`, skip the leading `'0'`s, expect the marker,
  and keep the rest. It is the partner the round-trip and injectivity lemmas
  are stated against.

## Model

| member | source | states |
|---|---|---|
| Strings.PadStart | utils/addressToBytes32.ts:4 | `padStart` with fill `'0'`: the result is `max(target, length)` long, ends with the input, and has only fill characters in front of it; a string already long enough is returned unchanged |
| Bytes32.CutPrefix | utils/addressToBytes32.ts:7-13 | the result is always a suffix of the input; it is exactly two characters shorter when the input starts with `"0x"`, and it is the input itself otherwise |
| Bytes32.CutPrefixOnce | utils/addressToBytes32.ts:8-9 | only one prefix is removed: `cutPrefix("0x" + s) == s` for every `s`, including an `s` that itself starts with `"0x"` |
| Bytes32.CutPrefixIdempotentIff | utils/addressToBytes32.ts:7-13 | applying `cutPrefix` a second time changes nothing exactly when the first result no longer starts with `"0x"` |
| Bytes32.CutPrefixExamples | utils/addressToBytes32.ts:8 | `"0Xab"` is kept, because the test is case-sensitive; `"0x0xab"` becomes `"0xab"`; so `cutPrefix` is not idempotent |
| Bytes32.AddressToBytes32 | utils/addressToBytes32.ts:1-5 | the word starts with `"0x"`; it is `2 + max(64, n + 1)` long, where `n` is the length of the prefix-less address; it ends with the marker followed by that address; every character between `"0x"` and the marker is `'0'` |
| Bytes32.AddressToBytes32Shape | utils/addressToBytes32.ts:2-4 | the word is exactly `"0x"`, then `max(64, n + 1) - n - 1` copies of `'0'`, then `'1'`, then the prefix-less address |
| Bytes32.AddressToBytes32Length | utils/addressToBytes32.ts:4 | a prefix-less address of at most 63 characters gives a word of exactly 66 characters |
| Bytes32.AddressToBytes32NoTruncation | utils/addressToBytes32.ts:4 | a prefix-less address of 64 or more characters is neither padded nor cut: the word is `"0x1"` followed by the whole address |
| Bytes32.AddressToBytes32PrefixIrrelevant | utils/addressToBytes32.ts:1-12 | for any `s` that does not start with `"0x"`, `"0x" + s` and `s` give the same word |
| Bytes32.Decode | utils/addressToBytes32.ts:4 | the reference decoder accepts a word only when it is `"0x"`, a run of `'0'`s, the `'1'` marker and the decoded address, in that order: the layout line 4 writes |
| Bytes32.DecodeAddressToBytes32 | utils/addressToBytes32.ts:2-4 | round trip: decoding the word gives back exactly `cutPrefix(address)`, because the marker is the first character after `"0x"` that is not `'0'` |
| Bytes32.AddressToBytes32InjectiveIff | utils/addressToBytes32.ts:2-4 | two addresses give the same word if and only if they are equal once their prefix is cut, at every length |
| Bytes32.AddressToBytes32OfDecode | utils/addressToBytes32.ts:4 | the converse of the round trip: a word of the encoder's length that decodes to an address without a `"0x"` prefix is exactly the encoder's word for that address |
| Bytes32.AddressToBytes32OfDecodeAny | utils/addressToBytes32.ts:1-12 | the encoder's image is exactly what the decoder accepts at the encoder's length: a word of that length that decodes to any address `a` is the encoder's word for `"0x" + a` |

## Left out

- The drop campaign and the listing marketplace are left out. They are Solidity contracts, and this model covers only the TypeScript helper.
- The test harnesses (`test/Collection721.ts`, `test/NFTMarketplace.ts`, `test/Collection1155.ts`) are left out. They run RPC calls, wall-clock sleeps and block timestamps against those contracts.
- `hardhat.config.ts` is left out. It is network and compiler configuration read from the environment and contains no logic.
- Hex validation is left out because the source has none. `addressToBytes32` accepts any string, including non-hex characters and any length, and so does the model, within the character limits stated in the last line of this section. The 40-digit shape of an address is not a precondition anywhere. The 66-character result is a lemma whose hypothesis is a length of at most 63 after the prefix is cut.
- Strings.PadStart: models `padStart` only with the one-character fill `"0"` and a non-negative integer target, which is how line 4 calls it. JavaScript's general fill strings and coercion of the target length are not modelled.
- JavaScript strings are sequences of UTF-16 code units, and the model uses `seq<char>`, where each `char` stands for one UTF-16 code unit. A Dafny `char` is a Unicode scalar value, so a character outside the Basic Multilingual Plane (for example U+1F600) is one `char` here but two code units for `padStart`: an input holding such a character gets one more `'0'` of padding in the model than in JavaScript. Lone surrogates, which JavaScript strings allow, cannot be represented as Dafny `char`s at all.
