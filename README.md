# Base64 and Base16 codec, modelled and verified in Dafny

This project models the codec module `Lib/base64/base64.py`. The module has
two encoders and two decoders:

- `b64encode` turns text whose characters are bytes into Base64 symbols. It
  writes four symbols for each group of three bytes. A last group of one or
  two bytes is padded with `=`.
- `b64decode` reads four characters at a time. It uses `_ascii_to_value` to
  give each character its six-bit value, puts the bytes back together, and
  stops after the first group whose third or fourth character is `=`.
- `b16encode` writes two upper-case hexadecimal digits per byte.
- `b16decode` reads pairs of digits. Its inner `decode` gives each digit its
  value.

The files are:

- `common.dfy` (module `Common`): byte characters (`ByteChar`, a character
  whose code point is below 256), the two ways a decode call fails (`Error`),
  a `Result` type, and Python's `chr`.
- `pyint.dfy` (module `PyInt`): Python's bitwise or on unbounded integers
  (`BitOr`), as infinite two's complement. It also proves the laws the
  decoders need: or-ing a small value into a shifted one is addition, and
  or-ing in -1 gives -1.
- `base64.dfy` (module `Base64`):
  - the table and `AsciiToValue`;
  - the specification functions `Encoding`, `DecodeQuad`, `DecodeGroups` and
    `Decoding`, which describe the output group by group;
  - the two loops, as the methods `EncodeWith`/`B64Encode` and `B64Decode`.
    Each is proved equal to its specification function.
- `base64_laws.dfy` (module `Base64Laws`), proved about those functions:
  - the lookup inverts the table;
  - the length and the alphabet of the encoding, and where its padding goes;
  - the round trip `Decoding(Encoding(Lookup, s)) == Ok(s)`;
  - which texts without `=` are accepted;
  - the early stop after a padded group;
  - worked examples.
- `base16.dfy` (module `Base16`) and `base16_laws.dfy` (module
  `Base16Laws`), the same for Base16. The round trip is proved in both
  directions. A text is accepted exactly when its length is even and all its
  characters are upper-case hexadecimal digits.

Modelling choices:

- Text is `string`. The encoders take `seq<ByteChar>`.
- Failure is a `Result`. A Python `assert` or a `chr` of a negative value
  raises an exception, and the call returns nothing. The model gives
  `Err(InvalidLength)` or `Err(InvalidCharacter)` instead.
- Python's `<<` is multiplication by a power of two. For a non-negative
  left operand, `>>` is Dafny's `/` and `& mask` is Dafny's `%`. Python's
  `|` is `PyInt.BitOr`.
- The loops keep `|` as written. The specification functions add the two
  parts instead. `Base64.PackBounds` and `Base16.PairByte` prove that the
  two agree.

Behaviour of the code that the model keeps, where it differs from RFC 4648:

- A Base64 group with `=` in its third or fourth place ends decoding. The
  characters after it are never examined, so they can neither change nor
  reject the result (`Base64Laws.DecodeEarlyStop`). For example,
  `"TQ==TWFu"` gives `"M"`. RFC 4648 puts `=` only at the end of the
  data. The code does not check that the input ends after a padded group,
  and the model follows the code.
- `=` is worth 0 in every place of a group, not only at the end. For
  example, `"===="` decodes to one zero byte (`Base64Laws.DecodeExamples`).
  The model follows the code.
- The Base16 decoder accepts only the upper-case letters `A` to `F`, where
  section 8 of RFC 4648 calls the encoding case-insensitive. A
  lower-case digit has no value. The pair it is in then gives a negative
  number, which `chr` rejects (`Base16.PairByte`).

## Model

| member | source | states |
|---|---|---|
| Common.Chr | Lib/base64/base64.py:117 | `chr` of a value 0..255 is the character with that code point |
| PyInt.BitOr | Lib/base64/base64.py:117-125 | Python's bitwise or on unbounded integers, also used at line 188, is negative exactly when one of its operands is negative |
| PyInt.BitOrMinusOne | Lib/base64/base64.py:188 | or-ing in -1 (a digit without a value) gives -1, whatever the other operand |
| PyInt.BitOrLow | Lib/base64/base64.py:117-125 | or-ing a value below 2^k into a value shifted left by k is their sum |
| Base64.AsciiToValue | Lib/base64/base64.py:18-42 | the value of a character lies in -1..63 and `=` is worth 0 (the lemmas below relate it to the table) |
| Base64.EncodeTriple | Lib/base64/base64.py:72-75 | the four symbols written for three bytes are table symbols |
| Base64.EncodeTail | Lib/base64/base64.py:77-87 | the group written for the one or two bytes left over has four characters. The first two are table symbols and the last is `=`. The third is `=` for one byte left over and a table symbol for two |
| Base64.EncodeStep | Lib/base64/base64.py:68-75 | one pass of the encoding loop appends exactly the four symbols of the next group of three bytes, all indices in range |
| Base64.EncodeFinish | Lib/base64/base64.py:77-87 | after the loop, one byte left over gives two symbols and `==`, two give three symbols and `=`, none gives nothing |
| Base64.EncodeWith | Lib/base64/base64.py:58-88 | the encoding loop over the table alias returns exactly `Encoding(b64chars, input)` |
| Base64.B64Encode | Lib/base64/base64.py:49-88 | `b64encode` returns `Encoding(Lookup, input)` |
| Base64.DecodeQuad | Lib/base64/base64.py:110-125 | one pass of the decoding loop over a group is rejected, with InvalidCharacter, exactly when a character has no value. It stops exactly when the third or fourth character is `=`. It gives 1 byte for `=` in the third place, 2 for `=` only in the fourth, and 3 otherwise. The first byte carries the first character's six bits on top, and a third byte carries the fourth character's six bits at the bottom |
| Base64.PackBounds | Lib/base64/base64.py:117-125 | each of the three bytes the decoder forms by or-ing a shifted-left value with a shifted-right one is the plain sum of the two and below 256 |
| Base64.DecodeStep | Lib/base64/base64.py:110-125 | one pass of the decoding loop: a character without a value rejects the call; `=` third stops after one byte, `=` fourth after two; otherwise three bytes are followed by the next group |
| Base64.B64Decode | Lib/base64/base64.py:95-127 | `b64decode` returns `Decoding(input)`: a length that is not a multiple of 4 fails, and otherwise the groups up to the first padded one are decoded |
| Base64Laws.LookupRanges | Lib/base64/base64.py:58 | the table is A-Z, then a-z, then 0-9, then `+` and `/` |
| Base64Laws.AsciiToValueOfLookup | Lib/base64/base64.py:18-42 | the lookup gives every table symbol its position: `AsciiToValue(Lookup[v]) == v` for v in 0..63 |
| Base64Laws.LookupOfAsciiToValue | Lib/base64/base64.py:18-42 | a character other than `=` with a value is the table symbol at that value |
| Base64Laws.PadNotInLookup | Lib/base64/base64.py:58 | `=` is not a table symbol |
| Base64Laws.AsciiToValueInvalid | Lib/base64/base64.py:18-42 | a character has value -1 exactly when it is neither `=` nor a table symbol |
| Base64Laws.EncodeGroupsLength | Lib/base64/base64.py:68-75 | n whole groups give 4n symbols |
| Base64Laws.EncodeGroupsPrefix | Lib/base64/base64.py:68-75 | each loop pass only appends: the output for fewer groups is a prefix of the output for more |
| Base64Laws.EncodeGroupsAt | Lib/base64/base64.py:68-75 | group j of the bytes is encoded at symbols 4j to 4j+3 |
| Base64Laws.EncodingParts | Lib/base64/base64.py:67-87 | the encoding is the whole groups followed by the padded group, if bytes are left over |
| Base64Laws.EncodingLength | Lib/base64/base64.py:67-87 | the encoding of n bytes has 4 * ceil(n / 3) symbols, a multiple of 4 |
| Base64Laws.SextetsRoundTrip | Lib/base64/base64.py:72-75 | cutting three bytes into four six-bit values and packing them as the decoder does gives back the three bytes |
| Base64Laws.LookupReadBack | Lib/base64/base64.py:18-42 | the standard table is read back by the lookup and has no `=` |
| Base64Laws.DecodeSymbols | Lib/base64/base64.py:110-125 | four table symbols, none a pad, decode to the three bytes their values pack |
| Base64Laws.DecodeWholeGroup | Lib/base64/base64.py:117-125 | the four symbols written for three bytes decode to those bytes and decoding goes on |
| Base64Laws.DecodeOneByteGroup | Lib/base64/base64.py:78-82 | the group written for one left-over byte decodes to that byte and stops |
| Base64Laws.DecodeTwoByteGroup | Lib/base64/base64.py:83-87 | the group written for two left-over bytes decodes to those bytes and stops |
| Base64Laws.DecodeTailGroup | Lib/base64/base64.py:77-87 | the padded last group decodes to exactly the bytes left over after the whole groups |
| Base64Laws.GroupGoesOn | Lib/base64/base64.py:117-125 | a group without a pad in its last two places adds its bytes in front of the following groups' |
| Base64Laws.GroupStops | Lib/base64/base64.py:118-123 | a group with a pad in its third or fourth place gives its bytes and nothing after it |
| Base64Laws.EncodingGroup | Lib/base64/base64.py:68-75 | in the whole encoding, group j is the four symbols of bytes 3j to 3j+2 |
| Base64Laws.DecodeEncodingStep | Lib/base64/base64.py:109-125 | decoding an encoding at whole group j gives bytes 3j to 3j+2, then goes on to group j+1 |
| Base64Laws.DecodeEncodingLast | Lib/base64/base64.py:118-123 | what follows the whole groups of an encoding decodes to the left-over bytes |
| Base64Laws.DecodeEncodingFrom | Lib/base64/base64.py:109-125 | decoding an encoding from group j on gives the bytes from 3j on |
| Base64Laws.DecodeEncodeWith | Lib/base64/base64.py:49-127 | with any table the lookup reads back, decoding undoes encoding |
| Base64Laws.DecodeEncode | Lib/base64/base64.py:49-127 | `b64decode(b64encode(s)) == s` for every byte string s |
| Base64Laws.TripleSymbols | Lib/base64/base64.py:72-75 | the four symbols of a whole group are table symbols |
| Base64Laws.WholeGroupSymbol | Lib/base64/base64.py:68-75 | every symbol of the whole groups is a table symbol |
| Base64Laws.EncodingSymbolAt | Lib/base64/base64.py:67-87 | symbol j of an encoding is `=` exactly in the last PadCount places (two for one left-over byte, one for two, none otherwise) and a table symbol elsewhere |
| Base64Laws.EncodingAlphabet | Lib/base64/base64.py:58-88 | every Base64 output is table symbols followed by PadCount `=` |
| Base64Laws.QuadPadFree | Lib/base64/base64.py:110-125 | a group without `=` is accepted exactly when its four characters are table symbols, and then gives three bytes and does not stop |
| Base64Laws.GroupPadFree | Lib/base64/base64.py:109-125 | a group without `=` is accepted exactly when its characters are table symbols and the rest is accepted, and adds three bytes |
| Base64Laws.PadFreeStep | Lib/base64/base64.py:109-125 | if the groups after a group without `=` are accepted exactly when their characters are table symbols, giving n bytes, then from that group on the same holds with n + 3 bytes |
| Base64Laws.DecodeGroupsPadFree | Lib/base64/base64.py:109-125 | the groups of a text without `=` are accepted exactly when all their characters are table symbols, and give three bytes each |
| Base64Laws.DecodeAcceptsPadFree | Lib/base64/base64.py:104-127 | a text without `=` is accepted exactly when its length is a multiple of 4 and all its characters are table symbols; it then gives 3 bytes per 4 characters |
| Base64Laws.DecodeGroupsStop | Lib/base64/base64.py:118-123 | from any group up to one with `=` in its third or fourth place, text appended after that group makes no difference |
| Base64Laws.DecodeEarlyStop | Lib/base64/base64.py:118-123 | text after a padded group is never looked at: `Decoding(u + w) == Decoding(u)` |
| Base64Laws.EncodeM | Lib/base64/base64.py:77-87 | "M" encodes to "TQ==" |
| Base64Laws.EncodeMa | Lib/base64/base64.py:77-87 | "Ma" encodes to "TWE=" |
| Base64Laws.EncodeMan | Lib/base64/base64.py:68-75 | "Man" encodes to "TWFu" |
| Base64Laws.EncodeExamples | Lib/base64/base64.py:49-88 | with the standard table: "" gives "", "M" gives "TQ==", "Ma" gives "TWE=", "Man" gives "TWFu" |
| Base64Laws.DecodeExamples | Lib/base64/base64.py:95-127 | "TWFu" gives "Man"; "TQ==TWFu" gives "M"; "====" gives one zero byte; "TWF" fails on its length; "TW!u" fails on a character |
| Base16.HexValue | Lib/base64/base64.py:172-179 | a character's hexadecimal value lies in -1..15 (the lemmas below relate it to the table) |
| Base16.PackPair | Lib/base64/base64.py:188 | `chr` of the high digit shifted left by 4 or-ed with the low digit is accepted exactly when both digits have a value. It is rejected with InvalidCharacter otherwise, and the byte it gives has hi as its high four bits and lo as its low four bits |
| Base16.PairByte | Lib/base64/base64.py:188 | the high digit shifted left by 4 or-ed with the low digit is negative, so rejected by `chr`, exactly when either digit is -1; otherwise it is `16 * hi + lo`, below 256 |
| Base16.B16Encode | Lib/base64/base64.py:134-156 | `b16encode` returns the high-then-low digit of each byte, that is `HexEncoding` of the whole input over `Lookup16` |
| Base16.B16Decode | Lib/base64/base64.py:163-190 | `b16decode` returns `HexDecoding(input)`: odd length fails, and a pair with a digit without a value fails |
| Base16Laws.TableRanges | Lib/base64/base64.py:143 | the table `Lookup16` is the digits 0-9 followed by A-F |
| Base16Laws.HexValueOfLookup | Lib/base64/base64.py:172-179 | the value of each table digit is its position |
| Base16Laws.LookupOfHexValue | Lib/base64/base64.py:172-179 | a character with a value is the table digit at that value |
| Base16Laws.HexValueInvalid | Lib/base64/base64.py:172-179 | a character has no value exactly when it is not in the table, so lower-case a-f are rejected |
| Base16Laws.HexEncodingLength | Lib/base64/base64.py:149-154 | n bytes give 2n digits |
| Base16Laws.HexEncodingAt | Lib/base64/base64.py:149-154 | byte k gives digit 2k = table[byte >> 4] and digit 2k+1 = table[byte & 15] |
| Base16Laws.HexEncodingCons | Lib/base64/base64.py:149-154 | encoding a byte in front of x puts its two digits in front of the encoding of x |
| Base16Laws.PairRoundTrip | Lib/base64/base64.py:186-188 | the two digits written for a byte decode back to that byte |
| Base16Laws.DecodeHexEncodingFrom | Lib/base64/base64.py:185-188 | decoding an encoding from pair k on gives the bytes from k on |
| Base16Laws.DecodeEncode | Lib/base64/base64.py:134-190 | `b16decode(b16encode(s)) == s` for every byte string s |
| Base16Laws.DecodePairsAccept | Lib/base64/base64.py:185-188 | the pairs of an even-length text are accepted exactly when all their characters are table digits |
| Base16Laws.DecodePairsEncode | Lib/base64/base64.py:185-188 | the bytes accepted pairs give encode back to those pairs |
| Base16Laws.DecodeAccepts | Lib/base64/base64.py:181-190 | a text is accepted exactly when its length is even and all its characters are table digits |
| Base16Laws.EncodeDecode | Lib/base64/base64.py:134-190 | an accepted text is the encoding of the bytes it gives, one byte per two characters |
| Base16Laws.Examples | Lib/base64/base64.py:134-190 | "Man" encodes to "4D616E" and back; "4d" fails on a character; "4D6" fails on its length |

## Left out

- The import at `Lib/base64/base64.py:12`: it only resolves module names, and the local definitions shadow what it imports.
- `Lib/base64/__init__.py`: it only re-exports the four functions.
- `Tools/nextcode.py`, `install_nextcode.py` and the packaging `setup.py`: process, file and packaging plumbing with no codec logic.
- Inputs to the encoders with a code point of 256 or more: the model excludes them by the type `ByteChar`. `b16encode` fails on every such input with an index error. `b64encode` fails when the character starts a group, or when its table index reaches 64. Otherwise it gives output that does not decode back. For example, `"\x00\x00\u0100"` encodes to `"AAEA"`, which decodes to `"\x00\x01\x00"`, and `"\x00\u0100"` encodes to `"AQA="`.
- Lone surrogates (U+D800 to U+DFFF) as input to the decoders: a Python `str` can hold them, a Dafny `char` cannot. No behaviour is lost: such a character has no value, so it is rejected like any character outside the alphabet, or it is never read because it comes after a padded Base64 group.
- Exception types and messages: an `AssertionError` for a bad length, an `AssertionError` or `ValueError` for a bad character. Each becomes one of the two `Error` values, and the call gives no output.
- Python run with assertions disabled (`-O`): the model assumes the length and character checks of `b64decode` and `b16decode` run.
- Base64.AsciiToValue, Base16.HexValue: their own contracts give only the range of the value. What they compute is stated by the lemmas in `Base64Laws` and `Base16Laws`.
- Base64.Lookup: the 64-symbol string is written as its four ranges joined together. `Base64Laws.LookupRanges` states what each position holds.
- Base64.EncodeWith: the encoding loop takes its table as a parameter, like the source's local alias `b64chars`. `B64Encode` passes the standard table, and the round trip is proved for any table the lookup reads back.
- Building the output with `"".join(out)`: each append to the list `out` is a sequence concatenation on a `string`.
