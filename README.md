# DL20 telemetry line decoder

This project models, in Dafny, the decoder that turns one tab-delimited line
from the DL20 logger into a record of sixteen numbers (`corrections.py`). A line
holds eight or more fields:

- fields 0-4 are direct readings: record number, the two transducers, the
  temperature voltage and the button;
- field 5 is the heading/pitch/roll block `ISHPR,h,p,r` followed by a
  separator and a two-digit hex checksum;
- fields 6 and 7 are the top and bottom depth/pressure/temperature blocks
  `ISDPT,d,M,p,B,t,C`, sealed the same way.

The checksum is the XOR of the character codes of everything before the last
three characters, written as two lowercase hex digits. The decoder compares it
with the received digits after lowercasing them. A block that has too few
comma fields, or whose checksum fails, is replaced by the three texts
`"nan","nan","nan"`. Every text is then converted with `robust_float`, which is
Python's `float()` with NaN in place of the error. The record also gets a
`depth_winch` placeholder (NaN) and `delta_pressure`, the bottom pressure minus
the top one. A line with fewer than eight fields raises `ParseException`.

Modules, one per concern of the source:

- `Wrappers`: `Option` and `Result`.
- `Text`: the Python string primitives the decoder uses:
  - `str.split` and its inverse `Join`;
  - ASCII `str.lower`;
  - the whitespace `float()` strips from its argument (space, tab, newline,
    carriage return, vertical tab and form feed);
  - the slices `s[:-3]` and `s[-2:]`.
- `Bits`: XOR on natural numbers, with the algebra the checksum proofs need.
- `Checksum`: `verify_checksum`:
  - the loop is the method `VerifyChecksum`;
  - its specification is the predicate `ChecksumOk`;
  - `ParseHexPair` is an independent reference reading of the received digits.
- `Numbers`: `robust_float`:
  - `Num` is NaN, a finite value or a signed infinity, with IEEE subtraction;
  - `ParseLiteral` is a parser for Python's float grammar;
  - `Render`, the text of a literal, is the parser's inverse.
- `Blocks`: `parse_hpr` and `parse_dpt`. `EncodeBlock` builds a block the way the
  sensor sends it, so each parser has a round trip to be proved against.
- `Decoder`: `parseRecord`:
  - the method `ParseRecord` builds the dict step by step, as the source does;
  - the function `Decode` gives the decoded `SensorRecord`, and `ToMap` links the two;
  - the dict keys are the enumeration `Key`, with `Name` giving each key's Python string.

## Model

| member | source | states |
|---|---|---|
| Bits.Xor | corrections.py:11 | Python's `^` on non-negative integers, bit by bit. A definition; its algebra is `XorComm`, `XorAssoc`, `XorSelf` and `XorBelow`. |
| Bits.XorComm | corrections.py:11 | `^` is commutative. |
| Bits.XorAssoc | corrections.py:11 | `^` is associative, so the fold's grouping does not matter. |
| Bits.XorSelf | corrections.py:11 | A number XORed with itself is 0. |
| Bits.XorBelow | corrections.py:11 | The XOR of two numbers below `2^k` is below `2^k`. |
| Checksum.Code | corrections.py:11 | `ord(s)`: the code point of a character, unbounded. A definition, used by `XorAll`. |
| Checksum.XorAll | corrections.py:9-11 | The XOR of the codes of every character, folded from the left from 0. A definition; `XorAllAppend` and `XorAllOneChange` state its properties. |
| Checksum.Format02x | corrections.py:12 | `f"{n:02x}"`: lowercase hex, zero-padded to two digits and wider for `n >= 256`. A definition; `Format02xTwoDigits` and `ParseFormat02x` state its properties. |
| Checksum.ChecksumOk | corrections.py:12 | The comparison `message[-2:].lower() == f"{xor:02x}"`. A definition; `ChecksumOkIff` ties it to the reference reading `ParseHexPair`. |
| Checksum.VerifyChecksum | corrections.py:8-12 | The XOR loop over `message[:-3]` returns exactly `ChecksumOk(message)`. That is true iff the last two characters, read as hex digits in either case, give the XOR of every character before the last three. |
| Checksum.ChecksumOkIff | corrections.py:12 | Comparing the lowercased received digits with `f"{x:02x}"` is equivalent to reading them as a hex pair in either case and getting `x`. |
| Checksum.LowerMatchesIffParses | corrections.py:12 | For a text of at most two characters: its lowering equals the two-digit rendering of `n` iff it reads as the hex pair `n`. Both directions are stated. |
| Checksum.Format02xTwoDigits | corrections.py:12 | `f"{n:02x}"` has at least two characters. It has exactly two iff `n < 256`, and those two are the high and low hex digits of `n`. |
| Checksum.ParseFormat02x | corrections.py:12 | Reading back the two-digit rendering of a byte gives the byte. |
| Checksum.ChecksumOkByte | corrections.py:10-12 | A passing block has at least two characters, and its XOR fits in a byte. An XOR of 256 or more renders with three or more digits and can never match. |
| Checksum.ShortMessage | corrections.py:9-12 | With fewer than three characters nothing is XORed. The check then passes iff the message is exactly "00". |
| Checksum.SeparatorIgnored | corrections.py:10-12 | The character at index -3 (the separator) is not protected. Replacing it never changes the verdict. |
| Checksum.SingleChangeDetected | corrections.py:10-12 | Changing any one character before the separator turns a passing block into a failing one. |
| Checksum.SealPasses | corrections.py:8-12 | A body followed by any separator and its own two-digit checksum passes, when the XOR fits in a byte. The protected part is exactly that body. |
| Checksum.UpperCaseDigitsAccepted | corrections.py:12 | A sealed block whose checksum digits are sent in upper case still passes. |
| Checksum.XorAllAppend | corrections.py:10-11 | The XOR of a concatenation is the XOR of the XORs of its parts. |
| Checksum.SevenBitXor | corrections.py:10-11 | When every character is 7-bit, the XOR is below 128, so two hex digits always suffice. |
| Text.Split | corrections.py:40 | `s.split(c)` with an explicit separator: never empty. `SplitShape`, `JoinSplit` and `SplitJoin` state the rest. |
| Text.SplitShape | corrections.py:40 | The pieces of `split(c)` contain no `c`, and there is one more piece than there are occurrences of `c`. |
| Text.JoinSplit | corrections.py:40 | Joining the pieces of a split with the separator gives back the text. |
| Text.SplitJoin | corrections.py:40 | Splitting the join of separator-free pieces gives back the pieces. |
| Text.DropLast3 | corrections.py:10 | `s[:-3]` drops the last three characters, and is empty for texts shorter than three. |
| Text.LastTwo | corrections.py:12 | `s[-2:]` is the final two characters, or the whole text when it is shorter. |
| Text.Lower | corrections.py:12 | `lower()` keeps the length and lowers each character on its own. |
| Text.Strip | corrections.py:31 | The text `float()` reads: its argument without the leading and trailing whitespace that `float()` skips. A definition; `StripPadded` states its property. |
| Text.StripPadded | corrections.py:31 | Stripping a text padded on both sides with the whitespace `float()` skips gives the text, when it neither starts nor ends with such whitespace. |
| Blocks.Fields | corrections.py:16 | `message[:-3].split(",")`, the comma fields of a block with the checksum left out. A definition; `EncodedFields` states its round trip. |
| Blocks.ParseHpr | corrections.py:15-19 | `parse_hpr` always returns at least three texts. |
| Blocks.ParseDpt | corrections.py:22-26 | `parse_dpt` always returns exactly three texts. |
| Blocks.UnreadableIsSentinel | corrections.py:16-25 | A block with too few comma fields (4 for heading/pitch/roll, 7 for depth) or a failing checksum gives the sentinel `["nan","nan","nan"]`. |
| Blocks.EncodedFields | corrections.py:16-17 | A sealed block of comma-free fields passes its checksum. Its comma fields, checksum excluded, are exactly the fields it was built from. |
| Blocks.HprRoundTrip | corrections.py:15-19 | A sealed heading/pitch/roll block with at least four fields is readable, and reads as every field after the first. |
| Blocks.DptRoundTrip | corrections.py:22-26 | A sealed depth block with at least seven fields is readable, and reads as its fields 1, 3 and 5. |
| Blocks.HprIgnoresTag | corrections.py:16-19 | Heading/pitch/roll blocks, each sealed with its own checksum, whose fields differ only in the tag read the same. Only the checksum reads the tag, and it protects it (`CorruptionDegrades`). |
| Blocks.DptIgnoresTagAndUnits | corrections.py:23-26 | Depth blocks, each sealed with its own checksum, that agree on fields 1, 3 and 5 read the same, whatever their tag, unit fields and separator. Only the checksum reads the other fields, and it protects them (`CorruptionDegrades`). |
| Blocks.ResultsCommaFree | corrections.py:16-26 | Neither parser ever returns a text containing a comma. |
| Blocks.CorruptionDegrades | corrections.py:17-25 | Corrupting one protected character of a passing block makes both parsers return the sentinel. |
| Blocks.SentinelIsAmbiguous | corrections.py:15-19 | A readable, passing block can carry the values "nan","nan","nan". The sentinel therefore does not tell a failed block from a good one. |
| Blocks.SentinelIsNaN | corrections.py:18 | Every text of the sentinel converts to NaN. |
| Numbers.Sub | corrections.py:74 | The difference is NaN iff an operand is NaN or both are infinities of the same sign. For two finite values it is the real difference. |
| Numbers.Value | corrections.py:31 | The number `float()` returns for a literal, exact (rounding is under "Floating point" below). A definition; `IntLiteralValue` and `RobustFloatOfLiteral` state facts about it. |
| Numbers.ParseLiteral | corrections.py:31 | The grammar `float()` accepts on a stripped text: an optional sign, then `nan`, `inf` or `infinity` in any case, or a decimal with an optional exponent. A definition; its properties are `ParseLiteralSound` and `ParseRender`. |
| Numbers.ParseFloat | corrections.py:31 | `float(s)`: strip, parse, take the value; None where `float()` raises. A definition. |
| Numbers.RobustFloat | corrections.py:29-33 | `robust_float(s)`: `float(s)`, or NaN where it raises. A definition; the lemmas beside it state what it returns. |
| Numbers.ParseLiteralSound | corrections.py:31 | Every literal `float()` accepts is well-formed, and renders back to exactly the stripped text it was read from. |
| Numbers.ParseExponentSound | corrections.py:31 | An accepted exponent has an `e`/`E` marker and a non-empty run of digits, and renders back to its text. |
| Numbers.SplitMantissaSound | corrections.py:31 | The mantissa split puts the text back together. Both digit runs are maximal, and the rest starts with no digit, and with no dot unless a dot was already taken. |
| Numbers.ParseDecimalSound | corrections.py:31 | An accepted decimal keeps the sign it was given, is well-formed and renders back to the sign and the text. |
| Numbers.ParseRender | corrections.py:31 | The parser reads every well-formed literal back from its text. `Render` is its inverse. |
| Numbers.RobustFloatOfLiteral | corrections.py:29-33 | `robust_float` of a literal padded with whitespace is the literal's value. |
| Numbers.RobustFloatOfParsed | corrections.py:29-33 | When the stripped text is read as a literal, `robust_float` returns that literal's value. |
| Numbers.RobustFloatSound | corrections.py:29-33 | A result other than NaN comes only from a well-formed literal whose text is the stripped input and whose value is that result. |
| Numbers.RobustFloatRejects | corrections.py:32-33 | A text that is no literal once stripped converts to NaN. The conversion never fails. |
| Numbers.RobustFloatOfInt | corrections.py:31 | An integer written out in decimal converts to its own value. |
| Numbers.IntLiteralValue | corrections.py:31 | The literal `str(n)` spells is well-formed and denotes `n`. |
| Numbers.NatTextValue | corrections.py:31 | The digits of `str(n)` are worth `n`. |
| Numbers.NanTextIsNaN | corrections.py:18 | The sentinel text "nan" converts to NaN. |
| Decoder.Decode | corrections.py:40-74 | The record a line decodes to, or the error for fewer than eight fields. A definition; `ParseRecord` is proved to return its dict. |
| Decoder.Assemble | corrections.py:45-74 | The record built from the fields and the three parsed blocks, each text converted. A definition, generic in the converter so that proofs about it do not depend on `robust_float`. |
| Decoder.ParseRecord | corrections.py:36-79 | The method fails iff the line has fewer than eight tab fields, with the field count and the line in the error. Otherwise it returns the dict of `Decode(line)`. The offsets have no effect. |
| Decoder.RecordOfFields | corrections.py:45-74 | Parsing the three blocks, building the dict of texts, converting it in place and adding the two computed entries gives the dict of the assembled record. It is stated for any converter; `ParseRecord` passes `robust_float`. |
| Decoder.TextDict | corrections.py:49-64 | The dict of texts has the fourteen keys read from the line. |
| Decoder.ConvertAll | corrections.py:67 | The in-place `record.update(...)` loop replaces each value by its conversion (`robust_float` in `ParseRecord`), and keeps the keys. |
| Decoder.Converted | corrections.py:67 | The converted dict keeps the keys, and every value is a number. |
| Decoder.ConvertedTexts | corrections.py:49-67 | After conversion the dict has the fourteen keys read from the line, and each holds the conversion of the text read for it. |
| Decoder.ToMap | corrections.py:49-74 | The returned dict has exactly the sixteen record keys, and every value is numeric. |
| Decoder.FromToMap | corrections.py:49-74 | The dict holds the whole record: reading it back gives the record. |
| Decoder.FourteenKeys | corrections.py:49-64 | The dict built from the line has fourteen keys. |
| Decoder.SixteenKeys | corrections.py:49-74 | There are exactly sixteen record keys. |
| Decoder.NamesDiffer | corrections.py:49-74 | Different keys have different Python names, so the dict's string keys are distinct too. |
| Decoder.DecodeFailsIff | corrections.py:40-43 | Decoding fails iff the line has fewer than seven tabs, and then the error carries the count of fields and the line. Both directions are stated. |
| Decoder.DecodedShape | corrections.py:69-74 | `depth_winch` is NaN. `delta_pressure` is `pressure_bottom - pressure_top`, and is NaN whenever either pressure is. |
| Decoder.TrailingFieldsIgnored | corrections.py:40-47 | Lines that agree on their first eight tab fields decode to the same record. Later fields are ignored. |
| Decoder.UnreadableHprIsNaN | corrections.py:45-57 | An unreadable heading/pitch/roll block makes heading, pitch and roll NaN. |
| Decoder.UnreadableTopIsNaN | corrections.py:46-74 | An unreadable top depth block makes the top depth, pressure and temperature NaN, and the pressure difference too. |
| Decoder.UnreadableBottomIsNaN | corrections.py:47-74 | An unreadable bottom depth block makes the bottom depth, pressure and temperature NaN, and the pressure difference too. |
| Decoder.BlockLocality | corrections.py:45-74 | Failure stays inside its block. Lines that differ only in block field 5, 6 or 7 decode to records that agree on every key outside that block, the pressure difference counting as part of both depth blocks. |
| Decoder.DecodeJoined | corrections.py:40-47 | A line joined from tab-free fields decodes from exactly those fields. |
| Decoder.DecodeSealedLine | corrections.py:40-74 | A line with three well-formed, sealed blocks decodes to the record assembled from the readings carried in them. |

## Left out

- Other parts of the repository: the logger GUI (which calls `parseRecord` at logger-gui.py:520), the serial and file-replay workers, the codex560 reader and the calibration step. These files are not part of this model. The serial worker is meant to mask each character to 7 bits (workers.py:74-77), the case `Checksum.SevenBitXor` covers. As written it cannot: under Python 3, `readline()` returns `bytes`, so each `char` is an `int`, `ord(char)` at workers.py:77 raises `TypeError`, the `except` at workers.py:82 does not catch it, and no serial line reaches `parseRecord`. The file-replay worker (workers.py:26-30) passes decoded text through unmasked, and there `Checksum.ChecksumOkByte` applies: a block whose XOR reaches 256 always fails.
- `str(line)` at the start of `parseRecord`: the model takes the line as a string.
- Floating point: numbers are exact reals. Rounding to the nearest double, overflow to infinity and underflow to zero are not modelled. Nor is the sign of zero: `Num` has one zero, while `float("-0")` is `-0.0` and `-0.0 - 0.0` is `-0.0`, which the logger GUI writes as `-0.000000e+00` (logger-gui.py:533).
- Numbers.ParseLiteral: does not accept the underscores between digits that Python's `float()` allows, nor non-ASCII digits.
- Text.Lower: covers ASCII letters only. No non-ASCII character lowers to `0-9a-f`, so the checksum verdict does not depend on this.
- Text.Strip: skips the ASCII whitespace `float()` skips (space, tab, newline, carriage return, vertical tab, form feed) and keeps `\x1c`-`\x1f`, as `float()` does. Non-ASCII whitespace, which `float()` also skips (U+0085, U+00A0, U+2000 and the like), is not stripped. For such text `Numbers.RobustFloat` gives NaN where the source gives a number, and `Numbers.RobustFloatRejects` and `Numbers.RobustFloatSound` are stated for this narrower stripping.
- Checksum.Code: `ord` is the code point. Python never rejects a code point, and neither does the model, except that a Dafny `char` cannot be a lone surrogate (U+D800-U+DFFF), which a Python `str` can hold. No input the decoder sees is lost: the replay file is decoded with `errors='replace'` (workers.py:26). The 7-bit masking the serial worker intends is left to the caller.
- Decoder.ParseRecord: the dict order of Python dicts is not modelled; the keys form an enumeration.
- Decoder.ParseRecord: the `offsets` argument is accepted and ignored, as in the source, where calibration is still a TODO.
- Blocks.ParseHpr: one might expect the sentinel to come back exactly when the block is unreadable; the code does not have that property, which holds only one way. `Blocks.UnreadableIsSentinel` states that direction, and `Blocks.SentinelIsAmbiguous` shows a readable block that gives the same list.
- The exception type: `ParseException` is the `Failure` case of `Result`. The formatted message is modelled by its two arguments, the count and the line.
