# S12 assembler, modelled in Dafny

The S12 assembler translates a small assembly language into a memory image,
one text record per instruction. It reads source lines one at a time and
trims each line.

- Empty lines and lines starting with `//` produce nothing.
- Every other line is split on white space into a mnemonic and an optional
  hexadecimal operand. The mnemonic is upper-cased before lookup.
- The operand is parsed with `Integer.parseInt(_, 16)`. It is 0 when absent.
- The encoder turns the mnemonic and operand into a 4-bit opcode, a space
  and the low eight bits of the operand as binary digits. HALT always
  writes eight zeros.
- The record written is `%02X` of the line's zero-based physical position
  (skipped lines count), followed by that encoding.

A fixed header record `00000000 000000000000` comes first. The first error
stops the run: an unknown mnemonic, or an operand that does not parse. The
records already written stay.

The project has four modules.

- `Text` (`text.dfy`) models the Java library operations the assembler
  relies on:
  - `String.trim`, `split("\\s+")` and `toUpperCase`;
  - `Integer.parseInt(s, 16)` on 32-bit `int`;
  - `Integer.toBinaryString`, `String.format("%8s", _).replace(' ', '0')`
    and `String.format("%02X", _)`.
- `Encoder` (`encoder.dfy`) models `assemble`: the opcode table, the
  operand mask and the record layout. It also has a decoder that reads a
  record back.
- `Assembler` (`assembler.dfy`) models the loop in `main`:
  - `TranslateLine` is the effect of one line.
  - `Translation` is the reference definition of a whole run.
  - `Translate` is the imperative driver: a `while` loop over the
    remaining lines with a line counter. It is proved to produce exactly
    `Translation`.
- `AssemblerExamples` (`examples_run.dfy`) holds worked cases: operand
  parsing, addresses and the empty file.

`Wrappers` (`wrappers.dfy`) holds `Option` and `Result`.

Three behaviours of the code are worth knowing:

- ADD is in the opcode table (opcode `1010`): `ADD A` encodes as
  `1010 00001010`.
- `Integer.parseInt` accepts a leading `-` (and `+`): `-1` encodes like `FF`
  once masked.
- `%02X` does not wrap at 256 lines. Line 256's address is `100`, three
  digits wide: the record widens (`FormatHex2Width`, `AddressWidens`).

## Model

| member | source | states |
|---|---|---|
| Text.Trim | S12_Parser.java:33 | the trimmed line is empty or starts and ends with a character above U+0020 |
| Text.TrimSlice | S12_Parser.java:33 | trim keeps one contiguous slice of the line and cuts off only characters at or below U+0020, on both sides |
| Text.Split | S12_Parser.java:36 | every token is a nonempty run without white space; the first token of a line not starting with white space is its leading run; a line yields no tokens exactly when it is all white space |
| Text.SplitSpaceFirst | S12_Parser.java:36 | a leading white-space character does not change the tokens; with the first-token clause of `Split` and `SplitWordFirst` this fixes the tokens of every line |
| Text.SplitWordFirst | S12_Parser.java:36 | a line starting with a token splits into that token followed by the tokens of the rest |
| Text.SplitJoinWords | S12_Parser.java:36 | splitting words joined by single spaces gives the same words back |
| Text.ToUpper | S12_Parser.java:37 | same length, each character upper-cased, no lower-case ASCII letter left |
| Text.UpperOfLower | S12_Parser.java:37 | a word in lower case upper-cases like the original: mnemonics are matched case-insensitively |
| Text.ParseInt16 | S12_Parser.java:38 | an accepted operand is nonempty, starts with a hex digit or a sign, continues with hex digits only and ends with a hex digit, so a lone sign is rejected; a leading minus gives a value at most zero |
| Text.ParseDigits | S12_Parser.java:38 | unsigned hex digits parse to their value when it is below 2^31 and are rejected otherwise |
| Text.ParseSigned | S12_Parser.java:38 | a sign and hex digits parse to the signed value when it lies in [-2^31, 2^31) and are rejected otherwise |
| Text.FormatHex2 | S12_Parser.java:43 | the address is at least two upper-case hex digits, and has no leading zero once it is wider than two |
| Text.ToHexString | S12_Parser.java:43 | a number is written in upper-case hex digits with no leading zero except for zero itself, in at least two digits from 16 on |
| Text.ToHexStringValue | S12_Parser.java:43 | the hex digits of a number read back as that number |
| Text.FormatHex2Width | S12_Parser.java:43 | the address is exactly two digits if and only if the line number is below 256 |
| Text.FormatHex2RoundTrip | S12_Parser.java:43 | parsing an address back in base 16 gives the line number |
| Text.ToBinaryString | S12_Parser.java:87 | the binary form of a number is at least one character long and made of binary digits only |
| Text.ToBinaryStringValue | S12_Parser.java:87 | the binary digits of a number have that number as their value |
| Text.ToBinaryStringShort | S12_Parser.java:87 | a number below 2^k has at most k binary digits, so a masked operand never needs more than eight |
| Text.PadWithZeros | S12_Parser.java:87 | padding binary digits with spaces to a width and then replacing spaces by zeros gives zeros followed by the digits, with the same value |
| Text.PadLeft | S12_Parser.java:87 | `%8s` leaves a string of the width or longer as it is and otherwise puts exactly the missing number of spaces in front |
| Text.Replace | S12_Parser.java:87 | `replace(' ', '0')` keeps the length and changes exactly the characters equal to the one replaced |
| Text.ReplaceAppend | S12_Parser.java:87 | replacing in two joined strings is replacing in each |
| Text.ReplaceRepeat | S12_Parser.java:87 | the padding spaces all become zeros |
| Text.ReplaceAbsent | S12_Parser.java:87 | a string without the replaced character is left unchanged, so binary digits survive the replacement |
| Text.BinaryValueInjective | S12_Parser.java:87 | binary strings of equal length with equal value are equal |
| Encoder.Message | S12_Parser.java:59-60 | the text reported for an unknown mnemonic is "Unknown instruction: " followed by the mnemonic |
| Encoder.OpcodeOf | S12_Parser.java:68-83 | a mnemonic has an opcode exactly when it is one of the twelve in the table; every opcode is four binary digits; opcode 1111 belongs to HALT alone |
| Encoder.MnemonicOf | S12_Parser.java:68-80 | reading an opcode back gives a table mnemonic whose opcode it is |
| Encoder.OpcodeTableInverse | S12_Parser.java:68-80 | reading back a mnemonic's opcode gives the mnemonic |
| Encoder.OpcodeTableInjective | S12_Parser.java:68-80 | distinct mnemonics have distinct opcodes |
| Encoder.LowByte | S12_Parser.java:87 | `operand & 0xFF` lies below 256 and is congruent to the operand modulo 256, negative operands included |
| Encoder.OperandBits | S12_Parser.java:87 | the operand field is exactly eight binary digits whose value is the masked operand |
| Encoder.OperandBitsDigits | S12_Parser.java:87 | the operand field is the toBinaryString digits behind leading zeros |
| Encoder.Assemble | S12_Parser.java:65-90 | assembling fails exactly for a mnemonic outside the table, with that mnemonic as the error; HALT gives "1111 00000000"; a success is 13 characters: the mnemonic's opcode, a space and binary digits; for every other mnemonic those digits are the operand's low byte |
| Encoder.AssembleOperand | S12_Parser.java:86-89 | for a table mnemonic other than HALT the record is the opcode, a space and the eight operand bits |
| Encoder.AssembleDecodes | S12_Parser.java:65-90 | decoding an assembled record gives back the mnemonic and the operand's low byte (zero for HALT) |
| Encoder.AssembleLowByteOnly | S12_Parser.java:87 | for a mnemonic other than HALT, two operands give the same record if and only if they agree modulo 256 |
| Encoder.HaltIgnoresOperand | S12_Parser.java:80-81 | HALT gives "1111 00000000" whatever the operand |
| Encoder.MaskingExamples | S12_Parser.java:87 | operand 0x100 encodes like 0, and -1 like 0xFF |
| Encoder.UnknownExample | S12_Parser.java:82-83 | an unknown mnemonic is reported, not encoded |
| Assembler.KeptLineHasWords | S12_Parser.java:33-37 | a line kept after trimming has at least one token, so `parts[0]` exists |
| Assembler.BlankSkipped | S12_Parser.java:33-35 | a line of nothing but characters at or below U+0020 is skipped |
| Assembler.CommentSkipped | S12_Parser.java:33-35 | a line whose first characters above U+0020 are `//` is skipped, whatever follows |
| Assembler.ReadOperand | S12_Parser.java:38 | without a second token the operand is 0; with one it is read exactly when that token parses, the value read is the parsed value, and otherwise the token is the error |
| Assembler.TranslateWords | S12_Parser.java:36-46 | the tokens of a kept line never produce "no record"; they fail exactly when the operand token is malformed or the upper-cased mnemonic is not in the table; a malformed operand is reported before an unknown mnemonic |
| Assembler.TranslateLine | S12_Parser.java:33-50 | a line produces no record and no error exactly when it is empty or a comment after trimming |
| Assembler.RecordShape | S12_Parser.java:43-46 | a record is the address followed by the 13-character encoding; the encoding decodes to the line's own upper-cased mnemonic and the low byte of its operand (zero for HALT), and the address reads back as the line number |
| Assembler.LineErrors | S12_Parser.java:35-40 | a failing line is a kept line whose operand token does not parse, or whose operand is fine and whose upper-cased mnemonic is not in the table |
| Assembler.LineFails | S12_Parser.java:35-40 | a kept line with a malformed operand token fails with that token as the error; a kept line with a well-formed or absent operand and an unknown upper-cased mnemonic fails with that mnemonic |
| Assembler.WordsCaseInsensitive | S12_Parser.java:37-40 | tokens that agree once the mnemonic is upper-cased translate alike |
| Assembler.MnemonicCaseInsensitive | S12_Parser.java:33-40 | two kept lines whose tokens agree once the mnemonic is upper-cased translate alike |
| Assembler.LowerCaseMnemonic | S12_Parser.java:37 | a mnemonic written in lower case translates like the upper-case one |
| Assembler.Effects | S12_Parser.java:31-50 | each line's effect is its translation under its own zero-based physical line number, skipped lines counted |
| Assembler.Collect | S12_Parser.java:32-53 | a run writes no more records than it has lines |
| Assembler.Translation | S12_Parser.java:27-53 | every output starts with the header record and has at most one record per line after it |
| Assembler.CollectConcat | S12_Parser.java:32-53 | running a file in two parts is running the first part and then, if it did not fail, the second |
| Assembler.TranslationPrefix | S12_Parser.java:46-60 | the records of any first part of the file are a prefix of the records of the whole file; once that part fails, the rest of the file changes nothing |
| Assembler.TranslationFailure | S12_Parser.java:38-60 | a failed run stopped at a line that raised its error; every earlier line succeeded; the output is exactly what the earlier lines wrote |
| Assembler.TranslationFailsAt | S12_Parser.java:38-60 | any failing line makes the whole run fail |
| Assembler.TranslationSkipped | S12_Parser.java:30-35 | a file of blank and comment lines yields the header alone |
| Assembler.TranslationSuccess | S12_Parser.java:27-53 | a successful run writes the header and then one record per kept line, in order; the kept lines are exactly those not skipped; each record is its line's translation under the line's physical number |
| Assembler.Emitting | S12_Parser.java:35-46 | the listed positions are increasing and each one writes a record |
| Assembler.EmittingComplete | S12_Parser.java:35-46 | every position that writes a record is listed |
| Assembler.Translate | S12_Parser.java:27-53 | the loop writes exactly the records of the run and reports exactly its error |
| AssemblerExamples.Hex0A | S12_Parser.java:38 | "0A" reads as 10 |
| AssemblerExamples.HexLowerCase | S12_Parser.java:38 | lower-case hex digits are accepted |
| AssemblerExamples.HexMinusOne | S12_Parser.java:38 | "-1" reads as -1 |
| AssemblerExamples.HexPrefixRejected | S12_Parser.java:38 | "0x10" is malformed |
| AssemblerExamples.HexNotDigits | S12_Parser.java:38 | "ZZ" is malformed |
| AssemblerExamples.HexSignOnly | S12_Parser.java:38 | a sign without digits is malformed |
| AssemblerExamples.AddressOne | S12_Parser.java:43 | line 1 has address "01" |
| AssemblerExamples.AddressTen | S12_Parser.java:43 | line 10 has address "0A" |
| AssemblerExamples.AddressWidens | S12_Parser.java:43 | line 256 has address "100" |
| AssemblerExamples.EmptyFile | S12_Parser.java:27-30 | an empty file yields the header alone |

## Left out

- Files and streams are not modelled. The run takes the source file as a
  sequence of lines and returns the records and the error. `Scanner`'s line
  splitting, `PrintWriter` and its flushing on close are outside the model,
  and so is the missing-file error.
- The usage check on the argument count is not modelled.
- Console output is left out: the per-line diagnostics, the completion
  message and the "Error: " report on the error stream. `Encoder.Message`
  models the text of that report.
- `String.trim` and `split("\\s+")` are modelled exactly for their character
  classes: at or below U+0020, and the six ASCII white-space characters.
- `toUpperCase` is modelled for ASCII letters only. Unicode case mapping is
  left out. As a result, a non-ASCII letter that upper-cases to an ASCII one
  (dotless i, long s) is not matched to a mnemonic, as Java would match it.
- Text.ParseInt16 accepts ASCII hexadecimal digits only, where
  `Character.digit` also accepts other Unicode digits and full-width letters.
- Encoder.Message uses the NumberFormatException text of current Java
  versions, "For input string: "t" under radix 16". Older versions omit
  the radix.
- Assembler.Translate counts lines with an unbounded `nat`. The source's
  `int` counter would overflow after 2^31 lines.
- Whole runs on concrete source text are not worked through as examples.
  `TranslationSuccess`, `TranslationFailure` and `TranslationFailsAt`
  state them for every file.
