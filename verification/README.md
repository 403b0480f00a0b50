# Front half of a two-pass assembler, modelled in Dafny

This project models the parts of `assemble.c` that exist: the assembler for a
teaching machine with eight registers and a 3-bit opcode. That file reads an
assembly file line by line (`readAndParse`) and builds the label table in
pass 1 (`procFirstPass`). It resolves labels (`findLabelAddress`), tests
whether an operand is numeric (`isNumber`), and declares the 32-bit
instruction word (`inst_t`) with its four bit-field views and the `OpCode`
enumeration. The encoder loop of pass 2 has an empty body, so no instruction
encoding is modelled.

Modules:

- `Lines` (lines.dfy) models the tokenizer: the two `sscanf` calls over one
  line buffer seen as a C string. The label is the longest leading run of
  characters outside the separator set {tab, newline, carriage return,
  space}. Then come up to four further separator-free words.
- `Reader` (reader.dfy) models `fgets` with `MAX_LINE_LENGTH` = 1000, i.e. at
  most 999 characters, stopping after a newline. It also models the fatal
  "line too long" outcome and reading a whole file. The file is the sequence
  of characters not yet read.
- `Labels` (labels.dfy) models pass 1 and lookup:
  - the label table as a sequence of (name, address) entries;
  - a declarative description of that table;
  - the first-match lookup;
  - the imperative pass-1 loop.
- `Numbers` (numbers.dfy) models `isNumber` as the success condition of
  `sscanf("%d")`. That is: optional C white space, an optional sign, then a
  digit.
- `BitFields` (bitfields.dfy) models packing unsigned bit-fields into a word
  and reading them back, as a right shift followed by a mask.
- `Instructions` (instructions.dfy) models the `inst_t` views R, I, J and O,
  the `OpCode` values, encoding an instruction into a word, and decoding a
  word through a view.

Four assumptions about the C implementation underlie the model:

- Bit-fields are allocated from the least significant bit upward, in
  declaration order. This is what GCC and Clang do on little-endian targets;
  on big-endian targets they allocate from the most significant bit. The C
  standard leaves the order to the implementation.
- The plain `int offset : 16` member of the I view (assemble.c:34) is signed.
  Whether a plain-`int` bit-field is signed is implementation-defined (C11
  section 6.7.2, paragraph 5). GCC and Clang make it signed by default, but
  GCC's `-funsigned-bitfields` would give offsets 0..65535 instead.
- `unsigned int` is 32 bits wide, so the instruction word is a `Word` below
  2 to the power 32.
- Each `char` of the input stands for one byte of the file, as `fgets` and
  `sscanf` see it. `MaxLineLength` therefore counts bytes: a character that
  takes several bytes in the file's encoding (an `é` in UTF-8 is two) is
  several `char`s of the model's input. The tokenizer only compares bytes with
  the separator, NUL, sign, digit and white-space characters.

## Model

| member | source | states |
|---|---|---|
| Lines.WordEnd | assemble.c:202-206 | the label conversion `%[^\t\n\r ]` stops at the first separator: every character it takes is not a separator, and the one after it is |
| Lines.GapEnd | assemble.c:213 | the skip conversion `%*[\t\n\r ]` consumes exactly the maximal run of separators |
| Lines.ScanFields | assemble.c:213 | the second `sscanf` yields at most four fields, each non-empty and free of separators |
| Lines.ScanFieldsTakesWords | assemble.c:209-213 | after the label, the second `sscanf` finds exactly the first four whitespace-separated words of the rest of the line (fewer if the line has fewer) |
| Lines.ParseLine | assemble.c:184-213 | on one buffer: "line too long" exactly when its C string has no newline. Otherwise: the label is non-empty exactly when the first character is not a separator; the label is the maximal leading separator-free run, followed by a separator; opcode, arg0, arg1 and arg2 are the first four words after it, with missing ones empty; no field holds a separator or NUL |
| Lines.ParseJoin | assemble.c:202-213 | round trip: the line `label tok1 tok2 ... \n`, built from tokens without separators or NUL, parses back to the label and the first four tokens; later tokens are dropped and missing fields are empty |
| Reader.ChunkEnd | assemble.c:187 | `fgets` stops after the first newline, at end of file, or once 999 characters are stored |
| Reader.Fgets | assemble.c:187 | with `MAX_LINE_LENGTH` = 1000 (defined at assemble.c:6), a chunk holds 1 to 999 characters and is a prefix of the input; only its last character may be a newline; it ends in a newline unless it reached end of file or filled the buffer |
| Reader.ReadAndParse | assemble.c:178-215 | the result is end of file exactly when nothing is left. A parsed line consumes a prefix that ends in its only newline and holds no NUL, and leaves the rest of the file |
| Reader.ParsedChunk | assemble.c:193-199 | a chunk that passes the newline test holds no NUL before its newline and ends with that newline |
| Reader.ReadsWholeLine | assemble.c:187-213 | a line of at most 998 characters before its newline, with no NUL, is read whole in one call and the reading resumes after its newline |
| Reader.TooLongWithoutNewline | assemble.c:193-199 | no newline among the next 999 characters (an overlong line, or a last line without its newline) makes reading fatal |
| Reader.TooLongWithNul | assemble.c:193-199 | a NUL before the newline hides the newline from `strchr`, so reading is fatal |
| Labels.TableOfSound | assemble.c:135-140 | every entry of the pass-1 table names the labelled line whose 0-based ordinal is its address |
| Labels.TableOfComplete | assemble.c:133-140 | every labelled line with ordinal k has the entry (its label, k) |
| Labels.TableOfIncreases | assemble.c:133 | entry addresses are strictly increasing (source order) and below the number of lines read |
| Labels.TableOfIsLabelTable | assemble.c:126-143 | the table pass 1 builds is sound, complete and in source order |
| Labels.TableOfSize | assemble.c:131-141 | `numAddrs` after pass 1 equals the number of labelled lines |
| Labels.TableOfPrefix | assemble.c:137-140 | pass 1 only appends: the table of a prefix of the file is a prefix of the table of the file |
| Labels.FindLabelAddress | assemble.c:155-165 | lookup returns the address of the lowest-index entry with the name, and -1 when no entry has it |
| Labels.ResolvesToFirstDefinition | assemble.c:155-165 | over a label table, a label first defined on line k resolves to k |
| Labels.LookupMissIffUndefined | assemble.c:155-165 | over a label table, lookup returns -1 if and only if no line defines the name |
| Labels.DuplicateLabelsKept | assemble.c:135-141 | a label defined on lines j < k gets two entries (no duplicate check), and lookup returns an address no later than j |
| Labels.FirstPass | assemble.c:126-143 | the pass-1 loop aborts exactly when reading hits a line too long. Otherwise it returns the table of all lines read: sound, complete, in source order, with one entry per labelled line |
| Labels.LookupAfterFirstPass | assemble.c:126-165 | after pass 1 over a file, a label first defined on line k resolves to k, and a name no line defines resolves to -1 |
| Numbers.SpaceEnd | assemble.c:222 | the white-space skip of `%d` consumes exactly the maximal run of C white space (space, tab, newline, vertical tab, form feed, carriage return) |
| Numbers.IsNumber | assemble.c:217-223 | `isNumber` holds exactly when some position starts a digit that only white space and at most one sign precede |
| Numbers.DigitsStartUnique | assemble.c:222 | a digit can start the number only right after the leading white space and the optional sign |
| Numbers.IsNumberExamples | assemble.c:217-223 | "12", "-5", " \t+7", "12abc" and a vertical tab before "3" are numbers; "", "  ", "-", "+-1", "- 1" and "start" are not |
| BitFields.Field | assemble.c:18-56 | a field read from a word is below 2 to the power of its width |
| BitFields.Pack | assemble.c:18-56 | storing values into a zeroed layout gives a word below 2 to the power of the layout's total width |
| BitFields.PositionSnoc | assemble.c:18-56 | each field starts where the field declared before it ends |
| BitFields.FieldIsShiftMask | assemble.c:18-56 | reading field i is shifting right by the field's bit position and masking its width |
| BitFields.FieldOfPack | assemble.c:18-56 | reading back a stored field gives the stored value modulo 2 to the power of the width |
| BitFields.PackUnpack | assemble.c:18-56 | storing the fields read from a word that fits the layout rebuilds the word |
| BitFields.PackModulo | assemble.c:18-56 | a stored word depends on each value only modulo 2 to the power of its field's width |
| Instructions.OpValue | assemble.c:58-68 | every `OpCode` enumerator value fits the 3-bit opcode field |
| Instructions.OpCodeOf | assemble.c:58-68 | each of the eight 3-bit values names an opcode with that value, so decoding the opcode field is total |
| Instructions.OpCodeRoundTrip | assemble.c:58-68 | distinct opcodes have distinct values, and decoding an opcode's value gives the opcode back |
| Instructions.LayoutShape | assemble.c:18-56 | every view is exactly 32 bits wide. In every view the opcode is the 3 bits from bit 22 and the top 7 bits are unused. In R, I and J, regA is the 3 bits from bit 19 and regB the 3 bits from bit 16 |
| Instructions.SlotPositions | assemble.c:22-55 | each struct member starts where the previous one ends. R: destReg at bit 0, unused at 3, regB at 16, regA at 19, opcode at 22, unused at 25. I and J: offset (or unused) at 0, regB at 16, regA at 19, opcode at 22, unused at 25. O: unused at 0, opcode at 22, unused at 25. Every view ends at bit 32 |
| Instructions.SignExtend16 | assemble.c:34 | reading the signed 16-bit `offset` gives a value in [-32768, 32767] congruent to the stored bits modulo 65536 |
| Instructions.SignExtendStored | assemble.c:34 | storing an offset in [-32768, 32767] and reading it back gives the offset |
| Instructions.OffsetOf | assemble.c:32-39 | the I view's offset is a signed 16-bit value congruent modulo 65536 to the low 16 bits of the word |
| Instructions.Read | assemble.c:18-56 | a member read through a view is below 2 to the power of its width |
| Instructions.Decode | assemble.c:18-68 | reading a word through a view gives an instruction of that view with registers in 0..7 and an offset in [-32768, 32767] |
| Instructions.EncodedSlot | assemble.c:18-56 | after zeroing the word and assigning the members of an instruction's view, each member holds its value modulo 2 to the power of its width; unused members hold 0 |
| Instructions.DecodeEncode | assemble.c:18-68 | encoding an instruction with registers in 0..7 and an offset in [-32768, 32767], then reading it through its own view, gives the instruction back |
| Instructions.EncodeDecode | assemble.c:18-56 | decoding a word through a view and encoding the result gives the word back if and only if the view's unused bits are zero |
| Instructions.ReadAt | assemble.c:18-56 | reading a member of a view is shifting right to the member's position and masking its width |
| Instructions.OpcodeShared | assemble.c:18-56 | the R, I, J and O views read the same opcode from a word: bits 22-24 |
| Instructions.RegistersShared | assemble.c:18-48 | the R, I and J views read the same regA (bits 19-21) and regB (bits 16-18) from a word |

## Left out

- `main`, opening and closing files, `rewind` and the usage messages (assemble.c:86-124) are I/O. The input file is a `String` of unread characters.
- Read errors of `fgets` are left out. End of file is modelled; a failing read is not.
- The exit of the program on "line too long" is modelled as the `TooLong` and `Aborted` results. The message it prints is not.
- `procSecondPass` (assemble.c:145-153) reads lines with an empty loop body. It does nothing beyond what `Reader.ReadAll` models, so no encoding, operand validation, branch offset or `.fill` is modelled.
- simulate.c is not part of this model. It only loads and prints machine state and has no execute loop.
- Numbers.IsNumber: the conversion's integer value is not computed. Overflow of `%d` is undefined behaviour in C, so C promises nothing about the return value then; the model keeps `isNumber` syntactic, which is how glibc behaves (it still counts an overflowing conversion). The C locale is assumed.
- Labels.FirstPass: addresses are unbounded integers. The C `int curAddr` (assemble.c:129) and the stored `int addr` (assemble.c:78) would overflow after 2^31 - 1 lines, which is undefined behaviour.
- Labels.FirstPass: requires the labelled lines to fit in the `MAX_INSTRUCTION` (1024) entries of the table. `procFirstPass` writes past the array otherwise, and the C code has no error path to model.
- `strncpy` truncation of a label (assemble.c:137) is not modelled. It cannot happen, because a line holds fewer than 1000 characters.
- Duplicate labels are not rejected: pass 1 (assemble.c:135-141) has no duplicate check, and the model follows the code (Labels.DuplicateLabelsKept).
- The label table's capacity is not checked (assemble.c:137-140), which is why Labels.FirstPass has a precondition.
- Bit-field allocation order, the signedness of `offset` and the width of `unsigned int` are assumptions (see above): the bit positions hold only for least-significant-first allocation, and the offset range only for a signed `offset`. Storing an out-of-range value in the signed `offset` member is implementation-defined in C; it is modelled as keeping the value modulo 65536, as GCC and Clang do.
- No mapping from opcodes to views is modelled, because the code defines none.
