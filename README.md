# Hack assembler, modelled in Dafny

This project models the two-pass assembler for the Hack computer of the
nand2tetris course, as written in `projects/06/Assembler.java`. The
assembler reads an assembly file and works in four steps:

1. It normalises every line: it strips `//` comments and all whitespace,
   and drops lines that end up empty.
2. The label pass (`preHandleSymbol`) binds each `(NAME)` line to the index
   of the next real instruction.
3. The second pass hands every other line to an encoder. `getParser`
   chooses the encoder by the line's first character:
   - an A-instruction `@value` becomes `"0"` followed by a 15-bit address,
     and an unknown symbol is allocated as the next variable from RAM
     address 16 on;
   - a C-instruction `dest=comp;jump` becomes `"111"` followed by the
     comp, dest and jump codes from three fixed tables.
4. It writes one 16-character binary word per instruction.

The modules follow the structure of the program:

- `Results`: `Option`, `Result` and the five ways a run can stop: `Format`,
  `UnknownDest`, `UnknownJump`, `UnknownComp` and `Range`.
- `Binary`: `Integer.toBinaryString` (two's complement for negative ints)
  and `hexToBinary`, which despite its name zero-pads the binary form of a
  decimal value to a fixed width or refuses it.
- `Decimal`: `Integer.parseInt` (an optional sign, ASCII digits, the int
  range) and `String.valueOf`. The symbol table stores addresses as
  `String.valueOf` strings, and `hexToBinary` reads them back with
  `parseInt`. `ParseValueOf` shows that this round trip is the identity,
  so the model stores the numbers.
- `Text`: the string operations the source uses on lines: `String.replace`
  of one character, `replaceAll("//.*", "")` with the exact behaviour of
  `.` at line terminators, `replaceAll("\\s", "")`, and the normalisation
  pipeline of `main`.
- `Symbols`: the symbol table. `Table` is its value. `SymbolTable` is the
  mutable table one run owns, holding the entries map and the variable
  counter; its methods are proved against the functions `Bind` and
  `Resolve`.
- `AInstructions`: the A-instruction encoder, as a function on a table and
  as a method on the mutable table.
- `CInstructions`: the three code tables, Java's `split` on one character,
  the comp extraction, and the C-instruction encoder. It also states the
  encoder's grammar: a line written as `dest=comp;jump` from separator-free
  parts.
- `Assembler`: line classification, the label pass as a function and as a
  loop over the mutable table, pass 2 as a function and as a loop, and the
  whole run.

Two behaviours of the code are easy to miss, and the model keeps both:

- An A-instruction literal may carry a sign, because `Integer.parseInt`
  accepts `+` and `-`. A negative literal is then refused because its 32-bit
  binary form does not fit, and a digit string beyond the int range is
  treated as a symbol.
- A C-instruction is checked through `String.split`, which drops trailing
  empty fields: `0;JMP;` assembles like `0;JMP`, and `=D` is accepted with
  the empty dest, while `D=` and `D;` are malformed.

## Model

| member | source | states |
|---|---|---|
| Binary.Digits | projects/06/Assembler.java:49 | toBinaryString of a non-negative int is a non-empty bit string, MSB first, with no leading zero, that reads back as the number |
| Binary.DigitsLength | projects/06/Assembler.java:49-50 | the rendering fits in k bits exactly when the number is below 2^k |
| Binary.NegativeIs32Bits | projects/06/Assembler.java:49 | every negative int renders as exactly 32 bits (its two's complement) |
| Binary.ToBinaryString | projects/06/Assembler.java:49 | Integer.toBinaryString of an int: the shortest binary form of a non-negative value, the 32-bit two's complement of a negative one (stated by Digits, DigitsLength and NegativeIs32Bits) |
| Binary.ZerosKeepValue | projects/06/Assembler.java:53-58 | inserting zeros in front keeps the string binary and keeps its value |
| Binary.ValueInjective | projects/06/Assembler.java:47-60 | two bit strings of one length and one value are equal, so each address has exactly one padded word |
| Binary.Padded | projects/06/Assembler.java:47-60 | hexToBinary on a number: the rendering zero-padded to the width, or Range when it is longer (stated by PaddedCorrect and PaddedOverflow) |
| Binary.PaddedCorrect | projects/06/Assembler.java:47-60 | hexToBinary succeeds exactly when the value fits the width (0 <= v < 2^len, or negative with len >= 32); the result is then len bits reading back as v (as v + 2^32 for a negative v) |
| Binary.PaddedOverflow | projects/06/Assembler.java:50-52 | a negative value, or one at or above 2^len, gives the range error for a width below 32 |
| Binary.HexToBinary | projects/06/Assembler.java:47-60 | the insert-a-zero loop returns exactly the padded rendering, or the range error when the rendering is too long |
| Decimal.ParseInt | projects/06/Assembler.java:82 | a token that parses yields a value in the int range |
| Decimal.ValueOf | projects/06/Assembler.java:86 | String.valueOf of a non-negative number is a non-empty digit string without leading zero that denotes the number |
| Decimal.ParseValueOf | projects/06/Assembler.java:48 | reading a stored address back with parseInt gives the address again |
| Decimal.ParseNegative | projects/06/Assembler.java:82 | "-n" parses as the negative number -n |
| Decimal.ParseDigits | projects/06/Assembler.java:82-83 | a digit string parses to its decimal value when that fits an int, and otherwise is no number |
| Decimal.ParseName | projects/06/Assembler.java:82-83 | a token starting with neither a digit nor a sign is no number, so it is looked up as a symbol |
| Text.RemoveAll | projects/06/Assembler.java:80 | replace removes every occurrence of the character, never lengthens the string, and leaves a string without it unchanged |
| Text.RemoveAllAppend | projects/06/Assembler.java:210 | removal works part by part on a concatenation |
| Text.FromTerminator | projects/06/Assembler.java:226 | what ".*" leaves after a match: the suffix from the first line terminator on, with no terminator before it |
| Text.StripComments | projects/06/Assembler.java:226 | comment removal never lengthens a line |
| Text.CommentToEnd | projects/06/Assembler.java:226 | on a line without line terminators, a line that starts with "//" is removed entirely |
| Text.StripCommentsCuts | projects/06/Assembler.java:226 | on a line without line terminators, the result is a prefix of the line, no "//" starts anywhere in the line before the cut, and the line continues with "//" at the cut whenever the result is shorter: the cut is at the first "//" |
| Text.RemoveWhitespace | projects/06/Assembler.java:227 | the result holds no \s character, is no longer than the input, and equals the input when that has no whitespace |
| Text.RemoveWhitespaceOne | projects/06/Assembler.java:227 | a single character is removed exactly when it is \s, and kept otherwise; with RemoveWhitespaceAppend this fixes the result on every line |
| Text.RemoveWhitespaceAppend | projects/06/Assembler.java:227 | whitespace removal works part by part on a concatenation |
| Text.Normalize | projects/06/Assembler.java:226-227 | the two mapping steps of main on one line, comments first and then whitespace (stated by PrepareLine and PrepareClean) |
| Text.Prepare | projects/06/Assembler.java:224-228 | normalisation yields no more lines than the file has |
| Text.PrepareClean | projects/06/Assembler.java:226-228 | every prepared line is non-empty and free of whitespace |
| Text.PrepareAppend | projects/06/Assembler.java:225-228 | normalisation works line by line and keeps the order of the lines |
| Text.PrepareLine | projects/06/Assembler.java:226-228 | a blank or comment-only line disappears, and any other line survives as its normal form |
| Symbols.PredefinedSymbols | projects/06/Assembler.java:21-45 | a fresh table maps R0..R15 to 0..15, SP, LCL, ARG, THIS and THAT to 0..4, SCREEN to 16384 and KBD to 24576 |
| Symbols.PredefinedRegisters | projects/06/Assembler.java:22-37 | RegisterName(i) is bound to i for every i below 16 |
| Symbols.PredefinedSegments | projects/06/Assembler.java:38-42 | SP, LCL, ARG, THIS and THAT are bound to 0..4 in that order |
| Symbols.PredefinedOnly | projects/06/Assembler.java:21-45 | the fresh table holds exactly those 23 names and nothing else |
| Symbols.PredefinedFit | projects/06/Assembler.java:21-45 | every predefined address fits the 15-bit address field |
| Symbols.Predefined | projects/06/Assembler.java:21-45 | the static initialiser of the symbol table as a map (stated by PredefinedSymbols, PredefinedOnly and PredefinedFit) |
| Symbols.RegisterNameDecimal | projects/06/Assembler.java:22-37 | the name of register i is "R" followed by String.valueOf(i) |
| Symbols.RegisterNameAt | projects/06/Assembler.java:22-37 | the names of registers 0..15 are R0..R15, in that order |
| Symbols.RegisterNamesListed | projects/06/Assembler.java:22-37 | the register names are exactly the sixteen strings R0..R15 |
| Symbols.Bind | projects/06/Assembler.java:211 | HashMap.put binds the name to the address and keeps every other entry and the variable counter |
| Symbols.Resolve | projects/06/Assembler.java:84-91 | a known symbol yields its stored address with the table unchanged; an unknown one yields 16 + n, is recorded at that address, and moves the counter n on by exactly 1; no earlier entry changes |
| Symbols.SymbolTable.constructor | projects/06/Assembler.java:17-45 | a new table holds exactly the predefined symbols and no variables |
| Symbols.SymbolTable.Lookup | projects/06/Assembler.java:84 | the lookup finds a value exactly when the name is a key, and that value is its entry |
| Symbols.SymbolTable.Put | projects/06/Assembler.java:211 | the new state is Bind of the old state |
| Symbols.SymbolTable.ResolveSymbol | projects/06/Assembler.java:84-91 | the address returned and the new state are those Resolve gives on the old state |
| AInstructions.AWordCorrect | projects/06/Assembler.java:94 | an address has a word exactly when it lies in 0..32767, and that word is 16 bits, starts with 0 and reads back as the address; any other value, negative included, is Range of that value |
| AInstructions.SymbolOf | projects/06/Assembler.java:80 | the token of an A-instruction: the line with every '@' removed (stated by SymbolAfterAt and RemoveAll) |
| AInstructions.Locate | projects/06/Assembler.java:80-91 | the address of a token is never below the int minimum, so the 32-bit rendering of hexToBinary applies to it: a literal is an int, a resolved symbol a stored address |
| AInstructions.LocateStable | projects/06/Assembler.java:80-91 | the address of a token is the same in every table that extends the one its resolution left, so later allocations never change an address already used |
| AInstructions.AInstructionTable | projects/06/Assembler.java:79-92 | the table keeps every entry; a literal or known symbol leaves it unchanged; an unknown symbol adds exactly that key, gets 16 + n and increments the counter by 1; a symbol ends up bound to the address used |
| AInstructions.AInstruction | projects/06/Assembler.java:79-95 | the A-instruction encoder on a table value (stated by AInstructionTable and AInstructionWord) |
| AInstructions.AInstructionWord | projects/06/Assembler.java:79-95 | an A-instruction succeeds exactly when its address is in 0..32767, and then is a 16-bit word starting with 0 whose value is the address; otherwise it is Range of the address |
| AInstructions.SymbolAfterAt | projects/06/Assembler.java:80 | the symbol of "@" + token is the token when the token holds no '@' |
| AInstructions.NegativeLiteral | projects/06/Assembler.java:82 | "@-n" is a literal, refused as Range(-n), and the table is untouched |
| AInstructions.DecimalLiteral | projects/06/Assembler.java:80-83 | "@n" for n in the int range uses n directly and leaves the table and the counter unchanged |
| AInstructions.OverflowLiteral | projects/06/Assembler.java:50-51 | @32768 is refused as Range(32768) |
| AInstructions.ZeroWord | projects/06/Assembler.java:94 | address 0 gives 0000000000000000 |
| AInstructions.ScreenWord | projects/06/Assembler.java:43 | SCREEN's address 16384 gives 0100000000000000 |
| AInstructions.AtZero | projects/06/Assembler.java:79-95 | "@0" gives 0000000000000000 on any table and leaves it unchanged |
| AInstructions.AtScreen | projects/06/Assembler.java:84-94 | "@SCREEN" on a fresh table gives 0100000000000000 and allocates nothing |
| AInstructions.ParseAInstruction | projects/06/Assembler.java:79-95 | the method on the mutable table returns the word and leaves the state that AInstruction gives on the old state |
| CInstructions.Dest | projects/06/Assembler.java:106-114 | every dest code is 3 bits |
| CInstructions.Jump | projects/06/Assembler.java:116-124 | every jump code is 3 bits |
| CInstructions.Comp | projects/06/Assembler.java:126-153 | every comp code is 7 bits |
| CInstructions.MnemonicsPlain | projects/06/Assembler.java:106-153 | no mnemonic of any table holds '=' or ';', and no comp mnemonic is empty |
| CInstructions.CompABit | projects/06/Assembler.java:126-153 | a comp code starts with 1 exactly when its mnemonic mentions M |
| CInstructions.NullMeansAbsent | projects/06/Assembler.java:106-117 | "" and "null" are exactly the dest keys, and exactly the jump keys, with code 000 |
| CInstructions.FieldsJoin | projects/06/Assembler.java:162 | the fields between separators hold no separator and join back to the line |
| CInstructions.DropTrailingEmpty | projects/06/Assembler.java:162 | split keeps a prefix of the fields, ending in a non-empty one, and drops only empty ones |
| CInstructions.Split | projects/06/Assembler.java:162 | String.split on one character: the whole line without a separator, otherwise the fields with trailing empty ones dropped (stated by FieldsJoin, DropTrailingEmpty and SplitTwo) |
| CInstructions.SplitTwo | projects/06/Assembler.java:162-163 | a line with one separator and a non-empty right part splits into exactly those two parts |
| CInstructions.AfterLastIndex | projects/06/Assembler.java:183 | the position after the last '=', with no '=' after it |
| CInstructions.AfterLast | projects/06/Assembler.java:183 | replaceAll(".*=", "") on a line without line terminators: the text after the last '=' (stated by AfterLastIndex and AfterSeparator) |
| CInstructions.AfterSeparator | projects/06/Assembler.java:183 | replaceAll(".*=") leaves the text after the last '=' |
| CInstructions.BeforeFirst | projects/06/Assembler.java:183 | replaceAll(";.*") leaves a prefix without ';' that ends at the first ';' |
| CInstructions.BeforeSeparator | projects/06/Assembler.java:183 | replaceAll(";.*") leaves the text before the first ';' |
| CInstructions.DestCode | projects/06/Assembler.java:161-170 | the dest step: 000 without '=', Format unless split gives two parts, UnknownDest for a part not in the table (stated by RenderDest, TrailingEmptyDropped, TwoAssignments and LeadingEmptyKept) |
| CInstructions.JumpCode | projects/06/Assembler.java:172-181 | the jump step on ';', read from the second part (stated by RenderJump, TrailingEmptyJump, TwoJumps and SeparatedJump) |
| CInstructions.CompMnemonic | projects/06/Assembler.java:183 | the comp text left by both regular expressions (stated by CompBetween and RenderComp) |
| CInstructions.ParseCInstruction | projects/06/Assembler.java:156-189 | the C-instruction encoder: dest, then jump, then comp, the first failure ending it (stated by ParseCWord, RenderParsed and RenderEncodes) |
| CInstructions.ParseCWord | projects/06/Assembler.java:188 | a successful C-instruction is a 16-bit word: 111, then the comp code of the extracted comp, then the dest code, then the jump code |
| CInstructions.RenderDest | projects/06/Assembler.java:161-170 | for dest=comp;jump from separator-free parts, the dest code is 000 without a dest, the table code of a known dest, and UnknownDest otherwise |
| CInstructions.RenderJump | projects/06/Assembler.java:172-181 | likewise for the jump: 000 without a jump, the table code when known, UnknownJump otherwise |
| CInstructions.RenderComp | projects/06/Assembler.java:183 | the comp extracted from dest=comp;jump is comp |
| CInstructions.CompBetween | projects/06/Assembler.java:183 | both regular expressions together remove exactly "dest=" and ";jump" |
| CInstructions.RenderParsed | projects/06/Assembler.java:156-189 | a line written from separator-free parts fails with UnknownDest, then UnknownJump, then UnknownComp, in that order of checking, and otherwise encodes as 111 + comp + dest + jump codes |
| CInstructions.RenderEncodes | projects/06/Assembler.java:156-189 | every line written from table mnemonics encodes as the concatenation of their codes |
| CInstructions.TrailingEmptyDropped | projects/06/Assembler.java:161-165 | "D=" (a line ending in its only '=') has one split part and is a Format error |
| CInstructions.LeadingEmptyKept | projects/06/Assembler.java:161-188 | "=comp" keeps its empty dest field and gets dest code 000; without a ';' the line encodes as 111, the comp code and 000 000, or is UnknownComp when comp is no mnemonic |
| CInstructions.TwoAssignments | projects/06/Assembler.java:161-165 | a line with two '=' between separator-free parts whose last part is non-empty splits into three parts and is a Format error |
| CInstructions.SecondAssignmentEmpty | projects/06/Assembler.java:161-186 | "a=b=" with a known dest a passes the dest step, because split drops the trailing empty field, and then fails as UnknownComp on the empty comp |
| CInstructions.TrailingEmptyJump | projects/06/Assembler.java:172-175 | "comp;" (a line ending in its only ';', with no '=') has one split part and is a Format error |
| CInstructions.TwoJumps | projects/06/Assembler.java:172-175 | a line with no '=' and two ';' whose last part is non-empty splits into three parts and is a Format error |
| CInstructions.TrailingJumpSeparator | projects/06/Assembler.java:172-183 | a ';' after a jump is ignored: the line encodes exactly as without it |
| CInstructions.SeparatedDest | projects/06/Assembler.java:161-170 | a trailing ';' after the jump leaves the dest code that of the dest |
| CInstructions.SeparatedJump | projects/06/Assembler.java:172-181 | a trailing ';' after the jump leaves the jump code that of the jump |
| CInstructions.SeparatedComp | projects/06/Assembler.java:183 | a trailing ';' after the jump leaves the comp extracted unchanged |
| CInstructions.AssignExample | projects/06/Assembler.java:156-189 | D=D+1 encodes as 1110011111010000 |
| CInstructions.AssignText | projects/06/Assembler.java:156-189 | the line "D=D+1" encodes as 1110011111010000 |
| CInstructions.JumpExample | projects/06/Assembler.java:156-189 | 0;JMP encodes as 1110101010000111 |
| CInstructions.JumpText | projects/06/Assembler.java:172-188 | the line "0;JMP" encodes as 1110101010000111 |
| CInstructions.JumpSeparatorText | projects/06/Assembler.java:172-188 | the line "0;JMP;" is accepted and encodes as 1110101010000111, like "0;JMP" |
| CInstructions.EmptyDestText | projects/06/Assembler.java:161-188 | the line "=D" is accepted with the empty dest and encodes as 1110001100000000 |
| CInstructions.UnknownCompExample | projects/06/Assembler.java:183-186 | A=B+C fails because B+C is no comp mnemonic |
| CInstructions.UnknownCompText | projects/06/Assembler.java:183-186 | the line "A=B+C" fails as UnknownComp |
| Assembler.Classify | projects/06/Assembler.java:192-200 | getParser's choice by the first character: '@', '(' or anything else (stated by EncodeWord) |
| Assembler.LabelName | projects/06/Assembler.java:210 | the label name: the line with every parenthesis removed (stated by LabelNameOf) |
| Assembler.Code | projects/06/Assembler.java:230-231 | the lines pass 2 encodes hold no label line and are no more than the input |
| Assembler.CodeOne | projects/06/Assembler.java:231 | a single line is kept exactly when it is not a label; with CodeAppend this fixes the filter as the non-label lines, all of them, in order |
| Assembler.CodeAppend | projects/06/Assembler.java:230-231 | filtering labels works part by part, in order |
| Assembler.BindLabels | projects/06/Assembler.java:206-215 | the label pass on the entries map (stated by LabelAddress, LabelAbsent and BindLabelsKeys) |
| Assembler.LabelNameOf | projects/06/Assembler.java:210 | "(name)" binds name when name holds no parenthesis |
| Assembler.LabelAddress | projects/06/Assembler.java:206-215 | after the label pass a label is bound to the number of non-label lines before its last declaration (i - count) |
| Assembler.LabelAbsent | projects/06/Assembler.java:206-215 | a name no label declares keeps its entry or stays absent |
| Assembler.BindLabelsKeys | projects/06/Assembler.java:206-215 | the label pass adds exactly the label names as keys |
| Assembler.PreHandleSymbol | projects/06/Assembler.java:206-215 | the loop with its count leaves exactly the entries of the label pass and never changes the variable counter |
| Assembler.Encode | projects/06/Assembler.java:192-204 | getParser(line).parseLine(line) on a table value (stated by EncodeWord and EncodeAllocates) |
| Assembler.Pass2 | projects/06/Assembler.java:229-233 | the second pass on a table value (stated by Pass2Shape, Pass2Addresses, Pass2Allocates, Pass2FirstUse, BadInstructionFails and BadLiteralFails) |
| Assembler.EncodeWord | projects/06/Assembler.java:192-200 | an instruction line that encodes gives a 16-bit word starting with 0 exactly when the line starts with '@' |
| Assembler.Pass2Shape | projects/06/Assembler.java:229-233 | a successful pass 2 gives one word per non-label line, in the input order, each 16 bits, starting with 0 exactly for an A-line, and for a C-line the word its encoder gives |
| Assembler.HeadAddress | projects/06/Assembler.java:79-95 | an A-instruction's word holds the address its token keeps in every table extending the one it leaves |
| Assembler.Pass2Addresses | projects/06/Assembler.java:229-233 | a successful pass 2 gives each A-line the word of its own address: the literal, or the address its symbol holds in the table the pass ends with |
| Assembler.EncodeAllocates | projects/06/Assembler.java:232 | encoding one line keeps every entry and only allocates fresh variable addresses |
| Assembler.AllocatesChain | projects/06/Assembler.java:232 | successive allocations compose |
| Assembler.Pass2Allocates | projects/06/Assembler.java:229-233 | pass 2 keeps every entry and binds each new symbol to its own address in the block of variables allocated during the pass |
| Assembler.BadInstructionFails | projects/06/Assembler.java:229-233 | one C-instruction line that does not encode makes the whole pass fail |
| Assembler.BadLiteralFails | projects/06/Assembler.java:79-95 | one A-instruction whose literal lies outside 0..32767 makes the whole pass fail |
| Assembler.NewSymbols | projects/06/Assembler.java:84-88 | the symbols the pass allocates, in order of first use: each A-instruction token that is no number and not yet known (stated by Pass2FirstUse) |
| Assembler.Pass2FirstUse | projects/06/Assembler.java:84-88 | after a successful pass 2 the i-th new symbol is bound to 16 + n + i, n the variables allocated before the pass, and the counter has grown by exactly the number of new symbols |
| Assembler.Translate | projects/06/Assembler.java:229-233 | the label pass on the predefined table, then pass 2 from it (stated by TranslateCorrect and LoopExample) |
| Assembler.TranslateCorrect | projects/06/Assembler.java:229-233 | a successful translation gives, in order, one word per non-label line, each the word for its line, each A-word holding the address of its token in the final table; that table extends the label table by variables alone, allocated in order of first use from 16 on |
| Assembler.AssembleFile | projects/06/Assembler.java:224-233 | normalisation followed by the translation (stated by Assemble and the lemmas on Prepare and Translate) |
| Assembler.EncodeAll | projects/06/Assembler.java:230-233 | the loop over the mutable table returns pass 2's error or pass 2's words, and after a success leaves the table in the state pass 2 ends with |
| Assembler.Assemble | projects/06/Assembler.java:224-233 | main's pipeline (normalise, label pass on a fresh table, pass 2) returns exactly AssembleFile of the file's lines |
| Assembler.LoopName | projects/06/Assembler.java:210 | "(LOOP)" binds LOOP |
| Assembler.LoopLabel | projects/06/Assembler.java:206-215 | in (LOOP), @LOOP, 0;JMP the label LOOP is bound to 0 |
| Assembler.AtLoop | projects/06/Assembler.java:79-95 | @LOOP with LOOP at 0 gives 0000000000000000 and leaves the table alone |
| Assembler.JumpLine | projects/06/Assembler.java:192-200 | 0;JMP is a C-instruction encoding as 1110101010000111 |
| Assembler.LoopExample | projects/06/Assembler.java:206-233 | (LOOP), @LOOP, 0;JMP assembles to 0000000000000000, 1110101010000111 |

## Left out

- File and command-line handling in `main` (the argument check, reading and writing files, the IOException branch and its messages, `projects/06/Assembler.java:217-224, 234-237`): the model starts from the lines of the file and ends with the words or an error. It does not model that no output file is written when a run fails.
- The debug print at `projects/06/Assembler.java:218`: output only.
- `CURRENT_LINE` (`projects/06/Assembler.java:19, 93, 187`): nothing reads it.
- `AtomicInteger` and the static fields: the table and the variable counter belong to one run, as the `SymbolTable` object; the counter is a plain unbounded number, so the model does not capture wrap-around after 2^31 variables.
- `SymbolParser` (`projects/06/Assembler.java:66-72`): it returns null, and it is never reached because label lines are filtered out before pass 2.
- `parseToBinaryCode` (`projects/06/Assembler.java:202-204`): nothing calls it; `Assembler.Encode` is the same dispatch.
- The text of exception messages, including the jump error that reads "dest is error": failures are error values that carry the line or the value.
- The state of the table after a failure: the run aborts, so the model only says which error ends it.
- Integer.parseInt of non-ASCII Unicode digits: the model accepts ASCII digits only.
- Text.RemoveWhitespace: `\s` is taken as the six ASCII characters Java's default mode matches.
- CInstructions.AfterLast and CInstructions.BeforeFirst: they model `.*=` and `;.*` without the rule that `.` does not match U+0085, U+2028 and U+2029, so a C-instruction holding one of these characters is not modelled exactly. Comment removal (`Text.StripComments`) does model that rule.
- The mutable `StringBuilder` of `hexToBinary`: it is modelled as a string variable that the loop reassigns.

