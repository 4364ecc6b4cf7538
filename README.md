# Hack assembler, modelled in Dafny

This project models the two-pass assembler for the Hack machine language
(`06/assembler.py`), the language of *The Elements of Computing Systems*
(chapter 4 for the machine language, chapter 6 for the assembler), and proves
properties of that model.

The assembler reads a `.asm` file line by line. It strips `//` comments and
surrounding whitespace and drops empty lines. It then classifies each remaining
line as an A-command (`@value`), a label (`(NAME)`) or a C-command
(`dest=comp;jump`), and runs two passes over the list:

- pass 1 binds every label to the ROM address of the next instruction;
- pass 2 allocates RAM addresses from 16 upward to unknown symbols and emits
  one 16-bit word per A- or C-command.

The result is the words joined by newlines, plus a final newline.

Modules, one file each:

| module | file | what it holds |
|---|---|---|
| `Wrappers` | `wrappers.dfy` | `Option` and `Result` |
| `Numerals` | `numerals.dfy` | decimal and binary numerals: `int(s)`, `f'{n}'`, `f'{n:015b}'` |
| `Lexer` | `lexer.dfy` | the per-line cleaning of `tokenize` |
| `HackTables` | `tables.dfy` | `COMP_DICT`, `DEST_DICT`, `JUMP_DICT`, `SYMBOLS` as `map` constants |
| `Parser` | `parser.dfy` | `command_type` and `symbol` |
| `Encoder` | `encoder.dfy` | `a_cmd2bin`, `c_cmd2bin`, `cmd2bin` |
| `Passes` | `passes.dfy` | what the two loops of `assemble` compute, as folds over the program, and their properties |
| `HackAssembler` | `hackassembler.dfy` | class `Assembler`: its fields, its constructor, and the imperative `Assemble` method proved against `Passes` |

The pure parts of the source are functions. Their contracts sit either on the
function itself or, for the encoders, on a `…Spec` lemma next to it. The source
changes the fields of `Assembler` in place, so `Assembler` is a class:

- `Assemble` runs the two `for` loops over the fields;
- `EmitCodes` is the second loop;
- `EmitAddress` and `EmitCompute` are the A- and C-command branches of that loop.

The loop invariants tie each field to `Passes.LabelPass` or `Passes.EmitPass`
applied to the commands seen so far.

Some functions model a piece of the source but have no contract of their own.
The lemmas about them are the rows below:

- `Lexer.Strip` and `Lexer.CleanLine` are covered by `Lexer.CleanLineEmpty`,
  `Lexer.CleanLineIsClean` and `Lexer.CleanLineOfClean`.
- `Passes.LabelPass` is covered by `Passes.LabelPassBinds`.
- `Passes.EmitPass`, `Passes.EmitStep` and `Passes.AddressStep` are covered by
  `Passes.EmitPassKeeps`, `Passes.EmitPassAllocates`, `Passes.EmitPassWords`
  and `Passes.EmitPassFails`.
- `Passes.Join` and `Passes.JoinLines` are covered by
  `Passes.JoinLinesTerminated` and `Passes.TerminatedLength`.

Python exceptions become `Err` values of `Encoder.EncodeError`:

- a `KeyError` from a table lookup in `c_cmd2bin`;
- a `ValueError` from `int` in `a_cmd2bin`.

When a C-command fails to encode, `Assemble` returns that error. The fields are
left as they were when the failing command was reached, as in Python.

Pass 2 is stated for any C-command encoder (`Passes.CEncoder`), and `Assembler`
uses `c_cmd2bin` as that encoder. The facts about the passes do not depend on
the encoding tables.

Where this code departs from the assembler described in the book, the model
follows the code:

- A label defined twice, or a label named like a predefined symbol, is not an
  error. The later definition overwrites the earlier binding (`symbols[...] =`),
  and `Passes.LabelPassBinds` states exactly this.
- A literal of 32768 or more is not rejected. `f'{n:015b}'` widens, so the word
  gets longer than 16 characters. `Encoder.ACmdToBinSpec` states this:
  the word is 16 characters exactly when the literal is below 2^15, and
  otherwise it is `0` followed by the plain binary digits of the literal.

## Model

| member | source | states |
|---|---|---|
| `Lexer.BeforeComment` | 06/assembler.py:4 | `line.partition('//')[0]` is a prefix of the line with no `//` inside it, and it stops exactly where the first `//` starts (or at the end when there is none) |
| `Lexer.Tokenize` | 06/assembler.py:1-6 | `tokenize` yields at most one line per input line |
| `Lexer.CleanLineEmpty` | 06/assembler.py:4-5 | a line is dropped exactly when everything before its first `//` is whitespace |
| `Lexer.CleanLineIsClean` | 06/assembler.py:4 | a kept line is non-empty, holds no `//`, and neither starts nor ends with whitespace |
| `Lexer.CleanLineOfClean` | 06/assembler.py:4 | cleaning an already clean line leaves it unchanged |
| `Lexer.TokenizeIdempotent` | 06/assembler.py:1-6 | running the cleaner over its own output changes nothing |
| `Lexer.TokenizeClean` | 06/assembler.py:1-6 | every yielded line is clean |
| `Lexer.TokenizeAppend` | 06/assembler.py:3-6 | lines are handled one at a time and in order: the tokens of a concatenation are the concatenated tokens |
| `Lexer.TokenizeSingle` | 06/assembler.py:4-6 | a single line yields its cleaned text, or nothing when that is empty |
| `Lexer.CleanLineEndOfLine` | 06/assembler.py:3-4 | the line terminator that file iteration leaves on a line is stripped away |
| `Lexer.CleanLineTrailingComment` | 06/assembler.py:4 | an instruction followed by a space and a `//` comment comes out alone |
| `Lexer.TokenizeWithLineEnds` | 06/assembler.py:1-6 | clean instructions written one per line are read back exactly |
| `Lexer.TokenizeAddExample` | 06/assembler_test.py:10-12 | the addition program after a comment line and a blank line yields `@2`, `D=A`, `@3`, `D=D+A`, `@0`, `M=D` |
| `Numerals.DecimalString` | 06/assembler.py:160 | `f'{n}'` is a decimal numeral with no leading zero whose value is `n` |
| `Numerals.BinarySpec` | 06/assembler.py:15 | the binary numeral of `n` denotes `n` and has no leading zero (`n < 2^len` and, above one digit, `2^(len-1) <= n`) |
| `Numerals.Binary15Unpadded` | 06/assembler.py:15 | from `2^15` on the binary numeral is wider than 15 digits, so `:015b` adds no zeros |
| `Numerals.Binary15Spec` | 06/assembler.py:15 | `:015b` gives binary digits denoting `n`, at least 15 of them, and exactly 15 when `n < 2^15`; from `2^15` on it is the plain binary numeral of `n`, with no padding |
| `HackTables.CompCodeWidths` | 06/assembler.py:18-47 | every comp code is a 7-bit string |
| `HackTables.DestCodeWidths` | 06/assembler.py:49-58 | every dest code is a 3-bit string |
| `HackTables.JumpCodeWidths` | 06/assembler.py:60-69 | every jump code is a 3-bit string |
| `HackTables.CompCodesDistinct` | 06/assembler.py:18-47 | no two comp mnemonics share a code |
| `HackTables.DestCodesDistinct` | 06/assembler.py:49-58 | no two dest mnemonics share a code |
| `HackTables.JumpCodesDistinct` | 06/assembler.py:60-69 | no two jump mnemonics share a code |
| `HackTables.CompMnemonicShapes` | 06/assembler.py:18-47 | no comp mnemonic is empty, starts with `(`, or holds `=` or `;` |
| `HackTables.DestMnemonicShapes` | 06/assembler.py:49-58 | no dest mnemonic holds `=` or `;` or starts with `(`; the empty dest is a key mapping to `000` |
| `HackTables.JumpMnemonicShapes` | 06/assembler.py:60-69 | no jump mnemonic holds `=` or `;`; the empty jump is a key mapping to `000` |
| `HackTables.PredefinedFit` | 06/assembler.py:72-96 | every predefined address fits in 15 bits |
| `HackTables.PredefinedNames` | 06/assembler.py:72-96 | no predefined name starts with a digit, so none is mistaken for a literal |
| `Parser.CommandType` | 06/assembler.py:126-131 | A exactly when the text starts with `@`; L exactly when it does not, starts with `(` and ends with `)`; C otherwise; a label is at least two characters |
| `Parser.Symbol` | 06/assembler.py:142-146 | `symbol` returns a value exactly for A- and L-commands and `None` for C-commands |
| `Parser.SymbolRestores` | 06/assembler.py:142-146 | the symbol is what lies between the markers: an A-command is `@` plus its symbol, a label is `(` plus its symbol plus `)` |
| `Parser.AddressRoundTrip` | 06/assembler.py:126-146 | `@` followed by any text is an A-command whose symbol is that text |
| `Parser.LabelRoundTrip` | 06/assembler.py:126-146 | `(` followed by any text and `)` is a label whose symbol is that text |
| `Encoder.AWordSpec` | 06/assembler.py:15 | `'0' + f'{n:015b}'` starts with `0`, is binary, denotes `n`, and is 16 characters exactly when `n < 2^15`; from `2^15` on it is `0` and the plain binary numeral of `n` |
| `Encoder.ACmdToBinSpec` | 06/assembler.py:9-15 | `a_cmd2bin` succeeds exactly when the text after `@` is a decimal literal, reports that text otherwise, and on success gives a word denoting the literal, 16 characters exactly when the literal is below 2^15, and otherwise `0` and the plain binary numeral of the literal |
| `Encoder.PartitionSpec` | 06/assembler.py:105-109 | `str.partition`: the head holds no separator, and head, separator and tail make up the string; without a separator the whole string is the head |
| `Encoder.SplitCSpec` | 06/assembler.py:104-109 | `dest` is the text before the first `=` (empty without one) and holds no `=`; the rest splits at its first `;` into `comp` (no `;`) and `jump` (empty without one) |
| `Encoder.CCmdToBinSpec` | 06/assembler.py:99-116 | `c_cmd2bin` succeeds exactly when comp, dest and jump are keys; its word is 16 bits: `111`, the 7 comp bits, 3 dest bits, 3 jump bits; a failure names the first missing field in comp, dest, jump order |
| `Encoder.CmdToBinSpec` | 06/assembler.py:119-123 | every word of `cmd2bin` is at least 16 bits, and its first bit is `0` exactly for an A-command |
| `Encoder.PartitionAtFirst` | 06/assembler.py:105-109 | partitioning `head + sep + tail`, with no separator in `head`, gives `head` and `tail` |
| `Encoder.SplitRenderC` | 06/assembler.py:104-109 | the fields come back from their canonical text `dest=comp;jump` (parts omitted when empty) whenever no field holds a separator that would end it early |
| `Encoder.EncodeRenderC` | 06/assembler.py:99-116 | every combination of table mnemonics, written canonically, encodes to `111` and its three codes |
| `Encoder.CWordDeterminesFields` | 06/assembler.py:99-116 | two C-commands with the same word have the same comp, dest and jump fields |
| `Encoder.AWordDeterminesAddress` | 06/assembler.py:15 | two addresses with the same A-word are equal |
| `Encoder.LabelNotEncodable` | 06/assembler.py:119-131 | `cmd2bin` fails on every label line |
| `Encoder.AddressExample` | 06/assembler.py:10-13 | `a_cmd2bin('@12')` is `0000000000001100` |
| `Encoder.AssignExample` | 06/assembler.py:100-103 | `c_cmd2bin('D=A')` is `1110110000010000` |
| `Encoder.JumpExample` | 06/assembler.py:99-116 | `c_cmd2bin('D=D+1;JGT')` is `1110011111010001` |
| `Passes.Classify` | 06/assembler.py:136 | each command is paired with the kind `command_type` gives it, one entry per line and in order |
| `Passes.LastLabelExists` | 06/assembler.py:149-153 | a label defined at all has exactly one last definition, the one whose binding survives pass 1 |
| `Passes.LabelPassBinds` | 06/assembler.py:149-153 | pass 1 advances the ROM counter once per A- or C-command; each label is bound to the number of A- and C-commands before its last definition, overwriting any earlier or predefined entry; every other entry is unchanged |
| `Passes.LabelTakesNoAddress` | 06/assembler.py:149-151 | inserting or removing a label line does not change the instruction count |
| `Passes.EmitPassStops` | 06/assembler.py:154-166 | once a command has raised, the rest of the program changes nothing |
| `Passes.EmitPassKeeps` | 06/assembler.py:154-166 | pass 2 never changes or removes an existing symbol entry, never moves the variable counter down, and only appends words |
| `Passes.EmitPassFails` | 06/assembler.py:165-166 | pass 2 fails exactly when some C-command does not encode, and then reports the error of the first such command |
| `Passes.FreshSymbols` | 06/assembler.py:157-164 | the new variables are distinct, neither known nor decimal, each the symbol of some A-command, and they include every non-decimal A-symbol that is not already known |
| `Passes.FirstUseExists` | 06/assembler.py:155-164 | a symbol used by some A-command has a first use, at or before that command |
| `Passes.FreshSymbolsPrefix` | 06/assembler.py:154-164 | reading further into the program only appends new variables |
| `Passes.FreshSymbolsFirstUse` | 06/assembler.py:161-164 | new variables are listed in order of first use: a new name comes right after the new names used before its first use |
| `Passes.EmitPassAllocates` | 06/assembler.py:157-164 | variables get consecutive addresses from the counter's start, in order of first use and with no gaps; the counter ends just past the last; the table gains exactly those symbols |
| `Passes.Words` | 06/assembler.py:154-166 | there is one word per A- or C-command |
| `Passes.WordsAt` | 06/assembler.py:154-166 | the word of the command at index `i` sits at the position given by the number of A- and C-commands before `i`, so words follow source order |
| `Passes.EmitPassWords` | 06/assembler.py:154-166 | pass 2 appends exactly the program's words under its final symbol table: allocating on the fly gives the same words as resolving every symbol first |
| `Passes.JoinLinesTerminated` | 06/assembler.py:167 | the output text is each word followed by a newline, except that an empty program gives a single newline |
| `Passes.TerminatedLength` | 06/assembler.py:167 | with 16-bit words the text is 17 characters per word |
| `HackAssembler.AddressWord` | 06/assembler.py:160 | `a_cmd2bin(f'@{n}')` is the A-word of `n` |
| `HackAssembler.LiteralWord` | 06/assembler.py:157-158 | `a_cmd2bin(cmd)` for a decimal symbol is the A-word of its value |
| `HackAssembler.FreshAssembly` | 06/assembler.py:134-167 | from a fresh `Assembler`, assembly succeeds exactly when every C-command encodes, and then emits one word per A- or C-command, each resolved under the final table |
| `HackAssembler.LabelReference` | 06/assembler.py:149-160 | `@X` for a non-decimal label `X` becomes the address of the instruction after the last `(X)` |
| `HackAssembler.PredefinedReference` | 06/assembler.py:140 | `@SP` … `@KBD` get their predefined address unless the program defines a label of that name |
| `HackAssembler.VariableReference` | 06/assembler.py:161-164 | `@x` for any other name, at each of its occurrences, becomes `16 + k`. `k` is the number of distinct new names used before the first use of `x`, which is also the position of `x` in the list of new names |
| `HackAssembler.AddressResolution` | 06/assembler.py:155-164 | every `@x` resolves by the first case that applies: a decimal literal to its value; otherwise a label to the instruction after its last definition; otherwise a predefined name to its address; otherwise a variable to `16 + k`, where `k` counts the new names used before the first use of `x` |
| `HackAssembler.LiteralReference` | 06/assembler.py:157-158 | `@n` for a decimal literal becomes the word of `n` |
| `HackAssembler.ComputeReference` | 06/assembler.py:165-166 | a C-command becomes its `c_cmd2bin` word |
| `HackAssembler.Assembler.constructor` | 06/assembler.py:135-140 | the commands are the classified cleaned lines; the ROM counter is 0, the variable counter 16, no words yet, and the table a copy of `SYMBOLS` |
| `HackAssembler.Assembler.Assemble` | 06/assembler.py:148-167 | the new fields are pass 1 and then pass 2 applied to the old ones; the result is the joined words with a final newline, or the first C-command error |
| `HackAssembler.Assembler.EmitCodes` | 06/assembler.py:154-166 | the second loop leaves the fields as `Passes.EmitPass` computes them and returns the error that stopped it, if any |
| `HackAssembler.Assembler.EmitCommand` | 06/assembler.py:155-166 | one iteration of the second loop leaves the fields as `Passes.EmitStep` computes them: an A-command goes to the address case, a C-command to the compute case, and a label changes nothing |
| `HackAssembler.Assembler.EmitAddress` | 06/assembler.py:155-164 | an A-command appends the word of a literal, of a known symbol, or of a new variable, which is bound to the counter that then goes up by one |
| `HackAssembler.Assembler.EmitCompute` | 06/assembler.py:165-166 | a C-command appends its `c_cmd2bin` word, or reports the lookup error and changes nothing |
| `HackAssembler.AssembleLines` | 06/assembler_test.py:17-20 | `Assembler(asm).assemble()` on the lines of a file succeeds exactly when every C-command encodes. It then gives the joined words of the program, resolved under the final table; otherwise it gives the error of the first C-command that does not encode |

## Left out

- Opening and reading the file in `tokenize` and `Assembler.__init__`. `Lexer.Tokenize` and the constructor take the raw lines, with their line terminators, as a sequence. The lazy generator becomes a function returning the whole list, as `__init__` makes it.
- `Encoder.ACmdToBinSpec`: Python's `int` also accepts a sign, surrounding whitespace, `_` between digits and non-ASCII decimal digits. The model accepts only ASCII digit strings and reports `BadLiteral` for everything else. Inside `assemble`, `str.isdigit` already rejects signs, whitespace and `_`, so those cases arise only for direct calls.
- `Encoder.ACmdToBinSpec`: since Python 3.11, `int` raises `ValueError` on a string of more than 4300 digits (the default `sys.set_int_max_str_digits` limit). The model has no such limit: it encodes `@` followed by any number of ASCII digits, and so does `HackAssembler.Assembler.Assemble`, where CPython 3.11 or later raises at `06/assembler.py:158`. The limit depends on the interpreter version and its settings, so it is not modelled.
- `HackAssembler.Assembler.EmitAddress`: `str.isdigit` is true for some non-ASCII characters that `int` rejects, such as the superscript `²`. For `@²` the source takes the literal branch and raises `ValueError` at `06/assembler.py:158`. Other non-ASCII digits are accepted by both `str.isdigit` and `int`, such as the Arabic-Indic `٣` and the fullwidth `３`. For `@٣` or `@３` the source emits the word of 3. The model's digits are ASCII only, so in both cases it treats the symbol as a name and allocates a variable for it. Modelling this would need Unicode's digit tables.
- `HackAssembler.Assembler.EmitAddress`: `f'{n}'` also raises once an address has more than 4300 digits. Addresses count program lines and variables, so no real program reaches that.
- The `assert cmd[0] == '@'` of `a_cmd2bin` is the precondition `StartsWith(cmd, '@')`. It is not an error path.
- The text of the exceptions. A `KeyError` keeps only which field was missing and its text, and a `ValueError` only the literal.
- The doctest `__main__` block, the runner `06/assermbler_runner.py`, and `01/bool_expr.py`. Also the way the tests find `.asm` files and read the expected `.hack` text. `HackAssembler.AssembleLines` models only the call `Assembler(asm).assemble()` that the tests make.
- `Passes.SymbolOf` returns the empty name for an A- or label command that has no symbol. That happens only in a command list whose kinds disagree with `command_type`, and `Assembler.Valid()` excludes such lists.
