# The HVM toolchain and simulator, modelled

The HVM repository compiles a small C dialect to HVM machine code and runs it on a simulated 64-bit processor. This
project models that pipeline from tokens to executed instructions and proves what each stage keeps:

- **C parser** (`Parser`, specified by `Grammar`). The cursor class follows the recursive descent of the source method
  by method; each method returns what a grammar function on the remaining tokens says. `Listing` writes a tree back as
  tokens; `ExpressionTheorems` and `StatementTheorems` prove that parsing inverts listing, `ExpressionImage` and
  `StatementImage` the converse and which trees the parser can return at all; `Precedence` and `StatementStarts` say
  with the tokens written out how operators bind and what starts a statement, and `ParserDepartures` where it leaves
  C. The rules are those of ISO C11, sections 6.5 and 6.8.4.1. One measure, (tokens left, grammar level), covers
  every loop and all mutual recursion.
- **Code generator** (`CodeGen`). Its lines have a small-step meaning, the statements a big-step one
  (`CodeSemantics`), both over an arbitrary machine word, store, memory and meaning of calls and inline assembly.
  `CodeTheorems` has fresh labels and operators; `CodeMemory`, `CodeValues` and `CodeCalls` every other expression,
  with addresses, indexing and calls; `CodeWords` what values are on 64-bit words; `CodeConditions`, `CodeOutcomes`
  and `CodeOrdered` which conditions branch right; `CodeSimulation` ends in `FunctionCorrect`; `CodeDepartures` has
  what is dropped.
- **Assembler and encoder** (`Assembler`, `Encoder`, `Mnemonics`, `InstructionSet`). Two passes over tokens that must
  agree on every size (`AssemblerTheorems`), what they make of code (`AssemblerListing`) and data (`AssemblerData`) in
  sections (`AssemblerSections`), and which lines assemble as written (`AssemblerDepartures`); bit packing, ULEB128
  (DWARF 5, section 7.6), mixed 4- and 8-byte instructions (`EncoderTheorems`). Decoding follows section 4 of the Hoo
  Virtual Machine (HVM) Specification, version 1.5, and the escape layout of its instruction reference.
- **ELF writer** (`Elf`, `ElfWriter`). The file as a value, the writer's byte buffers and section table as classes
  that produce it, and readers written from the System V gABI, chapters 4 and 5 (`ElfTheorems`, `ElfImage`,
  `ElfSymbols`, `ElfEntry`).
- **Memory** (`Memory`, `FlatMemory`). The first-match region list and the flat array; `MemoryTheorems` relates the
  list to a partial map from addresses to bytes.
- **Processor** (`Cpu`, `CpuMachine`). A step on values, and the class whose methods make that step in place over a
  `MemorySystem`. `CpuArithmetic` and `CpuControl` say in integers, bits and bytes what instructions compute and where
  they go; the other theorems are about whole runs: stack frames (`CpuStack`, `CpuFrames`), faults (`CpuFaults`),
  hardware loops (`CpuLoops`), LR/SC (`CpuAtomics`), strip-mined vector copies (`CpuVectors`).
- **Preprocessor** (`Preprocessor`). Whole-word macro replacement in place.

`Words` holds bytes and little-endian words, `Ast` tokens and trees.

Where the source is imperative the model is too: a class or method carries the same state changes, and its contract
ties the new state to a specification function, about which the lemmas speak. A fault, a parse error or a missing
entry is a value of a result datatype. Machine integers are unbounded with the wrap-around or truncation of the source
written out.

## Where the code departs from its evident intent

The model follows the code. Each departure is a theorem, with the exact condition where there is one:

- Grouping brackets are swallowed everywhere but directly under a prefix operator:
  `ParserDepartures.BracketIsSwallowed`, `ParserDepartures.GroupsExactlyUnderPrefix`; of doubled ones the inner pair
  groups: `ParserDepartures.DoubledBracketsGroup`. The forward inverse still covers all trees the parser can return:
  unary plus leaves no node, so `+ ( e )` groups.
- Postfix `++` and `--` eat the next token and are read off it: `ParserDepartures.PostfixRightExactlyWhen`. `x ++ ++`
  spells the postfix operator.
- The four assignment operators taken are all read as the plain one; the other seven end the expression:
  `ParserDepartures.AssignmentReadBackExactlyWhen`, `ParserDepartures.OtherCompoundOperatorsEnd`.
- In values, a right operand that is no constant or variable overwrites r1, unary operators are dropped, and
  comparison and logical operators compute nothing but one of their sides: `CodeTheorems.ComputesExactlyWhen` for all
  of these, `CodeDepartures.UnaryOperatorsAreDropped`.
- The same holds of an index, and of call arguments behind the first: one that is no constant, variable, address or
  dereference of these overwrites r1 and r2. `CodeValues.DeliversExactlyWhen` and
  `CodeCalls.ArgumentsArriveExactlyWhen` say which values and arguments come out right. The fourth argument goes to
  r4, the thread pointer of the register convention.
- An assignment inside a value stores nothing, and casts, sizes and members leave the target as it was:
  `CodeValues.AssignmentIsNotStored`, `CodeValues.UncodedKeepsTarget`. The bytes of a string literal stand between
  the instructions that use it.
- In conditions, a comparison with such a right side compares it with itself, `a < b + c` for one; logical and
  arithmetic operators emit no branch; `!x` is tested like `x`. `CodeOutcomes.ConditionRightExactlyWhen` and
  `CodeOrdered.OrderedConditionRightExactlyWhen` say which conditions come out right,
  `CodeConditions.BranchRightExactlyWhen` and `CodeDepartures.NegationRightExactlyWhen` in terms of their shape.
- Expression statements other than inline assembly, so assignments too, `break` and `continue` emit no code, and an
  initialiser is not stored: `CodeDepartures.SilentExactlyWhen`, `CodeDepartures.SilentBodyDoesNothing`,
  `CodeDepartures.InitializerIsNotStored`, `CodeDepartures.InitializerHeldExactlyWhen`.
- The assembler drops the token behind a mnemonic, so every line loses its first operand and a mnemonic without
  operands takes the next line for them: `AssemblerDepartures.FirstOperandLost`,
  `AssemblerDepartures.OperandlessRightExactlyWhen`, and one condition for each format:
  `AssemblerDepartures.RegistersRightExactlyWhen` (R), `AssemblerDepartures.ImmediateRightExactlyWhen` (I),
  `AssemblerDepartures.BranchRightExactlyWhen` (B, which reads its registers from the second and third place and so
  always compares r0 with r0), `AssemblerDepartures.JumpRightExactlyWhen` and
  `AssemblerDepartures.JumpLinkRightExactlyWhen` (J). The listing theorems put one spare token behind each mnemonic.
- Selecting a section again discards its bytes, and the current section is not reset between passes, so code in front
  of the first directive is lost: `AssemblerSections.ProgramAssembles`, `AssemblerSections.CodeKeptExactlyWhen`.
- A data directive takes one operand, and none with a minus sign; names behind a dot are no labels, and unless they are
  directives their line is lost: `AssemblerData.MoreOperandsAreLost`, `AssemblerData.WrongOperandIsLost`,
  `AssemblerData.DottedLabelsAreLost`, `AssemblerData.DottedLineIsLost`. The labels and strings of generated code are
  written so.
- `sll`, `srl`, `bge` and `bgt`, which the code generator emits, are no instructions of the assembler, which skips
  their lines: `AssemblerDepartures.GeneratedLinesAreLost`.
- Branch displacements are assembled in bytes and executed times four:
  `AssemblerDepartures.ByteDistanceReachesExactlyWhen`.
- The documented prefix decoder misreads 4-byte words that end in 0xFE: `EncoderTheorems.PrefixDecoderExact`.
- The entry of an executable whose start symbol has section index 0 or less lies in `.text`, the value of the symbol
  itself does not: `ElfEntry.EntryIsSymbolValue`.
- `.strtab` lacks its leading NUL, `.symtab` counts one local symbol of five, p_offset and p_vaddr are not congruent,
  and an executable without loadable bytes has a segment outside the file: `ElfSymbols.StrtabStartsWithNul`,
  `ElfSymbols.SymtabInfoTooSmall`, `ElfImage.SegmentNotCongruent`, `ElfImage.SegmentInFileExactlyWhen`.
- RET clears the low two bits of its target, so it comes back behind a call exactly when that place is aligned:
  `CpuControl.ReturnFollowsCall`.
- A region that ends at 2^64 or beyond is never found: `MemoryTheorems.RegionFoundExactlyWhen`.
- Wide accesses to MMIO regions bypass the handlers, plain stores do not cancel a reservation, and instructions with
  two or more accesses are not precise: `MemoryTheorems.WideAccessBypassesHandler`,
  `CpuAtomics.PlainStoreDoesNotCancel`, `CpuFaults.PushFault` and the lemmas beside it.

## Model

| member | source | states |
|---|---|---|
| `Parser.Parser.constructor` | src/tools/hvmc/src/parser.cpp:7 | the cursor stands at the start of the tokens |
| `Parser.Parser.Next` | src/tools/hvmc/src/parser.cpp:10 | returns the token at the cursor and moves over it, never over the end |
| `Parser.Parser.Expect` | src/tools/hvmc/src/parser.cpp:12-17 | takes one token whatever it is and fails unless it is of the asked kind |
| `Parser.Parser.Match` | src/tools/hvmc/src/parser.cpp:19-22 | moves over the token exactly when it is of the asked kind, and says so |
| `Parser.Parser.ParseTypeSpec` | src/tools/hvmc/src/parser.cpp:36-68 | the flag and base-type loop reads the type the grammar gives for the remaining tokens |
| `Parser.Parser.ParseDeclarator` | src/tools/hvmc/src/parser.cpp:70-81 | counts the stars and takes the name if there is one |
| `Parser.Parser.ParseDeclaration` | src/tools/hvmc/src/parser.cpp:85-106 | a variable or a function, with storage flags; an error if no name follows the type |
| `Parser.Parser.ParseFunctionDef` | src/tools/hvmc/src/parser.cpp:108-138 | parameters, then a body or a semicolon |
| `Parser.Parser.ParseVariableDecl` | src/tools/hvmc/src/parser.cpp:140-163 | array size, narrowed to 32 bits, and initialiser |
| `Parser.Parser.ParseStatement` | src/tools/hvmc/src/parser.cpp:167-197 | every statement form; the dispatch terminates because each call sits lower in (tokens left, grammar level) |
| `Parser.Parser.ParseJump` | src/tools/hvmc/src/parser.cpp:268-278 | `break;` and `continue;` take two tokens or fail |
| `Parser.Parser.ParseAsm` | src/tools/hvmc/src/parser.cpp:280-286 | the text of the token becomes the statement |
| `Parser.Parser.ParseDeclarationOrExpression` | src/tools/hvmc/src/parser.cpp:179-195 | which of the two a statement without keyword is |
| `Parser.Parser.ParseBlock` | src/tools/hvmc/src/parser.cpp:199-207 | the statement loop gathers exactly the grammar's list, also when the closing brace is missing |
| `Parser.Parser.ParseParenthesized` | src/tools/hvmc/src/parser.cpp:212-214 | the bracketed condition of `if`, `while` and `do` |
| `Parser.Parser.ParseIf` | src/tools/hvmc/src/parser.cpp:209-220 | an `else` that comes next is taken by the innermost `if` |
| `Parser.Parser.ParseWhile` | src/tools/hvmc/src/parser.cpp:222-230 | condition, then body |
| `Parser.Parser.ParseOptional` | src/tools/hvmc/src/parser.cpp:236-241 | an expression unless its closing token comes first |
| `Parser.Parser.ParseFor` | src/tools/hvmc/src/parser.cpp:232-244 | three optional parts and a body |
| `Parser.Parser.ParseDoWhile` | src/tools/hvmc/src/parser.cpp:246-256 | body before condition |
| `Parser.Parser.ParseReturn` | src/tools/hvmc/src/parser.cpp:258-266 | with or without a value |
| `Parser.Parser.ParseExpression` | src/tools/hvmc/src/parser.cpp:290 | the assignment level |
| `Parser.Parser.ParseAssignment` | src/tools/hvmc/src/parser.cpp:292-304 | right-nested; only four of the assignment tokens, and which one is forgotten |
| `Parser.Parser.ParseLevel` | src/tools/hvmc/src/parser.cpp:306-482 | all ten binary levels, one method indexed by the level |
| `Parser.Parser.ParseLevelTail` | src/tools/hvmc/src/parser.cpp:306-482 | the operator loop of a level nests to the left, like the recursive grammar function |
| `Parser.Parser.ParseCast` | src/tools/hvmc/src/parser.cpp:484-499 | a cast, or the swallowed bracket |
| `Parser.Parser.ParseUnary` | src/tools/hvmc/src/parser.cpp:501-549 | all prefix operators; unary plus leaves no node |
| `Parser.Parser.ParsePostfix` | src/tools/hvmc/src/parser.cpp:551-600 | the postfix loop, with calls dropped on anything that is no name and the extra token eaten by `++` and `--` |
| `Parser.Parser.ParseArgs` | src/tools/hvmc/src/parser.cpp:560-565 | the do-while over call arguments and the closing bracket |
| `Parser.Parser.ClosedArgs` | src/tools/hvmc/src/parser.cpp:560-565 | arguments read to their bracket use up at least one token |
| `Parser.Parser.ParsePrimary` | src/tools/hvmc/src/parser.cpp:602-637 | bracketed, constant, string, name or inline assembly; anything else is an error |
| `Parser.Parser.Parse` | src/tools/hvmc/src/parser.cpp:641-649 | a whole translation unit, on every token stream, ill-formed ones included |
| `Grammar.Expect` | src/tools/hvmc/src/parser.cpp:12-17 | success uses up exactly one token |
| `Grammar.DeclaratorFrom` | src/tools/hvmc/src/parser.cpp:70-81 | finding a name uses up at least one token |
| `Grammar.ParseLevel` | src/tools/hvmc/src/parser.cpp:306-482 | success uses up at least one token at every binary level, so the ten operator loops terminate |
| `Grammar.LevelTail` | src/tools/hvmc/src/parser.cpp:306-482 | the loop of a level never gives tokens back |
| `Grammar.ParseCast` | src/tools/hvmc/src/parser.cpp:484-499 | success uses up at least one token, on the branch that swallows a bracket too |
| `Grammar.ParseUnary` | src/tools/hvmc/src/parser.cpp:501-549 | success uses up at least one token, after any chain of prefix operators |
| `Grammar.PostfixTail` | src/tools/hvmc/src/parser.cpp:554-599 | the postfix loop never gives tokens back |
| `Grammar.ArgsFrom` | src/tools/hvmc/src/parser.cpp:560-565 | a non-empty argument list uses up at least one token |
| `Grammar.ParsePrimary` | src/tools/hvmc/src/parser.cpp:602-637 | success uses up at least one token, a bracketed expression included |
| `Grammar.ParseDeclaration` | src/tools/hvmc/src/parser.cpp:85-106 | success uses up at least one token, so the top-level loop terminates |
| `Grammar.ParseStatement` | src/tools/hvmc/src/parser.cpp:167-197 | success uses up at least one token, so the block loop terminates on every token stream |
| `Listing.TypeParses` | src/tools/hvmc/src/parser.cpp:36-68 | every type a specifier can produce is read back from its listing |
| `Listing.TypeSpecIsSpecified` | src/tools/hvmc/src/parser.cpp:36-68 | and the specifier produces no other type |
| `Listing.ListingStarts` | src/tools/hvmc/src/parser.cpp:602-637 | every listing of a tree starts with a token that starts an expression |
| `ExpressionTheorems.PostfixListing` | src/tools/hvmc/src/parser.cpp:551-600 | a postfix-level listing brings the postfix loop to its tree, whatever follows |
| `ExpressionTheorems.CallListing` | src/tools/hvmc/src/parser.cpp:555-567 | calls with any number of arguments, each any expression |
| `ExpressionTheorems.ArgsListing` | src/tools/hvmc/src/parser.cpp:560-565 | an argument list is read back in order |
| `ExpressionTheorems.PostfixOperandListing` | src/tools/hvmc/src/parser.cpp:501-600 | the operand of a postfix operator, grouped when it binds more loosely |
| `ExpressionTheorems.UnaryListing` | src/tools/hvmc/src/parser.cpp:501-549 | prefix level: parsing inverts listing before any token that is no postfix operator |
| `ExpressionTheorems.CastListing` | src/tools/hvmc/src/parser.cpp:484-499 | cast level, the same |
| `ExpressionTheorems.LevelListing` | src/tools/hvmc/src/parser.cpp:306-482 | at each binary level a listing brings the operator loop to its tree: left-associative nesting is undone exactly |
| `ExpressionTheorems.OperandListing` | src/tools/hvmc/src/parser.cpp:306-482 | an operand listed for level k is read back at level k before any token level k would not take |
| `ExpressionTheorems.ExpressionListing` | src/tools/hvmc/src/parser.cpp:290-637 | parsing inverts listing: for every tree the grammar has and every continuation that cannot extend it, listing and continuation parse to exactly the tree and the continuation (ISO C11 6.5) |
| `ExpressionTheorems.UnaryIsPrefix` | src/tools/hvmc/src/parser.cpp:501-549 | each prefix operator wraps what the unary level reads behind it |
| `ExpressionTheorems.DoubledExtends` | src/tools/hvmc/src/parser.cpp:590-596 | `x ++ ++` is the spelling that reads as one postfix increment |
| `ExpressionImage.AssignmentPrintable` | src/tools/hvmc/src/parser.cpp:290-637 | every tree the parser returns, from any tokens, is one the listing covers |
| `ExpressionImage.ParserImage` | src/tools/hvmc/src/parser.cpp:290-637 | a tree is the result of some parse if and only if it is printable |
| `ExpressionImage.RespellingIsStable` | src/tools/hvmc/src/parser.cpp:290-637 | listing a parsed tree and parsing again gives the same tree, however it was spelled first |
| `ExpressionImage.AssignmentFaithful` | src/tools/hvmc/src/parser.cpp:292-637 | converse, by grammar level: a clean prefix is consumed as the listing of a precedence-normal tree |
| `ExpressionImage.LevelFaithful` | src/tools/hvmc/src/parser.cpp:306-482 | the converse at binary levels: left child at the same or a tighter level, right child strictly tighter |
| `ExpressionImage.PostfixTailFaithful` | src/tools/hvmc/src/parser.cpp:554-599 | the converse through the postfix loop |
| `ExpressionImage.ListingInvertsParsing` | src/tools/hvmc/src/parser.cpp:290-637 | listing inverts parsing: on tokens without grouping brackets, postfix `++`/`--`, compound assignment and unary `+`, every parsed tree is precedence-normal and lists back to the tokens consumed |
| `ParserDepartures.BracketVanishes` | src/tools/hvmc/src/parser.cpp:485-497 | an opening bracket in front of anything but a type or another bracket is read, at every binary level and the cast level, as if it were not there |
| `ParserDepartures.BracketIsSwallowed` | src/tools/hvmc/src/parser.cpp:485-497 | for every expression and whatever follows: `( e )` is read as `e` with the closing bracket left over, unless the listing of `e` starts with a bracket, and then reading fails |
| `ParserDepartures.BracketedCastFails` | src/tools/hvmc/src/parser.cpp:485-497 | `( ( type ) e )` is an error at every level: the bracket of the cast is taken for a group |
| `ParserDepartures.BracketGroupsUnderPrefix` | src/tools/hvmc/src/parser.cpp:605-609 | directly under a prefix operator `( e )` is the operand `e` |
| `ParserDepartures.DoubledBracketsGroup` | src/tools/hvmc/src/parser.cpp:485-497 | of doubled brackets the outer is dropped and the inner groups: `( ( e ) )` is read as `e` with one bracket left over |
| `ParserDepartures.GroupsExactlyUnderPrefix` | src/tools/hvmc/src/parser.cpp:484-549 | `( e )` is read as the group `e` if and only if it stands directly under a prefix operator |
| `ParserDepartures.PostfixTakesNextToken` | src/tools/hvmc/src/parser.cpp:590-596 | behind any operand `++` and `--` take the token after them and are read off that token |
| `ParserDepartures.PostfixRightExactlyWhen` | src/tools/hvmc/src/parser.cpp:590-596 | so any operand with `++` or `--` is read as written if and only if the operator is `--` and nothing follows |
| `ParserDepartures.PostfixReadsLikeDoubled` | src/tools/hvmc/src/parser.cpp:590-596 | with a token behind it the operator reads like the doubled spelling of the one decided by that token |
| `ParserDepartures.CompoundOperatorIsLost` | src/tools/hvmc/src/parser.cpp:292-304 | between any target and any value each of the four assignment operators it takes is read as the plain assignment |
| `ParserDepartures.OtherCompoundOperatorsEnd` | src/tools/hvmc/src/parser.cpp:292-304 | the other seven are not taken: the expression ends before them |
| `ParserDepartures.AssignmentReadBackExactlyWhen` | src/tools/hvmc/src/parser.cpp:295-301 | the tree read lists back to its tokens if and only if the operator is the plain one |
| `ParserDepartures.ListingSplits` | src/tools/hvmc/src/parser.cpp:290-637 | what follows an expression only follows its listing |
| `StatementTheorems.ParamsParse` | src/tools/hvmc/src/parser.cpp:108-138 | parameter lists are read back in order |
| `StatementTheorems.IfParses` | src/tools/hvmc/src/parser.cpp:209-220 | nearest-if `else` (ISO C11 6.8.4.1): an `if` is read back provided no open `if` is the branch before an `else` |
| `StatementTheorems.StatementParses` | src/tools/hvmc/src/parser.cpp:167-286 | parsing inverts listing for every statement tree in which no open `if` is the then-branch of an `if` with `else`, before any continuation an open `if` at its end would not take |
| `StatementTheorems.DeclarationParses` | src/tools/hvmc/src/parser.cpp:85-163 | variables and functions are read back, at top level and as statements |
| `StatementTheorems.BlockParses` | src/tools/hvmc/src/parser.cpp:199-207 | a block of any statements is read back |
| `StatementTheorems.ProgramParses` | src/tools/hvmc/src/parser.cpp:641-649 | a whole program is read back from its listing |
| `StatementImage.StatementPrintable` | src/tools/hvmc/src/parser.cpp:167-286 | every statement the parser returns is printable and has taken any `else` it could take |
| `StatementImage.DeclarationPrintable` | src/tools/hvmc/src/parser.cpp:85-163 | the same for declarations |
| `StatementImage.ProgramImage` | src/tools/hvmc/src/parser.cpp:641-649 | the programs the parser can return are exactly the lists of printable declarations |
| `Precedence.TierIsLevel` | src/tools/hvmc/src/parser.cpp:306-482 | the ten operator sets of ISO C11, 6.5.14 down to 6.5.5, written out, are the levels of the parser, loosest first |
| `Precedence.ChainParses` | src/tools/hvmc/src/parser.cpp:306-482 | any chain of names and binary operators, before anything that goes on with neither, is read as what stands left and right of the last of its loosest operators under that operator, recursively |
| `Precedence.TwoOperators` | src/tools/hvmc/src/parser.cpp:306-482 | of two operators between three names the tighter one takes the middle name, of one set the first |
| `Precedence.NoTier` | src/tools/hvmc/src/parser.cpp:306-482 | a token in none of the ten sets belongs to no level |
| `Precedence.EndsStop` | src/tools/hvmc/src/parser.cpp:306-482 | and so ends a binary expression, unless it goes on with the operand |
| `Precedence.PrefixWraps` | src/tools/hvmc/src/parser.cpp:501-549 | each of the nine prefix operators, `+` and `sizeof` included, makes what C says of the operand read behind it; `+` makes nothing |
| `Precedence.OthersAreNoPrefix` | src/tools/hvmc/src/parser.cpp:501-549 | no other token is a prefix operator |
| `Precedence.PostfixBeforePrefix` | src/tools/hvmc/src/parser.cpp:501-600 | indexing, calls and members bind more tightly than any prefix operator |
| `Precedence.PrefixBeforeBinary` | src/tools/hvmc/src/parser.cpp:438-549 | and these more tightly than any binary one |
| `Precedence.AssignmentNests` | src/tools/hvmc/src/parser.cpp:292-304 | exactly the tokens `=`, `+=`, `-=` and `*=` go on a binary expression as an assignment, to the right |
| `Precedence.TwoAssignments` | src/tools/hvmc/src/parser.cpp:292-304 | so of two assignments the right one is done first |
| `StatementStarts.StatementsAreOf` | src/tools/hvmc/src/parser.cpp:167-197 | the eleven tokens that start a declaration, and what the others start |
| `StatementStarts.NoExpression` | src/tools/hvmc/src/parser.cpp:484-637 | no expression starts with a token outside the fifteen listed |
| `StatementStarts.NoStatement` | src/tools/hvmc/src/parser.cpp:167-197 | so `switch`, `goto`, `typedef` and `volatile` start no statement: it fails |
| `StatementStarts.ArraySizeNarrows` | src/tools/hvmc/src/parser.cpp:148-152 | the size of an array is the number in its brackets modulo 2^32, as a signed 32-bit integer |
| `CodeGen.CodeGen.constructor` | src/tools/hvmc/src/codegen.cpp:8 | no output, counter at 0 |
| `CodeGen.CodeGen.NewLabel` | src/tools/hvmc/src/codegen.cpp:10-12 | returns the counter and bumps it |
| `CodeGen.CodeGen.Emit` | src/tools/hvmc/src/codegen.cpp:270-272 | appends one line |
| `CodeGen.CodeGen.EmitExpression` | src/tools/hvmc/src/codegen.cpp:168-250 | appends the code of the tree for the target register and leaves the counter where that code says |
| `CodeGen.CodeGen.EmitBinary` | src/tools/hvmc/src/codegen.cpp:180-200 | left into r1, right into r2, the operation, the move |
| `CodeGen.CodeGen.EmitMove` | src/tools/hvmc/src/codegen.cpp:200 | a move only when the target is not r1 |
| `CodeGen.CodeGen.EmitCall` | src/tools/hvmc/src/codegen.cpp:223-233 | arguments into consecutive registers, the call, the move |
| `CodeGen.CodeGen.EmitIndex` | src/tools/hvmc/src/codegen.cpp:239-246 | address, scaled index, load |
| `CodeGen.CodeGen.EmitArguments` | src/tools/hvmc/src/codegen.cpp:225-228 | the argument loop |
| `CodeGen.CodeGen.EmitCondition` | src/tools/hvmc/src/codegen.cpp:140-166 | comparison branch, zero branch, or neither |
| `CodeGen.CodeGen.EmitStatement` | src/tools/hvmc/src/codegen.cpp:14-64 | dispatch; kinds without code append nothing |
| `CodeGen.CodeGen.EmitIf` | src/tools/hvmc/src/codegen.cpp:89-103 | both label numbers are taken before the branches are generated |
| `CodeGen.CodeGen.EmitWhile` | src/tools/hvmc/src/codegen.cpp:105-114 | two fresh labels around test and body |
| `CodeGen.CodeGen.EmitFor` | src/tools/hvmc/src/codegen.cpp:116-127 | initialiser before the first label, step before the jump back |
| `CodeGen.CodeGen.EmitLoop` | src/tools/hvmc/src/codegen.cpp:105-127 | the part `while` and `for` share |
| `CodeGen.CodeGen.EmitDoWhile` | src/tools/hvmc/src/codegen.cpp:129-138 | the condition branches out to the end label, then a jump back |
| `CodeGen.CodeGen.EmitStatements` | src/tools/hvmc/src/codegen.cpp:26-29 | the loop over a block |
| `CodeGen.CodeGen.Gen` | src/tools/hvmc/src/codegen.cpp:14-64 | a whole program, declaration by declaration |
| `CodeTheorems.ExpressionLabels` | src/tools/hvmc/src/codegen.cpp:10-12 | the labels an expression defines are fresh numbers, each defined at most once |
| `CodeTheorems.StatementLabels` | src/tools/hvmc/src/codegen.cpp:14-138 | the same for every statement, nested to any depth |
| `CodeTheorems.ProgramLabelsUnique` | src/tools/hvmc/src/codegen.cpp:10-138 | no label of a generated program is defined twice |
| `CodeTheorems.ExpressionRuns` | src/tools/hvmc/src/codegen.cpp:168-204 | running the code of any tree of operators over constants and variables, anywhere in a program and on any word type, reaches its end with exactly the registers `RegsAfter` gives |
| `CodeTheorems.RegistersAfter` | src/tools/hvmc/src/codegen.cpp:168-200 | the value is in the target, and only r1, r2 and the target changed |
| `CodeTheorems.RightLeafComputes` | src/tools/hvmc/src/codegen.cpp:168-200 | when every right operand is a leaf (or repeats the left operand) that value is the value of the expression |
| `CodeTheorems.ComputesExactlyWhen` | src/tools/hvmc/src/codegen.cpp:180-204 | and only then, among all trees of unary and binary operators: the code computes the tree if and only if its operators are arithmetic and it is right-leaf |
| `CodeTheorems.RightNestedSubtractionFails` | src/tools/hvmc/src/codegen.cpp:182-183 | `9 - (5 - 2)` compiles to code that computes 0 |
| `CodeConditions.ConditionCodeRuns` | src/tools/hvmc/src/codegen.cpp:140-166 | every condition goes on or to the label by its code truth, with exactly the registers `Tested` gives |
| `CodeConditions.ComparisonRuns` | src/tools/hvmc/src/codegen.cpp:140-153 | for every comparison the code compares the right value with the left one, or, when the right side is not bare, with itself |
| `CodeConditions.ValueConditionRuns` | src/tools/hvmc/src/codegen.cpp:160-165 | a condition that is no binary operation is tested for zero |
| `CodeConditions.ConditionRuns` | src/tools/hvmc/src/codegen.cpp:140-166 | a supported condition falls through when true and goes to the label when false, leaving the store |
| `CodeConditions.WorksExactlyWhen` | src/tools/hvmc/src/codegen.cpp:140-166 | wherever it stands, the code of a condition is right if and only if its code truth is the truth |
| `CodeConditions.BranchRightExactlyWhen` | src/tools/hvmc/src/codegen.cpp:144-153 | whatever operators, equality and order mean, the branch of a comparison is right if and only if both sides are arithmetic, the left one right-leaf and the right one a leaf or a repetition of it |
| `CodeConditions.OrderedBranchRightExactlyWhen` | src/tools/hvmc/src/codegen.cpp:144-153 | with a true equality and a strict order, if and only if the right side is a leaf behind a right-leaf left side, or repeats any left side |
| `CodeConditions.OtherConditionsFallThrough` | src/tools/hvmc/src/codegen.cpp:154-158 | any other binary condition (`&&`, logical or, arithmetic), over operands of any kind, emits no branch: the code always falls through |
| `CodeOutcomes.SomeWay` | src/tools/hvmc/src/codegen.cpp:140-166 | a condition comes out true or false by one of its sets of answers |
| `CodeOutcomes.WayDecides` | src/tools/hvmc/src/codegen.cpp:140-166 | and each of them decides it |
| `CodeOutcomes.TestIsMade` | src/tools/hvmc/src/codegen.cpp:140-166 | the code truth of a condition is the truth of the condition the code tests |
| `CodeOutcomes.ConditionRightExactlyWhen` | src/tools/hvmc/src/codegen.cpp:140-166 | for every condition of operators over constants and variables: its code is right, whatever operators, equality and order mean, if and only if each set of answers on which code and condition part answers one question both ways |
| `CodeOutcomes.FallThroughRightExactlyWhen` | src/tools/hvmc/src/codegen.cpp:154-158 | a binary condition without a branch is right if and only if each way to make it false answers one question both ways |
| `CodeOrdered.ProofHolds` | src/tools/hvmc/src/codegen.cpp:140-166 | what is proved from answers by equality, order and congruence holds on every machine where they hold |
| `CodeOrdered.ModelValue` | src/tools/hvmc/src/codegen.cpp:140-166 | on the machine built from answers every expression has the value of all that are provably equal to it |
| `CodeOrdered.OrderedConditionRightExactlyWhen` | src/tools/hvmc/src/codegen.cpp:140-166 | for every condition: with a true equality and a strict order its code is right if and only if each set of answers on which code and condition part is refutable |
| `CodeOrdered.OrderedFallThroughRightExactlyWhen` | src/tools/hvmc/src/codegen.cpp:154-158 | for the binary conditions without a branch, logical or included: if and only if each way to make it false is refutable |
| `CodeOrdered.ConjunctionRightExactlyWhen` | src/tools/hvmc/src/codegen.cpp:154-158 | for conjunctions that means `==`, `<=` and `>=` of an expression with itself throughout |
| `CodeDepartures.SilentExactlyWhen` | src/tools/hvmc/src/codegen.cpp:14-64 | a statement emits no code if and only if it is an expression statement other than inline assembly, `break`, `continue`, empty, a bare declaration, or a block of these |
| `CodeDepartures.SilentBodyDoesNothing` | src/tools/hvmc/src/codegen.cpp:66-78 | a function made of assignments returns with registers and store as they were |
| `CodeDepartures.UnaryOperatorsAreDropped` | src/tools/hvmc/src/codegen.cpp:202-204 | unary operators are dropped at any depth: an expression has the code of its form without them |
| `CodeDepartures.BareFormIsComputed` | src/tools/hvmc/src/codegen.cpp:202-204 | so it is computed as that form is, and with a unary operator anywhere in it its own value is not |
| `CodeDepartures.ConditionsLoseUnaryOperators` | src/tools/hvmc/src/codegen.cpp:140-166 | a condition has the branches of its form without unary operators, unless these keep a binary operation from being the condition |
| `CodeDepartures.NegationRightExactlyWhen` | src/tools/hvmc/src/codegen.cpp:140-166 | for any `x` that is no binary operation the code of `!x` is right on exactly the machines and stores on which that of `x` is wrong |
| `CodeDepartures.NegatedLeafIsWrong` | src/tools/hvmc/src/codegen.cpp:140-166 | `!x` over a constant or variable branches the wrong way every time |
| `CodeDepartures.InitializerIsNotStored` | src/tools/hvmc/src/codegen.cpp:80-87 | a declaration computes its initialiser, loads the variable over it and changes no store: the value is there if and only if the variable held it before |
| `CodeDepartures.InitializerHeldExactlyWhen` | src/tools/hvmc/src/codegen.cpp:80-87 | on every machine that is so if and only if the variable is initialised with itself |
| `CodeConditions.InvertedComparisonRuns` | src/tools/hvmc/src/codegen.cpp:140-157 | with the sense inverted a comparison that holds goes to the label and one that fails goes on |
| `CodeConditions.InvertedValueRuns` | src/tools/hvmc/src/codegen.cpp:158-165 | and so do values tested for zero |
| `CodeSimulation.StatementSimulated` | src/tools/hvmc/src/codegen.cpp:14-138 | each supported statement's code follows its big-step execution, step count and loop fuel included |
| `CodeSimulation.BlockSimulated` | src/tools/hvmc/src/codegen.cpp:26-29 | blocks |
| `CodeSimulation.IfSimulated` | src/tools/hvmc/src/codegen.cpp:89-103 | both branches join behind the statement |
| `CodeSimulation.LoopSimulated` | src/tools/hvmc/src/codegen.cpp:105-127 | any number of turns, and divergence: code still running after as many steps as turns asked for |
| `CodeSimulation.ForSimulated` | src/tools/hvmc/src/codegen.cpp:116-127 | initialiser, loop and step |
| `CodeSimulation.DoSimulated` | src/tools/hvmc/src/codegen.cpp:129-138 | the body runs before the first test |
| `CodeSimulation.FunctionSimulated` | src/tools/hvmc/src/codegen.cpp:66-78 | a function from its prologue on |
| `CodeSimulation.FunctionCorrect` | src/tools/hvmc/src/codegen.cpp:14-166 | the compiled function halts if and only if the structured execution ends, and whenever both do they agree on the store and the returned value; for every machine word, memory and `asm` meaning |
| `CodeMemory.CodeRuns` | src/tools/hvmc/src/codegen.cpp:168-250 | running the code of any expression without string literals, calls and indexing included, anywhere in a program, reaches its end with exactly the registers and store `After` gives |
| `CodeMemory.ElementRuns` | src/tools/hvmc/src/codegen.cpp:239-246 | the three lines behind both operands shift the index left by three, add it to the base and load from there |
| `CodeMemory.ArgumentsRun` | src/tools/hvmc/src/codegen.cpp:225-228 | the code of the arguments, one after the other |
| `CodeValues.TermRegisters` | src/tools/hvmc/src/codegen.cpp:168-250 | what the code leaves in the target, in r1 and in r2, and that it changes nothing else, the store included |
| `CodeValues.PlainAgrees` | src/tools/hvmc/src/codegen.cpp:168-204 | on operators alone these are the notions of `CodeTheorems` |
| `CodeValues.ExpandedMeans` | src/tools/hvmc/src/codegen.cpp:239-246 | an element is the doubleword at the base plus the index shifted left by three |
| `CodeValues.ComputedGives` | src/tools/hvmc/src/codegen.cpp:168-250 | on every machine the code of a computed term (arithmetic, addresses, dereferences and indexing whose second operands do not disturb r1, or leave there what the first one would) gives its value |
| `CodeValues.GivesValueExactlyWhen` | src/tools/hvmc/src/codegen.cpp:168-250 | and only of those |
| `CodeValues.ComputedDelivers` | src/tools/hvmc/src/codegen.cpp:168-250 | so run anywhere it ends with the value in the target: for `*p` the doubleword at p |
| `CodeValues.DeliversExactlyWhen` | src/tools/hvmc/src/codegen.cpp:168-250 | for every term, wherever its code stands: it does on all machines if and only if the term is computed |
| `CodeValues.AssignmentIsNotStored` | src/tools/hvmc/src/codegen.cpp:205-209 | an assignment inside a value leaves the value in the target and stores nothing |
| `CodeValues.UncodedKeepsTarget` | src/tools/hvmc/src/codegen.cpp:168-250 | casts, sizes, members, inline assembly and addresses of anything but a variable have no code: the target keeps what it held |
| `CodeCalls.LaterArguments` | src/tools/hvmc/src/codegen.cpp:225-228 | arguments from the third on are in their registers; the last one that is not direct has overwritten r1 and r2 |
| `CodeCalls.ArgumentsLoaded` | src/tools/hvmc/src/codegen.cpp:225-228 | what is in each argument register at the call |
| `CodeCalls.ArgumentsArriveExactlyWhen` | src/tools/hvmc/src/codegen.cpp:225-228 | on all machines r1, r2 and so on hold the values of the arguments in order if and only if each is computed, except that the first two must be what the last argument behind them that is not direct leaves in r1 and r2, if there is one |
| `CodeCalls.DirectInOrder` | src/tools/hvmc/src/codegen.cpp:225-228 | so any computed first argument and direct computed others arrive, constants and variables for one |
| `CodeCalls.CallCodeRuns` | src/tools/hvmc/src/codegen.cpp:223-233 | the code of a call runs the function once, on these values and the store of before, and leaves its result in the target |
| `CodeWords.SumsMean` | src/tools/hvmc/src/codegen.cpp:184-188 | on 64-bit words with the arithmetic of the processor `+`, `-` and `*` are those of the integers modulo 2^64 |
| `CodeWords.QuotientsMean` | src/tools/hvmc/src/codegen.cpp:188-189 | `/` and `%` are the signed quotient rounded toward zero and its remainder |
| `CodeWords.BitsMean` | src/tools/hvmc/src/codegen.cpp:190-192 | `&`, the bitwise or and `^` work on each of the 64 bits by itself |
| `CodeWords.ShiftsMean` | src/tools/hvmc/src/codegen.cpp:193-194 | shifts multiply by a power of two modulo 2^64, or divide by it |
| `CodeWords.ElementsMean` | src/tools/hvmc/src/codegen.cpp:239-246 | an element lies eight times the index behind the base |
| `CodeWords.IndexLoadsElement` | src/tools/hvmc/src/codegen.cpp:239-246 | the code of `a[i]`, for a computed base and a direct computed index, ends with the doubleword at base + 8 * index in the target |
| `Encoder.OrIntoClearBits` | src/tools/hvmc/src/encoder.cpp:5-19 | or-ing a field into clear bits adds it, for words of any width |
| `Encoder.Uleb128` | src/tools/hvmc/src/encoder.cpp:21-27 | at least one byte |
| `Encoder.Uleb128RoundTrip` | src/tools/hvmc/src/encoder.cpp:21-27 | every value is read back from its ULEB128 bytes, whatever follows (DWARF 5, 7.6) |
| `Encoder.AppendUleb128` | src/tools/hvmc/src/encoder.cpp:21-27 | the byte loop appends exactly the ULEB128 form |
| `Encoder.AppendEscape32` | src/tools/hvmc/src/encoder.cpp:29-37 | prefix, opcode, padding to a multiple of four counted from the buffer's start, payload |
| `Encoder.FindEntry` | src/tools/hvmc/src/encoder.cpp:94-110 | the first entry of that name |
| `Encoder.Encode` | src/tools/hvmc/src/encoder.cpp:94-110 | encoding by name; an unknown name gives no bytes |
| `EncoderTheorems.IndexOfEntry` | src/tools/hvmc/include/hvmc/types.h:137-210 | opcode and function code determine the table entry |
| `EncoderTheorems.EntryShape` | src/tools/hvmc/include/hvmc/types.h:137-210 | escaped entries are exactly those with opcodes from 0x80 up; only NOP has opcode 0 |
| `EncoderTheorems.RWord` | src/tools/hvmc/src/encoder.cpp:5-7 | an R word is the nest of its fields, no field spilling into another |
| `EncoderTheorems.IWord` | src/tools/hvmc/src/encoder.cpp:9-11 | the same for I and B words |
| `EncoderTheorems.JWord` | src/tools/hvmc/src/encoder.cpp:17-19 | the same for J words |
| `EncoderTheorems.FieldsRoundTrip` | src/tools/hvmc/src/encoder.cpp:5-92 | operands and the low opcode bits are read back from the payload, for all five formats |
| `EncoderTheorems.BaseDecodes` | src/tools/hvmc/src/encoder.cpp:55-92 | a 4-byte instruction is read back; it looks escaped to the documented rule exactly when its low operand ends in 0xFE |
| `EncoderTheorems.EscapeDecodes` | src/tools/hvmc/src/encoder.cpp:29-37 | an 8-byte instruction is read back, and by both rules |
| `EncoderTheorems.StreamDecodes` | src/tools/hvmc/src/encoder.cpp:55-92 | reading by the opcode field recovers every list of canonical instructions |
| `EncoderTheorems.StreamsAreUnique` | src/tools/hvmc/src/encoder.cpp:55-92 | two different canonical lists never give the same bytes |
| `EncoderTheorems.PrefixDecoderExact` | src/tools/hvmc/src/encoder.cpp:29-92 | the documented 0xFE-prefix decoder recovers a canonical list if and only if no 4-byte instruction has low byte 0xFE |
| `Mnemonics.MnemonicFindsEntry` | src/tools/hvmc/include/hvmc/types.h:137-210 | the table's names are distinct: looking one up finds its own entry |
| `Mnemonics.MnemonicsAreUpper` | src/tools/hvmc/include/hvmc/types.h:137-210 | and upper case, so the assembler's case folding does not miss them |
| `InstructionSet.OpcodeMap` | src/tools/hvmc/include/hvmc/types.h:137-210 | all 72 mnemonics are found with the opcode, function code and format of the instruction reference, escaped from 0x80 up |
| `InstructionSet.AnyCaseFinds` | src/tools/hvmc/src/assembler.cpp:334-342 | and in any mixture of upper and lower case |
| `FlatMemory.FlatMemory.constructor` | src/hvm_sim_mem/memory.cpp:11 | zeros |
| `FlatMemory.FlatMemory.CheckBounds` | src/hvm_sim_mem/memory.cpp:84-88 | the 64-bit comparison, wrap-around included |
| `FlatMemory.FlatMemory.ReadByte` | src/hvm_sim_mem/memory.cpp:13-16 | the byte or the fault |
| `FlatMemory.FlatMemory.ReadHalf` | src/hvm_sim_mem/memory.cpp:18-21 | two bytes, little-endian |
| `FlatMemory.FlatMemory.ReadWord` | src/hvm_sim_mem/memory.cpp:23-29 | four |
| `FlatMemory.FlatMemory.ReadDword` | src/hvm_sim_mem/memory.cpp:31-41 | eight |
| `FlatMemory.FlatMemory.WriteByte` | src/hvm_sim_mem/memory.cpp:43-46 | in place, or a fault and nothing |
| `FlatMemory.FlatMemory.WriteHalf` | src/hvm_sim_mem/memory.cpp:48-52 | the same for two bytes |
| `FlatMemory.FlatMemory.WriteWord` | src/hvm_sim_mem/memory.cpp:54-60 | four |
| `FlatMemory.FlatMemory.WriteDword` | src/hvm_sim_mem/memory.cpp:62-72 | eight |
| `FlatMemory.FlatMemory.LoadBytes` | src/hvm_sim_mem/memory.cpp:74-77 | a whole buffer |
| `FlatMemory.FlatMemory.Dump` | src/hvm_sim_mem/memory.cpp:79-82 | a slice, or a fault |
| `FlatMemory.LoadsAgree` | src/hvm_sim_mem/memory.cpp:11-88 | a flat memory loads what one region at address 0 loads, faults included |
| `FlatMemory.StoresAgree` | src/hvm_sim_mem/memory.cpp:11-88 | and stores what it stores |
| `Memory.MemorySystem.constructor` | src/hvm_sim_mem/memory.cpp:94 | empty |
| `Memory.MemorySystem.AddRegion` | src/hvm_sim_mem/memory.cpp:96-104 | appends a zeroed region |
| `Memory.MemorySystem.AddRom` | src/hvm_sim_mem/memory.cpp:106-114 | appends the data, read-only |
| `Memory.MemorySystem.AddRam` | src/hvm_sim_mem/memory.cpp:116-124 | appends zeros, writable |
| `Memory.MemorySystem.AddMmio` | src/hvm_sim_mem/memory.cpp:126-137 | appends a region and registers its base |
| `Memory.MemorySystem.FindRegion` | src/hvm_sim_mem/memory.cpp:139-155 | the first region containing the address, by the wrapping comparison |
| `Memory.MemorySystem.BoundsCheck` | src/hvm_sim_mem/memory.cpp:157-166 | the region that holds the access, or out of range |
| `Memory.MemorySystem.ReadByte` | src/hvm_sim_mem/memory.cpp:168-181 | a byte, the handler of an MMIO region, or a fault |
| `Memory.MemorySystem.ReadHalf` | src/hvm_sim_mem/memory.cpp:183-189 | the little-endian value of two bytes of one region |
| `Memory.MemorySystem.ReadWord` | src/hvm_sim_mem/memory.cpp:191-199 | four |
| `Memory.MemorySystem.ReadDword` | src/hvm_sim_mem/memory.cpp:201-213 | eight |
| `Memory.MemorySystem.ReadBytes` | src/hvm_sim_mem/memory.cpp:271-276 | the bytes of one region, or a fault |
| `Memory.MemorySystem.WriteByte` | src/hvm_sim_mem/memory.cpp:215-234 | stores, calls the handler or faults, and says which |
| `Memory.MemorySystem.WriteHalf` | src/hvm_sim_mem/memory.cpp:236-243 | writes two bytes or changes nothing |
| `Memory.MemorySystem.WriteWord` | src/hvm_sim_mem/memory.cpp:245-254 | four |
| `Memory.MemorySystem.WriteDword` | src/hvm_sim_mem/memory.cpp:256-269 | eight |
| `Memory.MemorySystem.WriteBytes` | src/hvm_sim_mem/memory.cpp:278-284 | any length, with both faults |
| `Memory.MemorySystem.SetReadOnly` | src/hvm_sim_mem/memory.cpp:286-293 | the first region of that base and size only |
| `Memory.MemorySystem.Clear` | src/hvm_sim_mem/memory.cpp:295-298 | regions and handlers go |
| `Memory.MemorySystem.GetTotalSize` | src/hvm_sim_mem/memory.cpp:300-306 | the sum of the sizes |
| `MemoryTheorems.LoadReadsBytes` | src/hvm_sim_mem/memory.cpp:183-213 | a load is the little-endian composition of the bytes of the flat map at its addresses |
| `MemoryTheorems.RegionFoundExactlyWhen` | src/hvm_sim_mem/memory.cpp:139-155 | a region is found at its own addresses if and only if it ends below 2^64; otherwise no address finds it |
| `MemoryTheorems.AccessExactlyWhen` | src/hvm_sim_mem/memory.cpp:157-166 | an access of n bytes is possible if and only if one (for a store, writable) region holds them all |
| `MemoryTheorems.AdjacentRegionsDoNotJoin` | src/hvm_sim_mem/memory.cpp:157-166 | the bytes of an access across two adjacent regions are all mapped, and it is refused |
| `MemoryTheorems.StoreWritesBytes` | src/hvm_sim_mem/memory.cpp:236-284 | a store changes exactly the addresses it names |
| `MemoryTheorems.LoadOfStored` | src/hvm_sim_mem/memory.cpp:183-284 | what was stored is loaded back |
| `MemoryTheorems.LoadElsewhere` | src/hvm_sim_mem/memory.cpp:183-284 | a disjoint load is not affected |
| `MemoryTheorems.LoadStaysPossible` | src/hvm_sim_mem/memory.cpp:139-166 | where loads are possible no store changes |
| `MemoryTheorems.StoreStaysPossible` | src/hvm_sim_mem/memory.cpp:139-166 | nor where stores are |
| `MemoryTheorems.AddingKeepsBytes` | src/hvm_sim_mem/memory.cpp:96-155 | adding a region, overlapping or not, never changes a byte already mapped |
| `MemoryTheorems.ReadOnlyBytesLast` | src/hvm_sim_mem/memory.cpp:96-298 | over any sequence of operations, regions and handlers added and all, read-only bytes keep their value until protection is lifted or the memory cleared |
| `MemoryTheorems.WideAccessBypassesHandler` | src/hvm_sim_mem/memory.cpp:168-284 | byte accesses to an MMIO region reach its handler, wider ones read and write the backing bytes |
| `ElfWriter.Bytes.W8` | src/tools/hvmc/src/elf.cpp:7 | appends the low byte |
| `ElfWriter.Bytes.W16le` | src/tools/hvmc/src/elf.cpp:8 | the low two bytes, little-endian |
| `ElfWriter.Bytes.W32le` | src/tools/hvmc/src/elf.cpp:9 | four |
| `ElfWriter.Bytes.W64le` | src/tools/hvmc/src/elf.cpp:10 | eight |
| `ElfWriter.Bytes.AddStr` | src/tools/hvmc/src/elf.cpp:23-28 | returns the 32-bit offset the string starts at, appends it and a NUL |
| `ElfWriter.Bytes.WPhdr` | src/tools/hvmc/src/elf.cpp:12-21 | the 56 bytes of a program header, the address twice |
| `ElfWriter.Bytes.PadTo` | src/tools/hvmc/src/elf.cpp:280-286 | zeros up to a position, nothing when it is past |
| `ElfWriter.SectionTable.Add` | src/tools/hvmc/src/elf.cpp:86-112 | a name into the string table and a record with its offset |
| `ElfWriter.SectionTable.AddNames` | src/tools/hvmc/src/elf.cpp:185-190 | the name table is the last section and holds its own name |
| `ElfWriter.CollectData` | src/tools/hvmc/src/elf.cpp:62-66 | of two sections of one name the later wins |
| `ElfWriter.BuildSymbols` | src/tools/hvmc/src/elf.cpp:114-138 | null symbol, section symbols, then the globals with 64-bit addresses in executables |
| `ElfWriter.WriteSymtab` | src/tools/hvmc/src/elf.cpp:140-150 | 24 bytes a symbol |
| `ElfWriter.WriteRela` | src/tools/hvmc/src/elf.cpp:166-173 | 24 bytes a relocation, the addend in two's complement |
| `ElfWriter.BuildSections` | src/tools/hvmc/src/elf.cpp:44-192 | all section records in order, links patched |
| `ElfWriter.Layout` | src/tools/hvmc/src/elf.cpp:201-212 | aligned offsets for sections with bytes, 0 for the others |
| `ElfWriter.EntryPoint` | src/tools/hvmc/src/elf.cpp:228-238 | the last of the three entry names wins |
| `ElfWriter.WriteHeader` | src/tools/hvmc/src/elf.cpp:218-247 | the 64 header bytes |
| `ElfWriter.FindSpan` | src/tools/hvmc/src/elf.cpp:252-267 | extent of the allocated sections in file and memory |
| `ElfWriter.WriteProgramHeader` | src/tools/hvmc/src/elf.cpp:249-278 | one PT_LOAD |
| `ElfWriter.WriteBody` | src/tools/hvmc/src/elf.cpp:280-286 | padding and data reproduce the offsets computed before |
| `ElfWriter.WriteSectionHeaders` | src/tools/hvmc/src/elf.cpp:288-301 | 64 bytes a section |
| `ElfWriter.WriteElf` | src/tools/hvmc/src/elf.cpp:44-304 | the whole file |
| `ElfWriter.WriteExecutable` | src/tools/hvmc/src/elf.cpp:306-310 | the same with the executable flag set |
| `ElfTheorems.NameReads` | src/tools/hvmc/src/elf.cpp:23-28 | a name is read back at the offset recorded for it |
| `ElfTheorems.HeaderOfSection` | src/tools/hvmc/src/elf.cpp:288-301 | a section header is read back field by field |
| `ElfTheorems.ReadBack` | src/tools/hvmc/src/elf.cpp:44-304 | a reader that follows e_shoff, e_shentsize, e_shnum and e_shstrndx (System V gABI, chapter 4) recovers every section: name, type, flags, address, links, alignment and exact bytes; for every object file without 64-bit overflow |
| `ElfTheorems.SectionsApart` | src/tools/hvmc/src/elf.cpp:201-212 | data ranges are disjoint, behind the program header and in front of the section headers |
| `ElfTheorems.SectionAligned` | src/tools/hvmc/src/elf.cpp:201-212 | and aligned |
| `ElfTheorems.FileLength` | src/tools/hvmc/src/elf.cpp:201-215 | the file is e_shoff + 64 e_shnum bytes long |
| `ElfImage.OffsetFollowsAddress` | src/tools/hvmc/src/elf.cpp:68-83 | offset minus address is the same constant for all non-empty allocated sections |
| `ElfImage.SegmentFacts` | src/tools/hvmc/src/elf.cpp:249-278 | the segment's offset, address, p_filesz, and p_memsz as p_filesz rounded up to 8 |
| `ElfImage.EmptySegmentFacts` | src/tools/hvmc/src/elf.cpp:249-278 | with nothing to load the offset is 2^64 - 1 and the file size wraps to 1 |
| `ElfImage.ImageFaithful` | src/tools/hvmc/src/elf.cpp:68-83 | loading the one PT_LOAD segment puts every byte of every allocated section at its sh_addr |
| `ElfImage.SegmentInFileExactlyWhen` | src/tools/hvmc/src/elf.cpp:249-278 | the segment lies in the file if and only if some allocated section is non-empty |
| `ElfImage.SegmentNotCongruent` | src/tools/hvmc/src/elf.cpp:276-277 | p_offset and p_vaddr always differ modulo p_align, against chapter 5 of the gABI |
| `ElfSymbols.SymbolsReadBack` | src/tools/hvmc/src/elf.cpp:124-149 | name, binding, type, section, value and size of every global symbol are read back |
| `ElfSymbols.SymbolPointsAtItsByte` | src/tools/hvmc/src/elf.cpp:130-136 | in an executable a symbol's value is the address its byte is loaded at |
| `ElfSymbols.StrtabStartsWithNul` | src/tools/hvmc/src/elf.cpp:118-127 | `.strtab` starts with a NUL if and only if the first name is empty or starts with one |
| `ElfSymbols.SymtabInfoTooSmall` | src/tools/hvmc/src/elf.cpp:153 | sh_info is 1 although five entries are local |
| `ElfSymbols.RelocationsReadBack` | src/tools/hvmc/src/elf.cpp:163-175 | offset, symbol, type and addend of every relocation are read back |
| `ElfEntry.NoStartNoEntry` | src/tools/hvmc/src/elf.cpp:230-242 | without a symbol named `_start`, `main` or `kernel_main` the entry read at byte 24 of the file is 0 |
| `ElfEntry.RelocatableEntry` | src/tools/hvmc/src/elf.cpp:230-242 | in a relocatable file it is the bare value of the last such symbol |
| `ElfEntry.ExecutableEntry` | src/tools/hvmc/src/elf.cpp:230-242 | in an executable it is that value behind the address in the header of the symbol's section: of `.text` for an index of 0 or less, of none above 4 |
| `ElfEntry.EntryIsSymbolValue` | src/tools/hvmc/src/elf.cpp:163-242 | for an index above 0 that is the value read from the symbol's own entry in the symbol table |
| `ElfEntry.EntryPointsAtItsByte` | src/tools/hvmc/src/elf.cpp:163-312 | so an executable starts at the address the symbol's byte is loaded at |
| `ElfEntry.FileKind` | src/tools/hvmc/src/elf.cpp:219-252 | identification, type, machine 0x9999, version, flags and header sizes as the gABI places them |
| `ElfEntry.SegmentKind` | src/tools/hvmc/src/elf.cpp:255-283 | the program header is a PT_LOAD with all permissions, equal addresses and pages of 4096 bytes |
| `ElfEntry.SectionsFound` | src/tools/hvmc/src/elf.cpp:85-190 | names, types, flags, alignments, entry sizes and links of all sections a reader finds |
| `ElfEntry.AddressesFollow` | src/tools/hvmc/src/elf.cpp:76-111 | `.text`, `.rodata`, `.data` and `.bss` follow each other in memory from 0x100000 on, each at the first multiple of 8 |
| `CpuMachine.HvmCpu.WriteReg` | src/hvm_sim_core/executor.cpp:123-153 | register 0 stays 0 |
| `CpuMachine.HvmCpu.SignalTrap` | src/hvm_sim_core/executor.cpp:544-550 | cause, value and pc saved, interrupts masked, the vector taken |
| `CpuMachine.HvmCpu.TickTimer` | src/hvm_sim_core/executor.cpp:33-38 | time moves on; a due and enabled timer traps |
| `CpuMachine.HvmCpu.ReadWidth` | src/hvm_sim_core/executor.cpp:379-429 | one access of 1, 2, 4 or 8 bytes |
| `CpuMachine.HvmCpu.WriteWidth` | src/hvm_sim_core/executor.cpp:439-465 | the same for writes |
| `CpuMachine.HvmCpu.ExecuteLoad` | src/hvm_sim_core/executor.cpp:379-429 | all loads, sign and zero extending |
| `CpuMachine.HvmCpu.ExecuteStore` | src/hvm_sim_core/executor.cpp:439-465 | all stores |
| `CpuMachine.HvmCpu.ExecuteLoadPair` | src/hvm_sim_core/executor.cpp:431-437 | two loads; the first has happened when the second throws |
| `CpuMachine.HvmCpu.ExecuteStorePair` | src/hvm_sim_core/executor.cpp:467-473 | two stores |
| `CpuMachine.HvmCpu.ExecuteLoadNonZero` | src/hvm_sim_core/executor.cpp:641-651 | a null base traps, anything else loads |
| `CpuMachine.HvmCpu.ExecutePush` | src/hvm_sim_core/executor.cpp:480-485 | r31 moves before the store |
| `CpuMachine.HvmCpu.ExecutePop` | src/hvm_sim_core/executor.cpp:487-492 | the load, the register, then r31 |
| `CpuMachine.HvmCpu.ExecuteEnter` | src/hvm_sim_core/executor.cpp:494-504 | two stores, then both registers |
| `CpuMachine.HvmCpu.ExecuteLeave` | src/hvm_sim_core/executor.cpp:506-513 | two loads and three registers |
| `CpuMachine.HvmCpu.ExecuteLoadReserved` | src/hvm_sim_core/executor.cpp:561-568 | the reservation is the address loaded |
| `CpuMachine.HvmCpu.ExecuteStoreConditional` | src/hvm_sim_core/executor.cpp:570-581 | stores and clears, or reports 1 and keeps the reservation |
| `CpuMachine.HvmCpu.ExecuteVLoad` | src/hvm_sim_core/executor.cpp:670-679 | the lane loop, in the three addressing modes |
| `CpuMachine.HvmCpu.ExecuteVStore` | src/hvm_sim_core/executor.cpp:681-690 | the same for stores |
| `CpuMachine.HvmCpu.ExecuteVSetVl` | src/hvm_sim_core/executor.cpp:657-668 | at most four lanes |
| `CpuMachine.HvmCpu.ExecuteLoopDecBr` | src/hvm_sim_core/executor.cpp:604-615 | the three cases of the counter |
| `CpuMachine.HvmCpu.ExecuteCsrSwap` | src/hvm_sim_core/executor.cpp:583-592 | old value out, new value in unless rs1 is r0 |
| `CpuMachine.HvmCpu.ExecuteJumpLink` | src/hvm_sim_core/executor.cpp:360-366 | link and target from the same pc |
| `CpuMachine.HvmCpu.ExecuteJumpLinkReg` | src/hvm_sim_core/executor.cpp:368-373 | the link is written before the base is read |
| `CpuMachine.HvmCpu.ExecuteControl` | src/hvm_sim_core/executor.cpp:326-377 | branches, jumps, calls, hardware loops |
| `CpuMachine.HvmCpu.ExecuteSystem` | src/hvm_sim_core/executor.cpp:544-559 | traps, trap return, CSR access |
| `CpuMachine.HvmCpu.ExecuteRegister` | src/hvm_sim_core/executor.cpp:119-268 | register arithmetic |
| `CpuMachine.HvmCpu.ExecuteAccess` | src/hvm_sim_core/executor.cpp:379-513 | everything that accesses memory |
| `CpuMachine.HvmCpu.ExecuteInst` | src/hvm_sim_core/executor.cpp:116-924 | the whole instruction, the partial effects of one that throws included |
| `CpuMachine.HvmCpu.Step` | src/hvm_sim_core/executor.cpp:926-968 | one step: undecodable, executed and ticked, or trapped |
| `CpuStack.PushStep` | src/hvm_sim_core/executor.cpp:480-485 | the value is at the new top and nothing from the old top up changed |
| `CpuStack.PopStep` | src/hvm_sim_core/executor.cpp:487-492 | the value at the top moves to the register |
| `CpuStack.EnterStep` | src/hvm_sim_core/executor.cpp:494-504 | link and frame pointer are saved below the old top |
| `CpuStack.LeaveStep` | src/hvm_sim_core/executor.cpp:506-513 | link, frame and stack pointer come from the frame |
| `CpuStack.PopAfterPush` | src/hvm_sim_core/executor.cpp:480-492 | POP returns the value of its PUSH whatever quiet code ran between |
| `CpuStack.LeaveAfterEnter` | src/hvm_sim_core/executor.cpp:494-513 | LEAVE restores link, frame and stack pointer of its ENTER |
| `CpuStack.StackDiscipline` | src/hvm_sim_core/executor.cpp:480-513 | any well-bracketed run of PUSH..POP and ENTER..LEAVE, at any depth and with quiet code in it, ends with r30, r31 and every byte from the entry stack pointer up as they were |
| `CpuStack.FrameRestoresLink` | src/hvm_sim_core/executor.cpp:494-513 | r29 too, across each ENTER..LEAVE |
| `CpuStack.PopGivesPushedValue` | src/hvm_sim_core/executor.cpp:480-492 | a PUSH..POP pair around disciplined code moves the pushed value |
| `CpuStack.PlainIsQuiet` | src/hvm_sim_core/executor.cpp:119-268 | register instructions and loads that leave r30 and r31 are quiet |
| `CpuStack.StoreBelowIsQuiet` | src/hvm_sim_core/executor.cpp:439-465 | so is a store that ends at or below the stack pointer |
| `CpuStack.PopIntoStackPointer` | src/hvm_sim_core/executor.cpp:487-492 | POP r31 loses the stack: r31 becomes the value plus 8 |
| `CpuFrames.StraightIgnoresCsr` | src/hvm_sim_core/executor.cpp:116-924 | straight-line code neither reads nor writes a control register |
| `CpuFrames.StepsAreExecs` | src/hvm_sim_core/executor.cpp:926-968 | with interrupts masked, steps do what the instructions do, but for the time |
| `CpuFrames.SteppedDiscipline` | src/hvm_sim_core/executor.cpp:480-513 | bracketed straight-line code fetched step by step, the timer ticking: a disciplined run ends behind it with r30, r31 and every byte from the entry stack pointer up as at entry |
| `CpuFaults.OthersNeverThrow` | src/hvm_sim_core/executor.cpp:116-924 | only memory instructions can throw |
| `CpuFaults.PreciseFault` | src/hvm_sim_core/executor.cpp:933-964 | an instruction with one access that throws has changed nothing; the step only takes trap 2 |
| `CpuFaults.TrapKeeps` | src/hvm_sim_core/executor.cpp:926-964 | and the trap masks interrupts and keeps registers, vectors, memory, loop counter and reservation |
| `CpuFaults.TrapReturnUndoesTrap` | src/hvm_sim_core/executor.cpp:552-559 | a trap return right after trap entry goes back to the pc, the privilege and the interrupt enable of before |
| `CpuFaults.WritingBackKeeps` | src/hvm_sim_core/executor.cpp:583-592 | writing a control register back as it was read changes none of them |
| `CpuFaults.AccessPossibleExactlyWhen` | src/hvm_sim_mem/memory.cpp:157-181 | a read or write of 1, 2, 4 or 8 bytes works if and only if one (for a write, writable) region holds them all |
| `CpuFaults.LoadThrowsExactlyWhen` | src/hvm_sim_core/executor.cpp:379-429 | a load throws if and only if no region holds all its bytes |
| `CpuFaults.StoreThrowsExactlyWhen` | src/hvm_sim_core/executor.cpp:439-465 | a store throws if and only if no writable region does |
| `CpuFaults.PushFault` | src/hvm_sim_core/executor.cpp:480-485 | a PUSH that throws has moved the stack pointer: never precise |
| `CpuFaults.EnterFault` | src/hvm_sim_core/executor.cpp:494-504 | an ENTER that throws has changed nothing if and only if its first store failed or wrote what was there |
| `CpuFaults.LeaveFault` | src/hvm_sim_core/executor.cpp:506-513 | a LEAVE that throws has changed nothing if and only if its first load failed or r29 held the value loaded |
| `CpuFaults.LoadPairFault` | src/hvm_sim_core/executor.cpp:431-437 | the same for LD.P and its first register, which may also be r0 |
| `CpuFaults.StorePairFault` | src/hvm_sim_core/executor.cpp:467-473 | and for ST.P and its first store |
| `CpuFaults.VLoadFault` | src/hvm_sim_core/executor.cpp:670-679 | a vector load that throws has loaded exactly the lanes before the failing one |
| `CpuFaults.VStoreFault` | src/hvm_sim_core/executor.cpp:681-690 | a vector store has stored them |
| `CpuFaults.EnterCanBeImprecise` | src/hvm_sim_core/executor.cpp:494-504 | on some machine ENTER faults with memory changed |
| `CpuFaults.LeaveCanBeImprecise` | src/hvm_sim_core/executor.cpp:506-513 | LEAVE with a register changed |
| `CpuFaults.LoadPairCanBeImprecise` | src/hvm_sim_core/executor.cpp:431-437 | LD.P with a register changed |
| `CpuFaults.StorePairCanBeImprecise` | src/hvm_sim_core/executor.cpp:467-473 | ST.P with memory changed |
| `CpuFaults.VLoadCanBeImprecise` | src/hvm_sim_core/executor.cpp:670-679 | a vector load with a lane changed |
| `CpuFaults.VStoreCanBeImprecise` | src/hvm_sim_core/executor.cpp:681-690 | a vector store with memory changed |
| `CpuLoops.StraightStep` | src/hvm_sim_core/executor.cpp:926-968 | with interrupts masked a straight-line instruction that does not throw moves the pc on and keeps the loop counter |
| `CpuLoops.BodyPass` | src/hvm_sim_core/executor.cpp:926-968 | so does a whole body |
| `CpuLoops.DecBrStep` | src/hvm_sim_core/executor.cpp:604-615 | LOOP.DECBR in the three cases of the counter |
| `CpuLoops.LoopProgress` | src/hvm_sim_core/executor.cpp:604-615 | before the last pass control is back at the body with the passes so far counted off |
| `CpuLoops.LoopCount` | src/hvm_sim_core/executor.cpp:598-615 | the body runs exactly max(n, 1) times and control leaves behind LOOP.DECBR with counter 0, for every 64-bit n, provided no pass faults |
| `CpuLoops.LoopFromSet` | src/hvm_sim_core/executor.cpp:598-615 | the same from LOOP.SET on |
| `CpuLoops.RegisterBodySmooth` | src/hvm_sim_core/executor.cpp:119-268 | a body without memory access never faults |
| `CpuLoops.RegisterLoopCount` | src/hvm_sim_core/executor.cpp:598-615 | so for such bodies the count is unconditional |
| `CpuAtomics.StepReservation` | src/hvm_sim_core/executor.cpp:561-581 | each step changes the reservation only as its LR.D or successful SC.D says |
| `CpuAtomics.ReservationIsLastLink` | src/hvm_sim_core/executor.cpp:561-581 | along any run from none, the reservation is that of the last such event |
| `CpuAtomics.StoreConditionalSucceedsExactlyWhen` | src/hvm_sim_core/executor.cpp:570-581 | an SC.D whose store does not fault succeeds if and only if the last event is an LR.D of its address, and rd says so |
| `CpuAtomics.StoresNeverOutnumberLinks` | src/hvm_sim_core/executor.cpp:561-581 | successful SC.D steps never outnumber LR.D steps |
| `CpuAtomics.StoredFollowsLink` | src/hvm_sim_core/executor.cpp:561-581 | each successful SC.D follows an LR.D of its address with neither event in between |
| `CpuAtomics.PlainStoreDoesNotCancel` | src/hvm_sim_core/executor.cpp:439-465 | a plain store to the reserved address leaves the reservation |
| `CpuVectors.LanesLoaded` | src/hvm_sim_core/executor.cpp:670-679 | lanes hold the doublewords of memory, other lanes and registers stay |
| `CpuVectors.LanesStored` | src/hvm_sim_core/executor.cpp:681-690 | memory holds the lanes, other bytes stay |
| `CpuVectors.RoundRuns` | src/hvm_sim_core/executor.cpp:657-690 | one round of VSETVL, VLD.V, VST.V and address arithmetic copies min(n, 4) doublewords |
| `CpuVectors.StripMinedCopy` | src/hvm_sim_core/executor.cpp:657-690 | ceil(n/4) rounds copy any n doublewords between disjoint mapped ranges, change no other byte and no other register |
| `CpuVectors.CountLeft` | src/hvm_sim_core/executor.cpp:657-690 | and before the last round the count is not used up |
| `CpuArithmetic.ComparisonsCompare` | src/hvm_sim_core/executor.cpp:248-268 | CMPEQ, CMPNE, CMPLT and CMPLE compare the integers held in two's complement, and do nothing else but move the pc on |
| `CpuArithmetic.SumsAndProducts` | src/hvm_sim_core/executor.cpp:140-172 | ADD, SUB, MUL, ADDI and LDA compute modulo 2^64, whatever integers the words stand for |
| `CpuArithmetic.SubUndoesAdd` | src/hvm_sim_core/executor.cpp:159-167 | SUB right behind an ADD gives the first addend back |
| `CpuArithmetic.DivisionDivides` | src/hvm_sim_core/executor.cpp:174-208 | DIV and REM give quotient and remainder: x = q y + r, r smaller than y and zero or of the sign of x; by zero all ones and the dividend |
| `CpuArithmetic.DividesOnce` | src/hvm_sim_core/executor.cpp:174-208 | there is only one such pair |
| `CpuArithmetic.UnsignedDivision` | src/hvm_sim_core/executor.cpp:186-196 | DIVU the same for unsigned words |
| `CpuArithmetic.ShiftsScale` | src/hvm_sim_core/executor.cpp:210-226 | SHL multiplies by a power of two modulo 2^64; SHR and SAR divide by one, rounding down, unsigned and signed |
| `CpuArithmetic.BitByBit` | src/hvm_sim_core/executor.cpp:228-246 | AND, OR, XOR and NOT work on each of the 64 bits by itself |
| `CpuArithmetic.BitsDetermine` | src/hvm_sim_core/executor.cpp:228-246 | which says the whole word |
| `CpuArithmetic.ImmediatePlaced` | src/hvm_sim_core/executor.cpp:128-138 | MOVZ sets bits 0 to 14 and LUI bits 49 to 63 from the immediate, on top of the register |
| `CpuArithmetic.CopiesAndClears` | src/hvm_sim_core/executor.cpp:123-153 | MOV, RETAIN and CHKB copy; RELEASE, ALLOC.BUMP and RDPROF clear |
| `CpuControl.BranchesCompare` | src/hvm_sim_core/executor.cpp:326-352 | a branch is taken if and only if the integers compare so, to four times its immediate away |
| `CpuControl.ReturnFollowsCall` | src/hvm_sim_core/executor.cpp:375-531 | RET comes back behind its CALL, whatever ran in between and kept r29, if and only if that place is aligned to four bytes |
| `CpuControl.TrapVectors` | src/hvm_sim_core/executor.cpp:926-966 | each cause of a trap goes to its own entry, or to the base if traps are not vectored |
| `CpuControl.TimerVector` | src/hvm_sim_core/executor.cpp:33-38 | the timer comes in exactly when due and enabled, behind the sixteen entries for exceptions |
| `CpuControl.CsrSwapExchanges` | src/hvm_sim_core/executor.cpp:583-592 | the register at the address is read, and written unless the source is r0; sstatus keeps bits 0, 1 and 8, stime ignores the value |
| `CpuControl.LoadBringsIn` | src/hvm_sim_core/executor.cpp:379-429 | a load that does not throw writes the integer its bytes hold, for the signed ones in two's complement |
| `CpuControl.StoreLeaves` | src/hvm_sim_core/executor.cpp:439-465 | a store that does not throw changes the bytes it names, to the low bytes of its register, and no others |
| `Assembler.AsmRun.constructor` | src/tools/hvmc/src/assembler.cpp:152-166 | at the first token, in the first pass, in `.text` |
| `Assembler.AsmRun.NextTok` | src/tools/hvmc/src/assembler.cpp:166 | the next token; the end repeats |
| `Assembler.AsmRun.FinishLine` | src/tools/hvmc/src/assembler.cpp:196-197 | over the rest of the line |
| `Assembler.AsmRun.CommitSection` | src/tools/hvmc/src/assembler.cpp:180-183 | the section's data is replaced by the bytes gathered |
| `Assembler.AsmRun.Select` | src/tools/hvmc/src/assembler.cpp:184-195 | the named section becomes current and starts empty |
| `Assembler.AsmRun.RunDirective` | src/tools/hvmc/src/assembler.cpp:173-313 | every directive |
| `Assembler.AsmRun.RunGlobal` | src/tools/hvmc/src/assembler.cpp:201-216 | a global symbol with the label's value, if there is one |
| `Assembler.AsmRun.RunData` | src/tools/hvmc/src/assembler.cpp:218-308 | data bytes and alignment; `AssemblerData` has what they say |
| `Assembler.AsmRun.EmitBytes` | src/tools/hvmc/src/assembler.cpp:218-294 | bytes in the second pass, as many zeros in the first |
| `Assembler.AsmRun.ReadOperands` | src/tools/hvmc/src/assembler.cpp:356-410 | the operand loop |
| `Assembler.AsmRun.ReadMinus` | src/tools/hvmc/src/assembler.cpp:362-375 | negated number or label |
| `Assembler.AsmRun.ReadName` | src/tools/hvmc/src/assembler.cpp:392-409 | a register while fewer than three are taken, else a label, relative for branches in the second pass |
| `Assembler.AsmRun.FindOpcode` | src/tools/hvmc/src/assembler.cpp:334-342 | case-insensitive lookup |
| `Assembler.AsmRun.RunNamed` | src/tools/hvmc/src/assembler.cpp:315-429 | label definition, instruction or ignored line |
| `Assembler.AsmRun.RunPass` | src/tools/hvmc/src/assembler.cpp:168-437 | one pass over the tokens; it terminates because each round takes a token |
| `Assembler.AsmRun.Assemble` | src/tools/hvmc/src/assembler.cpp:157-438 | both passes |
| `Assembler.AssembleText` | src/tools/hvmc/src/assembler.cpp:446-452 | the bytes of `.text` |
| `Assembler.Round` | src/tools/hvmc/src/assembler.cpp:169-432 | each round of the main loop uses up at least one token |
| `Assembler.ParseReg` | src/tools/hvmc/src/assembler.cpp:126-136 | a register number below 32 or -1 |
| `AssemblerTheorems.EncodedSize` | src/tools/hvmc/src/assembler.cpp:349-426 | an instruction's size depends on its table entry alone |
| `AssemblerTheorems.RoundsAgree` | src/tools/hvmc/src/assembler.cpp:168-432 | from states with as many bytes a round of either pass goes on to the same token with as many bytes |
| `AssemblerTheorems.TracesAgree` | src/tools/hvmc/src/assembler.cpp:157-438 | so both passes visit the same tokens with the same `current_data.size()`, whatever the tokens are |
| `AssemblerTheorems.FirstPassLabels` | src/tools/hvmc/src/assembler.cpp:319-325 | after the first pass a label has the size at its last definition |
| `AssemblerTheorems.SecondPassKeepsLabels` | src/tools/hvmc/src/assembler.cpp:319-325 | the second pass changes no label |
| `AssemblerTheorems.LabelIsItsOffset` | src/tools/hvmc/src/assembler.cpp:319-325 | in the second pass a label is the byte offset at which that pass reaches its definition |
| `AssemblerTheorems.StateAtVisit` | src/tools/hvmc/src/assembler.cpp:168-437 | the state of a pass at a visit has as many bytes as the trace says, and in the second pass the labels it started with |
| `AssemblerTheorems.BranchOperandIsDisplacement` | src/tools/hvmc/src/assembler.cpp:397-406 | at any visit of the second pass the operand of a branch is the offset of the last definition of the label minus the offset of the visit, forward or backward |
| `AssemblerListing.NumberedParses` | src/tools/hvmc/src/assembler.cpp:126-136 | the 32 numbered names are the registers |
| `AssemblerListing.ConventionParses` | src/tools/hvmc/include/hvmc/types.h:117-125 | a0 to a6, t0 to t6, s0 to s12 and the five other names are the registers of the table |
| `AssemblerListing.NamesInRAreRegisterZero` | src/tools/hvmc/src/assembler.cpp:131-134 | a name in `r` without a digit behind it is register 0 |
| `AssemblerListing.AheadTokenDropped` | src/tools/hvmc/src/assembler.cpp:318 | the token behind a mnemonic has no effect |
| `AssemblerListing.ListingRuns` | src/tools/hvmc/src/assembler.cpp:168-432 | the main loop takes a listing item by item |
| `AssemblerListing.FirstPassOffsets` | src/tools/hvmc/src/assembler.cpp:319-325 | the first pass finds each label's offset |
| `AssemblerListing.SecondPassBytes` | src/tools/hvmc/src/assembler.cpp:349-426 | the second pass writes each item's bytes with branches resolved |
| `AssemblerListing.ListingAssembles` | src/tools/hvmc/src/assembler.cpp:157-438 | a listing of instructions, labels, branches and data assembles to the bytes of its lines, every branch holding its displacement |
| `AssemblerListing.CodeAssembles` | src/tools/hvmc/src/assembler.cpp:157-452 | without branches `.text` is the instruction stream, which decodes back to the instructions |
| `AssemblerSections.SelectRuns` | src/tools/hvmc/src/assembler.cpp:173-197 | each of the three spellings of a section directive stores the bytes gathered and starts the section empty |
| `AssemblerSections.FirstPassPieces` | src/tools/hvmc/src/assembler.cpp:168-432 | the first pass over any pieces finds each label at its offset in its piece |
| `AssemblerSections.SecondPassPieces` | src/tools/hvmc/src/assembler.cpp:168-432 | the second pass leaves each section the bytes of its last piece |
| `AssemblerSections.ProgramAssembles` | src/tools/hvmc/src/assembler.cpp:157-438 | for any code and any sections behind it: every section ends with exactly the bytes of its last piece, branches resolved; code in front of a first directive is lost, without a directive it is `.text` |
| `AssemblerSections.LastPieceWins` | src/tools/hvmc/src/assembler.cpp:180-195 | a piece whose section is not selected again is all the section holds |
| `AssemblerSections.SectionsAssemble` | src/tools/hvmc/src/assembler.cpp:157-438 | sections selected once each: every section holds exactly its code, every branch the offset of its label minus its own |
| `AssemblerSections.ResolvedIsEmpty` | src/tools/hvmc/src/assembler.cpp:349-426 | code assembles to no bytes if and only if it is labels, empty strings and alignments already met |
| `AssemblerSections.CodeKeptExactlyWhen` | src/tools/hvmc/src/assembler.cpp:152-195 | every section keeps all code written for it if and only if none stands in front of a first directive and none in a piece whose section is selected again |
| `AssemblerSections.NothingLostExactlyWhenDistinct` | src/tools/hvmc/src/assembler.cpp:180-195 | with code in every piece that means no section is selected twice |
| `AssemblerData.SectionReadsBack` | src/tools/hvmc/src/assembler.cpp:157-438 | over any program: a section not selected again is the bytes of its lines one after the other, and those of a data directive say what it says: `.byte`, `.word`, `.short`, `.quad` and `.dword` the number modulo 2^8, 2^16 or 2^64, `.ascii` the characters, `.asciz` and `.string` these and a NUL, `.align` fewer zeros than the alignment, up to a multiple of it |
| `AssemblerData.DataReadsBack` | src/tools/hvmc/src/assembler.cpp:157-438 | a listing of data directives alone is read back from `.text` |
| `AssemblerData.SaidOnce` | src/tools/hvmc/src/assembler.cpp:218-308 | there is only one sequence of bytes that says it |
| `AssemblerData.MoreOperandsAreLost` | src/tools/hvmc/src/assembler.cpp:218-308 | what stands behind the first operand of a data directive has no effect |
| `AssemblerData.WrongOperandIsLost` | src/tools/hvmc/src/assembler.cpp:218-308 | an operand of the wrong kind, the minus sign of a negative number for one, leaves no bytes |
| `AssemblerData.DottedLabelsAreLost` | src/tools/hvmc/src/assembler.cpp:168-312 | a name behind a dot never becomes a label |
| `AssemblerData.DottedLineIsLost` | src/tools/hvmc/src/assembler.cpp:310-312 | and unless it is a directive the rest of its line is lost: the string literals of generated code are |
| `AssemblerDepartures.OpsParse` | src/tools/hvmc/src/assembler.cpp:356-410 | the operand loop takes any list of operands in order up to the end of the line |
| `AssemblerDepartures.FirstOperandLost` | src/tools/hvmc/src/assembler.cpp:317-358 | for every mnemonic and every list of operands the first is lost, of a negative number its sign |
| `AssemblerDepartures.OperandlessTakesNextLine` | src/tools/hvmc/src/assembler.cpp:317-358 | a mnemonic without operands loses the end of its line and takes the next line for its operands |
| `AssemblerDepartures.OperandlessRightExactlyWhen` | src/tools/hvmc/src/assembler.cpp:317-358 | so it assembles as written if and only if nothing follows |
| `AssemblerDepartures.LineRightExactlyWhen` | src/tools/hvmc/src/assembler.cpp:317-427 | a line is right if and only if the operands left give the bytes of those written |
| `AssemblerDepartures.SamePayload` | src/tools/hvmc/src/assembler.cpp:425-426 | two instructions of one table entry have the same bytes if and only if they have the same payload |
| `AssemblerDepartures.RegistersRightExactlyWhen` | src/tools/hvmc/src/assembler.cpp:412-414 | R format with one to three registers: right if and only if all are r0 |
| `AssemblerDepartures.ImmediateRightExactlyWhen` | src/tools/hvmc/src/assembler.cpp:412-415 | I format with an immediate behind one or two registers: right if and only if all are r0 |
| `AssemblerDepartures.BranchRightExactlyWhen` | src/tools/hvmc/src/assembler.cpp:397-415 | B format with two registers and a label: r0 is compared with r0 always, which is right if and only if both registers are r0 |
| `AssemblerDepartures.JumpRightExactlyWhen` | src/tools/hvmc/src/assembler.cpp:397-415 | J format with a label: the label is lost, right if and only if the low 20 bits of the displacement are zero |
| `AssemblerDepartures.JumpLinkRightExactlyWhen` | src/tools/hvmc/src/assembler.cpp:397-415 | J format with a register and a label: right if and only if the register is r0 |
| `AssemblerDepartures.ByteDistanceReachesExactlyWhen` | src/tools/hvmc/src/assembler.cpp:402 | a branch holding a byte displacement reaches its label, executed with the factor 4 of executor.cpp:327, if and only if it is at the label |
| `AssemblerDepartures.GeneratedMnemonicsMissing` | src/tools/hvmc/include/hvmc/types.h:137-210 | `sll`, `srl`, `bge` and `bgt` of the code generator are not in the table |
| `AssemblerDepartures.GeneratedLinesAreLost` | src/tools/hvmc/src/assembler.cpp:334-347 | so their lines assemble to nothing |
| `Preprocessor.Find` | src/tools/hvmc/src/preprocessor.cpp:59 | the first occurrence from a position on |
| `Preprocessor.ExpandMacro` | src/tools/hvmc/src/preprocessor.cpp:54-71 | the find/replace loop terminates, for every name the scan from left to right, the value not rescanned; for a name of identifier characters the text with exactly the maximal identifier runs equal to it replaced |
| `Preprocessor.ScanIsExpand` | src/tools/hvmc/src/preprocessor.cpp:54-71 | for a name of identifier characters scanning replaces exactly the maximal runs equal to it |
| `Preprocessor.WholeWordRun` | src/tools/hvmc/src/preprocessor.cpp:61-62 | an occurrence is a whole word exactly when it is the maximal run |
| `Preprocessor.UpToOccurrence` | src/tools/hvmc/src/preprocessor.cpp:59 | text the search skips is copied |
| `Preprocessor.ReplaceStep` | src/tools/hvmc/src/preprocessor.cpp:61-64 | a replacement keeps what is done and what is still to do together the same |
| `Preprocessor.SkipStep` | src/tools/hvmc/src/preprocessor.cpp:65-67 | so does moving over an occurrence inside a longer name |
| `Preprocessor.NothingToExpand` | src/tools/hvmc/src/preprocessor.cpp:54-71 | a text without the word is not changed |
| `Preprocessor.ExpandSplits` | src/tools/hvmc/src/preprocessor.cpp:54-71 | texts on both sides of a separator expand on their own |
| `Preprocessor.RenamingUndone` | src/tools/hvmc/src/preprocessor.cpp:54-71 | renaming a word to one the text does not have is undone by renaming it back |
| `Preprocessor.IdentifierCharacters` | src/tools/hvmc/src/preprocessor.cpp:38-40 | the characters of names are the 26 small and capital letters, the ten digits and the underscore, written out |
| `Preprocessor.ReplacedExactlyBetweenSeparators` | src/tools/hvmc/src/preprocessor.cpp:54-71 | a name between two characters is replaced if and only if neither of them is one of these |

## Left out

- Character-level lexing of C and assembly: the models start from tokens. Numbers are natural, token lines are not
  kept, so error values carry no line.
- Files, include paths, command-line tools, and everything the repository only stubs.
- The other preprocessor directives, and several defines at once (their order is that of a hash map).
- Parser.Parser.ParseLevel: the ten binary-level functions of the source differ in their operators only and are one
  method indexed by the level.
- Tree ownership, `NodeArray` capacity and `delete`: trees are values.
- The text of emitted assembly lines: a line is a value with its operands.
- CodeSimulation.FunctionCorrect: covers blocks, `if`, `while`, `for`, `do`, `return`, inline assembly, empty
  statements and arithmetic expression statements; what the code of other values does is in `CodeValues` and
  `CodeCalls`; `break` and `continue` emit nothing and are not in the fragment.
- CodeTheorems.ComputesExactlyWhen: for operators of any meaning; a particular arithmetic may make other trees come
  out right by coincidence. Addresses, dereferences and indexing are in `CodeValues.GivesValueExactlyWhen`.
- CodeValues.DeliversExactlyWhen: the same; assignments and calls inside a value have their code
  (`CodeMemory.CodeRuns`) but are no part of the condition, and a string literal is no value at all, since its code
  runs into its bytes.
- CodeCalls.CallCodeRuns: what the function called does to registers, store and result is any function of the
  registers and the store at the call.
- Encoder.Encode: operands are integers masked as the encoder masks them; the narrowing of the operand structure's own
  fields is not modelled.
- EncoderTheorems.StreamDecodes: the repository's decoder source is not part of this model; the reader is written from
  the documentation.
- Assembler.AssembleText: `.align 0` divides by zero in the source and asks for no padding here; overflow of `atoi`
  and of a 64-bit immediate before its narrowing is unbounded here; a global symbol without a label keeps an
  undetermined value, and relocations are always empty.
- AssemblerListing.ListingAssembles: no `.align` to a multiple of 2^64; a spare token stands behind each mnemonic
  (lines without one are in `AssemblerDepartures`), and no section directive (those are in `AssemblerSections`); a
  label defined again counts at its last definition.
- AssemblerListing.CodeAssembles: the same, without branches.
- AssemblerSections.ProgramAssembles: the same; `.global` lines and unknown directives inside a piece are covered by
  the trace theorems only.
- AssemblerData.SectionReadsBack: data directives with one operand of their kind; the others are in the lemmas beside
  it.
- ElfTheorems.ReadBack: for object files whose file size and addresses stay below 2^64; the writer also ignores a
  section's own address and flags and all sections but the three it knows, and so does the model.
- MMIO callbacks: foreign functions. The model says which accesses reach one; the processor model is over memories
  without handlers.
- Memory.MemorySystem.AddRegion: sizes below 2^63, the bound of `vector::max_size`; a larger one throws in the
  constructor of the vector.
- Memory.MemorySystem.ReadBytes: a length of 2^63 or more that passes the wrapping bound check reads outside the
  region, which is undefined; every other length is covered.
- FlatMemory.FlatMemory.Dump: the same.
- CpuMachine.HvmCpu.ExecuteInst: no floating point, VFMACC or other lane-by-lane vector arithmetic.
- CpuMachine.HvmCpu.ExecuteRegister: DIV and REM of the least 64-bit integer by -1 are undefined in C++ and wrap here.
- CpuMachine.HvmCpu.SignalTrap: the processor state class is not part of this model; traps and control registers
  follow sections 9.2 and 9.3 of the HVM Specification, in which the reserved bits of `sstatus` read as 0 and ignore
  writes. The second argument of a trap is taken as stval, vector modes other than 1 as direct, and nothing clears the
  pending flag.
- CpuMachine.HvmCpu.Step: the decoder is not part of this model; a step takes its result as a parameter.
- CpuStack.StackDiscipline: runs of instructions; `CpuFrames.SteppedDiscipline` has the whole steps of straight-line
  code with interrupts masked. With interrupts enabled a timer trap runs a handler in between, whose code is not
  modelled. The code around the brackets is any code each instruction of which is quiet.
- CpuLoops.LoopCount: interrupts masked; a pass that faults leaves the loop by its trap.
- MMU, page tables, TLB, the HO and HSD formats, devices, boards and firmware.
