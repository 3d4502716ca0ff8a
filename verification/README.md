# Verified cores of the Whale toolchain

Whale is a small toolchain: assemblers for several machines, a typed
intermediate representation (IR), a backend interface and a linker. This
project models the algorithms in it whose correctness is not visible from any
one function, and proves what they promise. Every Dafny module belongs to one
source component.

**AMD64 assembler** (`assembler/amd64/src/encoder.rs`). Branches start near and
shrink; each pass picks short or near forms from the layout of the pass before
it, and padding can undo a shrink. `Amd64Program` has the program as nodes after
parsing; `Amd64Layout` is the reference layout, a function of the instruction
lengths alone; `Amd64Encode` specifies one pass and `Amd64Pass` is the pass as
the program runs it, a class whose methods update sections, labels and
relocation sites. `Amd64Invariants`, `Amd64LayoutProof`, `Amd64CodeProof`,
`Amd64RelocProof` and `Amd64OutputProof` hold what a pass keeps, byte by byte
and relocation by relocation, and `Amd64Refusals` says when a pass refuses a node. `Amd64Convergence` reasons about runs
of passes: every branch reads near, short, near, so at most two changes each,
so at most 2B + 1 different layouts with B branches. `Amd64Loops` patches LOOP
fields in place, and `Amd64Relax` proves that in the output every branch and
LOOP lands on its label, although the displacements came from the layout of the
previous pass. `ConstGraph` and `ConstResolve` evaluate `equ` definitions.

**Fixed-width assembler** (`assembler/src/fixed.rs`). `FixedScan` is pass one,
`FixedEmit` pass two and `FixedAssembler` the two as the program runs them;
`FixedFields` has immediate and branch fields. `FixedOutput` says what every
statement leaves in the finished program and when assembling succeeds, and
`FixedRefusals` when pass one refuses a statement. The instruction set is a
parameter: a function from an instruction and its branch distance to a word.
`MovImmediate` (`assembler/aarch64/src/encoder.rs`) selects MOVZ or MOVN.

**IR constants** (`ir/src/const_expr.rs`, `ir/src/constant.rs`,
`ir/src/float.rs`). `ConstArith` has N-bit arithmetic on 128-bit carriers and
`ConstRefine` relates it to exact integers; `ConstEval` is the recursive meaning
of a constant expression and `ConstMachine` the explicit-stack evaluator.
`ConstTyping` has the typing rules that validation decides, and `ConstMeaning`
what every kind of node computes from the results of its operands.
`FloatFormat` gives storage bits a value, `FloatCompare` and `HalfRounding` are
the bit algorithms on them.

**IR builder and source maps** (`ir/src/builder.rs`, `ir/src/source.rs`).
`SourceBuilder` has the builder with its pending shift, `SourceTracking` a
reference that names instructions by identity and never shifts anything;
`SourceRefinement`, `SourceRuns` and `SourceMetadata` prove that they agree over
every sequence of calls. `SourceCalls` says by block ids what each call does.

**Bounded traversal, layout, passes and artifact names.** `TypeBudget`
(`ir/src/limits.rs`), `TypeLayout` and `TypeLayoutExact` (`ir/src/layout.rs`,
`target-spec/src/extension.rs`), `PassRunner` (`ir/src/pass.rs`),
`ArtifactPaths` and `ArtifactNames` (`backend-api/src/lib.rs`).

`Bits`, `AsmSections`, `IrTypes` and `Wrappers` are shared. Machine words are
natural numbers; wrap-around, masks, sign extension, checked additions and the
host's `isize` limit on object sizes are written out.

## Findings

- Constant resolution checks the 64-bit range of sums only
  (`assembler/amd64/src/encoder.rs:577-598`). For plain numbers it relies on the
  parser (`assembler/amd64/src/parser.rs:520-527`): given items that did not come
  from the parser it accepts `a equ 18446744073709551616`
  (`ConstResolve.LargeNumberAccepted`). `ConstResolve.ValuesInRangeIff` gives the
  exact condition, and `ConstResolve.ParsedSucceedsIff` the outcome for parsed programs.
- The comment that a branch changes size at most twice
  (`assembler/amd64/src/encoder.rs:362-364`) is true, and stronger than stated:
  whatever alignment lies between, relaxation needs at most 2B + 2 passes.

## Model

| member | source | states |
|---|---|---|
| `Amd64Layout.SlotsDisjoint` | assembler/amd64/src/encoder.rs:334-385 | in the reference layout two nodes of one section occupy disjoint ranges, in program order |
| `Amd64Layout.AlignedAfter` | assembler/amd64/src/encoder.rs:389-411 | an `align` node brings its section to a multiple of its operand, by less than the operand |
| `Amd64Layout.WalkFrame` | assembler/amd64/src/encoder.rs:193-427 | the layout before a node depends only on the lengths of the nodes before it |
| `Amd64Pass.Encoder.Select` | assembler/amd64/src/encoder.rs:198-230 | selecting a section reuses it or adds one, and refuses a conflicting kind; the whole new state |
| `Amd64Pass.Encoder.Label` | assembler/amd64/src/encoder.rs:286-333 | a label records its section and size; extern clash, duplicate and overflow are refused |
| `Amd64Pass.Encoder.Append` | assembler/amd64/src/encoder.rs:374-385 | bytes and shifted relocations go to the end of the current section, within the output limits |
| `Amd64Pass.Encoder.Instruction` | assembler/amd64/src/encoder.rs:334-385 | one instruction: form chosen from the previous layout, length and offset recorded, a regrown short branch pinned near |
| `Amd64Pass.Encoder.Align` | assembler/amd64/src/encoder.rs:389-411 | padding of one `align` directive appended to its section, or BSS space; `Amd64OutputProof.RunFills` names the bytes |
| `Amd64Pass.Encoder.FindUndefined` | assembler/amd64/src/encoder.rs:484-490 | finds the first relocation, in section order, against an undeclared symbol, and only if there is one |
| `Amd64Pass.EncodeNodes` | assembler/amd64/src/encoder.rs:193-427 | the node loop ends in the state of the specification, or with the error of the first failing node |
| `Amd64Pass.EncodeOnce` | assembler/amd64/src/encoder.rs:155-497 | one pass is a pass of the specification, including which error it reports and at which node |
| `Amd64LayoutProof.StepLayout` | assembler/amd64/src/encoder.rs:193-427 | every node keeps the sections, labels and offsets equal to the reference layout of the lengths chosen so far |
| `Amd64LayoutProof.PassLayout` | assembler/amd64/src/encoder.rs:492-496 | the layout that a pass returns is the reference layout of its lengths, for every program and hint |
| `Amd64CodeProof.RunLengths` | assembler/amd64/src/encoder.rs:354-373 | a pass gives each node only its near length or, for an unpinned JMP or Jcc, two; the pinned set grows by exactly the branches that left the short form |
| `Amd64CodeProof.RunCode` | assembler/amd64/src/encoder.rs:343-385 | after a pass the bytes and relocations of every instruction and datum stand at its reference offset |
| `Amd64RelocProof.RunRelocs` | assembler/amd64/src/encoder.rs:424-426 | every relocation lies in the node that its recorded site names, fields are in bounds and increasing, and 8-bit fields are exactly those of LOOP |
| `Amd64OutputProof.RunFills` | assembler/amd64/src/encoder.rs:409-410 | after a pass every byte of `align` padding is 0x90 in text and 0 elsewhere, and every byte of reserved space is 0 |
| `Amd64OutputProof.RunSources` | assembler/amd64/src/encoder.rs:376-381 | after a pass every relocation is one that the node at its site asks for |
| `Amd64OutputProof.RunAlignments` | assembler/amd64/src/encoder.rs:389-411 | after a pass the alignment of a section is the largest of 16 for text or 1 otherwise and those of its directives |
| `Amd64Refusals.StepRefuses` | assembler/amd64/src/encoder.rs:193-427 | a node is refused exactly when the program before it calls for it, with that error: duplicate and extern names, section kinds, alignment, BSS contents, sizes, output limit, 32-bit range |
| `Amd64Refusals.RunRefuses` | assembler/amd64/src/encoder.rs:155-497 | a pass succeeds if and only if it refuses no node; otherwise it reports the refusal of the first, at that node |
| `Amd64Refusals.SectionKinds` | assembler/src/ast.rs:114-121 | the kind of every section is the one that its first directive states or its name stands for |
| `Amd64Loops.EncodedPass.ResolveSection` | assembler/amd64/src/encoder.rs:503-530 | one section: local LOOP fields patched, the other relocations kept in order, or the first unreachable LOOP; the suffix stays original while swapping |
| `Amd64Loops.EncodedPass.ResolveLoops` | assembler/amd64/src/encoder.rs:499-532 | all sections are resolved, or the first unreachable LOOP is reported at the node that it stands in |
| `Amd64Loops.PatchedBytes` | assembler/amd64/src/encoder.rs:511-523 | patching writes each local field to its distance and changes no other byte |
| `Amd64Loops.RetainedExactly` | assembler/amd64/src/encoder.rs:524-529 | exactly the relocations that are not local LOOP fields remain, in their original order |
| `Amd64Convergence.ChangesFall` | assembler/amd64/src/encoder.rs:362-371 | from one pass to the next no branch gains changes it may still make, and a branch that changes length loses one |
| `Amd64Convergence.NearShortNear` | assembler/amd64/src/encoder.rs:362-371 | over any run no branch is short, later near, and later short again |
| `Amd64Convergence.AtMostTwoChanges` | assembler/amd64/src/encoder.rs:362-364 | over any run each branch changes length at most twice |
| `Amd64Convergence.EqualLengthsEqualLayouts` | assembler/amd64/src/encoder.rs:143 | two passes with equal lengths have equal layouts |
| `Amd64Convergence.RelaxationSettles` | assembler/amd64/src/encoder.rs:140-148 | a run that never repeats a layout has at most 2B + 1 passes, with B label branches |
| `Amd64Relax.EncodedJumpReaches` | assembler/amd64/src/encoder.rs:1795-1827 | a JMP, Jcc or CALL encoded against its own final layout reaches its label (Intel SDM Volume 2A, chapter 3), despite the own-shrink correction |
| `Amd64Relax.ReachingDecodes` | assembler/amd64/src/encoder.rs:1795-1827 | by the opcode tables (Intel SDM Volume 2A, chapter 3) a processor decodes those bytes as the JMP, CALL or Jcc that was written, with that displacement |
| `Amd64Relax.SettledForms` | assembler/amd64/src/encoder.rs:1795-1827 | in a settled layout a local branch that is not pinned is short exactly when its displacement would fit if it were; every other branch is near |
| `Amd64Relax.BranchLinked` | assembler/amd64/src/encoder.rs:1795-1838 | in the output a direct branch reaches its local label, or carries a relocation for the linker |
| `Amd64Relax.LoopLinked` | assembler/amd64/src/encoder.rs:1856-1864 | in the output end + signed byte of a local LOOP is its label; another LOOP keeps its zero byte and relocation |
| `Amd64Relax.FillSurvives` | assembler/amd64/src/encoder.rs:511-523 | resolving LOOP fields leaves padding and reserved space as they were |
| `Amd64Relax.RelocOwned` | assembler/amd64/src/encoder.rs:524-529 | every relocation of the output belongs to a node that leaves it to the linker |
| `Amd64Relax.SettledLinked` | assembler/amd64/src/encoder.rs:143-146 | if a pass repeats its layout, the resolved output has the names, kinds, alignments and exact sizes of the reference layout, every node is in place and linked, padding is 0x90 in text and 0 elsewhere, reserved space is 0, and every remaining relocation is one that a node leaves to the linker |
| `Amd64Relax.Finish` | assembler/amd64/src/encoder.rs:499-532 | resolving a settled pass yields linked output, or the first unreachable LOOP |
| `Amd64Relax.EncodeWithLimits` | assembler/amd64/src/encoder.rs:133-153 | the relaxation loop returns the resolved first repeated pass, with every branch on its label and every byte, size and relocation of the output accounted for, or the exact error; it never gives up when allowed 2B + 2 passes |
| `ConstGraph.ValueStep` | assembler/amd64/src/encoder.rs:577-592 | a definition has a value exactly when its dependency has, and then it is that value plus the addend |
| `ConstGraph.GroundedIffAcyclic` | assembler/amd64/src/encoder.rs:28-29 | every definition has a value exactly when none depends on itself |
| `ConstResolve.Collect` | assembler/amd64/src/encoder.rs:37-73 | the scan collects definitions and first reservations, or reports the first duplicate with both sites |
| `ConstResolve.Link` | assembler/amd64/src/encoder.rs:74-103 | every definition is linked to its dependency, or the first reserved or dangling one is reported |
| `ConstResolve.Propagate` | assembler/amd64/src/encoder.rs:104-118 | the worklist evaluates each definition once, after its dependency, to the sum along its chain |
| `ConstResolve.Report` | assembler/amd64/src/encoder.rs:119-126 | a cycle is reported exactly when definitions remain without value, at the first of them |
| `ConstResolve.Resolve` | assembler/amd64/src/encoder.rs:30-127 | the complete outcome: values of all definitions or the error that comes first |
| `ConstResolve.SucceedsIff` | assembler/amd64/src/encoder.rs:30-127 | success if and only if names are distinct and unreserved, dependencies defined, the graph acyclic and every sum in range |
| `ConstResolve.ParsedSucceedsIff` | assembler/amd64/src/parser.rs:520-527 | for parsed programs, success if and only if names are distinct and unreserved, dependencies defined, the graph acyclic and every value in range |
| `ConstResolve.ValuesInRangeIff` | assembler/amd64/src/encoder.rs:577-598 | all values lie in the 64-bit range exactly when the plain numbers do |
| `ConstGraph.RangeIs` | assembler/amd64/src/encoder.rs:594-598 | the range is that of signed and unsigned 64-bit numbers together |
| `ConstResolve.LargeNumberAccepted` | assembler/amd64/src/encoder.rs:579 | an out-of-range plain number is accepted |
| `FixedFields.SignedFieldDecodes` | assembler/src/fixed.rs:112-121 | a signed immediate is accepted exactly when sign extension of its field gives it back, for every width |
| `FixedFields.DisplacementDecodes` | assembler/src/fixed.rs:134-146 | a displacement is accepted exactly when aligned and in the signed scaled range, and then alignment times the sign-extended field is the displacement |
| `FixedScan.DeclaresAll` | assembler/src/fixed.rs:337-361 | a declaration makes exactly its names global, and external ones get a symbol without section |
| `FixedScan.AlignReaches` | assembler/src/fixed.rs:418 | alignment padding reaches a multiple in fewer bytes than the alignment |
| `FixedScan.StepKeeps` | assembler/src/fixed.rs:263-439 | every statement keeps the layout invariant: sizes are sums of record sizes, records start where their section ended, instructions are aligned in text sections, the output bound holds |
| `FixedScan.ScanKeeps` | assembler/src/fixed.rs:263-439 | the layout invariant holds after any number of statements |
| `FixedScan.RecordOf` | assembler/src/fixed.rs:435 | each emitting statement has one record, in statement order, in the section and at the size then current |
| `FixedScan.RecordHasItem` | assembler/src/fixed.rs:435 | each record belongs to an emitting statement |
| `FixedScan.LabelOffset` | assembler/src/fixed.rs:293-296 | a label's offset is the size of what the statements before it put into its section |
| `FixedScan.ScanKinds` | assembler/src/fixed.rs:322-330 | the kind of every section follows from its name, and text sections are aligned for instructions |
| `FixedScan.ScanAligns` | assembler/src/fixed.rs:381-395 | the alignment of a section is its initial one or that of one of its directives |
| `FixedRefusals.ScanTables` | assembler/src/fixed.rs:263-361 | after any statements a symbol is known exactly when it was a label or declared external, global exactly when declared, the section of the last selection is selected, and section names are distinct |
| `FixedRefusals.StepMeets` | assembler/src/fixed.rs:263-439 | a statement is refused exactly when the program before it calls for it, with that error; in a declaration, at the first refused name |
| `FixedRefusals.ScanRefuses` | assembler/src/fixed.rs:263-439 | pass one succeeds if and only if it refuses no statement; otherwise it reports the refusal of the first, at that statement |
| `FixedEmit.EmittedLength` | assembler/src/fixed.rs:458-516 | two-pass agreement: what pass two has emitted into a section has the length that pass one assigned, after every record |
| `FixedEmit.EmittedAtOffset` | assembler/src/fixed.rs:458-516 | emission of a record starts exactly at its pass-one offset |
| `FixedEmit.RecordEmitted` | assembler/src/fixed.rs:458-516 | the finished section holds the code of every record at the record's offset |
| `FixedEmit.LabelIsEmittedLength` | assembler/src/fixed.rs:293-296 | a label equals the emitted length of its section at its position |
| `FixedEmit.RelocationsDisjoint` | assembler/src/fixed.rs:59-64 | relocation fields of a section are in bounds, increasing and disjoint |
| `FixedEmit.NumberDecodes` | assembler/src/fixed.rs:480-485 | a number is accepted exactly when it fits its width signed or unsigned, and its bytes are its two's complement |
| `FixedEmit.SymbolDataRelocated` | assembler/src/fixed.rs:486-502 | a symbol in data is accepted exactly when declared and 4 or 8 bytes wide, as zero bytes under one relocation of that width |
| `FixedEmit.ForeignBranchRelocated` | assembler/src/fixed.rs:50-66 | a branch out of its section yields one relocation at the instruction and distance zero; an undeclared symbol is an error |
| `FixedEmit.BranchFieldReaches` | assembler/src/fixed.rs:44-69 | a local branch is encodable exactly when aligned and in scaled range, and then offset plus alignment times field is label plus addend |
| `FixedEmit.EmittedBranchReaches` | assembler/src/fixed.rs:465-476 | the word at a local branch in the finished section leads to the label, for every instruction set that stores the displacement in a field |
| `FixedAssembler.Scanner.Label` | assembler/src/fixed.rs:280-298 | a label takes the current section and size; too many or duplicate symbols are refused |
| `FixedAssembler.Scanner.Select` | assembler/src/fixed.rs:305-336 | the section is found by name or added with its default kind and alignment |
| `FixedAssembler.Scanner.Declare` | assembler/src/fixed.rs:337-361 | the names of a declaration are processed in order up to the first error |
| `FixedAssembler.Scanner.Append` | assembler/src/fixed.rs:381-436 | an action is checked, sized and recorded; limits on section size, output and records are enforced |
| `FixedAssembler.ScanItems` | assembler/src/fixed.rs:263-439 | pass one ends in the specified state or with the error of the first failing statement |
| `FixedAssembler.Emitter.Values` | assembler/src/fixed.rs:477-506 | a data directive appends the code of its values in order, with relocations at the growing end of the section; `FixedOutput.StatementsOut` says which bytes value k becomes |
| `FixedAssembler.Emitter.Record` | assembler/src/fixed.rs:463-514 | one record appends exactly its code to its section |
| `FixedAssembler.EmitRecords` | assembler/src/fixed.rs:458-516 | pass two leaves every section with the content of its records, or reports the first record that does not encode |
| `FixedAssembler.Assemble` | assembler/src/fixed.rs:235-532 | the whole assembler: finished sections and symbols, or the first error of pass budget, pass one, missing globals and pass two |
| `FixedAssembler.AssembledLayout` | assembler/src/fixed.rs:423-456 | every section keeps its name, kind and alignment and ends with exactly its pass-one size, as data or zero fill, and the output total equals the counted bytes and keeps the limit |
| `FixedAssembler.AssembledBranchReaches` | assembler/src/fixed.rs:44-69 | in every assembled program the word of a local branch statement leads to its label plus addend |
| `FixedOutput.ValueStands` | assembler/src/fixed.rs:477-505 | value k of a data directive stands behind k values of its width, with its relocation |
| `FixedOutput.StatementsOut` | assembler/src/fixed.rs:463-514 | in every assembled program each emitting statement has left exactly what it says where it stands: value k of data in two's complement or as zeros under a relocation of its width, the word and relocation of an instruction, zeros for `.zero` and `.align` up to the next multiple |
| `FixedOutput.RelocHasStatement` | assembler/src/fixed.rs:492-497 | every relocation of an assembled program is one that a statement asks for |
| `FixedOutput.EncodableIff` | assembler/src/fixed.rs:463-514 | pass two accepts a record exactly when all its values, or its operand and instruction, are encodable |
| `FixedOutput.AssemblesIff` | assembler/src/fixed.rs:235-532 | assembling succeeds if and only if there is a pass to make, pass one accepts every statement, every global has a symbol and every statement is encodable where it stands |
| `MovImmediate.AssembleDecodes` | assembler/aarch64/src/tables.rs:45-51 | by the fields of the encoding (Arm ARM, DDI 0487, section C6.2) the word is that MOVZ or MOVN, in that width and for that register |
| `MovImmediate.DecodeAssembles` | assembler/aarch64/src/encoder.rs:168-172 | no other word decodes to that move: the round trip in the other direction |
| `MovImmediate.FitsLaneIs` | assembler/aarch64/src/encoder.rs:165 | the mask test accepts a lane exactly when the pattern is a 16-bit immediate shifted to it |
| `MovImmediate.InWidthIs` | assembler/aarch64/src/encoder.rs:154 | the accepted range is that of signed and unsigned numbers of the register's width together |
| `MovImmediate.Select` | assembler/aarch64/src/encoder.rs:152-177 | sound and complete selection: the word decodes as a MOVZ or MOVN (Arm ARM, DDI 0487, section C6.2) that leaves the value modulo 2^width, in the documented preference order; failure if and only if out of range or no single instruction does |
| `ConstArith.NarrowSignedValue` | ir/src/const_expr.rs:322-336 | narrowing a signed carrier yields the N-bit signed number congruent to it |
| `ConstArith.RepresentsUnique` | ir/src/const_expr.rs:313-336 | an exact result has one representative in a type |
| `ConstRefine.ShiftCountIs` | ir/src/const_expr.rs:338-341 | the shift count is the operand modulo the width, also for negative operands |
| `ConstRefine.BinaryRefines` | ir/src/const_expr.rs:351-420 | for every integer type an operation on valid operands returns the valid representative of the exact result, or the division error for divisor zero |
| `ConstRefine.NotRefines` | ir/src/const_expr.rs:343-349 | complement returns the representative of -1 - x |
| `ConstRefine.NegateRefines` | ir/src/const_expr.rs:220-229 | negation returns the representative of -x |
| `ConstRefine.MinimumByMinusOne` | ir/src/const_expr.rs:389-390 | the minimum divided by -1 is the minimum again, with remainder zero |
| `ConstEval.ValidTreesDoNotGoWrong` | ir/src/const_expr.rs:279-281 | a validated tree evaluates to a valid value or to a division by zero at an integer division node; the recheck of values never fires |
| `ConstMachine.Inspect` | ir/src/const_expr.rs:118-206 | validation finds the first fault in source order, also in branches that evaluation would skip, and resolves every reference |
| `ConstMachine.ExpandStrict` | ir/src/const_expr.rs:256-264 | starting a strict binary node leaves the pending computation equal, left operand first |
| `ConstMachine.ExpandLogical` | ir/src/const_expr.rs:237-241 | starting a logical node schedules its left operand only |
| `ConstMachine.ResumeLogical` | ir/src/const_expr.rs:246-253 | an undecided logical node continues with its right operand |
| `ConstMachine.Complete` | ir/src/const_expr.rs:213-282 | a node whose operands are evaluated takes them off the stack, which never underflows, and yields its value or fault |
| `ConstMachine.EvaluateWithErrorSite` | ir/src/const_expr.rs:110-285 | the explicit-stack evaluator returns what recursive lazy left-to-right evaluation returns: the same value, or the same fault at the same node; it terminates by a work measure |
| `ConstTyping.ValidIff` | ir/src/const_expr.rs:118-206 | validation accepts exactly the trees that the typing rules accept |
| `ConstTyping.TypeSound` | ir/src/const_expr.rs:110-285 | a well-typed tree evaluates to a value of its type or to a division by zero |
| `ConstMeaning.LogicalMeans` | ir/src/const_expr.rs:237-254 | `and` and `or` over the results of the operands: a deciding left operand wins even over a fault on the right, otherwise the result is that of the right; with two values it is the conjunction or disjunction |
| `ConstMeaning.StrictFaults` | ir/src/const_expr.rs:256-264 | every other binary node reports the fault of its left operand, then that of its right |
| `ConstMeaning.ArithmeticMeans` | ir/src/const_expr.rs:351-420 | an integer operation is the representative of the exact result of left and right, in that order, or the division by zero at this node |
| `ConstMeaning.UnaryMeans` | ir/src/const_expr.rs:220-234 | complement and negation of integers are the representatives of -1 - x and -x |
| `ConstMeaning.FloatNegationMeans` | ir/src/const_expr.rs:220-229 | negation of a float is the number with the opposite sign, in the same format |
| `ConstMeaning.IntCompareMeans` | ir/src/const_expr.rs:458-484 | a comparison of integers compares the values of left and right |
| `ConstMeaning.BoolCompareMeans` | ir/src/const_expr.rs:446-456 | booleans can be compared for equality only, and are |
| `ConstMeaning.FloatCompareMeans` | ir/src/const_expr.rs:428-444 | a comparison of floats compares the denoted numbers; with a NaN only inequality holds |
| `FloatFormat.UnitsIncreasing` | ir/src/float.rs:51-63 | larger magnitude bits denote larger numbers, in every format |
| `FloatFormat.DecodeMeans` | ir/src/float.rs:34-63 | what a sign, an exponent field and a fraction field denote (IEEE 754-2019, section 3.4), for every format |
| `FloatFormat.OneIs` | ir/src/float.rs:34-63 | the storage bits of the number one in the three formats |
| `FloatCompare.CompareMeans` | ir/src/float.rs:34-83 | every predicate agrees with the denoted numbers (IEEE 754-2019, section 5.11), for all widths; different widths have no answer |
| `FloatCompare.TotalPreorder` | ir/src/float.rs:67-82 | comparison is a total preorder on values that are not NaN |
| `FloatCompare.OppositePredicates` | ir/src/float.rs:67-82 | each unordered predicate is the negation of the opposite ordered one, and swapping operands mirrors the order |
| `HalfRounding.RoundedIsNearest` | ir/src/float.rs:167-171 | dropping bits with the halfway test picks the nearest neighbour, ties to even |
| `HalfRounding.NormalRounds` | ir/src/float.rs:159-176 | every normal number rounds to the nearest half magnitude: normal, subnormal, carry into the exponent, overflow and underflow |
| `HalfRounding.ToHalfRounds` | ir/src/float.rs:147-177 | sign kept, infinity to infinity, NaN to quiet NaN, every finite value to the nearest half with ties to even (IEEE 754-2019, section 4.3.1) |
| `HalfRounding.HalfDecodes` | ir/src/float.rs:147-177 | what the rounded bits denote: NaN, signed infinity or the magnitude |
| `SourceTracking.NamesOnce` | ir/src/source.rs:59-66 | two targets that name the same instruction or terminator are equal |
| `SourceRefinement.HoistNames` | ir/src/builder.rs:173-186 | after an alloca is inserted, every target moved accordingly still names the same thing |
| `SourceRefinement.HoistMoves` | ir/src/builder.rs:188-194 | the pending shift, one larger, moves exactly the targets that the insertion moves |
| `SourceRefinement.CheckpointRemembers` | ir/src/builder.rs:464-486 | a checkpoint's counts describe the moment at which it is taken |
| `SourceRuns.MappedIsMarked` | ir/src/builder.rs:503-504 | a target is mapped exactly when the thing that it names is marked |
| `SourceRuns.NewIsCreatedSince` | ir/src/builder.rs:510-524 | the index arithmetic of an annotation finds exactly the instructions and terminators created since the checkpoint |
| `SourceRuns.AnnotationIsExact` | ir/src/builder.rs:510-535 | an annotation marks exactly what is new and not yet marked, each once |
| `SourceRuns.CallAgrees` | ir/src/builder.rs:173-197 | every builder call keeps deferred shifting in agreement with identities |
| `SourceRuns.RunAgrees` | ir/src/builder.rs:541-556 | agreement holds after any interleaving of calls and checkpoints |
| `SourceMetadata.FunctionBuilder.HoistAlloca` | ir/src/builder.rs:173-197 | the alloca goes behind the leading allocas and the pending shift is opened or counted up; the whole new state |
| `SourceMetadata.FunctionBuilder.TryHoistAlloca` | ir/src/builder.rs:835-842 | the checked form: refused with everything unchanged, or the same alloca |
| `SourceMetadata.FunctionBuilder.FlushShifts` | ir/src/builder.rs:541-556 | every mapping at or behind the position is moved by the count, in place, and the shift is cleared |
| `SourceMetadata.FunctionBuilder.Checkpoint` | ir/src/builder.rs:464-486 | flushes, then records length, leading allocas and termination of every block |
| `SourceMetadata.FunctionBuilder.AnnotateSource` | ir/src/builder.rs:488-538 | flushes, adds the original once and appends the new mappings in block order |
| `SourceMetadata.FunctionBuilder.Push` | ir/src/builder.rs:129-147 | appends to the insertion block, refusing an unknown or terminated block and a late phi; `SourceCalls.AppendMeans` says so by block ids |
| `SourceCalls.AppendMeans` | ir/src/builder.rs:635-646 | the block whose id is the insertion point gains exactly one last instruction and no other block changes; refused exactly if no block has that id, it is terminated, or a phi would follow another instruction |
| `SourceCalls.TerminateMeans` | ir/src/builder.rs:635-646 | a terminator closes the block whose id is the insertion point and changes no other; refused exactly if no block has that id or it is terminated |
| `SourceCalls.SetInsertPointMeans` | ir/src/builder.rs:667-671 | the insertion point becomes the id, exactly if a block has it |
| `SourceCalls.CreateBlockMeans` | ir/src/builder.rs:904-908 | a new block is last, empty and open, its id is new, and ids stay unique |
| `SourceCalls.HoistMeans` | ir/src/builder.rs:173-186 | a hoisted alloca stands behind the leading allocas of the entry block, and no other block changes |
| `SourceCalls.HoistRefusalMeans` | ir/src/builder.rs:835-842 | the checked form is refused exactly if the insertion block is unknown or terminated, or the entry block is terminated |
| `SourceMetadata.Validate` | ir/src/source.rs:137-189 | accepts exactly metadata with unique originals, known nodes, and distinct targets that exist |
| `SourceMetadata.FinishedNames` | ir/src/builder.rs:1121-1124 | after any calls and `finish`, every mapping names exactly the thing it was created for, and no two name the same |
| `SourceMetadata.FinishedValid` | ir/src/source.rs:170-189 | building and finishing a function keeps valid metadata valid: no duplicate and no dangling target |
| `SourceMetadata.OriginalsRetained` | ir/src/builder.rs:488-503 | the originals are those that were there, in their places, and those that an annotation since a taken checkpoint names |
| `TypeBudget.ExpandedWork` | ir/src/limits.rs:99-123 | replacing a node by its children keeps the nodes to be counted and the depth verdict |
| `TypeBudget.Budget.Charge` | ir/src/limits.rs:81-87 | charges nodes if they are left, otherwise reports and changes nothing |
| `TypeBudget.Budget.Ty` | ir/src/limits.rs:89-126 | succeeds if and only if depth and node count fit, charging exactly the count; each error only for its own breach, so the early refusal is sound; the worklist stays within max(1, budget) |
| `TypeBudget.Budget.Signature` | ir/src/limits.rs:128-135 | the same for a signature and all its types |
| `TypeBudget.Budget.Expression` | ir/src/limits.rs:137-161 | the same for a constant expression, its nodes and the types of its nodes |
| `TypeBudget.Create` | ir/src/limits.rs:61-79 | a budget exists exactly for depth limits within the safety ceiling |
| `TypeLayout.LayoutStorage` | ir/src/layout.rs:67-115 | the recursive layout with its field loop computes the specified layout or error |
| `TypeLayoutExact.ScalarMatchesWidth` | ir/src/layout.rs:74-85 | scalars have the bytes of their width and the target's alignment for that size, a boolean one byte; pointers have the target's width |
| `TypeLayoutExact.AlignUpRounds` | ir/src/layout.rs:117-121 | masked padding is exact rounding up, and overflow is reported exactly when the result does not fit a word |
| `TypeLayoutExact.ValidTargetIff` | target-spec/src/extension.rs:32-50 | a target is valid if and only if pointers have 32 or 64 bits and every alignment is a power of two that divides the size of what it aligns; sizes are bounded by its address width |
| `TypeLayoutExact.LayoutIsExact` | ir/src/layout.rs:67-115 | a layout succeeds if and only if the type is free of void, not too deep and every laid-out part fits with its exact size; the result is the exact layout |
| `TypeLayoutExact.ErrorHasCause` | ir/src/layout.rs:67-115 | every error has its own cause: a void part, nesting beyond the depth, or a part whose exact size does not fit |
| `TypeLayoutExact.SizeIsMultiple` | target-spec/src/extension.rs:43-48 | the size of every type is a multiple of its alignment |
| `TypeLayoutExact.StrideKeepsAlignment` | ir/src/layout.rs:86-95 | every array element keeps the alignment of its type |
| `TypeLayoutExact.FieldsPlaced` | ir/src/layout.rs:96-108 | fields are aligned, ordered, disjoint, inside the structure and at the least legal offset |
| `TypeLayoutExact.AllocationCoversNatural` | ir/src/layout.rs:129-140 | object placement is a power of two that the natural alignment divides; it is raised exactly for large arrays whose natural alignment is smaller than the target's for those, and then it is the latter |
| `PassRunner.AnalysisState.Invalidate` | ir/src/pass.rs:34-43 | succeeds if and only if no named epoch is exhausted; then exactly the named epochs rise by one, otherwise none |
| `PassRunner.Run` | ir/src/pass.rs:124-158 | the runner on a mutable module and state: the specified outcome, with the module restored on every failure |
| `PassRunner.PassOutcome` | ir/src/pass.rs:121-123 | a call succeeds if and only if the module is verified before and after, the pass succeeds, the report is the honest one and no epoch that must rise is exhausted; then every epoch rises exactly when the module changed; a failed call changes nothing and names the first stage that failed |
| `PassRunner.CacheCoherent` | ir/src/pass.rs:46-65 | after any passes a cache hits exactly when module and epochs are those it was computed from |
| `PassRunner.NewCacheHits` | ir/src/pass.rs:55-65 | a new cache hits with its value, for its kind, while the epoch stands |
| `PassRunner.NewState` | ir/src/pass.rs:55-65 | no existing cache hits on a new state |
| `PassRunner.OtherStateMisses` | ir/src/pass.rs:60-64 | a cache never hits on another state |
| `ArtifactPaths.DevicesRefused` | backend-api/src/lib.rs:212-223 | device names are refused in any case, with trailing spaces and with any extension |
| `ArtifactNames.PortableIff` | backend-api/src/lib.rs:201-224 | a component is accepted if and only if it is not empty, holds only allowed characters, ends in neither dot nor space and is no device name, with or without spaces and an extension |
| `ArtifactNames.DeviceIff` | backend-api/src/lib.rs:212-222 | which names are devices, in any case |
| `ArtifactNames.SplitIsPieces` | backend-api/src/lib.rs:171 | the components of a path are its pieces between slashes |
| `ArtifactNames.FoldIdentifies` | backend-api/src/lib.rs:180 | folding identifies exactly the names that differ in ASCII case only |
| `ArtifactNames.ConflictsIff` | backend-api/src/lib.rs:180-190 | two names conflict if and only if they differ at most in ASCII case, or one is a directory above the other up to case |
| `ArtifactPaths.AncestorIsPrefix` | backend-api/src/lib.rs:181-184 | being an ancestor by components is having the path and a separator as a prefix |
| `ArtifactPaths.BetweenHasPrefix` | backend-api/src/lib.rs:185-189 | in key order, everything between a prefix and a string with it has the prefix |
| `ArtifactPaths.FirstFromPrefix` | backend-api/src/lib.rs:185-189 | the first key from `p/` on has the prefix `p/` whenever any key has |
| `ArtifactPaths.NameTable.FindAncestor` | backend-api/src/lib.rs:183 | finds an ancestor of a path among the keys exactly when there is one |
| `ArtifactPaths.NameTable.FindDescendant` | backend-api/src/lib.rs:184-189 | finds a key inside a path exactly when there is one |
| `ArtifactPaths.NameTable.Insert` | backend-api/src/lib.rs:196 | the key order survives insertion |
| `ArtifactPaths.CheckArtifacts` | backend-api/src/lib.rs:161-199 | accepts a nonempty list if and only if all names are valid and no two are equal up to case or one inside the other, in any order; otherwise reports the first offender with an earlier name |

## Left out

- Amd64Relax.EncodeWithLimits: the allowance of 2B + 2 passes is sufficient; that it is the least such number is not claimed, and neither is that the encoding is the smallest, which pinned branches give up on purpose.
- Amd64Pass.EncodeOnce: name scoping, `global` and symbol metadata directives and the symbol table are not modelled; an instruction that is not a direct label branch is its bytes and relocations.
- Amd64Relax.EncodedJumpReaches: the signed 64-bit subtraction of offsets is taken as exact, since section sizes stay below the host's object size limit.
- ConstResolve.Resolve: the 128-bit host addition is taken as exact.
- FixedAssembler.Assemble: statements come parsed, so comment stripping, operand splitting and number syntax are not modelled; which of several missing globals is named is not fixed; an instruction set has at most one branch operand per instruction and checks it before its other operands.
- ConstMachine.EvaluateWithErrorSite: the node budget charged before and during validation is the subject of TypeBudget, not of the evaluator; the arithmetic on float values is a parameter.
- SourceMetadata.FunctionBuilder.AnnotateSource: source files and spans, and the accounting of source work, are not modelled; source maps of a function id whose builder was abandoned before `finish` are not considered.
- SourceMetadata.Validate: the checks of file names and spans are not modelled.
- TypeBudget.Budget.Ty: which error is reported when both depth and nodes are exceeded is not fixed.
- TypeLayout.LayoutStorage: target identity and its agreement with a native object format are not modelled.
- ArtifactPaths.CheckArtifacts: which of several descendants of a path is named is not fixed; the backend's own checks and emission are not modelled.
- PassRunner.Run: passes, the verifier and the module are parameters; error texts are shortened to their stage and cause.
- Opcode tables, addressing modes, operand checks, lexers, diagnostics texts, the linker, object readers and writers, the interpreter, control-flow and dominance analyses, and all input and output.
