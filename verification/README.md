# AstralDB in Dafny

A model of the core of AstralDB, a small SQL engine, with proofs about it. The model follows the C++ sources branch by
branch. Objects whose methods update their fields are classes here, and loops are loops; every such method is proved
against a mathematical value (the pairs of a tree, the map of a hash table, the text of a stream), and the laws are
proved about that value. `dafny verify dfyconfig.toml` checks the whole project.

What is modelled, by component:

* **B+ tree** (`TreeShape`, `TreeFacts`, `InsertSteps`, `Separators`, `InsertGrowth`, `TreeHeap`, `TreeChain`, `TreeUpdate`,
  `DeleteSteps`, `DeleteShape`, `DeleteHeap`, `TreeLaws`, `BPlusTree`). Nodes live on the heap and are linked by children
  and by the leaf chain. A ghost tree value says which node is where; `Valid` says that the heap stores that tree without
  sharing, that every leaf is equally deep, that nodes hold between `MinKeys` and `Order` keys, that separators bound
  their subtrees, and that `Next` links the leaves in order. Any even order from 2 on and any strict total order. The tree
  has two modes: unique keys, where it is a finite map under every operation, and repeated keys, insert-only, which is how
  the code generator uses it.
* **Secondary index** (`TableIndex`, `TableStore`). A table with at most one indexed column, over the B+ tree above.
* **Flush protocol** (`DatabaseImage`, `ImageTables`, `FlushProtocol`). A state machine with unboundedly many writers, one spinlock, the
  dirty flag, the worker and the file, over the concrete effects of the table operations.
* **Expression pipeline** (`Characters`, `Grammar`, `Parser`, `Tokenizer`, `Spelling`, `Bytecode`, `Codegen`,
  `Interpreter`, `CompilerCorrectness`, `InstructionLaws`, `QueryPipeline`). Text to tokens to trees to instructions to
  values.
* **Batch code builder** (`BatchCode`), sorting through the B+ tree with repeated keys.
* **Hash table and compressor** (`HashTable`, `Lz4Format`, `Lz4Distance`, `Lz4`).
* **Snapshot** (`Snapshot`, `SnapshotFile`). The printed text, its reader, and the compressed file.
* **Radix tree** (`RadixShape`, `RadixTree`).

What the proofs found. Where a property fails, the exact condition under which it holds and an input that breaks it are
lemmas, or contracts of the methods concerned:

* An odd order breaks the occupancy invariant: the right half of a split inner node is one key short
  (`InsertSteps.InnerSplitBalanced`).
* With repeated keys separators need not rise strictly. One insertion keeps them rising exactly unless the leaf for the
  key is full and the key it would promote is the separator already below it (`BPlusTrees.BPlusTree.Insert`); with unique
  keys that never happens (`Separators.UniqueRising`), and more than 2 * Order copies of one key always lead to it
  (`TreeLaws.CopiesRepeatSeparators`, `BPlusTrees.InsertCopies`). What does hold is a bound on the copies of a separator
  (`TreeLaws.FewCopies`).
* `Remove` and a later `Insert` on the hash table can leave two live slots for one key; this happens exactly when the
  probe path of the key passes a tombstone before its live slot, and removing the key then brings its old value back
  (`HashTables.HashTable.Insert`, `HashTables.HashTable.InsertThenRemove`). Keys 1 and 9, which FNV-1a sends to one slot
  of a new table, show it in six calls (`HashTables.OldValueComesBack`).
* Compression of zero-free text fails exactly when a token starts where the four bytes stood 65536 bytes earlier, at the
  last start with their rolling key (`Lz4Distance.RoundTripExactly`); "ABCD", 65532 times "x" and "ABCD" is such a text
  (`Lz4Distance.FarTextIsLost`).
* A snapshot survives exactly when all its strings are non-empty and free of white space, except that the row printed
  last may hold empty strings if moving them behind its other strings makes no difference: the reader skips them and
  finds empty strings at the end of the text (`Snapshot.SnapshotRoundTrip`, `Snapshot.TrailingEmptyIsRestored`,
  `Snapshot.EmptyPairIsRestored`, `Snapshot.EmptyBeforeAWordIsLost`). A column's initial default value is empty, so such
  a column never survives (`Snapshot.EmptyDefaultIsLost`).
* Two operations change what is persisted without touching the dirty flag: indexing an unknown table, and loading
  (`DatabaseImage.QuietChanges`, `FlushProtocol.CoveredExactly`). A write that fails lowers the flag anyway
  (`FlushProtocol.FailedWriteDropsTheFlag`).
* `Delete` does not renumber the index, so the index still agrees exactly when what was removed is a suffix
  (`IndexModel.DeleteAgreesExactly`). `Update` of a row without the indexed column removes the entry of the empty string,
  so the index agrees afterwards exactly if no such row is updated or no row holds that value
  (`TableStore.IndexedTable.Update`, `IndexModel.AgreesReplacedExactly`, `IndexModel.EmptyValueIsForgotten`). Inserting a row into a table without an index makes an empty index entry, after
  which queries find nothing (`TableStore.InsertHidesRows`, `TableStore.SelectIsScanExactly`).
* A literal is compiled to the address of a new string, so the value of an expression depends on addresses and operators
  only, never on the text of a literal, and a literal does not equal itself (`Codegen.ValueIgnoresText`,
  `Codegen.LiteralsAreNotEqual`). AND and OR parse but have no code (`Codegen.ParsedTreesEmit`).
* Every instruction comes out of the code builder exactly twice (`BatchCode.BuiltConserves`).
* Inserting a key that leaves an edge in its middle binds the key with its last part repeated, and exactly then the value
  is not found under the key (`RadixShape.BindsTheKeyExactly`, `RadixShape.FindsInsertedExactly`); "ac" after "ab" is
  such a key (`RadixShape.SecondKeyIsLost`).
* The parser accepts any punctuation that is not an operator as a closing parenthesis (`ExpressionParser.ParserIsGrammar`).

The tables and orders everything else is stated over are pinned down by laws of their own, which name operators, opcodes,
characters and bytes outright: the order of programs (`Bytecode.ProgramLessLaws` and its neighbours), the levels of the
operators (`ExpressionParser.OperatorsGroup`), what each compiled operator computes (`InstructionLaws.OperatorsCompute`),
what each instruction does (`InstructionLaws`), what each table operation changes (`DatabaseImage`, `ImageTables`), how
tokens are cut (`Spelling.LongestSpelling`), and how snapshots and matches are laid out (`SnapshotFile.PrintedForm`,
`Lz4Format.EncodedForm`).

Conventions. `hide` statements only keep definitions out of a proof that does not need them. Machine integers are
unbounded except where wrapping matters: interpreter values are 64-bit and wrap, hashes are 32-bit and wrap. A C++ string
is a sequence of characters, in the compressor a sequence of bytes. An exception is a `None` or an error value. The order
in which an unordered map is iterated is a parameter that the proofs quantify over. The address a string allocation
returns is an unknown function of the number of allocations so far. The flags of the C locale decide character classes;
characters from 128 on belong to none. Memory operations of the protocol are sequentially consistent.

## Model

| member | source | states |
|---|---|---|
| BPlusTrees.BPlusTree.Insert | sources/DS/BPlusTree.hxx:127-136 | one pair is added at one place in key order and nothing else moves; with unique keys that is a map extension; the full invariant is kept and the height grows by at most one; separators rise strictly afterwards if and only if they did before and the leaf for the key is not full with its own lower separator as the key to promote |
| BPlusTrees.BPlusTree.InsertInternal | sources/DS/BPlusTree.hxx:138-184 | a subtree either absorbs the pair or splits in two around the promoted separator, ordered, balanced and stored on the heap with the leaf chain intact |
| BPlusTrees.BPlusTree.InsertIntoLeaf | sources/DS/BPlusTree.hxx:140-159 | leaf insertion and leaf split keep order, occupancy and the chain to the next leaf |
| BPlusTrees.BPlusTree.Delete | sources/DS/BPlusTree.hxx:216-225 | returns whether the key was bound, removes exactly that binding, keeps the full invariant, and the height falls by at most one |
| BPlusTrees.BPlusTree.DeleteHelper | sources/DS/BPlusTree.hxx:80-122 | the subtree becomes the specified one and underflow is reported exactly when a non-root node fell below MinKeys |
| BPlusTrees.BPlusTree.BorrowFromLeft | sources/DS/BPlusTree.hxx:28-44 | one key moves over from the left sibling, the parent's separator follows, and the leaf chain survives |
| BPlusTrees.BPlusTree.BorrowFromRight | sources/DS/BPlusTree.hxx:46-62 | one key moves over from the right sibling, the parent's separator follows, and the leaf chain survives |
| BPlusTrees.BPlusTree.MergeNodes | sources/DS/BPlusTree.hxx:64-78 | two siblings become one node, the parent loses that separator and child, and the chain skips the absorbed leaf |
| BPlusTrees.BPlusTree.Rebalance | sources/DS/BPlusTree.hxx:102-117 | the branch taken restores occupancy: borrow left, else borrow right, else merge |
| BPlusTrees.BPlusTree.Search | sources/DS/BPlusTree.hxx:186-199 | finds a value exactly for the stored keys, in either mode; with unique keys it is map lookup |
| BPlusTrees.BPlusTree.GetPointer | sources/DS/BPlusTree.hxx:267-279 | the place found lies in a node of the tree and holds a value stored under the key; none exactly for absent keys |
| BPlusTrees.BPlusTree.Update | sources/DS/BPlusTree.hxx:201-214 | replaces the value of one stored pair under the key, exactly when the key is stored; nothing else changes |
| BPlusTrees.BPlusTree.RangeSearch | sources/DS/BPlusTree.hxx:227-244 | the values from the first key that is not below the lower bound to the last that is not above the upper one, both bounds included, in key order; nothing for an empty or reversed range |
| BPlusTrees.BPlusTree.GetAllKeys | sources/DS/BPlusTree.hxx:246-256 | walking the leaf chain gives the keys of all stored pairs in order, repeated keys included |
| TreeFacts.OrderedSorted | sources/DS/BPlusTree.hxx:161-183 | separator bounds at every node make the pairs of the whole tree sorted and bounded |
| TreeFacts.KeyDescends | sources/DS/BPlusTree.hxx:186-199 | a key stored anywhere is stored below the child the search goes to, also with repeated keys |
| InsertSteps.LeafSplitKeeps | sources/DS/BPlusTree.hxx:145-158 | splitting an overfull leaf gives two ordered, sufficiently full halves holding the same pairs |
| InsertSteps.InnerSplitKeeps | sources/DS/BPlusTree.hxx:171-180 | splitting an overfull inner node gives two ordered halves around the promoted key |
| InsertSteps.InnerSplitBalanced | sources/DS/BPlusTree.hxx:171-180 | the left half is always full enough; the right half is if and only if the order is even |
| DeleteShape.FixedBalanced | sources/DS/BPlusTree.hxx:102-120 | after a child underflow every child is full enough again, whichever branch ran |
| DeleteShape.FixedOrdered | sources/DS/BPlusTree.hxx:102-117 | borrowing and merging keep every separator between its neighbours |
| DeleteShape.FixedEntries | sources/DS/BPlusTree.hxx:102-117 | borrowing and merging neither lose nor reorder a pair |
| DeleteShape.BorrowsLeft | sources/DS/BPlusTree.hxx:103-106 | after an underflow the left sibling gives a key if it has more than MinKeys; nothing else changes |
| DeleteShape.BorrowsRight | sources/DS/BPlusTree.hxx:107-110 | otherwise the right sibling does, if it has more than MinKeys; nothing else changes |
| DeleteShape.Merges | sources/DS/BPlusTree.hxx:111-116 | otherwise the child is merged with its left sibling, or with the right one if it is the first child |
| DeleteShape.Removed | sources/DS/BPlusTree.hxx:80-122 | recursive deletion keeps every leaf equally deep and every node full enough, with at most one key missing at the top |
| DeleteShape.RemovedOrdered | sources/DS/BPlusTree.hxx:80-122 | recursive deletion keeps every subtree between its separators |
| DeleteShape.RemovedPresent | sources/DS/BPlusTree.hxx:80-122 | deleting a stored key erases exactly one pair with that key from the sequence of pairs |
| DeleteShape.RemovedAbsent | sources/DS/BPlusTree.hxx:83-101 | deleting an absent key changes nothing |
| TreeLaws.InsertIsMapUpdate | sources/DS/BPlusTree.hxx:127-136 | inserting into a sorted run of unique keys is a map update |
| TreeLaws.EraseIsMapRemoval | sources/DS/BPlusTree.hxx:216-225 | erasing one pair of a sorted run of unique keys unbinds exactly its key |
| TreeLaws.OverwriteIsMapUpdate | sources/DS/BPlusTree.hxx:201-214 | replacing one value of a sorted run of unique keys is a map update |
| TreeLaws.HeightIsLogarithmic | sources/DS/BPlusTree.hxx:12-12 | a tree with h levels above its leaves holds at least 2 * MinKeys * (MinKeys + 1)^(h - 1) pairs |
| TreeLaws.FewCopies | sources/DS/BPlusTree.hxx:145-158 | a node holds at most half an order of copies of its upper separator, none with unique keys |
| Separators.UniqueRising | sources/DS/BPlusTree.hxx:186-199 | with unique keys the separators of every node rise strictly, strictly between those around the node |
| BPlusTrees.BPlusTree.UniqueSeparatorsRise | sources/DS/BPlusTree.hxx:186-199 | the same for every valid tree object |
| Separators.RisingHasGaps | sources/DS/BPlusTree.hxx:161-183 | separators rise strictly at every inner node if and only if no leaf lies between two equal separators |
| TreeLaws.OneKeyManySeparators | sources/DS/BPlusTree.hxx:127-184 | if only one key is stored, every separator equals it |
| TreeLaws.CopiesRepeatSeparators | sources/DS/BPlusTree.hxx:145-180 | with more than 2 * Order copies of the only key stored, separators do not rise strictly |
| BPlusTrees.InsertCopies | sources/DS/BPlusTree.hxx:127-136 | inserting one key that often reaches such a tree |
| TreeChain.StoredChain | sources/DS/BPlusTree.hxx:155-156 | the next pointers visit the leaves in order from any leaf on |
| IndexModel.AgreesDistinct | sources/Database/Database.cxx:143-148 | an index can agree with a table only if no two rows share a value in the column |
| IndexModel.AgreesReplacedExactly | sources/Database/Database.cxx:186-198 | for a row given an unused value, removing the old value and inserting the new one keeps agreement if and only if the row had the column or no row holds the empty string there |
| IndexModel.EmptyValueIsForgotten | sources/Database/Database.cxx:190-193 | with a row without the column and a row holding the empty string, updating the first makes the index forget the second |
| IndexModel.DeleteAgreesExactly | sources/Database/Database.cxx:159-169 | row numbers are not adjusted: agreement survives if and only if no row with the column stays behind a removed one |
| IndexModel.KeptAt | sources/Database/Database.cxx:169-169 | a surviving row moves up by the number of removed rows before it |
| IndexModel.ScanInOrder | sources/Database/Database.cxx:205-238 | a scan returns exactly the matching rows, each once, in table order |
| IndexModel.BindingsCount | sources/Database/Database.cxx:445-459 | a new index binds each row that has the column once, to its value and number, and nothing else |
| IndexModel.PickedIsScan | sources/Database/Database.cxx:221-227 | visiting every indexed row once, in any order, finds the same rows as often as a scan |
| IndexModel.IndexScan | sources/Database/Database.cxx:215-230 | going through the keys finds the rows a scan of the rows with the column finds, in dictionary order of the column |
| TableStore.IndexedTable.AddIndex | sources/Database/Database.cxx:445-459 | every row with the column is entered once; the new index agrees with the table if and only if no value repeats |
| TableStore.IndexedTable.Insert | sources/Database/Database.cxx:133-152 | the row is appended, agreement is kept, and an index entry exists from now on unless the row is empty |
| TableStore.IndexedTable.Update | sources/Database/Database.cxx:175-203 | every matching row gets the new values, and a change is reported exactly if some row matched; the index agrees afterwards if and only if no row without the column was given one while some row holds the empty string there |
| TableStore.IndexedTable.Delete | sources/Database/Database.cxx:154-173 | the matching rows go, the others keep their order, and the index agrees afterwards if and only if a suffix was removed |
| TableStore.IndexedTable.Select | sources/Database/Database.cxx:205-238 | without an index entry the matching rows in table order; nothing with an empty entry; with an index the matching rows that have the column, in dictionary order of it |
| TableStore.IndexedTable.ValidateRow | sources/Database/Database.cxx:240-267 | accepts exactly the rows with all required columns and no used value in a unique indexed column |
| TableStore.AcceptedIsFresh | sources/Database/Database.cxx:249-263 | an accepted row has a fresh value in a column declared unique and not null, so it may be inserted |
| TableStore.IndexedTable.InsertValidated | sources/Database/Database.cxx:133-152 | inserting any row ValidateRow accepts keeps agreement |
| TableStore.InsertKeepsDistinctExactly | sources/Database/Database.cxx:142-148 | after an insert some index can agree if and only if the row's value was unused |
| TableStore.UpdateKeepsDistinctExactly | sources/Database/Database.cxx:186-198 | after an update the column's values are still distinct, as any agreeing index needs, if and only if no two rows end up with the new value; whether the code's index agrees is what Update states |
| TableStore.SelectIsScanExactly | sources/Database/Database.cxx:215-234 | Select finds what a filtering scan finds if and only if there is no index entry, or no matching row lacks the indexed column |
| TableStore.InsertHidesRows | sources/Database/Database.cxx:144-144 | after one insert into a table that was never indexed, Select finds nothing |
| DatabaseImage.QuietChanges | sources/Database/Database.cxx:445-449 | an operation changes the persisted image without storing into the flag if and only if it indexes an unknown table or loads a different image |
| DatabaseImage.UpdatedAt | sources/Database/Database.cxx:184-199 | an update gives matching rows the new values and changes nothing else in them, nor any other row |
| DatabaseImage.ThrowsExactly | sources/Database/Database.cxx:107-203 | creating a known table and changing an unknown one throw, nothing else does, and a throw changes nothing |
| DatabaseImage.StoresExactly | sources/Database/Database.cxx:107-203 | which operations store into the flag under the lock, which after it, and which not at all |
| DatabaseImage.Creates | sources/Database/Database.cxx:107-118 | a created table has its schema and no rows; nothing else changes |
| DatabaseImage.Drops | sources/Database/Database.cxx:120-131 | a dropped table has neither schema nor rows; nothing else changes |
| DatabaseImage.ChangesRows | sources/Database/Database.cxx:133-203 | inserting appends the row, deleting keeps the other rows, updating changes the matching ones; schemas and other tables stay |
| DatabaseImage.LeavesOrLoads | sources/Database/Database.cxx:445-466 | the remaining operations leave the image alone, except that indexing an unknown table creates it and loading replaces everything |
| ImageTables.InsertRow | sources/Database/Database.cxx:133-152 | inserting into the table object gives the rows the image then holds under its name, everything else unchanged |
| ImageTables.DeleteRows | sources/Database/Database.cxx:154-173 | the same for deleting |
| ImageTables.UpdateRows | sources/Database/Database.cxx:175-203 | the same for updating, and the flag is stored into exactly if the object reports a change |
| FlushProtocol.InvStep | sources/Database/Database.cxx:16-36 | every step of every thread keeps the invariant, and the written prefix never shrinks |
| FlushProtocol.StartInv | sources/Database/Database.cxx:38-42 | a new database is empty and clean, and satisfies the invariant |
| FlushProtocol.NoLostFlush | sources/Database/Database.cxx:16-36 | in every reachable state with the flag down, no store pending, the last write successful and no quiet change since, file and memory agree |
| FlushProtocol.FileIsAPrefix | sources/Database/Database.cxx:16-36 | in every reachable state the file is the image after a prefix of the changes in lock order, or what it was at the start |
| FlushProtocol.FileOnlyAdvances | sources/Database/Database.cxx:16-36 | along every run the written prefix only grows and the changes it is a prefix of are never rewritten |
| FlushProtocol.MutualExclusion | sources/IO/Spinlock.hxx:12-18 | no two threads are ever inside the lock together |
| FlushProtocol.OperationRuns | sources/Database/Database.cxx:107-203 | with the lock free an operation runs through, whatever other threads are about, and leaves exactly its change, its log entry and its store |
| FlushProtocol.OnlyTheLockBlocks | sources/Database/Database.cxx:16-36 | every thread can take its next step unless it waits for the lock and someone holds it |
| FlushProtocol.CoveredExactly | sources/Database/Database.cxx:107-203 | done from a clean state, an operation leaves the flag up or file and memory equal if and only if it is not a quiet change |
| FlushProtocol.WorkerCatchesUp | sources/Database/Database.cxx:18-31 | with the lock free, one round of the worker writes the memory to the file, lowers the flag and changes nothing else |
| FlushProtocol.FailedWriteDropsTheFlag | sources/Database/Database.cxx:24-29 | a round whose write fails lowers the flag and changes nothing else |
| ExpressionParser.ParserIsGrammar | sources/SQL/Parser.cxx:416-441 | the parser returns a tree and a position if and only if the grammar derives that tree from exactly those tokens |
| ExpressionParser.ParserComplete | sources/SQL/Parser.cxx:416-441 | every derivation is found, whatever follows it |
| ExpressionParser.ExpressionSound | sources/SQL/Parser.cxx:416-441 | whatever is parsed has a derivation: left operands bind at least as tightly as their operator, right ones more tightly |
| ExpressionParser.Unambiguous | sources/SQL/Parser.cxx:11-22 | two derivations of the same tokens have the same tree |
| ExpressionParser.ParseUndoesPrint | sources/SQL/Parser.cxx:137-150 | parsing the printing of a tree gives the tree back if and only if no literal is an opening parenthesis |
| Grammar.PrintIsShortest | sources/SQL/Parser.cxx:137-150 | that printing has parentheses only where they must stand: no text of the tree is shorter |
| ExpressionParser.ThreeOperands | sources/SQL/Parser.cxx:11-22 | two operators between three operands group by precedence, and to the left when they tie |
| ExpressionParser.OperatorsGroup | sources/SQL/Parser.cxx:11-22 | from loosest to tightest OR; AND; = and !=; <, <=, > and >=; + and -; *, / and %: the second of two operators takes the middle operand exactly if its level is the later one |
| ExpressionParser.OtherTokensEnd | sources/SQL/Parser.cxx:20-21 | any other token ends the expression |
| ExpressionParser.GroupsAndErrors | sources/SQL/Parser.cxx:137-150 | a group may be closed by any punctuation that is no operator; anything else, and a missing operand, are the two errors |
| ExpressionParser.Parser.ParseExpression | sources/SQL/Parser.cxx:439-441 | the cursor-moving parser computes the recursive specification and terminates |
| ExpressionParser.Parser.ParseBinaryOperation | sources/SQL/Parser.cxx:416-437 | the two nested loops compute the recursive climb and terminate |
| ExpressionParser.Parser.ParsePrimary | sources/SQL/Parser.cxx:137-150 | literals, groups and the two error cases |
| Tokenizer.Tokenize | sources/SQL/Parser.cxx:31-94 | the scanner's loops produce exactly the specified tokens, or the unterminated-string error, on every text |
| Spelling.ScanUndoesSpelling | sources/SQL/Parser.cxx:31-94 | scanning any white-space-separated spelling of any tokens gives those tokens |
| Spelling.ScanIsSpelling | sources/SQL/Parser.cxx:31-94 | every accepted text is a spelling of the tokens returned, each as long as it can be: nothing is dropped or invented |
| Spelling.RejectedIsUnclosed | sources/SQL/Parser.cxx:53-64 | a text is rejected only for a string that is never closed, behind tokens read as usual |
| Spelling.LexSpelled | sources/SQL/Parser.cxx:39-91 | a number, string, word, keyword or sign that stands alone is read back as its token |
| Spelling.LongestSpelling | sources/SQL/Parser.cxx:39-91 | the token taken is the longest piece of text that spells one; an unclosed string spells none |
| Spelling.SpellableExactly | sources/SQL/Parser.cxx:39-91 | a piece of text counts as spellable exactly if it spells some token |
| Tokenizer.CharacterClasses | sources/SQL/Parser.cxx:34-90 | white space, digits, word characters, punctuation and quotes, character by character |
| Tokenizer.TokenKinds | sources/SQL/Parser.cxx:67-90 | the keywords, and what is punctuation and what a symbol |
| Codegen.EmitsOnePerNode | sources/SQL/Codegen.cxx:8-12 | code is emitted if and only if every operator is supported, one instruction for each node |
| Codegen.ParsedTreesEmit | sources/SQL/Codegen.cxx:76-111 | a parsed tree has code if and only if it contains neither AND nor OR |
| Codegen.SelectCode | sources/SQL/Codegen.cxx:32-38 | one SELECT for each column, then the table's name |
| Codegen.InsertCode | sources/SQL/Codegen.cxx:40-48 | table, columns and values are pushed in this order |
| Codegen.ConditionCode | sources/SQL/Codegen.cxx:50-74 | the updates or the deletion, then WHERE and the condition's code if there is one, then HALT; no code exactly if the condition has none |
| Codegen.CreateCode | sources/SQL/Codegen.cxx:20-30 | CREATE_TABLE, then name, type and constraints of every column |
| Codegen.PlainCode | sources/SQL/Codegen.cxx:113-123 | grants, revocations and table names are single instructions |
| InstructionLaws.EmitsFor | sources/SQL/Codegen.cxx:8-111 | a literal is pushed; an operator has code exactly for the twelve supported ones, left operand first |
| InstructionLaws.OperatorsCompute | sources/SQL/Codegen.cxx:83-108 | running the code of an operator leaves the sum, difference and product modulo 2^64, quotient and remainder or their faults, and 1 or 0 for each comparison |
| InstructionLaws.LiteralComputes | sources/SQL/Codegen.cxx:8-12 | running a literal leaves the address of its string |
| Codegen.ValueIgnoresText | sources/SQL/Bytecode.cxx:26-37 | trees that differ only in the text of literals have the same value |
| Codegen.LiteralsAreNotEqual | sources/SQL/Bytecode.cxx:30-31 | comparing a literal with itself yields false while both strings are allocated |
| Codegen.SubtractionUndoesAddition | sources/SQL/Bytecode.cxx:48-93 | on 64-bit words SUB undoes ADD and ADD undoes SUB |
| Codegen.ProductWraps | sources/SQL/Bytecode.cxx:94-101 | MUL differs from the product by a multiple of 2^64 |
| Codegen.DivisionLaws | sources/SQL/Bytecode.cxx:102-119 | DIV and MOD give quotient and remainder, and fault exactly for a zero divisor |
| Codegen.ComparisonLaws | sources/SQL/Bytecode.cxx:293-334 | the six comparison results are those of one total order on unsigned words |
| CompilerCorrectness.CompilerIsCorrect | sources/SQL/Codegen.cxx:76-111 | from any offset in any program and any state, the code of a tree ends behind itself with exactly the tree's value pushed, or stops with the first division fault of left-to-right evaluation; it never underflows and its peak stack use is exactly the tree's need |
| CompilerCorrectness.ExecuteComputes | sources/SQL/Bytecode.cxx:10-15 | executing the code of a tree halts with its value alone on the stack, or with its division fault |
| CompilerCorrectness.RunAdd | sources/SQL/Bytecode.cxx:10-15 | a run goes on where it was interrupted, and once it has stopped more steps change nothing: the bound Execute takes is immaterial to a program that stops |
| CompilerCorrectness.StraightLineStops | sources/SQL/Bytecode.cxx:10-15 | a program without JMP, CALL and RET stops |
| InstructionLaws.BinaryResults | sources/SQL/Bytecode.cxx:48-120 | the results of arithmetic and logic on two words, the faults of zero divisors |
| InstructionLaws.ComparisonResults | sources/SQL/Bytecode.cxx:293-334 | the results of the six comparisons |
| InstructionLaws.BinaryUnderflow | sources/SQL/Bytecode.cxx:48-120 | with fewer than two words a binary operator takes what there is and throws |
| InstructionLaws.PopEffects | sources/SQL/Bytecode.cxx:38-46 | POP on an empty stack does nothing, NOT throws |
| InstructionLaws.NopEffect | sources/SQL/Bytecode.cxx:21-23 | NOP only advances |
| InstructionLaws.Stops | sources/SQL/Bytecode.cxx:17-25 | the machine stops at HALT and behind the program |
| InstructionLaws.FirstSteps | sources/SQL/Bytecode.cxx:10-15 | a run of one step is that step |
| InstructionLaws.OperandEffects | sources/SQL/Bytecode.cxx:26-37 | which operands PUSH, SELECT, ORDER_BY, GROUP_BY, LIMIT and OFFSET take and what they push |
| InstructionLaws.SetEffect | sources/SQL/Bytecode.cxx:212-226 | SET pushes two new strings |
| InstructionLaws.WhereEffect | sources/SQL/Bytecode.cxx:227-231 | WHERE raises the lowest flag |
| InstructionLaws.JumpEffects | sources/SQL/Bytecode.cxx:56-80 | jumps and calls, and targets outside the program |
| InstructionLaws.ReturnEffect | sources/SQL/Bytecode.cxx:81-85 | RET takes its target from the stack |
| InstructionLaws.RegisterEffects | sources/SQL/Bytecode.cxx:336-360 | LOAD copies a register, STORE pops into one |
| InstructionLaws.RequestEffects | sources/SQL/Bytecode.cxx:121-201 | a database instruction is handed on exactly if its operands are right, and touches nothing else |
| Interpreter.BytecodeInterpreter.Step | sources/SQL/Bytecode.cxx:17-397 | the whole next state of every instruction, with every fault and the stack pointer in step with the stack; database calls become recorded requests |
| Interpreter.BytecodeInterpreter.Execute | sources/SQL/Bytecode.cxx:10-15 | resets and runs: the state after at most the given number of steps, and how it stopped |
| Interpreter.BytecodeInterpreter.Pop | sources/SQL/BytecodeInterpreter.hxx:70-77 | the top leaves the stack, or the stack is empty and nothing changes |
| Interpreter.BytecodeInterpreter.Reset | sources/SQL/BytecodeInterpreter.hxx:48-55 | stack, registers, flags and counter are cleared; the strings on the stack are not tracked |
| QueryPipeline.QueryParses | sources/SQL/Parser.cxx:31-150 | scanning and parsing the query text written for a tree gives the tree back if and only if no literal is an opening parenthesis |
| QueryPipeline.QueryComputes | sources/SQL/Codegen.cxx:76-111 | text, tokens, tree, code and run together yield the value of the tree the text was written for |
| Bytecode.ComparatorIsStrictTotalOrder | sources/SQL/Bytecode.hxx:41-58 | BytecodeComparator is a strict total order on all programs without NaN operands: doubles are reals here, and the C++ order is not total on NaN |
| Bytecode.TextLessIsLexicographic | sources/SQL/Bytecode.hxx:52-53 | strings are ordered by the first place where one ends or has the smaller character |
| Bytecode.ValueLessLaws | sources/SQL/Bytecode.hxx:28-28 | numbers before doubles before strings, equals by value |
| Bytecode.InstructionLessLaws | sources/SQL/Bytecode.hxx:47-54 | opcode, number of operands and first differing operand decide |
| Bytecode.ProgramLessLaws | sources/SQL/Bytecode.hxx:43-56 | shorter programs first, then the first differing instruction decides |
| Bytecode.OpcodesInOrder | sources/SQL/Bytecode.hxx:18-26 | opcodes are numbered in the order of the enumeration |
| Bytecode.Compare | sources/SQL/Bytecode.hxx:41-58 | the nested loops compute that order, doubles being reals |
| BatchCode.Compiler.BuildBytecode | sources/SQL/Codegen.cxx:125-169 | the output is each batch of 36 nodes in program order and then sorted; the nodes are moved out of the AST; it throws at the first node without code |
| BatchCode.SortBatch | sources/SQL/Codegen.cxx:141-144 | inserting a batch into the tree and reading its keys sorts it, repeated programs included |
| BatchCode.SortSorts | sources/SQL/Codegen.cxx:144-144 | the sorted batch is the same multiset of programs in comparator order |
| BatchCode.BuiltConserves | sources/SQL/Codegen.cxx:125-169 | every instruction comes out exactly twice as often as it was emitted |
| BatchCode.BuiltLength | sources/SQL/Codegen.cxx:125-169 | the output is exactly twice as long as the emitted code |
| BatchCode.OneBatch | sources/SQL/Codegen.cxx:125-169 | up to 36 nodes come out in program order and then again in the comparator's order |
| BatchCode.FirstBatch | sources/SQL/Codegen.cxx:139-151 | longer programs are built 36 nodes at a time |
| BatchCode.Pieces | sources/SQL/Codegen.cxx:130-138 | nodes without a statement are left out and codes are put together in order |
| BatchCode.NodeAt | sources/SQL/Codegen.cxx:130-138 | each node's code is that of its statement, and nodes already emitted are empty |
| HashTables.MaskInRange | sources/DS/HashTable.hxx:58-64 | masking with a power-of-two capacity less one stays in the table and wraps at its end |
| HashTables.HashTable.Insert | sources/DS/HashTable.hxx:55-68 | from any table: lookups afterwards are those of the grown table updated, which with distinct live keys is the map update; the pair takes the slot of a live key or the first slot that is not live; live keys are distinct afterwards if and only if they were and the key was not shadowed by a tombstone |
| HashTables.HashTable.Get | sources/DS/HashTable.hxx:70-81 | the probe loop terminates with the first live slot of the key on its path |
| HashTables.HashTable.Remove | sources/DS/HashTable.hxx:83-96 | in any table the first live slot of the key becomes a tombstone, the key is then looked up behind it, every other key as before, and the probe loop terminates; with distinct live keys the key is unbound |
| HashTables.HashTable.Resize | sources/DS/HashTable.hxx:33-43 | rehashing keeps every live pair and clears the tombstones; with distinct live keys it keeps every lookup |
| HashTables.HashTable.EnsureCapacity | sources/DS/HashTable.hxx:45-50 | one more entry fits within the load factor afterwards; the table is the old one, or one of twice the size with all its pairs and no tombstones, and with distinct live keys no lookup changes |
| HashTables.FitsSevenTenths | sources/DS/HashTable.hxx:22-22 | for tables of up to 2^23 slots the float comparison is exactly seven tenths |
| HashTables.LookupIsStored | sources/DS/HashTable.hxx:70-81 | with distinct live keys a lookup answers exactly with the stored value |
| HashTables.Fnv1aOfBytes | sources/DS/HashTable.hxx:24-31 | the hash takes the key's bytes from the lowest on, each exclusive-ored in and multiplied by the FNV prime modulo 2^32 |
| HashTables.BitsOf | sources/DS/HashTable.hxx:29-58 | exclusive or and masking work bit by bit |
| HashTables.HashTable.InsertThenRemove | sources/DS/HashTable.hxx:55-96 | inserting and removing a key unbinds it, or leaves its old value if and only if it was shadowed by a tombstone |
| HashTables.StaleBehind | sources/DS/HashTable.hxx:59-67 | in every table, behind the tombstone that Insert fills, the shadowed key is still found with its old value |
| HashTables.OldValueComesBack | sources/DS/HashTable.hxx:24-31 | six calls with keys 1 and 9 after which the removed key is found with its first value |
| Lz4.LZ4Compress | sources/DS/LZ4.hxx:11-47 | the hash-table driven loop emits exactly the specified tokens |
| Lz4.LZ4Decompress | sources/DS/LZ4.hxx:49-68 | the loop computes the specified decoding of every input |
| Lz4Format.TokensExpand | sources/DS/LZ4.hxx:17-45 | the emitted tokens, overlapping matches included, stand for the input |
| Lz4Distance.TokenExactly | sources/DS/LZ4.hxx:17-45 | a match is emitted exactly if the four bytes stand at the remembered place at most 65536 bytes back, and is as long as the bytes agree, up to 255 |
| Lz4Format.EncodedForm | sources/DS/LZ4.hxx:35-43 | a literal is its byte, a match four bytes: zero, length, distance with the high byte first |
| Lz4Format.MatchDecodes | sources/DS/LZ4.hxx:53-62 | a match within reach repeats the bytes from its distance back, running into itself if it must |
| Lz4Format.NoMatchDecodes | sources/DS/LZ4.hxx:64-66 | a match out of reach or at distance 0 is copied out as four bytes |
| Lz4Format.PortableRoundTrip | sources/DS/LZ4.hxx:11-68 | for zero-free input decompressing gives the input back if and only if no emitted match reaches back 65536 bytes |
| Lz4Distance.RoundTripExactly | sources/DS/LZ4.hxx:11-68 | the same told by the bytes: no token starts where the four bytes stood 65536 bytes earlier, at the last start with their rolling key |
| Lz4Distance.FarTextIsLost | sources/DS/LZ4.hxx:36-39 | a text of 65540 bytes whose last match is encoded with distance 0 does not survive |
| Lz4Format.RoundTrip | sources/DS/LZ4.hxx:9-68 | every zero-free input of at most 65536 bytes survives |
| Lz4Format.CompressDataRoundTrip | sources/Database/Database.cxx:51-57 | what CompressData passes on as a C string survives up to 65536 bytes |
| Snapshot.SnapshotRoundTrip | sources/Database/Database.cxx:69-95 | for every iteration order of the maps, loading the printed text restores the image if and only if all strings are words, empty ones being allowed in the row printed last where moving them to its end changes nothing |
| Snapshot.WordySurvives | sources/Database/Database.cxx:278-318 | an image whose strings are all words is restored from every iteration order |
| Snapshot.EmptyDefaultIsLost | sources/Database/Database.cxx:75-81 | an image with an empty default value is never restored |
| Snapshot.TrailingEmptyIsRestored | sources/Database/Database.cxx:311-315 | a single row whose one value is empty is restored: the failed extraction leaves the value empty |
| Snapshot.EmptyPairIsRestored | sources/Database/Database.cxx:311-315 | a pair of empty strings in the last row is restored even when printed first |
| Snapshot.EmptyBeforeAWordIsLost | sources/Database/Database.cxx:311-315 | an empty value with a pair behind it is lost |
| Snapshot.DecimalReads | sources/Database/Database.cxx:277-279 | a printed count is read back |
| Snapshot.ForeignCounts | sources/Database/Database.cxx:277-279 | counts not printed here: negative ones wrap, too large and unreadable ones fail the stream, and a failed or ended stream leaves the variable indeterminate |
| Snapshot.ForeignFlags | sources/Database/Database.cxx:291-294 | flags not printed here: anything but 0 and 1 counts as true and fails the stream |
| SnapshotFile.ColumnLine | sources/Database/Database.cxx:75-81 | a column is one line of name, flags and default value |
| SnapshotFile.CountsLookLike | sources/Database/Database.cxx:71-88 | counts are printed in decimal |
| SnapshotFile.PrintedForm | sources/Database/Database.cxx:69-94 | the whole text of a snapshot with one of everything |
| SnapshotFile.FileRoundTrip | sources/Database/Database.cxx:69-104 | the same if and only if, through compression, for texts of at most 65536 one-byte, non-zero characters; encryption is left out |
| SnapshotFile.ZeroCutsOff | sources/Database/Database.cxx:51-53 | a zero character ends what is compressed |
| SnapshotFile.Database.SyncToFile | sources/Database/Database.cxx:69-104 | the file becomes the compressed, unencrypted text of the current image, whatever order the maps are iterated in; if it does not open, nothing changes and the caller is told |
| SnapshotFile.Database.LoadFromFile | sources/Database/Database.cxx:269-323 | a file that does not open changes nothing; otherwise schemas and tables become what the text says, failed extractions included, and the answer is true |
| RadixShape.InsertIsMapUpdate | sources/DS/RadixTree.hxx:83-138 | insertion gives one key the value, leaves the lookup of every other key alone, and keeps edges non-empty with distinct first characters and one child each |
| RadixShape.BindsTheKeyExactly | sources/DS/RadixTree.hxx:116-131 | the key bound is the key inserted if and only if the key does not leave an edge in its middle |
| RadixShape.DivergingKeyDoubles | sources/DS/RadixTree.hxx:116-131 | the key bound instead is the key followed by its own rest from some inner place on |
| RadixShape.FindsInsertedExactly | sources/DS/RadixTree.hxx:83-162 | the value just inserted is found under its key if and only if the key does not leave an edge in its middle |
| RadixShape.SecondKeyIsLost | sources/DS/RadixTree.hxx:116-131 | after "ab", inserting "ac" binds "acc" and leaves "ac" unbound |
| RadixTrees.RadixTree.Insert | sources/DS/RadixTree.hxx:83-138 | the in-place insertion computes that insertion and no node becomes shared |
| RadixTrees.RadixTree.Find | sources/DS/RadixTree.hxx:148-162 | the loop and recursion compute the lookup |

## Left out

- BPlusTrees.BPlusTree.Insert: odd orders are excluded, since the occupancy invariant fails for them; in unique mode the key must be new, since with repeated keys neither deletion nor range search is claimed.
- BPlusTrees.BPlusTree.Delete: repeated keys are excluded, since equal keys can stay to the left of their separator.
- BPlusTrees.BPlusTree.RangeSearch: repeated keys are excluded for the same reason.
- BPlusTrees.BPlusTree.GetPointer: the pointer is a leaf and a position in it; writing through it is not modelled.
- TableStore.IndexedTable.Insert: a value that is already indexed is excluded; by TableStore.InsertKeepsDistinctExactly no index could agree then.
- TableStore.IndexedTable.Update: updates after which two rows share the indexed value are excluded; by TableStore.UpdateKeepsDistinctExactly no index could agree then.
- TableStore.IndexedTable.AddIndex: a second index and indexing the same column twice are excluded; what later operations do to an index with repeated values is not modelled.
- TableStore.IndexedTable.Delete: what later operations do to an index that no longer agrees is not modelled.
- HashTables.HashTable.Insert: the load factor comparison is exact arithmetic on the float nearest to 0.7; rounding of the product for capacities above 2^24 is not modelled.
- HashTables.HashTable.Resize: which of two values a key held twice shows after growth is not said.
- Lz4.LZ4Compress: positions are unbounded; inputs of 2 GB and more, where int overflows, are not modelled.
- Interpreter.BytecodeInterpreter.Execute: takes a bound on the number of steps, since a program with jumps need not stop; for a program that stops the bound is immaterial (CompilerCorrectness.RunAdd), and for programs without jumps StraightLineStops says which one suffices.
- Interpreter.BytecodeInterpreter.Step: the database calls of CREATE_TABLE, DROP_TABLE, INSERT, DELETE, UPDATE, GRANT and REVOKE are recorded as requests and taken to return normally; freeing stack values is not modelled.
- SnapshotFile.Database.LoadFromFile: where a loop bound is read from a stream that has failed, the C++ variable is indeterminate, and nothing is claimed.
- SnapshotFile.Database.SyncToFile: encryption is not part of this model, nor what a write that fails half-way leaves in the file.
- Bytecode.Compare: doubles are reals, so NaN is not modelled; the source's order is not total on it.
- Bytecode.ComparatorIsStrictTotalOrder: the same.
- FlushProtocol.NoLostFlush: shutdown of the worker with the flag up, and reads of the tables without the lock, are not modelled.
- Statement parsing, BuildAST's error recovery and the meaning of UPDATE and DELETE code: lists and conditions there are emitted but not consulted.
- Permissions, users, joins, foreign keys, CSV and JSON export, hashing and encryption: independent of the proved core.
- SkipList, Tree, the SIMD helpers and HybridAST: small or unused containers.
- RadixTree::Remove and the RCU and asynchronous wrappers: Remove erases an edge of the wrong node's list; the wrappers share nodes between threads.
- Threads, futures, sleeping and logging: an asynchronous operation is its locked body.
