# MolarTracker, modelled and verified in Dafny

MolarTracker is a desktop finance tracker. This project models the parts of it that hold real state,
loops or arithmetic, and proves what they promise, over all inputs, all runs or all reachable states.

| part | modules |
|---|---|
| Filters compiled to SQL conditions | `FilterTree`, `SqlGrammar`, `WhereExpr`, `WhereBinding`, `WhereMeaning` |
| Fixed-point money | `Decimal`, `Quantity`, `DecimalText`, `Cash` |
| Backup retention | `Backup`, `BackupRetention` |
| Rotating log files | `RingFile`, `RingFileWriter` |
| Log categories and their levels | `CategoryNodes`, `CategoryNames`, `CategoryDescent`, `LogCategories`, `LogManager` |
| Undo and redo | `Commands`, `UndoStack`, `DebugFlags` |
| Instruments under temporary ids | `BaseStores`, `InstrumentStores`, `InstrumentProtocol`, `UnderlyingStockIds`, `StockStores`, `OptionStores`, `StoreContainer` |
| Nested database transactions | `DbTransactions`, `TransactionRepo` |
| Price polling | `PricePolling` |

Code that changes things step by step is modelled as classes and loops, each method proved against a
function of the old state; what the code promises is proved about those functions. Code that only
computes is modelled as functions. `Options`, `Sets` and `Text` hold a few shared definitions.

The engine, the file system and the price feed enter as outcomes the code must handle: their calls may
fail at any time, except where "Left out" names a failure that is not modelled. Where an operation
reports a failure, its contract ties that to the calls that failed, so it cannot fail for nothing. The
tables behind the stores take every insertion; a save that throws ends the program.

## What came out false, and exactly when it holds

- A `WHERE` clause with a two-placeholder operator binds one value only, so a text asks what its filter
  asks exactly when no clause has such an operator (`WhereMeaning.RunsAsAskedExactlyWhen`), and values
  reach their own placeholders exactly when no such clause is followed by another value
  (`WhereBinding.ValuesReachTheirMarksExactlyWhen`; a failing filter is
  `WhereMeaning.PairOperatorTakesNextValue`).
- The disjunction operator drops an empty operand although an empty filter accepts everything; it means
  disjunction exactly when both operands are empty or neither is
  (`FilterTree.MakeOrMeansOrExactlyWhen`, with a witness in `FilterTree.DroppedOperandShows`). Likewise the
  negation operator leaves the empty filter as it is, accepting everything; it means negation exactly on all
  others (`FilterTree.MakeNotMeansNotExactlyWhen`).
- The weekly backup tier is described as keeping the most recent weeks, but keeps the earliest ones
  (`BackupRetention.WeeklyTierKeepsLatestWeeksExactlyWhen`).
- Registering a log category with an empty name makes reading the root by id throw, and nothing else
  does (`LogCategories.CategoryTree.constructor`).
- Saved log levels do not survive a changed default (`LogManager.LoadUnderOtherDefaultRestoresExactlyWhen`).
  At the same default they survive a restart, except where an empty name is registered: then the root is
  hidden behind a second node of that name, and a restart confuses the two exactly when the root is away
  from the default and the other is not (`LogManager.RestartAfterChanges`). Moving the default may take the
  second node along (`LogManager.MovesJustTheDefaultExactlyWhen`).
- A failed undo moves the cursor although some or all of its group is still applied; the history is kept
  exactly when that part has no effect (`UndoStack.UndoKeepsHistoryExactlyWhen`,
  `UndoStack.UndoIsSafeExactlyWhen`), and a redo may carry the group out a second time
  (`UndoStack.FailedUndoThenRedoRepeats`). A redo whose compensation fails has the same condition
  (`UndoStack.RedoKeepsHistoryExactlyWhen`, `UndoStack.RedoIsSafeExactlyWhen`).
- Undoing a change of debug flags that is saved also rewrites the file of overrides. If the undo saves, the
  file comes back exactly when it was up to date before; if only the redo could save, exactly when it already
  held what the redo wrote (`DebugFlags.ReversibleExactlyWhen`, `DebugFlags.FirstSaveIsNotUndone`).
- Printing with fewer decimals than an amount has, and reading back (`DecimalText.ReadBackExactlyWhen`).
  Without the point, amounts are told apart exactly when no decimals are printed, or all of them, or
  there are at least 18 (`DecimalText.PointlessTextsApartExactlyWhen`); option names print strike prices
  with two of six (`DecimalText.PointlessTextCollides`).
- Saving moves an option to its stock's committed instrument id, but the copy of the stock inside it keeps
  its stock id: a temporary one exactly when the stock was not saved when the option was added
  (`UnderlyingStockIds.TemporaryStockIdsExactlyWhen`, `UnderlyingStockIds.NoSaveRepairsStockId`; the shortest
  run is `UnderlyingStockIds.SavedOptionWithTemporaryStockId`).
- "The flag is set iff exactly one live object is active" is lost exactly when a destructor swallows a
  refused ROLLBACK or the engine ends an open transaction by itself
  (`DbTransactions.StepKeepsOneActiveExactlyWhen`). With the flag set and no object active, no later object
  becomes active: nothing is stored while the engine keeps its transaction, and each write by itself once
  it has ended it (`DbTransactions.StrandedStores`).

## Model

| member | source | states |
|---|---|---|
| `FilterTree.BuiltTreesAreWellFormed` | src/filter/include/filter/expr_node.tpp:19-74 | Whatever the operators build from leaves and empty filters, an empty filter never sits below the root. |
| `FilterTree.MakeAndMeansAnd` | src/filter/include/filter/expr_node.tpp:19-35 | The conjunction operator means three-valued AND for every pair of trees, empty ones included. |
| `FilterTree.DroppedOperandShows` | src/filter/include/filter/expr_node.tpp:41-56 | With one empty operand and all leaves unknown, the built filter is unknown where the disjunction accepts. |
| `FilterTree.MakeOrMeansOrExactlyWhen` | src/filter/include/filter/expr_node.tpp:41-56 | Over all truths of the leaves, the disjunction operator means OR exactly when both operands are empty or neither is. |
| `FilterTree.MakeNotMeansNotExactlyWhen` | src/filter/include/filter/expr_node.tpp:62-68 | Over all truths of the leaves, the negation operator means NOT exactly when its operand is not empty; the negated empty filter is the empty filter, which accepts everything. |
| `FilterTree.BuiltKeepsLeaves` | src/filter/include/filter/expr_node.tpp:19-68 | Whatever the operators build holds all the leaves they were given, in that order, and is empty exactly if they were given none. |
| `FilterTree.BuiltMeansProgram` | src/filter/include/filter/expr_node.tpp:19-68 | A filter built without a disjunction of something with nothing and without a negation of nothing says, in three-valued logic, what its operators say. |
| `WhereExpr.BuildMarks` | src/orm/include/orm/where_clause.tpp:79-90 | The loop builds a comma-separated list with one placeholder per value. |
| `WhereExpr.OperatorParses` | src/orm/src/orm/where_clause.cpp:5-30 | Every operator's text reads back, under the grammar of ISO/IEC 9075:1992 section 8.12, as that operator with its placeholders, whatever follows. |
| `WhereExpr.FullNamesApart` | src/orm/include/orm/field.tpp:311-316 | In a full name table and column stand around the dot, so different columns have different full names. |
| `WhereExpr.ClauseParses` | src/orm/include/orm/where_clause.tpp:31-39 | A clause's text reads back as one predicate on its own column, although it may itself contain AND. |
| `WhereExpr.TextParses` | src/orm/src/orm/where_expr.cpp:22-82 | For every filter tree without empty filters, reading the emitted text recovers exactly that tree. |
| `WhereBinding.BindClause` | src/orm/include/orm/where_clause.tpp:50-57 | A clause's values go to consecutive parameters from the shared index on, and the index ends behind them. |
| `WhereBinding.BindAt` | src/orm/src/orm/where_expr.cpp:88-156 | The second traversal binds all values in the text's order, each parameter once, leaving other parameters alone. |
| `WhereBinding.Bind` | src/orm/src/orm/where_expr.cpp:182-198 | Binding a statement numbers the parameters from 1. |
| `WhereBinding.BindFromSets` | src/orm/src/orm/where_expr.cpp:182-198 | Parameter first + k carries value k for every k, and no other parameter changes. |
| `WhereBinding.TextMarks` | src/orm/src/orm/where_expr.cpp:22-82 | The text holds as many question marks as the tree has placeholders. |
| `WhereBinding.EveryMarkBoundExactlyWhen` | src/orm/include/orm/where_clause.tpp:50-57 | Every placeholder gets a value exactly when no two-placeholder operator is used; otherwise one per such operator goes without. |
| `WhereBinding.ValuesReachTheirMarksExactlyWhen` | src/orm/src/orm/where_expr.cpp:88-198 | Each value is bound at the number of its own placeholder exactly when no two-placeholder clause is followed by another value. |
| `WhereMeaning.OperandsShareParameters` | src/orm/src/orm/where_expr.cpp:115-130 | The parameters of a conjunction or disjunction divide between its operands as their placeholders do. |
| `WhereMeaning.ShapeRuns` | src/orm/src/orm/where_expr.cpp:22-198 | When no value follows a two-placeholder clause, every clause runs with its own values, and a final such clause with null for its second placeholder. |
| `WhereMeaning.RunsAsAskedExactlyWhen` | src/orm/src/orm/where_expr.cpp:22-198 | For every filter, what the text asks under the bound values is, predicate by predicate and value by value, what the filter asks, exactly when no clause has a two-placeholder operator. |
| `WhereMeaning.TextMeansFilter` | src/orm/src/orm/where_expr.cpp:171-198 | Executing the text with the bound values gives the filter's three-valued result, whatever the predicates mean, for every filter the operators build without two-placeholder operators; a clause means its column and operator with its own values. |
| `WhereMeaning.FinalPairRunsWithNull` | src/orm/include/orm/where_clause.tpp:50-57 | What the text of a filter gives whose only two-placeholder clause is the last one with a value: that clause runs with null as its second value. |
| `WhereMeaning.PairOperatorTakesNextValue` | src/orm/include/orm/where_clause.tpp:50-57 | A BETWEEN clause takes the next clause's value and leaves that clause with NULL. |
| `WhereMeaning.BetweenThenEqualMeans` | src/orm/include/orm/where_clause.tpp:50-57 | The same filter asks each clause about its own value only. |
| `Decimal.ValueOfPadded` | src/common/src/common/quantity.cpp:330-336 | A zero-padded number reads as the number. |
| `Decimal.PaddedInjective` | src/common/src/common/ring_file.cpp:334-358 | Zero padding keeps different numbers apart. |
| `Quantity.ToInt64` | src/common/src/common/quantity.cpp:180-197 | A 128-bit quotient is cut to 64 bits modulo 2^64. |
| `Quantity.ProductFits` | src/common/src/common/quantity.cpp:180-197 | The intermediate product always fits 128 bits. |
| `Quantity.TruncDivBounds` | src/common/src/common/quantity.cpp:180-197 | Division truncates toward zero and takes the sign from its operands. |
| `Quantity.MulDivTruncatesExactlyWhen` | src/common/src/common/quantity.cpp:180-197 | Multiply-and-divide gives the quotient rounded toward zero, with its sign, exactly when that fits 64 bits; in every case it differs from it by a multiple of 2^64. |
| `Quantity.MulByQuantityTruncatesExactlyWhen` | src/common/src/common/quantity.cpp:207-210 | An amount times a quantity is their product over 10^8 rounded toward zero, exactly when that fits. |
| `Quantity.DivByTruncatesExactlyWhen` | src/common/src/common/quantity.cpp:219-229 | An amount over a quantity is 10^8 times the amount over the quantity rounded toward zero, exactly when that fits; it is an error exactly for the quantity zero. |
| `Quantity.DivByWholeUnitsFitsExactlyWhen` | src/common/src/common/quantity.cpp:219-229 | Dividing by at least one whole unit stays in 64 bits except for the most negative amount divided by minus one unit. |
| `Quantity.DivideThenMultiply` | src/common/src/common/cash.cpp:99-126 | Dividing and multiplying back never overshoots, keeps the sign and loses less than \|q\|/10^8 + 1 micro-units, at most one when \|q\| is at most 10^8. |
| `DecimalText.ScaleOf` | src/common/src/common/quantity.cpp:258-262 | The scale loop computes the power of ten. |
| `DecimalText.ReadFraction` | src/common/src/common/quantity.cpp:284-302 | The fraction loop reads exactly the precision's digits: missing ones as 0, surplus ones not at all. |
| `DecimalText.MicroUnitsFromString` | src/common/src/common/quantity.cpp:238-305 | The reader computes the specified amount or error for every text; where a product or sum leaves 64 bits, the unbounded amount (see `ReadingStaysInInt64ExactlyWhen`). |
| `DecimalText.LayoutReads` | src/common/src/common/quantity.cpp:238-305 | What any text of signs, digits, a point and a tail reads as: the amount of its digits cut or filled up to the precision, an overflow if the whole part leaves 64 bits, or an error that names the first counting character which is no digit. |
| `DecimalText.ReadTextHasLayout` | src/common/src/common/quantity.cpp:238-305 | The reader accepts no other text, and gives each accepted one that amount. |
| `DecimalText.MicroUnitsToString` | src/common/src/common/quantity.cpp:318-345 | The printer yields sign, whole part, point and padded fraction, without the point if not wanted. |
| `DecimalText.PrintThenRead` | src/common/src/common/quantity.cpp:238-345 | Printing an amount with its own scale and reading it back is the identity, between -1 and 0 too. |
| `DecimalText.ReadBackExactlyWhen` | src/common/src/common/quantity.cpp:238-345 | Printing with any precision reads back exactly when there are no decimals, the precision is the scale, or it is smaller and the decimals need no leading zero. |
| `DecimalText.PrintedTextStaysInInt64` | src/common/src/common/quantity.cpp:264-304 | With up to 18 decimals no intermediate result of reading a printed amount leaves 64 bits. |
| `DecimalText.ReadingStaysInInt64ExactlyWhen` | src/common/src/common/quantity.cpp:264-304 | For any text and up to 18 decimals nothing the reader forms, the scaled whole part included, leaves 64 bits exactly when the scaled whole part and the sum fit and no sign meets the most negative sum; for a whole part without a second sign, exactly when the sum is below 2^63. |
| `DecimalText.PointlessTextIsTheNumber` | src/common/src/common/quantity.cpp:318-345 | Without the point, a text printed with the amount's own scale is the signed number of micro-units. |
| `DecimalText.TextsCollide` | src/common/src/common/quantity.cpp:318-345 | For every scale below 18 and every smaller precision above 0, one unit and 10^precision micro-units print like eleven units. |
| `DecimalText.PointlessTextsApartExactlyWhen` | src/common/src/common/quantity.cpp:318-345 | Without the point, all 64-bit amounts are told apart exactly when the precision is 0, the precision is at least the scale, or the scale is at least 18. |
| `DecimalText.PointlessTextCollides` | src/finance/src/finance/instrument/option.cpp:98-107 | As option names print strike prices, with two of six decimals and no point, 550 and 5.005 print alike. |
| `Cash.CashCell.TakeCurrency` | src/common/src/common/cash.cpp:251-270 | An amount takes the other's currency if it has none, keeps its own if the other has none, and fails on a mismatch unchanged. |
| `Cash.CashCell.AddAssign` | src/common/src/common/cash.cpp:149-155 | Adding in place adds the units under the common currency, or fails and changes nothing. |
| `Cash.TotalFailsExactlyWhen` | src/common/src/common/cash.cpp:68-73 | A running total fails exactly when two of the amounts have different currencies, wherever they stand; otherwise it is the sum. |
| `Backup.Folder.KeepRecent` | src/db/src/db/backup_manager.cpp:80-85 | The recent tier keeps exactly the first recentCount files of the listing, or all of them. |
| `Backup.Folder.NewestPerWeek` | src/db/src/db/backup_manager.cpp:87-100 | The week map holds the newest non-recent file of every week, and nothing else. |
| `Backup.Folder.KeepWeeks` | src/db/src/db/backup_manager.cpp:102-109 | Walking the map keeps the files of its weeklyCount least keys. |
| `Backup.Folder.NewestPerMonth` | src/db/src/db/backup_manager.cpp:111-127 | The month map holds the newest file of every month among the files not kept before. |
| `Backup.Folder.DeleteOthers` | src/db/src/db/backup_manager.cpp:129-138 | The listed files outside the kept set are deleted, in order; the loop ends early only at a file whose removal is refused. |
| `Backup.RecentStay` | src/db/src/db/backup_manager.cpp:80-138 | None of the first recentCount files is ever removed, by a pruning that ends or by one that is interrupted. |
| `Backup.Folder.Prune` | src/db/src/db/backup_manager.cpp:71-139 | Pruning deletes exactly the listed files that no tier keeps, or, where one removal is refused, exactly those before it; the first recentCount files stay. |
| `Backup.FewLeastKeys` | src/db/src/db/backup_manager.cpp:102-109 | The weekly tier selects at most weeklyCount weeks. |
| `BackupRetention.SurvivorsAreTheRest` | src/db/src/db/backup_manager.cpp:129-138 | The surviving listing is the listing without the pruned files, still without repetition. |
| `BackupRetention.PruneIsIdempotent` | src/db/src/db/backup_manager.cpp:71-139 | Pruning what a pruning left deletes nothing, for every listing and policy. |
| `BackupRetention.NewestOfMonthSurvives` | src/db/src/db/backup_manager.cpp:111-127 | The newest non-recent backup of every month survives. |
| `BackupRetention.MonthsSurvive` | src/db/src/db/backup_manager.cpp:71-139 | Every month with a backup has one after pruning. |
| `BackupRetention.SurvivorsAreBounded` | src/db/src/db/backup_manager.cpp:71-139 | At most recentCount + weeklyCount + non-recent months files survive. |
| `BackupRetention.WeeklyTierKeepsLatestWeeksExactlyWhen` | src/db/src/db/backup_manager.cpp:102-109 | The weekly tier keeps the latest weeks, as its comment says, exactly when it has room for all of them or for none. |
| `BackupRetention.WeeklyTierKeepsLastOfListing` | src/db/src/db/backup_manager.cpp:87-109 | In a newest-first listing in calendar order the weekly tier keeps the newest file of each of the last weeklyCount weeks of the listing, counted beyond the first recentCount files. |
| `BackupRetention.PartialPruningKeepsMonths` | src/db/src/db/backup_manager.cpp:129-138 | Deleting any part of what a pruning deletes leaves every month with a backup one. |
| `BackupRetention.MonthsNeverDisappear` | src/db/src/db/backup_manager.cpp:231-280 | Over every run of backup attempts, with any policies, disabled backups and failures before or in the middle of a pruning, a month that ever had a backup keeps one. |
| `BackupRetention.ListBackups` | src/db/src/db/backup_manager.cpp:148-220 | The listing holds exactly the stamped files of the folder, once each, newest first; it is empty if backups are disabled or the folder is missing. |
| `BackupRetention.CreateBackup` | src/db/src/db/backup_manager.cpp:231-280 | With backups enabled it fails before the pruning exactly if opening, copying or listing fails, is interrupted exactly if a removal is refused, and completes otherwise: the file added and the listing with it pruned, in full or up to the refused file. |
| `RingFile.NormalizedMeans` | src/common/src/common/ring_file.cpp:160-170 | The adjusted configuration has a file, a directory and a dot before its extension, adds nothing but these, and leaves a configuration that has them alone. |
| `RingFile.PathReads` | src/common/src/common/ring_file.cpp:334-358 | A path is directory, base name, an underscore with the index in decimal as wide as the largest index, and extension; the index is missing only for file 0, if so configured. |
| `RingFile.PathsDistinct` | src/common/src/common/ring_file.cpp:334-358 | Two indices of a ring share a path only if they are equal. |
| `RingFile.RingPathsDistinct` | src/common/src/common/ring_file.cpp:334-358 | All paths of a ring differ, whatever its size, separator or zero-index option. |
| `RingFile.RotationMovesUp` | src/common/src/common/ring_file.cpp:215-266 | Rotation moves every file one place up, present or absent, drops the oldest and touches no other path. |
| `RingFile.RotationDropsOldest` | src/common/src/common/ring_file.cpp:215-266 | After a rotation the ring holds the bytes of all its files but the oldest. |
| `RingFile.WriteKeepsAccurate` | src/common/src/common/ring_file.cpp:108-124 | Every write leaves the file open with its size accounted for exactly. |
| `RingFile.WriteRotatesExactlyWhen` | src/common/src/common/ring_file.cpp:108-207 | A write puts its text behind file 0 and changes nothing else exactly when the size stays within maxSizeMB * 1048576 bytes or there is no limit; otherwise every file moves up one place, the oldest goes, and the text alone is file 0. |
| `RingFile.RunKeepsAccurate` | src/common/src/common/ring_file.cpp:82-124 | Over every run, initial size plus bytes written is the real size of the open file. |
| `RingFile.RunKeepsSuffix` | src/common/src/common/ring_file.cpp:82-124 | Over every run of appending writes the ring is a suffix of what it held followed by everything written. |
| `RingFile.RunTouchesOnlyRing` | src/common/src/common/ring_file.cpp:215-292 | Over every run no file outside the ring's indices is created or changed. |
| `RingFile.RunKeepsOwnFiles` | src/common/src/common/ring_file.cpp:179-207 | Over every run, appending or truncating, every file the object starts stays within maxSizeMB * 2^20 bytes unless it is one single larger write. |
| `RingFile.RunKeepsWithinLimit` | src/common/src/common/ring_file.cpp:82-207 | Over every run, appending or truncating, every file of the ring is within the limit, or is exactly one written text or what a file held at first. |
| `RingFile.ConstructedWriter` | src/common/src/common/ring_file.cpp:21-28 | The invariants of the runs hold at construction, on any files. |
| `RingFileWriter.Ring.constructor` | src/common/src/common/ring_file.cpp:21-28 | Construction normalises the configuration and opens file 0 with its size. |
| `RingFileWriter.Ring.Open` | src/common/src/common/ring_file.cpp:273-292 | Opening creates file 0 if absent, empties it unless appending, and resets the counters. |
| `RingFileWriter.Ring.MoveOver` | src/common/src/common/ring_file.cpp:224-262 | Remove, rename, and copy where renaming fails come to one move over the destination. |
| `RingFileWriter.Ring.RotateNow` | src/common/src/common/ring_file.cpp:215-266 | The loop from the oldest index down performs the specified rotation. |
| `RingFileWriter.Ring.EnsureOpenAndRotateIfNeeded` | src/common/src/common/ring_file.cpp:197-207 | The file is open afterwards, rotated exactly if the write would not fit. |
| `RingFileWriter.Ring.Write` | src/common/src/common/ring_file.cpp:108-124 | A write is the specified step of the run model. |
| `RingFileWriter.Ring.WriteLine` | src/common/src/common/ring_file.cpp:82-100 | A line write, with its newline, is the specified step of the run model. |
| `CategoryNodes.CanonicalExactlyWhen` | src/logging/src/logging/log_categories.cpp:242-290 | The pieces of a name make that name again exactly when it neither starts nor ends with a dot. |
| `CategoryNodes.AddKeepsConsistent` | src/logging/src/logging/log_categories.cpp:301-325 | Adding a missing node keeps ids, parents, children, full names and the name index consistent. |
| `CategoryNodes.LookupNeverInconsistent` | src/logging/src/logging/log_categories.cpp:84-104 | In a consistent tree reading by id finds every node in range and never throws. |
| `CategoryNames.NamesAreCuts` | src/logging/src/logging/log_categories.cpp:242-332 | Registering a name without a leading dot needs just these names in the tree: the root's, its beginnings before each dot, and the whole if it does not end in one. |
| `CategoryNames.NamesAreClosed` | src/logging/src/logging/log_categories.cpp:252-255 | A name already in the tree has its way in the tree too, whatever dots it holds, so leaving early loses no node. |
| `CategoryDescent.NameLessExactlyWhen` | src/logging/src/logging/log_categories.cpp:138-147 | Names are compared as strings: the first difference decides, and a name comes before those it begins. |
| `CategoryDescent.SortSorts` | src/logging/src/logging/log_categories.cpp:130-150 | Children are returned sorted by name. |
| `CategoryDescent.ThroughChild` | src/logging/src/logging/log_categories.cpp:162-181 | Every proper descendant lies below a child. |
| `CategoryDescent.SiblingsApart` | src/logging/src/logging/log_categories.cpp:162-181 | No node lies below two siblings. |
| `CategoryDescent.Pop` | src/logging/src/logging/log_categories.cpp:167-178 | One turn of the stack loop keeps emitted and pending nodes a partition of the subtree. |
| `CategoryDescent.EmittedBound` | src/logging/src/logging/log_categories.cpp:167-178 | While the stack is not empty some node has not been emitted, which bounds the loop. |
| `CategoryDescent.SubtreeOnce` | src/logging/src/logging/log_categories.cpp:162-181 | Visited depth first, a node and everything below it come exactly once, and nothing else. |
| `LogCategories.Turn` | src/logging/src/logging/log_categories.cpp:167-178 | One turn emits the top of the stack, goes on with its children, and strictly lowers the number of nodes not yet emitted. |
| `LogCategories.CategoryTree.constructor` | src/logging/src/logging/log_categories.cpp:20-35 | The tree holds exactly the names on the way to registered names, in whatever order they come; its links are sound, it is consistent unless the empty name is registered, and reading by id can throw exactly then. |
| `LogCategories.CategoryTree.AddNode` | src/logging/src/logging/log_categories.cpp:301-325 | A node is appended under the next id, linked to its parent and indexed by its name. |
| `LogCategories.CategoryTree.StepDown` | src/logging/src/logging/log_categories.cpp:262-287 | One piece of a name leads to the node of the longer name, added if missing, and adds no other name. |
| `LogCategories.CategoryTree.WalkDown` | src/logging/src/logging/log_categories.cpp:258-290 | Walking down the pieces adds exactly the missing names on the way and keeps the tree sound, and consistent if it was. |
| `LogCategories.CategoryTree.AddLogCategory` | src/logging/src/logging/log_categories.cpp:236-290 | Registering a name makes the index hold exactly the names on the way to the names registered so far, this one included; only the empty name costs consistency, and gets a second root. |
| `LogCategories.CategoryTree.GetChildrenOf` | src/logging/src/logging/log_categories.cpp:130-150 | The children of a node, all of them, in name order, in every tree that can be built. |
| `LogCategories.CategoryTree.GetAllDescendantsOf` | src/logging/src/logging/log_categories.cpp:162-181 | In every tree that can be built, an empty registered name included, the traversal terminates and returns the node and everything below it, each exactly once and nothing else, depth first with the last child in name order first. |
| `LogCategories.CategoryTree.SetLogLevel` | src/logging/src/logging/log_categories.cpp:189-203 | Setting a level changes that category's level only. |
| `LogManager.Manager.Initialize` | src/logging/src/logging/log_manager.cpp:42-71 | Start-up puts the tree of the registered names at the default level and loads the overrides into it. |
| `LogManager.Manager.ChangeLogLevel` | src/logging/src/logging/log_manager.cpp:182-219 | A level change moves the node the name leads to and no other, a registered empty name included. |
| `LogManager.Manager.SetDefaultLogLevel` | src/logging/src/logging/log_manager.cpp:325-332 | A default change moves exactly the categories that stood at the old default; a hidden root that stands there takes the node of the empty name along instead of itself. |
| `LogManager.MovesJustTheDefaultExactlyWhen` | src/logging/src/logging/log_manager.cpp:325-332 | It moves just the categories at the old default unless a hidden root stands there and the empty name's node at a third level. |
| `LogManager.Manager.SaveOverrides` | src/logging/src/logging/log_manager.cpp:357-380 | The file lists exactly the categories off the default, a hidden root under the empty name unless that is listed itself, if it can be opened. |
| `LogManager.Manager.LoadOverrides` | src/logging/src/logging/log_manager.cpp:386-413 | Loading casts every listed number to a level for each known category, in any order, and passes over unknown names. |
| `LogManager.NumberLevel` | src/logging/src/logging/log_manager.cpp:401-409 | A stored number becomes the eight-bit level that differs from it by a multiple of 256. |
| `LogManager.SaveThenLoadRestoresExactlyWhen` | src/logging/src/logging/log_manager.cpp:357-413 | Saving and loading at the same default restores every level unless a hidden root is off the default and the node of the empty name is not. |
| `LogManager.LoadUnderOtherDefaultRestoresExactlyWhen` | src/logging/src/logging/log_manager.cpp:357-413 | Under another default that holds exactly when no category stood at the saved default. |
| `LogManager.Restart` | src/logging/src/logging/log_manager.cpp:357-413 | On the objects: save, build a second tree from the same registered names at the default in force, and load; every level by name is back exactly under that condition. |
| `LogManager.RestartAfterChanges` | src/logging/src/logging/log_manager.cpp:182-413 | From one start-up on any stored overrides, over any level and default changes, to the next: every level by name is restored, exactly unless the empty name is registered, the default has moved since and the empty name's node stands at it. |
| `Commands.UndoAll` | src/commands/src/commands/commands.cpp:147-179 | Group undo runs from last to first and, on a failure, redoes what it undid; every way it can end is described, and it reports an error exactly if a command's call failed: one call, or two if the compensation fails. |
| `Commands.RedoUndone` | src/commands/src/commands/commands.cpp:156-164 | The compensation of a failed undo redoes all that was undone, or stops at the first failing redo. |
| `Commands.RedoAll` | src/commands/src/commands/commands.cpp:186-216 | Group redo runs from first to last and, on a failure, undoes what it redid; it reports an error exactly if one call failed, or two. |
| `Commands.UndoIsAllOrNothing` | src/commands/src/commands/commands.cpp:147-179 | Undo of a reversible group restores the state before it, or after a compensated failure changes nothing; a failed compensation leaves a proper first part applied. |
| `Commands.RedoIsAllOrNothing` | src/commands/src/commands/commands.cpp:186-216 | The same for redo. |
| `Commands.BackwardUndoesForward` | src/commands/src/commands/commands.cpp:147-216 | A reversible group, redone and then undone, is the identity. |
| `Commands.MergeRunsBoth` | src/commands/src/commands/commands.cpp:105-123 | Appending a group runs both in order, is reversible exactly if both are, and disabled exactly if the first is or the second adds commands and is. |
| `Commands.GroupCell.Append` | src/commands/src/commands/commands.cpp:105-123 | Appending moves the other group's commands over and leaves it empty. |
| `UndoStack.Stack.Push` | src/commands/src/commands/undo_stack.cpp:18-33 | A push drops the groups above the cursor and records the new one. |
| `UndoStack.Stack.Undo` | src/commands/src/commands/undo_stack.cpp:53-72 | Undo moves the cursor down whether or not its group succeeds, refuses a disabled one, and reports a group error exactly if calls failed. |
| `UndoStack.Stack.Redo` | src/commands/src/commands/undo_stack.cpp:79-98 | Redo moves the cursor up only on success, and reports a group error exactly if calls failed. |
| `UndoStack.HistoryAlongRuns` | src/commands/src/commands/undo_stack.cpp:18-98 | Over every run without failing undos the state is the base with exactly the groups below the cursor applied in order. |
| `UndoStack.UndoKeepsHistoryExactlyWhen` | src/commands/src/commands/undo_stack.cpp:53-72 | However an undo ends: without a group error the history property is kept; with one, all of the group or a proper first part is left applied, and it is kept exactly when that part has no effect. |
| `UndoStack.RedoKeepsHistoryExactlyWhen` | src/commands/src/commands/undo_stack.cpp:79-98 | However a redo ends: only a failed compensation can lose the property, and it is kept then exactly when the part left applied has no effect. |
| `UndoStack.UndoIsSafeExactlyWhen` | src/commands/src/commands/undo_stack.cpp:53-72 | Before an undo: every way it can end keeps the property exactly when no first part of the group, nor the whole, has an effect. |
| `UndoStack.RedoIsSafeExactlyWhen` | src/commands/src/commands/undo_stack.cpp:79-98 | Before a redo: every way it can end keeps the property exactly when no proper first part of the group has an effect. |
| `UndoStack.FailedUndoThenRedoRepeats` | src/commands/src/commands/undo_stack.cpp:53-98 | After it, a redo carries the group out a second time. |
| `UndoStack.DisabledNeverWaits` | src/commands/src/commands/undo_stack.cpp:79-98 | Over every run at all the disabled branch of redo is unreachable. |
| `UndoStack.DisabledStaysBelow` | src/commands/src/commands/undo_stack.cpp:18-98 | A disabled group, once recorded, stays below the cursor forever. |
| `DebugFlags.UpdateDebugFlags.Undo` | src/commands/src/commands/update_debug_flags_command.cpp:29-43 | Undo assigns the remembered levels and saves the overrides if asked to; it is the backward half of the undoable command the next rows speak of. |
| `DebugFlags.UpdateDebugFlags.Redo` | src/commands/src/commands/update_debug_flags_command.cpp:50-64 | Redo assigns the new levels and saves the overrides if asked to; it is its forward half. |
| `DebugFlags.ReversibleExactlyWhen` | src/commands/src/commands/update_debug_flags_command.cpp:29-64 | Over levels and override file, with redo and undo each saving or not, the command is reversible from a state exactly when the levels stand as remembered where it touches them and the file comes back: up to date before if undo saves, already as redo writes it if only redo does. |
| `DebugFlags.FreshCommandIsReversibleExactlyWhen` | src/commands/src/commands/update_debug_flags_command.cpp:14-64 | A command built from the tree as it stands is reversible from there exactly when the file comes back. |
| `DebugFlags.FirstSaveIsNotUndone` | src/commands/src/commands/update_debug_flags_command.cpp:29-64 | Without a file before, what redo or undo saves stays behind. |
| `InstrumentStores.CommitStockEntriesCommits` | src/store/src/store/stock_store.cpp:103-171 | A stock commit of new and clean entries succeeds: rows for the new ones, nothing changed for the others, one map line per new id, one table line per new ticker. |
| `InstrumentProtocol.RemapSucceedsExactlyWhen` | src/store/src/store/option_store.cpp:267-306 | The remap succeeds exactly when no committed option names a mapped id, and then rewrites exactly the new options on mapped stocks. |
| `InstrumentProtocol.CommitOptionEntriesCommits` | src/store/src/store/option_store.cpp:155-213 | An option commit gives new options rows, keeps what they are on, maps every temporary id to its row and inserts no stock of its own. |
| `InstrumentProtocol.AddStockKeepsSound` | src/store/src/store/stock_store.cpp:50-71 | Adding a stock keeps the invariant of reachable states. |
| `InstrumentProtocol.AddOptionKeepsSound` | src/store/src/store/option_store.cpp:42-66 | Adding an option on a stock of the store keeps the invariant. |
| `InstrumentProtocol.StockCommitDone` | src/store/src/store/stock_store.cpp:103-109 | The stock half of a commit succeeds; a clean store returning early with its old map is covered. |
| `InstrumentProtocol.RemappedIsOn` | src/store/src/store/option_store.cpp:267-306 | In every reachable state a committed option names no mapped id, and a remapped one names its stock's committed id. |
| `InstrumentProtocol.CommitSettles` | src/store/src/store/store_container.cpp:152-183 | From every reachable state a commit throws none of the stores' own exceptions, leaves no entry with a temporary id of its own, puts every option on a stored stock by its committed instrument id, keeps all entries in order and maps every temporary instrument id to its committed one. |
| `InstrumentProtocol.RunsSettle` | src/store/src/store/store_container.cpp:152-183 | Over every run of added stocks, added options and saves none of the stores' own exceptions is thrown, and after every save no entry has a temporary id of its own and no option a temporary instrument id for its underlying. |
| `UnderlyingStockIds.AddedStockIdExactlyWhen` | src/store/src/store/option_store.cpp:42-66 | An added option's copy of its stock has a temporary stock id exactly while the stock is new. |
| `UnderlyingStockIds.NoSaveRepairsStockId` | src/finance/src/finance/instrument/option.cpp:134-137 | Over every later run, saves included, it has one exactly if the stock was new when the option was added. |
| `UnderlyingStockIds.TemporaryStockIdsExactlyWhen` | src/finance/src/finance/instrument/option.cpp:134-137 | Over every run some option is left with a temporary stock id inside exactly if some option was added on a stock not saved by then. |
| `UnderlyingStockIds.SavedOptionWithTemporaryStockId` | src/finance/src/finance/instrument/option.cpp:134-137 | The shortest run that leaves one after a save. |
| `StockStores.InstrumentService.AddOption` | src/repo/src/repo/instrument_repo.cpp:265-295 | Inserting an option inserts its underlying first if the tables lack its ticker. |
| `BaseStores.FindEntry` | src/store/src/store/base/base_store.tpp:111-119 | The first entry with an id is found, or none. |
| `BaseStores.CommitStep` | src/store/src/store/base/base_store.tpp:457-478 | Handling one entry moves the commit of a store, of stocks or of options, on by one. |
| `StockStores.StockStore.AddStock` | src/store/src/store/stock_store.cpp:50-71 | A stock joins as new under the next ids unless its ticker is there already. |
| `StockStores.StockStore.CommitNew` | src/store/src/store/stock_store.cpp:117-154 | One new entry is inserted and replaced where its temporary id is found. |
| `StockStores.StockStore.Commit` | src/store/src/store/stock_store.cpp:103-171 | The loop over the entries performs the specified commit, or stops with the specified exception. |
| `OptionStores.OptionStore.AddOption` | src/store/src/store/option_store.cpp:42-66 | An option joins as new unless the store or the tables hold its name. |
| `OptionStores.OptionStore.OnInstrumentIdRemap` | src/store/src/store/option_store.cpp:267-306 | The loop performs the specified remap, or throws at a committed option on a mapped id. |
| `OptionStores.OptionStore.CommitEntries` | src/store/src/store/option_store.cpp:155-213 | The loop performs the specified insertions from an empty map. |
| `OptionStores.OptionStore.Commit` | src/store/src/store/option_store.cpp:144-216 | Early return, remap and insertions together are the specified commit. |
| `StoreContainer.Combine` | src/common/include/common/container/id_id_map.tpp:21-30 | Two maps combine exactly when they share no id. |
| `StoreContainer.Stores.AddStock` | src/store/src/store/stock_store.cpp:50-71 | On the live objects, adding a stock is the specified step and keeps the invariant. |
| `StoreContainer.Stores.AddOption` | src/store/src/store/option_store.cpp:42-66 | On the live objects, adding an option is the specified step and keeps the invariant. |
| `StoreContainer.Stores.Commit` | src/store/src/store/store_container.cpp:152-183 | On the live objects, a save is the specified commit: it throws none of the stores' own exceptions, leaves no entry with a temporary id of its own and no option on a temporary instrument id, and returns the joint map. |
| `DbTransactions.StepKeepsOneActiveExactlyWhen` | src/db/src/db/transaction.cpp:17-119 | A step keeps "the flag is set iff exactly one live object is active" exactly when it does not destroy an active object whose ROLLBACK fails and the engine does not end an open transaction by itself. |
| `DbTransactions.OpenedIsActiveExactlyWhen` | src/db/src/db/transaction.cpp:17-30 | A new object appears unless the flag is clear and BEGIN is refused; it is active exactly when the flag was clear, and sets flag and transaction then. |
| `DbTransactions.RunsKeepOneActive` | src/db/src/db/transaction.cpp:17-119 | So it holds over every last-in-first-out run without such a step. |
| `DbTransactions.AcceptingEngineNeverBreaks` | src/db/src/db/transaction.cpp:17-119 | In particular, over every run in which the engine carries out each ROLLBACK of a destructor and never ends a transaction by itself. |
| `DbTransactions.OpenedHolds` | src/db/src/db/transaction.cpp:17-30 | With the flag clear, the object whose BEGIN succeeds holds the transaction. |
| `DbTransactions.OneActiveMeans` | src/db/src/db/transaction.cpp:17-30 | The flag tells whether some live object is active, and never two are. |
| `DbTransactions.HolderHoldsOn` | src/db/src/db/transaction.cpp:99-119 | While one object holds the transaction, no step of any other reaches the engine. |
| `DbTransactions.OthersSpare` | src/db/src/db/transaction.cpp:17-119 | No run of opening, writing and asking other objects to commit or roll back leaves the holder's scope. |
| `DbTransactions.NestedObjectSpares` | src/orm/include/orm/crud.tpp:100-112 | Nor does a row insertion's nested object, opened, written under, committed and destroyed inside it. |
| `DbTransactions.ScopeHoldsCommitted` | src/db/src/db/transaction.cpp:17-119 | Over every run inside its scope nothing is stored for good, and what the scope sees is what was written last. |
| `DbTransactions.HolderDecides` | src/db/src/db/transaction.cpp:42-119 | Its COMMIT stores what was last written in the scope; its ROLLBACK or destruction restores what was stored before. |
| `DbTransactions.StrandsLeavesStranded` | src/db/src/db/transaction.cpp:42-60 | A failing ROLLBACK in the destructor leaves the flag set, the engine's transaction open and no object active. |
| `DbTransactions.AbandonedScope` | src/db/src/db/transaction.cpp:42-119 | When the engine ends an object's transaction by itself, later writes in its scope are stored one by one, it can neither commit nor roll back, and its destruction leaves the flag set. |
| `DbTransactions.StrandedStores` | src/db/src/db/transaction.cpp:17-60 | With the flag set and no object active, no later object becomes active over any run, and what is stored is exactly what is written after the engine's transaction has ended. |
| `DbTransactions.StrandedStoresNothing` | src/db/src/db/transaction.cpp:17-60 | After a refused ROLLBACK in a destructor no run stores anything for as long as the engine keeps its transaction open. |
| `TransactionRepo.Transaction.Open` | src/db/src/db/transaction.cpp:17-30 | A new object is active exactly when no transaction was open, issues BEGIN exactly then, and is missing only if BEGIN is not carried out; on connection and flag it is the opening step of the state machine. |
| `TransactionRepo.Transaction.Commit` | src/db/src/db/transaction.cpp:99-106 | Without effect on an inactive object; otherwise a COMMIT that, failing, leaves the object active: the commit step of the state machine. |
| `TransactionRepo.Transaction.Destroy` | src/db/src/db/transaction.cpp:42-60 | An active object rolls back and a failure is swallowed; an inactive one does nothing: its destruction step. |
| `TransactionRepo.InsertHeader` | src/orm/include/orm/crud.tpp:100-112 | Inside an open transaction a row insertion's own nested object neither commits nor rolls back. |
| `TransactionRepo.AddEntries` | src/repo/src/repo/transaction_repo.cpp:152-169 | The loop inserts all entries in order, or stops having inserted only a first part, or with the engine having ended its transaction. |
| `TransactionRepo.AddLegs` | src/repo/src/repo/transaction_repo.cpp:36-59 | The same for the legs. |
| `TransactionRepo.AddRows` | src/repo/src/repo/transaction_repo.cpp:137-218 | Header, entries, legs and option row are inserted in order under one transaction id, for all three kinds. |
| `TransactionRepo.AddTransaction` | src/repo/src/repo/transaction_repo.cpp:131-223 | It returns an id exactly when the engine refuses none of its calls. Outermost, it stores all rows or none, whatever insertion, BEGIN, COMMIT or ROLLBACK fails and even if the engine ends the transaction; with the flag set, success adds all rows to what is enclosing and failure leaves a first part there. |
| `PricePolling.AcceptsExactlyCompleteBatches` | src/controller/src/controller/position_controller.cpp:108-114 | The size gate lets through exactly the batches that answer every ticker asked for. |
| `PricePolling.AcceptedReplaces` | src/finance/src/finance/price_cache.cpp:18-29 | So merging a batch replaces the cache, and no cached ticker is lost. |
| `PricePolling.StepKeepsConsistent` | src/controller/src/controller/position_controller.cpp:85-132 | Every step keeps the expected count and snapshot of a fetch in line with the growing ticker set. |
| `PricePolling.RunningFetchStays` | src/controller/src/controller/position_controller.cpp:85-101 | While a fetch is running, ticks and added transactions start no other and change neither its snapshot nor the expected count. |
| `PricePolling.CacheIsLastAccepted` | src/controller/src/controller/position_controller.cpp:85-132 | Over every interleaving of ticks, added transactions and fetches the cache is the last accepted batch, in keys and values. |
| `PricePolling.CacheFromTheStart` | src/controller/src/controller/position_controller.cpp:28-73 | From construction on it is that batch, or empty before the first one. |
| `PricePolling.FullFetchUpdatesExactlyWhen` | src/controller/src/controller/position_controller.cpp:85-114 | An undisturbed fetch updates the cache exactly when the feed answers every tracked ticker. |
| `PricePolling.PriceCache.Update` | src/finance/src/finance/price_cache.cpp:18-29 | The loop merges a batch, replacing quotes and keeping the others, in any order. |
| `PricePolling.FetchBatch` | src/finance/src/finance/price_cache.cpp:105-119 | The loop returns exactly the quotes the feed has for the symbols asked for. |
| `PricePolling.PositionController.constructor` | src/controller/src/controller/position_controller.cpp:28-73 | Construction starts the first fetch, if there are tickers. |
| `PricePolling.PositionController.FetchPrices` | src/controller/src/controller/position_controller.cpp:85-101 | A fetch starts unless one is running or no ticker is tracked. |
| `PricePolling.PositionController.OnPricesFetched` | src/controller/src/controller/position_controller.cpp:108-114 | A finished batch updates the cache exactly if it has the expected size. |
| `PricePolling.PositionController.OnTransactionsAdded` | src/controller/src/controller/position_controller.cpp:63-70 | Added transactions add their tickers and then fetch. |

## Left out

- WhereMeaning.TextMeansFilter: holds for filters without two-placeholder operators; the others ask something else, as `RunsAsAskedExactlyWhen` shows.
- LogManager.Manager.Initialize: cleaning up old log files and opening the log file are not part of it.
- LogManager.Manager.LoadOverrides: the file is a map from names to integers; other JSON values and malformed text throw in the source.
- Quantity.DivideThenMultiply: for quotients that fit 64 bits; where the quotient is cut, no relation is claimed.
- TransactionRepo.AddTransaction: without an enclosing transaction it may leave the flag set when a ROLLBACK fails or the engine has ended the transaction; nothing is stored in that case either.
- RingFile.RunKeepsSuffix: for appending writers; a writer that truncates on opening loses file 0 by design.
- DecimalText.MicroUnitsFromString: where whole part times scale, or the sum, leaves 64 bits, the source is undefined and the model gives the unbounded number.
- RingFileWriter.Ring.MoveOver: a copy that fails after a failed rename leaves the source in place, as does a failing removal behind it; such rotations are not modelled.
- InstrumentProtocol.RunsSettle: an insertion that throws during a save ends the program (src/ui/src/ui/exceptions/exception_dialog.cpp:121), so runs end there; the insertions of `InstrumentService` always succeed.
- Signed overflow of 64-bit amounts in addition, subtraction, multiplication by the scale and negation: undefined in the source, unbounded here.
- The wrap-around of maxSizeMB * 2^20 in 64 bits, and more than 18 decimals or none in the printer.
- The MSVC branch of the 128-bit multiplication; it computes the same quotient.
- Symlink upkeep and text-mode newlines in `RingFile`; a stream opened on an unwritable path.
- Whether a backup file is complete: a failed attempt's file counts as a backup in the source too.
- The calendar behind backup stamps: time, week and month are given per file, with a total order on the keys.
- Reloading the stores, which also replaces the options' copies of their stocks.
- Deleting or modifying stocks and options; the source has no such operation for them beyond the exception its commit throws.
- Filling stores from the tables: the initial entries are given, clean and agreeing with the tables.
- The stores for profiles, accounts, positions, transactions and watchlists, which follow the same pattern with one map each.
- The trimmed list of executed statements, prepared statements and everything else of the SQLite connection beyond BEGIN, COMMIT, ROLLBACK and insertions.
- Move construction and move assignment of transaction objects.
- Clearing the price cache and its list of tickers not yet fetched; the controller uses neither.
- The locks of the price cache; its updates are single steps here. The finished signal is delivered only for the future being watched.
- Profit and loss folding, services, mappers, drafts, rows and labels, which pass data through.
- The user interface, Qt signals and dialogs.
- Floating-point display code.
