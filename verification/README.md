# Algorithms of the Drupal front end, modelled and proved

A Dafny model of the parts of the Drupal repository that hold real algorithms once
the page is seen as plain data, with proofs of what they promise. `dafny verify
dfyconfig.toml` checks everything.

## What is modelled

**The draggable table** (`core/misc/tabledrag.js`). A table is a sequence of rows
with depths, a forest in pre-order (`TreeTable`). A drag is a state machine on the
rows above the group, the group and the rows below (`Drag`), and the row object and
the table are also modelled as objects updated in place whose methods are proved to
take the machine's steps (`TableDrag`). The central fact is `DragSound.FitsIffSound`:
the test that looks at two neighbours is equivalent to the soundness of the whole
table. On it rest the theorems on single events (`DragSteps`, `DragAim`), on up and
down keys undoing each other (`DragUndo`), on the drop (`DropInputs`, `DropFields`,
`DropNumbers`), on whole histories of drags (`DragHistory`), and that the form's ids,
parents and weights alone determine the displayed table (`Rebuild`, `RebuildForm`).
`DragTraps` shows what goes wrong.

**Placeholders** (`core/misc/drupal.js`). The recursive replacer against one split of
the input (`StringReplace`) and against one left-to-right scan (`PlaceholderScan`),
with the exact condition on the keys (`StolenKeys`); escaping (`Escape`); formatting and
plural forms (`FormatPlural`, `FormatSafe`).

**Tabbing constraints** (`core/misc/tabbingmanager.js`). A pure stack of constraints
over a page (`TabbingSpec`), and the manager that overwrites attributes and
puts them back, proved to refine it call by call (`TabbingManager`) and over whole runs
(`TabbingHistory`).

**Form states** (`core/misc/states.js`). Names with negation and aliases (`StateNames`),
the evaluator and its dry run (`StateConstraints`), cached results, events and
well-formed constraints (`StateDependent`), single conditions (`StateLeaves`).

**Smaller state machines.** The mutual recursion of swap and handler in the field
overview (`FieldUi`), quoted lists (`Autocomplete`), calls and timers (`Debounce`),
the announcement queue built on it (`Announce`), allowed tags (`FilterTags`), and the
REST configuration update (`RestConfig`). `Maybe` and `Lists` hold shared basics.

## What the code does not keep

Each of these is stated with its exact condition and shown on an input, or on a
family of them.

- The arrow keys look for their neighbour with `prev` and `next` and the selector
  `tr:first-of-type` (`core/misc/tabledrag.js:517`, 520, 533, 568 and 571). Those
  methods take the neighbouring element and keep it only if it matches
  (`core/assets/vendor/jquery/jquery.js:3038-3100`), which only the first row of a table
  body does. As written, then, the down key never moves a row and the up key moves only
  a row right below the first one (`DragSteps.KeysMoveExact`). Everything about keys is
  proved for both readings, `Written` and `Intended`; what holds of one alone says so.
- As intended, the arrow keys never check for an empty interval, which a depth limit can
  produce (`DragSteps.KeyMoveExact`, `DragTraps.LimitedKeyBreaks`). As written they
  never meet one (`DragSteps.KeyboardRunSound`).
- A refused drop target still replaces the stored interval, so the next indent can
  steal a child (`DragSteps.RejectedExact`, `DragTraps.RefusedHoverBreaks`).
- On the way up, the row just below the group is measured against the group's own
  last row (`DragSteps.OwnTailExact`, `DragTraps.OwnTailBreaks`).
- The up key takes a root row above an undraggable first row when no top-level row
  lies between; the guard at `core/misc/tabledrag.js:543` exists for other rows only
  (`DragSteps.FirstRowStays`, `DragTraps.FirstRowTable`).
- A row dropped at the root level whose lookup finds no usable source row keeps its
  old parent: the source is then undefined and the lookup runs over the page
  (`core/misc/tabledrag.js:1007-1012` and 1033). The comment at line 1004 takes for
  granted a first row at the root level to copy from, but the selector misses it when it
  cannot be dragged (`DropFields.DropExact`, `DragTraps.StaleParentBreaks`).
- Weights from a select list repeat when the options run out (`DropFields.DropExact`,
  `DragTraps.NoRoomTable`).
- Replacement by longest key is not a left-to-right scan for all keys
  (`StolenKeys.ScanExact`, `StolenKeys.UnmarkedKeysDiffer`).
- An empty tabindex attribute is removed, not restored (`TabbingManager.RestoreExact`,
  `TabbingSpec.BaseExact`).
- A selected item that begins with a comma is written without quotes, because its
  first comma is at position 0, and one with quotes of its own can close those around
  it (`Autocomplete.SelectExact`, `Autocomplete.PlainItemExact`,
  `Autocomplete.QuoteBeforeComma`).
- A REST format or provider name that has a comma or is empty can make the conversion
  change a method's settings (`RestConfig.ConvertKeepsExact`, `RestConfig.NamesMislead`).

## Model

| member | source | states |
|---|---|---|
| `TreeTable.ParentOneUp` | core/misc/tabledrag.js:988-1000 | In a table that satisfies the invariant a row has no structural parent exactly when its depth is 0; otherwise the parent is one level up and draggable |
| `TreeTable.ForestExact` | core/misc/tabledrag.js:1354-1381 | What is checked from row to row is what makes a tree: rows that must be are at the margin, every other row has a parent exactly one level up that can be dragged and is no leaf, and none is deeper than the limit |
| `TreeTable.ParentUnique` | core/misc/tabledrag.js:990-1000 | The row that the upward search ends at is the only one that is shallower with nothing as shallow in between |
| `TreeTable.ChildCountUnique` | core/misc/tabledrag.js:1241-1278 | The children are the longest run of draggable deeper rows after the row; no other count has that property |
| `TreeTable.GroupDepth` | core/misc/tabledrag.js:1223-1227 | The group depth is attained in the group and exceeded nowhere in it |
| `Drag.IntervalBetweenSafe` | core/misc/tabledrag.js:1354-1381 | Between any two rows the interval never lets a root row leave the margin nor the group outgrow the depth limit |
| `Drag.MoveKeeps` | core/misc/tabledrag.js:1326-1338 | Moving the group anywhere leaves the order and depths of all other rows, and the drag invariant, untouched |
| `Drag.ShiftedGroup` | core/misc/tabledrag.js:1409-1424 | Adding or removing indentations keeps the shape of the group and moves its depth along |
| `Drag.IndentKeeps` | core/misc/tabledrag.js:1394-1428 | An indent by any amount keeps the drag invariant and the other rows, and moves every row of the group by the same number of columns |
| `Drag.HoverKeeps` | core/misc/tabledrag.js:1289-1316 | Passing over a row, accepted or refused, keeps the drag invariant, the other rows and the group |
| `Drag.KeyUpKeeps` | core/misc/tabledrag.js:514-554 | With the neighbour found as written or as intended, the up key keeps the drag invariant and the other rows, and moves the group as a block |
| `Drag.KeyDownKeeps` | core/misc/tabledrag.js:565-604 | The down key likewise, past a whole group for root rows |
| `Drag.StepKeeps` | core/misc/tabledrag.js:704-755 | Every pointer movement or arrow key, whatever it asks for, keeps the drag invariant, the other rows in order and the rigidity of the group |
| `DragSound.FitsIffSound` | core/misc/tabledrag.js:1354-1381 | Looking at the two neighbours is exact: the depth lies in their interval if and only if the whole table is a forest within the limit and no other row has changed parent; inside the group no row ever changes parent |
| `DragSound.GroupParents` | core/misc/tabledrag.js:1409-1419 | Rows of the group other than the dragged one keep their parents in the group, wherever it stands |
| `DragSound.GrabFits` | core/misc/tabledrag.js:1207-1229 | A freshly grabbed row satisfies the drag invariant and fits where it is, and taking its group out leaves a forest |
| `DragSound.FitsChildren` | core/misc/tabledrag.js:1241-1278 | After any fitting move the children found below the dragged row are the group it was dragged with |
| `DragSteps.IndentExact` | core/misc/tabledrag.js:1403-1407 | One indent leaves a sound table if and only if the depth it settles on is allowed between the rows around the group |
| `DragSteps.CoveredExact` | core/misc/tabledrag.js:1396-1407 | Every later indent is harmless if and only if the interval in use lies within the one at the real position |
| `DragSteps.TargetNearest` | core/misc/tabledrag.js:1403-1407 | The depth an indent settles on is the allowed one nearest to what was asked for; an empty interval gives its upper bound |
| `DragAim.StepSettles` | core/misc/tabledrag.js:739-749 | Every event settles the row at the allowed depth nearest to where it is asked to go, more columns meaning deeper: for a pointer, of those between the rows it passes, for an arrow key, of those around the new place; an empty interval leaves its upper bound |
| `DragAim.BoundsKept` | core/misc/tabledrag.js:1302-1400 | That interval is kept for what comes next, except by keys that only swap |
| `DragAim.HoverMeasures` | core/misc/tabledrag.js:1289-1316 | A target with other rows as neighbours is measured by the rows that will be around the group there, and accepted if and only if some depth is allowed there and it is not before an undraggable first row |
| `DragAim.ChangedExact` | core/misc/tabledrag.js:1336-1422 | The row object is marked changed exactly when it was before, the event swaps it with a row, or its depth changes |
| `DragSteps.HoverPlaces` | core/misc/tabledrag.js:1326-1338 | An accepted target ends up directly above the group on the way down and directly below it on the way up; a refused one moves nothing |
| `DragSteps.AcceptedCovers` | core/misc/tabledrag.js:1289-1316 | After an accepted target with other rows as neighbours every later indent is harmless, even if the row was badly placed before; for the row just above, passed downwards, exactly if it was placed well |
| `DragSteps.RejectedExact` | core/misc/tabledrag.js:1302-1307 | A refused target is stored as the interval all the same; later indents are harmless if and only if that interval happens to lie within the true one |
| `DragSteps.OwnTailExact` | core/misc/tabledrag.js:1298-1301 | On the way up, the row just below the group is measured against the group itself; later indents are harmless if and only if that allows no more than the row above the group does |
| `DragSteps.KeyMoveExact` | core/misc/tabledrag.js:546-548 | A key move leaves a sound table if and only if the interval at the new position is not empty, which nothing checks |
| `DragSteps.NoLimitInterval` | core/misc/tabledrag.js:1354-1381 | Without a depth limit that interval is never empty |
| `DragSteps.KeysMoveExact` | core/misc/tabledrag.js:517-523 | When an arrow key moves the group at all. As written, with `tr:first-of-type`, the down key never does and the up key only for a row right below the first one, a root row or below a draggable one; as intended, whenever there is a row to go past |
| `DragSteps.TopLevelFound` | core/misc/tabledrag.js:529-536 | The search for a top-level row always ends at one, so the row it then measures exists |
| `DragSteps.KeyUpExact` | core/misc/tabledrag.js:543-550 | An up key that moves an ordinary row, under either selector: sound if and only if the new interval is not empty; always, without a limit, even when the row was badly placed before |
| `DragSteps.KeyDownExact` | core/misc/tabledrag.js:594-600 | A down key that moves an ordinary row, likewise |
| `DragSteps.KeyDownSound` | core/misc/tabledrag.js:565-604 | A down key on a well placed ordinary row leaves a sound table if and only if it does not move it or the new interval is not empty |
| `DragSteps.WrittenOpen` | core/misc/tabledrag.js:517-548 | As written, an up key that moves an ordinary row puts it first, where the interval is never empty, whatever the limit |
| `DragSteps.RootUpReady` | core/misc/tabledrag.js:529-542 | Root rows stay soundly placed going up, under either selector |
| `DragSteps.RootDownReady` | core/misc/tabledrag.js:580-593 | Root rows stay soundly placed going down, under either selector |
| `DragSteps.StepReady` | core/misc/tabledrag.js:704-755 | An event with an accepted target, not the own tail, or a non-empty key interval keeps the table sound and later indents harmless |
| `DragSteps.RunKeeps` | core/misc/tabledrag.js:1289-1428 | Over every run of events at all, careful or not: other rows unchanged in order and depth, group moved as a block, and the table sound if and only if the dragged row fits between its neighbours |
| `DragSteps.RunReady` | core/misc/tabledrag.js:704-755 | Runs of careful events end with a sound table |
| `DragSteps.KeyboardRunSound` | core/misc/tabledrag.js:493-605 | Every run of arrow keys whatsoever, from any sound table, ends with a sound table: with the keys as written, whatever the depth limit; as intended, without a limit |
| `DragSteps.FirstRowStays` | core/misc/tabledrag.js:529-550 | Under either selector an undraggable first row keeps its place through every event except, exactly, an up key that moves a root row with no top-level row between them |
| `DragUndo.TopLevelGroup` | core/misc/tabledrag.js:529-536 | The rows between the nearest top-level row and a root row are that row's children |
| `DragUndo.RisesTo` | core/misc/tabledrag.js:529-549 | The up key puts the group before the row above, or, for a root row, before the nearest top-level row |
| `DragUndo.SinksTo` | core/misc/tabledrag.js:580-597 | The down key puts it after the row below, or, for a root row, after the whole group below |
| `DragUndo.UpThenDown` | core/misc/tabledrag.js:514-604 | After an up key that moved the group, the down key puts it back between the same rows if and only if the keys work as intended; as written it never does |
| `DragUndo.DownThenUp` | core/misc/tabledrag.js:514-604 | After a down key that moved the group, the up key puts it back if and only if the row passed is not an undraggable first row; root rows always come back |
| `DragUndo.IdleDownThenUp` | core/misc/tabledrag.js:565-574 | After a down key that does nothing, as every one does that is written, the up key leaves the group in place exactly if it cannot move it |
| `DragTraps.RefusedHoverBreaks` | core/misc/tabledrag.js:1302-1313 | In a whole family of ordinary tables, passing over an undraggable first row makes the next indent, by any amount, take the row just below the group from its parent |
| `DragTraps.OwnTailBreaks` | core/misc/tabledrag.js:1298-1301 | In a whole family of tables the first row can be indented after passing the row below it upwards |
| `DragTraps.LimitedKeyBreaks` | core/misc/tabledrag.js:565-600 | In a family of tables with a depth limit, the down key leaves a sound table if and only if it is the written one, which does not move; the intended one puts a group that is too tall between a row and its child |
| `DragTraps.StaleParentBreaks` | core/misc/tabledrag.js:1001-1043 | Below a heading, dragging the first child above its parent with the pointer and dropping it leaves the old parent in its input, however far sideways the pointer goes |
| `DragTraps.RefusedHoverTable` | core/misc/tabledrag.js:1302-1313 | A table of four rows where that happens |
| `DragTraps.OwnTailTable` | core/misc/tabledrag.js:1298-1301 | A table of two rows where the second trap shows |
| `DragTraps.LimitedKeyTable` | core/misc/tabledrag.js:594-600 | A table of four rows and limit 1 where the intended down key goes wrong |
| `DragTraps.FirstRowTable` | core/misc/tabledrag.js:529-538 | A heading and one root row below it: under either selector the up key puts the row above the heading |
| `DragTraps.StaleParentTable` | core/misc/tabledrag.js:1001-1043 | A table of three agreeing rows where the stale parent input shows |
| `DragTraps.NoRoomTable` | core/misc/tabledrag.js:1056-1063 | A table of three agreeing rows, no two of them siblings: after one step to the left and a drop two siblings share the only weight option |
| `DropFields.SiblingsExact` | core/misc/tabledrag.js:1442-1479 | The siblings found are exactly the rows with the dropped row's parent |
| `DropFields.AgreesCarried` | core/misc/tabledrag.js:1207-1229 | Grabbing a row leaves, in the rest and in the group, whatever agreed in the table: parents, depths, and the order of weights, each on its own |
| `DropFields.ShelteredExact` | core/misc/tabledrag.js:1001-1013 | The root-level lookup ends at a row other than the dropped one exactly if a draggable row stands above it, or it is the first row and the one below its group can be dragged |
| `DropFields.DroppedParentExact` | core/misc/tabledrag.js:990-1043 | From agreeing parents of the other rows alone: the parent written for the dropped row is its structural parent if and only if it is not at the root level with an old parent in its input and no row for the lookup to find |
| `DropFields.OtherParentsAgree` | core/misc/tabledrag.js:765-798 | At the drop the parent inputs that are not written agree with the displayed tree already |
| `DropFields.DropDepths` | core/misc/tabledrag.js:780-791 | After the drop all depth inputs agree, those of the group because they are written |
| `DropFields.RenumberedWeights` | core/misc/tabledrag.js:1045-1073 | Siblings never get falling weights, and rising ones while a select list has options left |
| `DropFields.ListExact` | core/misc/tabledrag.js:1045-1073 | After a drop the dropped row's sibling list rises if and only if there is an option for each, whatever its weights were before |
| `DropNumbers.WeightsExact` | core/misc/tabledrag.js:1045-1073 | In the dropped row's list the k-th row with an input gets the weight of the first row of the list, or 0 where that has no input, plus k, from a number field, and option k, or the last, from a select list; rows outside the list keep theirs |
| `DropNumbers.NumbersStep` | core/misc/tabledrag.js:1066-1072 | With number fields rows that follow each other in the list get weights that differ by one; the first keeps its own, or gets 0 below a row without an input |
| `DropFields.DropExact` | core/misc/tabledrag.js:765-818 | What a drop does, kind by kind and each from the same kind alone: parents agree with the displayed tree if and only if the dropped row's was not stale; depths agree; rising weights stay rising if and only if the options suffice, and weights that never fall stay so in any case; although one row, its descendants and one sibling list were written |
| `DragHistory.RunUnchanged` | core/misc/tabledrag.js:1214-1422 | A row object not marked changed has left the table as it was |
| `DragHistory.PlayExact` | core/misc/tabledrag.js:765-818 | Grab, any moves, drop: the tree is sound and all inputs agree with it, weights in the order they were, if and only if the row fits, the lookup was not stale and, for rising weights, the options sufficed |
| `DragHistory.HistoryAgrees` | core/misc/tabledrag.js:765-818 | After any history of clean gestures the table is a forest within the limit and all inputs agree with it, with weights rising, or never falling, or in no order, as at the start |
| `DragHistory.NeverStale` | core/misc/tabledrag.js:1001-1013 | In a table whose first row can be dragged the root-level lookup is never stale |
| `DragHistory.NeverStaleByKeys` | core/misc/tabledrag.js:493-605 | Drags by the keys as written are never stale, whatever rows there are |
| `DragHistory.CarefulHistoryAgrees` | core/misc/tabledrag.js:704-818 | Over any number of drags, careful moves in tables whose first row can be dragged are all it takes; for rising weights also, with a select list, an option for every row |
| `DragHistory.WrittenHistoryAgrees` | core/misc/tabledrag.js:493-605 | Any history of drags by the keys as written keeps tree and inputs in agreement, in any table with any depth limit; for rising weights with, in a select list, an option for every row |
| `DragHistory.IntendedHistoryAgrees` | core/misc/tabledrag.js:493-605 | The keys as intended do so without a depth limit in tables whose rows can all be dragged |
| `RebuildForm.DraggablesDisplayed` | core/misc/tabledrag.js:1354-1381 | The draggable rows of an agreeing table, without the headings between them, are an agreeing table of their own |
| `RebuildForm.FormDeterminesDisplay` | core/misc/tabledrag.js:949-1077 | Whatever undraggable rows there are, tables that agree with the same ids, parents and weights show the same draggable rows in the same order at the same depths: the form alone rebuilds the tree |
| `TableDrag.RowObject.constructor` | core/misc/tabledrag.js:1207-1229 | The row object starts as the grabbed row of the state machine, its group found by a loop |
| `TableDrag.RowObject.ValidIndentInterval` | core/misc/tabledrag.js:1354-1381 | Computes the interval of the state machine from the object's own fields |
| `TableDrag.RowObject.IsValidSwap` | core/misc/tabledrag.js:1289-1316 | Stores the interval in any case and accepts exactly the targets of the state machine |
| `TableDrag.RowObject.Swap` | core/misc/tabledrag.js:1326-1338 | Moves the group in the table in place, before or after a row outside it |
| `TableDrag.RowObject.Indent` | core/misc/tabledrag.js:1394-1428 | Settles at the allowed depth nearest to the one asked for and returns the columns applied |
| `TableDrag.RowObject.ShiftGroup` | core/misc/tabledrag.js:1409-1425 | Moves every row of the group sideways, one indentation at a time |
| `TableDrag.RowObject.FindSiblings` | core/misc/tabledrag.js:1442-1479 | Collects, upwards, reversed, then downwards, the rows at the same depth up to a shallower one, in table order |
| `TableDrag.SiblingsAbove` | core/misc/tabledrag.js:1447-1476 | The upward loop, reversed, gives the rows at the depth below the nearest shallower row, in order |
| `TableDrag.SiblingsBelow` | core/misc/tabledrag.js:1447-1470 | The downward loop gives the rows at the depth above the next shallower row |
| `TableDrag.FindChildren` | core/misc/tabledrag.js:1241-1278 | The loop counts the children |
| `TableDrag.MeasureGroup` | core/misc/tabledrag.js:1223-1227 | The loop finds the deepest row of the group |
| `TableDrag.AddColumns` | core/misc/tabledrag.js:1409-1419 | The loop of single indentations adds up to one shift |
| `TableDrag.PreviousTopLevel` | core/misc/tabledrag.js:529-536 | The loop, going on as long as the selector finds a neighbour, ends at the nearest row at the margin |
| `TableDrag.DragTable.PointerMove` | core/misc/tabledrag.js:704-755 | One pointer movement is one step of the state machine and settles the row at the allowed depth nearest to the columns asked for |
| `TableDrag.DragTable.KeyUp` | core/misc/tabledrag.js:514-554 | The up key, with its selector, is one step of the state machine |
| `TableDrag.DragTable.KeyDown` | core/misc/tabledrag.js:565-604 | The down key, with its selector, is one step of the state machine |
| `TableDrag.DragTable.SwapPastGroup` | core/misc/tabledrag.js:580-593 | A root row goes past the whole group that follows |
| `TableDrag.DragTable.UpdateParent` | core/misc/tabledrag.js:990-1043 | Writes only the parent input of the dropped row, with the value found by walking up or borrowed at the root level |
| `TableDrag.DragTable.UpdateOrder` | core/misc/tabledrag.js:1045-1073 | Renumbers exactly the siblings and leaves every other weight |
| `TableDrag.Renumber` | core/misc/tabledrag.js:1055-1072 | The loop hands out weights by rank, from options or counting up |
| `TableDrag.DragTable.UpdateFields` | core/misc/tabledrag.js:931-939 | Writes the dropped row's own inputs and its siblings' weights |
| `TableDrag.DragTable.UpdateChildren` | core/misc/tabledrag.js:780-791 | Writes the depth inputs of the descendants and nothing else |
| `TableDrag.DragTable.DropRow` | core/misc/tabledrag.js:765-818 | The whole drop, in place, is the drop about which the agreement is proved |
| `StringReplace.StringReplace` | core/misc/drupal.js:313-347 | The recursive loop that overwrites fragments computes the replacement function |
| `StringReplace.JoinSplit` | core/misc/drupal.js:336-346 | Splitting at a key and joining with it gives the text back |
| `StringReplace.SplitClean` | core/misc/drupal.js:336-337 | No fragment contains the key it was split at |
| `StringReplace.ReplaceSplits` | core/misc/drupal.js:313-347 | The result is the rendering of one split of the input into literals and keys: the pieces add up to the input, no literal contains any key, and inserted values are never looked at again |
| `StringReplace.ReplaceIdentity` | core/misc/drupal.js:300-302 | Mapping every key to itself changes nothing |
| `PlaceholderScan.ReplaceIsScanHere` | core/misc/drupal.js:313-347 | On a text where no earlier tried key begins inside the longest key at some place, the replacer equals one left-to-right scan taking the longest key at each position |
| `StolenKeys.ScanExact` | core/misc/drupal.js:313-347 | The replacer is that scan on all texts and for all values if and only if no key can begin inside another, shorter or equally long and later tried one, that is the longest where it stands, and end beyond it |
| `StolenKeys.OverlapShows` | core/misc/drupal.js:313-347 | For keys that can, one text and one choice of values on which the two differ |
| `StolenKeys.ReplaceIsScan` | core/misc/drupal.js:313-347 | Keys that start with a marker character that occurs nowhere else in a key never do, so for them the replacer is the scan |
| `StolenKeys.OrderDoesNotMatter` | core/misc/drupal.js:327-328 | Two orders of the same keys of which neither steals give the same result |
| `StolenKeys.UnmarkedKeysDiffer` | core/misc/drupal.js:313-347 | Two keys without markers for which the replacer is not the scan |
| `PlaceholderScan.ReplaceStep` | core/misc/drupal.js:336-346 | The longest key's first occurrence is taken out; the part before it sees only the shorter keys, the part after it all of them |
| `Escape.CheckPlainIsEncode` | core/misc/drupal.js:240-247 | The four replacements one after the other are one pass over the characters |
| `Escape.CheckPlainDecodes` | core/misc/drupal.js:240-247 | A decoder recovers the text, so no two texts escape alike |
| `Escape.CheckPlainSafe` | core/misc/drupal.js:240-247 | The result has no quote or angle bracket, and every ampersand starts one of the four entities |
| `FormatPlural.ProcessArgs` | core/misc/drupal.js:269-292 | The loop prepares every argument: after an at sign a safe text from which the value can be read off, after an exclamation mark the value itself, and otherwise such a text inside a placeholder element |
| `FormatSafe.FormatStringSafe` | core/misc/drupal.js:269-295 | A safe text formatted with arguments whose keys are all led by an at sign is safe, whatever the arguments: no entity is cut and nothing unescaped gets in |
| `FormatPlural.ReplaceAcross` | core/misc/drupal.js:313-347 | Replacement distributes over a separator that no key contains |
| `FormatPlural.ReplaceAvoids` | core/misc/drupal.js:313-347 | A result only has characters of the text and of inserted values |
| `FormatPlural.SplitFormats` | core/misc/drupal.js:509-510 | Cutting a formatted text at a separator that no key or value contains gives the parts of the text, each formatted |
| `FormatPlural.FormatPluralExact` | core/misc/drupal.js:505-522 | The plural result is the chosen form, of the translation if there is one, formatted on its own, when the delimiter occurs in no key or value; a plural index beyond the forms finds nothing |
| `FormatPlural.TwoForms` | core/misc/drupal.js:505-510 | Without a translation the forms are the two given ones |
| `FormatPlural.CountChoosesForm` | core/misc/drupal.js:513-521 | Without a formula and a translation a count of one gives the singular and every other the plural |
| `FormatPlural.FormulaChoosesForm` | core/misc/drupal.js:510-521 | With a formula its index for the count, or its default, is looked up among the forms of the translation |
| `TabbingSpec.OverlayTabbable` | core/misc/tabbingmanager.js:140-158 | Under a constraint an element can be reached if and only if it could before and is in the set; one that no longer can gets tabindex -1 and no autofocus, and every other is as it was |
| `TabbingSpec.ConstrainReaches` | core/misc/tabbingmanager.js:73-103 | A constrain call makes exactly the elements asked for reachable, of those that can be reached without constraints |
| `TabbingSpec.ReachableExact` | core/misc/tabbingmanager.js:73-128 | After any run an element can be reached if and only if it can on the page below all constraints and was asked for by the youngest one not yet released |
| `TabbingSpec.EndedExact` | core/misc/tabbingmanager.js:318-326 | A context counts as released exactly if it was released after it was made |
| `TabbingSpec.RunTidy` | core/misc/tabbingmanager.js:73-128 | After any run the stack holds every context not yet released, oldest first, with an unreleased top |
| `TabbingSpec.YoungestInForce` | core/misc/tabbingmanager.js:112-128 | Whatever the order of releases, the context in force is the youngest unreleased one, and the stack is empty exactly when all are released |
| `TabbingSpec.BaseExact` | core/misc/tabbingmanager.js:181-246 | Below all constraints, after any run, every element is as it was, except exactly those whose tabindex was present but empty, that could be reached, and that some constraint since lifted kept out of reach: these have lost it |
| `TabbingSpec.NothingLost` | core/misc/tabbingmanager.js:181-246 | A page without empty tabindex attributes is the same below all constraints after any run |
| `TabbingManager.RestoreExact` | core/misc/tabbingmanager.js:215-229 | Disabling and restoring an element is undone exactly if and only if its tabindex was not present and empty |
| `TabbingManager.RecordRestores` | core/misc/tabbingmanager.js:198-245 | What is recorded of an element at a level comes back, up to an empty tabindex, and its records are as before if and only if they had neither that level nor the next, and nothing at all for the lowest level |
| `TabbingManager.EmptyLost` | core/misc/tabbingmanager.js:219-226 | An element whose empty tabindex was lost can be reached afterwards if and only if it takes focus by itself |
| `TabbingManager.TabbingManager.constructor` | core/misc/tabbingmanager.js:39-51 | The manager starts with an empty stack over any page, as it is |
| `TabbingManager.TabbingManager.PageIsShown` | core/misc/tabbingmanager.js:73-246 | While the manager is valid, page and saved records are exactly the topmost constraint laid over the page below; with an empty stack they are that page and nothing |
| `TabbingManager.TabbingManager.RestoreTabindex` | core/misc/tabbingmanager.js:215-246 | Puts the saved attributes back and deletes the records from that level up to the first gap; without a record it does nothing |
| `TabbingManager.TabbingManager.PutBack` | core/misc/tabbingmanager.js:181-188 | The loop puts exactly the listed elements back and leaves no record |
| `TabbingManager.TabbingManager.Activate` | core/misc/tabbingmanager.js:140-170 | From a page without constraints, lays the context's constraint over it |
| `TabbingManager.TabbingManager.Deactivate` | core/misc/tabbingmanager.js:181-188 | From a page under this constraint, gives the page below, but for empty tabindex attributes, and no records |
| `TabbingManager.TabbingManager.ActivateContext` | core/misc/tabbingmanager.js:333-341 | Activates a context unless it is active or was released |
| `TabbingManager.TabbingManager.DeactivateContext` | core/misc/tabbingmanager.js:348-355 | Deactivates a context if it is active |
| `TabbingManager.TabbingManager.Constrain` | core/misc/tabbingmanager.js:73-103 | Pushes a context, after which exactly the elements asked for can be reached, of those that could without constraints; levels equal stack positions and only the top is active |
| `TabbingManager.TabbingManager.Unwind` | core/misc/tabbingmanager.js:112-128 | Drops released contexts off the top and activates the one below, refining the pure stack |
| `TabbingManager.TabbingManager.Release` | core/misc/tabbingmanager.js:318-326 | Releases any context of the stack, in any order, refining the pure stack; a second release changes nothing |
| `TabbingHistory.Play` | core/misc/tabbingmanager.js:73-246 | Over any run of constrain and release calls, in any order and with repeated releases, on any page, stack, page and saved records are those of the pure stack, and an element can be reached exactly as the youngest unreleased constraint asks |
| `TabbingHistory.BeginOne` | core/misc/tabbingmanager.js:73-103 | One constrain call on a manager with a past, with the elements asked for reachable afterwards |
| `TabbingHistory.EndOne` | core/misc/tabbingmanager.js:318-326 | One release call, of any context ever made |
| `StateNames.Sanitize` | core/misc/states.js:510-534 | The loops that strip marks and follow aliases end, with the normal form |
| `StateNames.NormalKeepsMeaning` | core/misc/states.js:510-534 | The normal form means the same as the name under every reading that respects marks and aliases, and has neither |
| `StateNames.AliasSettled` | core/misc/states.js:562-575 | No alias stands for another alias, so one replacement is enough |
| `StateNames.AliasReadings` | core/misc/states.js:562-575 | What each of the twelve aliases stands for, under every reading |
| `StateConstraints.VerifyConstraints` | core/misc/states.js:249-282 | With all its early exits the evaluator computes the meaning of the constraint and looks up only leaves of it; with a comparison that never answers it looks up every leaf, in order |
| `StateConstraints.VerifyItems` | core/misc/states.js:251-266 | The loop over an array: a disjunction, or with the word xor exactly one |
| `StateConstraints.VerifyFields` | core/misc/states.js:270-280 | The loop over an object: the conjunction of what is defined |
| `StateConstraints.CheckConstraint` | core/misc/states.js:306-327 | One member: a nested constraint, or a comparison negated by the name's marks |
| `StateDependent.WellFormedMeaning` | core/misc/states.js:249-327 | A well-formed constraint with known comparisons is true if it holds (all of an object, one of an array, exactly one with xor, negated states) and false if not, never undefined |
| `StateDependent.EventsAreChanges` | core/misc/states.js:202-232 | After any updates the events are exactly the points where the evaluation changed, negated if the state is, and the stored result is the latest evaluation |
| `StateDependent.LatestEvaluation` | core/misc/states.js:202-208 | There is an evaluation exactly if some update changed a stored value, and the latest one is of the current values |
| `StateDependent.CacheIsFresh` | core/misc/states.js:215-232 | The cached result equals a fresh evaluation as soon as one update changed a value, and before that nothing was announced |
| `StateLeaves.ReadExact` | core/misc/states.js:106-113 | A text equals a number exactly if a decimal reader turns it back into that number |
| `StateLeaves.MatchesExact` | core/misc/states.js:178-188 | A value satisfies a reference exactly if it is undefined, the same plain value, or the text of the same number; null satisfies none |
| `StateLeaves.ConditionMeaning` | core/misc/states.js:249-327 | A single condition on a state of a selector is the comparison of its reference, negated by the marks of the name |
| `StateLeaves.ConditionStored` | core/misc/states.js:202-232 | After updates of which one changed a value, what is stored for a single condition is whether the stored value satisfies it, negated by the marks |
| `StateLeaves.ConditionTold` | core/misc/states.js:215-232 | At a change the dependent element is told whether a single condition holds, negated if its own state is |
| `StateLeaves.DigitKeyGroups` | core/misc/states.js:306-326 | A key that begins with a digit groups a constraint without changing it |
| `StateDependent.Dependent.constructor` | core/misc/states.js:337-359 | The dry run of the evaluator finds every leaf; each starts with no value |
| `StateDependent.Dependent.Update` | core/misc/states.js:202-208 | One update of the object is one update of the pure memory |
| `StateDependent.Dependent.Reevaluate` | core/misc/states.js:215-232 | Evaluates, announces a changed result, and finds a value for every pair it looks up |
| `FieldUi.Overview.OnSwap` | core/modules/field_ui/field_ui.js:177-199 | The handler ends with every message row populated if and only if the next row is draggable, all rows but the marks unchanged, and the group below the message rows it stood above, unless a key moves it up |
| `FieldUi.Overview.SwapAfter` | core/modules/field_ui/field_ui.js:187-187 | The handler's own swap calls the handler again; rows below the group strictly decrease |
| `FieldUi.Overview.Visit` | core/modules/field_ui/field_ui.js:179-198 | One message row: moved past if the group is right above it, and marked |
| `FieldUi.Overview.Mark` | core/modules/field_ui/field_ui.js:191-197 | Sets one mark, and no other |
| `FieldUi.Overview.Swap` | core/misc/tabledrag.js:1326-1338 | A swap to anywhere, with the handler, leaves the group never directly above a message row for pointer and downward moves |
| `FieldUi.MarksExact` | core/modules/field_ui/field_ui.js:191-197 | The marks are right exactly if, in the table with the group in it, every message row is populated if and only if a draggable row comes next |
| `FieldUi.SameMessages` | core/modules/field_ui/field_ui.js:177-199 | Where the group lands does not depend on the marks |
| `Autocomplete.SplitValues` | core/misc/autocomplete.js:23-50 | The loop over characters computes the terms, quoted commas kept |
| `Autocomplete.SplitExact` | core/misc/autocomplete.js:23-50 | A text is cut at exactly the commas outside quotes, and the terms are the pieces without the spaces around them |
| `Autocomplete.TrimParts` | core/misc/autocomplete.js:38-46 | Trimming takes only white space away, at the ends |
| `Autocomplete.PushedExact` | core/misc/autocomplete.js:180-185 | An item without a comma, or beginning with one, is written as it is, every other in quotes |
| `Autocomplete.SelectHandler` | core/misc/autocomplete.js:175-189 | Replaces the last term of the text by the selected item |
| `Autocomplete.SelectExact` | core/misc/autocomplete.js:175-189 | For every old text and every item: splitting the written text gives the previous terms without the last, then exactly the pushed term, if and only if the item does not begin with a comma and its own quotes leave no other comma open; an item without commas must be trimmed, and not empty where nothing else is written |
| `Autocomplete.PlainItemExact` | core/misc/autocomplete.js:180-185 | For an item with a comma but no double quotes that is so if and only if it does not begin with the comma |
| `Autocomplete.QuoteBeforeComma` | core/misc/autocomplete.js:180-185 | An item whose first quote comes right before a comma, such as a",b, falls apart, whatever the old text |
| `Autocomplete.QuotePair` | core/misc/autocomplete.js:180-185 | An item with a pair of quotes around text without commas, and a comma later, such as a"b",c, is read back |
| `Autocomplete.TermsClosed` | core/misc/autocomplete.js:30-45 | Every term but the last that is read from any text closes its quotes and is trimmed |
| `Debounce.Debounced.constructor` | core/misc/debounce.js:29-34 | A fresh debounced function has no timer and no result |
| `Debounce.Debounced.Call` | core/misc/debounce.js:34-51 | A call replaces the pending timer and, in immediate mode without one, invokes at once; it returns the latest invocation's result |
| `Debounce.Debounced.Fire` | core/misc/debounce.js:37-42 | A firing clears the timer and, unless immediate, invokes with the arguments its closure kept |
| `Debounce.RunSpaced` | core/misc/debounce.js:29-52 | Over every timed run, in both modes, at most one timer is pending and any two invocations are at least the waiting time apart |
| `Debounce.RunInvokesBursts` | core/misc/debounce.js:29-52 | The invocations are exactly one a burst: the first call at once in immediate mode, otherwise the last call's arguments when the burst ends, which it does only after the waiting time without a call |
| `Debounce.OnePerBurst` | core/misc/debounce.js:29-52 | As many invocations as bursts, less the open one while it waits |
| `Announce.Announcer.Drain` | core/misc/announce.js:53-84 | The loop that pops and unshifts writes the whole queue in order, assertive if and only if a member is; an empty queue writes nothing |
| `Announce.Announcer.Say` | core/misc/announce.js:108-119 | Queues one announcement and starts a debounced function of its own |
| `Announce.Announcer.Ring` | core/misc/announce.js:108-119 | A firing drains the queue when the debounced function invokes |
| `Announce.DebouncedOnce` | core/misc/announce.js:108-119 | Each call's timer fires no earlier than 200 ms after it, invokes once, and never again |
| `Announce.RunTimed` | core/misc/announce.js:108-119 | Every call's timer is pending or done, and those of the queued announcements are pending |
| `Announce.RunBatches` | core/misc/announce.js:53-84 | The batches are the announcements cut at the firings, none empty, with their texts in order, assertive if and only if one of them asks for it and polite otherwise |
| `Announce.ReadThenQueue` | core/misc/announce.js:53-119 | What was read so far followed by the queue is everything announced, in call order, each once |
| `Announce.UnreadIsPending` | core/misc/announce.js:108-119 | Every queued announcement has its own pending timer due 200 ms after it, so while anything is unread some timer is pending |
| `FilterTags.RequiredTags` | core/modules/filter/filter.filter_html.admin.js:141-176 | The three nested loops collect what the features require, tag by tag |
| `FilterTags.RequiredExact` | core/modules/filter/filter.filter_html.admin.js:141-176 | A tag is collected exactly if some requirement of some feature names it, with exactly the attributes and classes those requirements name |
| `FilterTags.CalculateAutoAllowedTags` | core/modules/filter/filter.filter_html.admin.js:141-219 | The second loop computes the added rules, in whatever order tags come |
| `FilterTags.SettingIsJoin` | core/modules/filter/filter.filter_html.admin.js:107-124 | As sets, the written setting allows for every tag what the user allows together with what the current features require |
| `FilterTags.AutoIffMissing` | core/modules/filter/filter.filter_html.admin.js:189-215 | A tag is added exactly when something it needs was missing, and every other rule of the user stands as it was |
| `FilterTags.WithExact` | core/modules/filter/filter.filter_html.admin.js:81-82 | After a feature is added it is there, and of the others exactly those with another name |
| `FilterTags.WithoutExact` | core/modules/filter/filter.filter_html.admin.js:91-92 | After a removal exactly the features with another name are there |
| `FilterTags.AddRemoveRestores` | core/modules/filter/filter.filter_html.admin.js:80-95 | Adding a feature and removing it restores the list of features exactly when it was not there before |
| `FilterTags.AddRemoveSetting` | core/modules/filter/filter.filter_html.admin.js:80-124 | It then restores the setting to the letter; otherwise a tag keeps what it allows exactly if the user or the other features account for all of it |
| `FilterTags.Updater.UpdateAllowedTags` | core/modules/filter/filter.filter_html.admin.js:107-124 | Writes the setting that user tags and current features determine |
| `FilterTags.Updater.FeatureAdded` | core/modules/filter/filter.filter_html.admin.js:80-83 | Adds or replaces a feature; the setting depends on user tags and current features alone |
| `FilterTags.Updater.FeatureModified` | core/modules/filter/filter.filter_html.admin.js:84-89 | Replaces a known feature and ignores others |
| `FilterTags.Updater.FeatureRemoved` | core/modules/filter/filter.filter_html.admin.js:90-95 | Removes a known feature and ignores others |
| `FilterTags.LacksExact` | core/modules/filter/filter.filter_html.admin.js:196-205 | The length tests are true exactly when something required is not allowed |
| `RestConfig.Entity.Simplify` | core/modules/rest/rest.post_update.php:38-60 | The loop over methods converts an entity or leaves it, and saves it only when converted |
| `RestConfig.SimplifyAll` | core/modules/rest/rest.post_update.php:34-63 | Every entity is converted on its own |
| `RestConfig.ImplodeInjective` | core/modules/rest/rest.post_update.php:43-44 | Joined with commas, lists of non-empty comma-free names differ when the lists do |
| `RestConfig.ConvertsIffAgree` | core/modules/rest/rest.post_update.php:50-59 | With such names the conversion happens exactly when there is a method and all methods agree |
| `RestConfig.ConvertKeeps` | core/modules/rest/rest.post_update.php:50-59 | With such names it keeps the formats and authentication of every method, and a second run changes nothing |
| `RestConfig.ConvertsIffAlike` | core/modules/rest/rest.post_update.php:50-59 | Whatever the names, the conversion happens exactly when there is a method and the joined names of all methods are equal |
| `RestConfig.ConvertKeepsExact` | core/modules/rest/rest.post_update.php:50-59 | It keeps every method's settings if and only if methods that look alike when joined also agree |
| `RestConfig.NamesMislead` | core/modules/rest/rest.post_update.php:43-50 | A name with a comma, or an empty one, makes two methods look alike that are not |

## Left out

- Pixel geometry, scrolling, striping, CSS classes, hidden rows and warnings of draggable tables; a pointer movement is a row passed over, or none, and a number of columns asked for.
- Tables without indentation, the `sibling` relationship and the copying of drag classes: the settings are parent by `match`, depth by `group`, weight by `order`, written in that order.
- Undraggable rows stand at depth 0 and carry no inputs; the document-wide lookup of a parent input assumes that this table's inputs are the first on the page.
- Overrides of `onDrag`, `onDrop`, `onIndent` and `onSwap`, except the one in the field overview, where the group is an opaque block of draggable rows.
- `keys.sort` in the replacer: keys are given ordered by length, and the result is proved not to depend on the order of equally long marked keys.
- StolenKeys.ScanExact: keys are not empty; an empty key splits a text into its letters, which no scan does (`StringReplace.ReplaceSplits` allows them).
- FormatPlural.FormatPluralExact: the delimiter is one character, the translations are those of one context, and the count's text is a parameter.
- Inherited properties of argument objects, aliases and rule maps, such as `constructor`; only own keys exist in the model.
- The choice of the focused element when a tabbing context is activated, tabindex values that are not numbers, and other scripts changing the page in between.
- Comparisons with regular expressions and functions, null references (which throw), the triggers that watch form elements, and the effect of state events on the page.
- A state announced again while an update is under way: updates follow one another.
- Debounce.RunInvokesBursts: the debounced function does not call its own wrapper; `this` is part of the arguments, and times are integers.
- The text joined with line breaks and the busy attribute of the live region: a batch keeps its texts as a list.
- The rule text written and parsed by the filter form, the order of its tags, styles and forbidden rules, and manual edits of the field.
- Feature names that look like array indices, which JavaScript enumerates before others.
- Loading and saving of REST configuration entities beyond the decision and the number of saves; a configuration without methods is left alone.
- The autocomplete suggestion cache, Ajax, progress, batch, dialog, upload, machine-name, colour and timezone code, column toggling, sticky headers, vertical tabs and hook documentation: plumbing around libraries or shallow branches.
