# A verified model of the IPAM allocation engine

This project models, in Dafny 4.11, how the service hands out address space:
the arithmetic of CIDR blocks, the searches that choose a block, the tables
that record who holds what, the protocol that provisions one pool per scope
however many callers race, the keys that decide what may overlap, and the
changelog watcher. Every model follows the code at the cited lines, branch by
branch, and is proved against a specification that does not mention the
algorithm.

`dafny verify dfyconfig.toml` checks the whole project.

## How it is laid out

| file | module | what it covers |
|---|---|---|
| `Common.dfy`, `Cidr.dfy` | Common, Cidr | results and failures; blocks as dyadic intervals and their arithmetic |
| `Sorting.dfy` | Sorting | insertion sort for any order |
| `FreeSpace.dfy`, `Decompose.dfy` | FreeSpace, Decompose | maximal free regions; the greedy decomposition and its minimality |
| `Fit.dfy` | Fit | what a search looks for, independent of how: the one specification every search meets |
| `Reservations.dfy` | Reservations | edge reservations |
| `Allocation.dfy`, `Measure.dfy`, `Consumption.dfy` | same names | strategies, the whole-set search, measuring, allocating and measuring at once, the bounded delta |
| `Density.dfy` | Density | when the range with most free addresses is the least dense one |
| `Scan.dfy` | Scanning | the streaming first fit, as a class with the source's own fields |
| `BoundedSearch.dfy` | BoundedSearch | the probe-then-page search over a table |
| `Tables.dfy`, `Lookup.dfy`, `Totals.dfy`, `Ranges.dfy` | same names | the allocator's tables, their invariant, the running total, trees of pools |
| `Store.dfy`, `Runs.dfy` | Store, Runs | the operations that change the tables in place, and whole runs of them |
| `Interleaved.dfy` | Interleaved | releases that delete before they lock, among allocations |
| `Roots.dfy` | Roots | operators writing root pools at the same time |
| `Identity.dfy` | Identity | the racing provisioners, as interleaved steps |
| `Watch.dfy` | Watch | transactions writing a changelog in any order, and the watcher |
| `Scope.dfy`, `Classes.dfy` | Scope, Classes | canonical forms, projections, class chains and plans |

## Modelling decisions

- A block is a family, a first address and a prefix length over unbounded
  integers, aligned and inside its family (section 3.1 of RFC 4632, section 2.3
  of RFC 4291). Masked base addresses are part of the type.
- A pool has one CIDR, as `internal/allocator/prefix.go:500-510` provides; the
  searches themselves are modelled over any list of ranges.
- In `Store` and `Runs` each operation runs alone, and a refused operation rolls
  every table back, as the caller's transaction does. An allocation holds the
  pool row's lock from its first read to its commit
  (`internal/allocator/interface.go:9-12`), so it stays one step when
  transactions overlap. A release does not: `Interleaved` splits it into the
  deletes, each with the floor rows its trigger updates and so locks, and the
  commit, with any other steps between.
- The floor trigger, the unique keys and the foreign keys are those of
  `migrations/002_class_model.sql`: deleting a claim's row lowers its own
  space's floor, deleting any other row lowers every floor of the pool
  (lines 1019-1048).
- A claim that holds a range releases the range, any other releases its rows,
  which is the choice `internal/registry/ipam/ipclaim/scoperange.go:155-164`
  makes. `Store.Store.Release` alone leaves pools matched to their rows exactly
  when the claim holds no range.
- In `Store` an operator's root is checked and written in one step. The service
  reads the project's roots and writes later, without a lock
  (`internal/registry/ipam/ippool/storage.go:126-131`); `Roots` splits the two.
- Deleting a pool takes its identity row with it, by the foreign key of
  `migrations/002_class_model.sql:315-323`; in the identity protocol this is one
  step.
- PostgreSQL orders blocks by first address, then mask length, with an address
  counted as a block of full length; `BoundedSearch.Meets` is that order.
- A snapshot's horizon, the rows it shows and the effect of commit and abort
  are modelled from the documented behaviour of transaction ids; a poll reads
  its horizon from one state and its rows from the same or a later one.
- Digests are opaque keys. The canonical strings they are taken over are
  modelled exactly, one character standing for one byte.

## Where the code and its own text differ

The model follows the code in each case.

- The whole-set search keeps the blocks whose FIRST address lies in a range, so
  a block that starts below a range and covers it is missed
  (`internal/allocation/cidr.go:243-255`). `Allocation.FirstFitUnlessMisled`
  gives the exact condition, `Allocation.FilterCanMislead` an input. The
  streaming search is not misled (`Scanning.ScanAgreesWithSearch`).
- `LeastUtilized` is documented as picking the range of lowest density
  (`internal/allocation/cidr.go:25-27`) and picks the one with the most free
  addresses (`internal/allocation/allocate.go:317-322`).
  `Density.LowestDensityExactlyWhen` says for which ranges the two are the same
  whatever is taken, `Density.MostFreeCanBeDenser` gives an input where they
  differ.
- The clamp in `measure` is described as reachable with overlapping parents
  (`internal/allocation/allocate.go:347-352`); it is not (`Measure.ViewsMeasure`).
- A range that ends at its family's last address has no address for the cursor
  one past its end: it reads as the zero address
  (`internal/allocation/cidr.go:169-179`), and the bounded search then fails
  where the whole-set search reports exhaustion. `BoundedSearch.Stuck` is the
  exact condition, `BoundedSearch.FullTopRangeSticks` a family of inputs.
- The page limit is called unreachable
  (`internal/allocator/boundedsearch.go:22-24`). Each probe that moves the
  cursor spends a turn, so rows that abut from the search's start use it up:
  `BoundedSearch.BoundedFirstFit` gives up whenever they abut at as many stops
  as it has reads, and `BoundedSearch.SearchHosts` shows that over one range of
  `n` single-address rows it gives up exactly when the limit is at most `n`.
- A child pool's block is documented as a carve, which every space sees
  (`pkg/apis/ipam/types.go:405-408`, `internal/allocator/cascade.go:569-575`). A
  child pool an operator writes is recorded as a claim of the empty space
  (`internal/registry/ipam/ippool/storage.go:190-196`), so a claim of another
  space can be handed its addresses. `Runs.ClaimEntersChild` is a run in which
  one block is handed out twice, for every root not at its family's top;
  `Tables.ClearExactlyWhen` says when a child pool's range is clear of its
  source's other rows, `Tables.TreeApart` what that means for a whole tree, and
  `Runs.Run` that without such child pools nothing is shared.
- Every path that deletes an allocation is said to lock the pool row before it
  deletes (`migrations/002_class_model.sql:1109-1115`). None does: the delete,
  and the trigger with it, comes first
  (`internal/allocator/prefix.go:254-283`). So a space whose floor row appears
  between the delete and the commit keeps a floor above the freed block, which
  its claims then never reach. `Interleaved.FinishKeepsFloor` is the exact
  condition, `Interleaved.RangeIsLost` a family of runs, and
  `Interleaved.SoundUnlessLate` says that nothing else makes a floor unsound;
  rows and totals stay right throughout (`Interleaved.RowsAlwaysRight`).
- The roots of a project are meant not to overlap
  (`internal/registry/ipam/ippool/rootoverlap.go:17-32`). Two written at once can
  (`Roots.RootRace`), and only so (`Roots.ApartUnlessRaced`).
- Deleting a pool is said to release its own allocation in the parent
  (`internal/registry/ipam/ippool/storage.go:261-265`). It releases what the pool
  itself holds, so the carve of a range a claim holds stays behind;
  `Store.Store.DeletePool` says exactly when.
- The error for a writer that left no row is called unreachable
  (`internal/allocator/cascade.go:408-415`). It arises exactly when the pool is
  deleted between a caller's lost insert and its second read
  (`Identity.ConfusedExactlyWhen`); `Identity.ConfusedRun` is such a run.
- `internal/allocator/prefix.go:639-642` says a release moves only its own
  space's floor; the trigger moves every floor for reservations and carves,
  which is why `Tables.DropKeepsFloors` holds for them too.
- With no stored total, releasing several rows seeds a total from what is left
  and then subtracts the later rows again
  (`internal/allocator/consumption.go:139-143`,
  `internal/allocator/prefix.go:282-312`). `Totals.UnseededReleaseDrifts` gives
  the exact condition. No run from empty tables reaches it, because every row
  inserted writes a total (`Tables.TotalsExact`). With a stored total a release
  stays exact exactly when no address is freed by two of its rows, or none is
  left (`Totals.ReleaseIsExact`).

## Model

| member | source | states |
|---|---|---|
| Cidr.AlignUp | internal/allocation/cidr.go:227-234 | the result is a multiple of the size, at or above the value and less than one size above it |
| Cidr.AlignUpIsLeast | internal/allocation/cidr.go:227-234 | no multiple of the size lies between the value and the result |
| Cidr.NestedOrDisjoint | internal/allocation/cidr.go:106-111 | of two blocks that share an address, the one with the shorter prefix contains the other |
| Cidr.OverlapMeansShared | internal/allocation/cidr.go:106-111 | the overlap test on first addresses decides exactly whether any address is shared, and then one block contains the other |
| FreeSpace.FilterWithin | internal/allocation/cidr.go:243-255 | exactly the blocks of the family whose first address the range holds are kept |
| FreeSpace.FilterKeepsTaken | internal/allocation/cidr.go:243-255 | the filter loses an address of the range exactly when a block covers the range from below |
| FreeSpace.FreeRegions | internal/allocation/cidr.go:264-303 | the regions are sorted, separated by taken addresses, and hold exactly the free addresses of the range, so each is maximal |
| FreeSpace.FreePlusOccupied | internal/allocation/allocate.go:219-241 | the sizes of the free regions and the number of covered addresses add up to the range |
| Decompose.SplitRegion | internal/allocation/cidr.go:307-330 | the blocks tile the region end to end, each the largest aligned block that starts there and fits |
| Decompose.SubtractCidr | internal/allocation/cidr.go:116-125 | the blocks are ascending and disjoint, cover exactly the addresses free of the blocks the range sees, and no larger such block starts where one of them does |
| Decompose.SubtractsAllUnlessCovered | internal/allocation/cidr.go:116-125 | they cover exactly the addresses free of all blocks if and only if none covers the range from below or nothing is returned |
| Decompose.GreedyIsMinimal | internal/allocation/cidr.go:116-125 | no set of aligned blocks covering the same addresses has fewer members |
| Fit.FirstFitIsUnique | internal/allocation/allocate.go:130-154 | the specification of first fit leaves one answer |
| Fit.IsBlockAvailable | internal/allocation/reservation.go:226-243 | a block asked for by name is available exactly when it lies whole in one of the ranges and no block taken holds any of its addresses |
| Reservations.SortedDisjoint | internal/allocation/reservation.go:186-213 | the ranges come back in address order as the same multiset, exactly when they share a family and none overlaps another |
| Reservations.ReservedBlocks | internal/allocation/reservation.go:95-169 | the result is the first `leading` and last `trailing` units of the address-ordered units of the ranges, or exactly the documented error |
| Reservations.ReservationIsDetermined | internal/allocation/reservation.go:95-169 | the outcome is a function of the multiset of ranges, so their order plays no part |
| Reservations.ReservedBlocksAreUnits | internal/allocation/reservation.go:95-169 | reserved blocks are ascending, as many as asked for, each an aligned unit inside a range |
| Reservations.FreeUnitsLieBetween | internal/allocation/reservation.go:95-169 | every unit not reserved lies above each of the `leading` reserved ones and below each of the `trailing` |
| Allocation.FirstFitIn | internal/allocation/allocate.go:245-261 | the lowest available block of a range is found from its free regions, and nothing is found exactly when there is none |
| Allocation.ViewPool | internal/allocation/allocate.go:227-241 | each range's view holds its exact free regions and their count |
| Allocation.SelectBlock | internal/allocation/allocate.go:266-326 | the region chosen has room, none with room ranks before it for the strategy, and it is the earliest of those that rank alike |
| Allocation.FindFirstAvailableBlock | internal/allocation/allocate.go:130-154 | the block is available among the blocks each range sees and exhaustion is reported exactly when no range shows room; under BestFit no block of the length lies in a shorter maximal free run, and none earlier in one as short; under LeastUtilized it is the lowest of the earliest range with the most free addresses; otherwise it is the lowest of the first range with room |
| Allocation.PickIsForStrategy | internal/allocation/allocate.go:301-326 | what ranks first among the views' regions is that block, stated over addresses alone |
| Allocation.BestFitIsUnique | internal/allocation/allocate.go:301-326 | there is one such best fit |
| Allocation.FirstFitUnlessMisled | internal/allocation/allocate.go:130-154 | the answer is the true first fit if and only if the first range that shows room is not covered from below |
| Allocation.StrategiesAgree | internal/allocation/allocate.go:243-326 | with no range covered from below, what a strategy returns overlaps nothing and all strategies agree on exhaustion |
| Allocation.CoveredRangeMisleads | internal/allocation/cidr.go:243-255 | every range covered from below misleads the search |
| Allocation.FilterCanMislead | internal/allocation/cidr.go:243-255 | a concrete range and block for which the search is misled |
| Density.LowestDensityExactlyWhen | internal/allocation/allocate.go:317-322 | over disjoint ranges of one family LeastUtilized always picks a range of lowest density if and only if all are of one size, single addresses listed before pairs excepted |
| Density.AgreeingSizesPick | internal/allocation/allocate.go:317-322 | for ranges of any family, overlapping or not, whose sizes agree so, whatever is taken and asked for, the pick has the lowest density |
| Density.DenserIsPicked | internal/allocation/cidr.go:25-27 | of any two ranges whose sizes differ otherwise, the larger is picked with an address taken while the smaller is empty |
| Density.MostFreeCanBeDenser | internal/allocation/cidr.go:25-27 | two concrete ranges for which the pick is the denser one |
| Density.LargestIsPicked | internal/allocation/allocate.go:317-322 | over ranges of one family, overlapping or not, with one of four addresses or more and a smaller one, an address taken in each of the largest makes every pick denser than the smaller |
| Density.FindDenserPick | internal/allocation/allocate.go:266-326 | the search itself, on such ranges, returns a denser pick |
| Measure.ConsumedCountsDistinct | internal/allocation/allocate.go:329-365 | over disjoint ranges the consumed figure is the number of distinct addresses covered by the blocks each range sees |
| Measure.ConsumedCountsHeld | internal/allocation/allocate.go:329-365 | it counts every address held, range by range, if and only if no range is covered from below, or what is seen fills it |
| Measure.MeasureViews | internal/allocation/allocate.go:329-365 | the totals are the sums over the views, consumption clamped at zero |
| Measure.ViewsMeasure | internal/allocation/allocate.go:329-365 | over exact views the figures are the reference measurement, and the clamp is never taken, overlapping ranges included |
| Measure.MeasurePool | internal/allocation/allocate.go:74-80 | the measurement is the reference one over the existing blocks and the reserved ones, as each range sees them, or the reservation's error |
| Measure.TakeFrom | internal/allocation/allocate.go:190-215 | taking a block out of a view leaves the exact view of the range with that block taken |
| Measure.Allocate | internal/allocation/allocate.go:98-123 | the block is the one the strategy is for, among the existing and the reserved blocks, and the figures are the pool's with that many more addresses consumed, for any ranges; over disjoint ranges that is measuring the pool with the block added; a reservation that cannot be met is the error returned |
| Measure.TakingExactlyWhen | internal/allocation/allocate.go:190-215 | counting the block once equals measuring with it added if and only if it adds nothing to any other range |
| Measure.PickIsDetermined | internal/allocation/allocate.go:266-326 | a strategy's choice is unique |
| Measure.EarliestPickIsFirstFit | internal/allocation/allocate.go:98-154 | the one-traversal choice under first fit is the block the dedicated first-fit loop finds |
| Measure.FreeRegionsAreUnique | internal/allocation/cidr.go:264-303 | a set of free addresses has one sequence of maximal regions |
| Consumption.ConsumptionDelta | internal/allocation/consumption.go:67-86 | the difference of the two measurements is the number of addresses only the block holds |
| Consumption.DeltaIsLocal | internal/allocation/consumption.go:30-40 | any set holding every block that meets the block gives the same delta as the whole pool |
| Consumption.DeltaMaintainsTotal | internal/allocation/consumption.go:38-56 | the delta over the overlapping blocks is the change in the whole total, so adding and removing it returns to the start |
| Scanning.NewScan | internal/allocation/scan.go:79-93 | no ranges is an error; otherwise the scan starts at the first range not below the floor, at that range's scan start, having decided nothing |
| Scanning.Scan.Need | internal/allocation/scan.go:100-105 | the range under scan and the address of the cursor, unless decided |
| Scanning.Scan.FeedOne | internal/allocation/scan.go:130-171 | the block is refused exactly when out of order; otherwise the account of what is decided below the cursor stays right, or the answer is the lowest block available |
| Scanning.Scan.StepOver | internal/allocation/scan.go:154-171 | a block that reaches the cursor moves it one past the block, unless the gap below has room and decides |
| Scanning.Scan.Feed | internal/allocation/scan.go:115-128 | a page is taken in up to the deciding block or the first out of order, and a closed scan refuses |
| Scanning.Scan.End | internal/allocation/scan.go:175-187 | the rest of the range decides, or the range has no room at or above the floor and is left |
| Scanning.Scan.AdvanceParent | internal/allocation/scan.go:246-273 | only ranges entirely below the floor are skipped |
| Scanning.GapDecides | internal/allocation/scan.go:219-234 | a fit in the gap above the cursor is the lowest available block of the range |
| Scanning.NotedAtEnd | internal/allocation/scan.go:204-243 | over one range the note is the lowest free address, or there is none |
| Scanning.ScanAll | internal/allocation/scan.go:19-33 | for every ascending sequence of blocks, every way of cutting it into pages, any list of ranges and any floor, the answer is first fit at or above the floor |
| Scanning.SoundFloorIsHarmless | internal/allocation/scan.go:70-78 | with no free address below the floor, searching from it and from the base give the same answer |
| Scanning.ScanAgreesWithSearch | internal/allocation/scan.go:35-37 | the streaming and the whole-set search agree exactly when the latter is not misled |
| BoundedSearch.ProbeKeeps | internal/allocator/boundedsearch.go:57-74 | after the probe everything the rows cover below the cursor is covered by what was fed, and the cursor stays only if nothing covers it |
| BoundedSearch.PageKeeps | internal/allocator/boundedsearch.go:76-88 | a page of any size keeps that account and moves the cursor |
| BoundedSearch.FeedCovering | internal/allocator/boundedsearch.go:62-74 | off the family's top the probe never fails; when the cursor moves, a row falls behind it |
| BoundedSearch.FeedPage | internal/allocator/boundedsearch.go:76-88 | off the top the page never fails: it decides rightly over all rows of the range, or a row falls behind the cursor |
| BoundedSearch.EndRange | internal/allocator/boundedsearch.go:80-85 | ending a range after two empty reads decides rightly over all its rows |
| BoundedSearch.BoundedFirstFit | internal/allocator/boundedsearch.go:32-96 | for every page size the answer is first fit over the rows inside each range; given one turn per row and range it fails exactly when a range is stuck; wherever rows abut at as many stops as there are turns it gives up; over one range the returned note is the lowest free address from the floor on |
| BoundedSearch.HostsAbut | internal/allocator/boundedsearch.go:62-74 | rows of one address each, from the start of a range on, abut at every one of them |
| BoundedSearch.SearchHosts | internal/allocator/boundedsearch.go:22-96 | on such rows the search gives up if and only if the limit is at most their number, and otherwise returns the next address or exhaustion |
| BoundedSearch.QueriesAgreeWithTable | internal/allocator/boundedsearch.go:105-147 | a page holds the rows from the address on as the table orders them, and a probe exactly the rows that contain it |
| BoundedSearch.BoundedIsFirstFit | internal/allocator/boundedsearch.go:28-31 | with a sound floor and no row wider than a range the answer is the whole-set first fit, whatever the floor and the page size |
| BoundedSearch.StuckOnlyAtTop | internal/allocation/cidr.go:169-179 | ranges that end below their family's last address never stick |
| BoundedSearch.FullTopRangeSticks | internal/allocation/cidr.go:169-179 | every range above zero that ends at the top and is held whole sticks, though it is plainly exhausted |
| BoundedSearch.UpperHalfSticks | internal/allocation/cidr.go:169-179 | both families have such a range |
| Tables.CountIsCover | internal/allocator/consumption.go:162-172 | the measured consumption of a pool's rows is the number of distinct addresses they cover |
| Tables.AddKeepsRows | internal/allocator/prefix.go:570-592 | a row free in its space keeps every row inside its pool and two rows overlapping only as claims of different spaces |
| Tables.AddKeepsFloors | internal/allocator/boundedsearch.go:219-255 | a new row leaves every floor sound |
| Tables.AddKeepsTotals | internal/allocator/consumption.go:104-125 | the new total is exact and the other pools' stay so |
| Tables.DropKeepsFloors | migrations/002_class_model.sql:1019-1048 | deleting any row and lowering the floors it held leaves no free address below a floor |
| Tables.LoweredNoFurther | migrations/002_class_model.sql:1019-1048 | and no floor is lowered further than that needs |
| Tables.RebindKeepsCaches | internal/allocator/prefix.go:214-244 | changing a row's holder leaves every total exact and every floor sound |
| Tables.ClearExactlyWhen | internal/allocator/cascade.go:569-575 | a child pool's range is clear of its source's other rows if and only if a carve holds it or no claim of another space of the source meets it |
| Tables.TreeApart | internal/allocator/cascade.go:569-575 | what different pools of one tree hold overlaps, however deep, only by a claim that meets the range of a child pool held as a claim of another space |
| Tables.ClearTreeApart | internal/allocator/cascade.go:569-575 | where the ranges along two paths are clear, what their pools hold never overlaps |
| Tables.SiblingRangesApart | internal/allocator/cascade.go:569-575 | the ranges of two child pools of one source never overlap, however each is held |
| Tables.ForestApart | internal/registry/ipam/ippool/rootoverlap.go:33-52 | while the roots of a project are apart, rows in the trees of different ones never overlap |
| Tables.ClaimedChildIsUnseen | internal/allocator/boundedsearch.go:105-112 | a search of any other space sees the same blocks with and without a child pool held as a claim |
| Lookup.LoadBlocks | internal/allocator/boundedsearch.go:105-147 | exactly the blocks that occupy a space of a pool, in table order, overlapping a given block if one is given |
| Lookup.ChooseByStrategy | internal/allocator/prefix.go:629-637 | over a pool's own rows the block fits and is the strategy's: under BestFit in the shortest maximal free run that has room, lowest of those, and the lowest otherwise; exhaustion means nothing fits |
| Lookup.ChooseFirst | internal/allocator/prefix.go:639-662 | from any sound floor the block is the lowest that fits, exhaustion means nothing fits, a failure needs a range at its family's top or as many rows as the page limit, and the next floor is sound |
| Totals.SeedTotal | internal/allocator/consumption.go:162-172 | a seeded total is the number of distinct addresses covered |
| Totals.TotalAfterAdding | internal/allocator/consumption.go:104-125 | the total is exact once the block is added, stored or seeded |
| Totals.TotalAfterRemoving | internal/allocator/consumption.go:129-158 | the stored total less the addresses only the block held, at least zero, or a fresh measurement |
| Totals.TotalAfterReleases | internal/allocator/prefix.go:282-312 | what the release loop leaves as the total, stored or not, for any rows already deleted |
| Totals.FreedTogether | internal/allocator/prefix.go:282-312 | released one by one, rows free at least what they free together, and exactly that if and only if no address is freed by two of them |
| Totals.ReleaseIsExact | internal/allocator/prefix.go:282-312 | a stored total stays exact if and only if no address is freed by two of the rows or nothing is left |
| Totals.UnseededReleaseDrifts | internal/allocator/consumption.go:139-143 | with no stored total the figure is right if and only if nothing is left or the later rows free nothing |
| Totals.UnseededPairDrifts | internal/allocator/consumption.go:139-143 | two disjoint rows released beside a kept third always leave a wrong figure |
| Totals.UnseededReleaseExample | internal/allocator/consumption.go:139-143 | a concrete pool where it does |
| Ranges.ClearTreeIsVacant | internal/allocator/scoperange.go:192-212 | no pool of a releasable tree held a claim or a carve bound to another claim, and none lies too deep |
| Ranges.ClearMeansReleasable | internal/allocator/scoperange.go:175-232 | the recursive walk succeeds if and only if every path of self-held carves is short enough and ends in a pool with no claim |
| Ranges.TreeIsPaths | internal/allocator/scoperange.go:175-232 | the pools of a tree are exactly those such paths end in |
| Ranges.NotClearMeansOccupied | internal/allocator/scoperange.go:175-212 | a refused tree has an occupied pool or a pool too deep |
| Ranges.SiblingsApart | internal/allocator/scoperange.go:214-218 | no pool is reached from two children, so releasing one leaves the other's tree whole |
| Ranges.TreeUnchanged | internal/allocator/scoperange.go:214-218 | a later child's tree, and whether it may go, is the same after earlier children are released |
| Store.Store.AuthorPool | internal/registry/ipam/ippool/storage.go:116-131 | run alone, an operator's root is refused exactly when it overlaps another root of its project or its key is taken, and otherwise added, leaving every row and cache |
| Store.Store.AuthorChild | internal/registry/ipam/ippool/storage.go:134-258 | an operator's child pool and its row, a claim of the empty space in the source, appear together or not at all; the block is free in that space and the one the source's strategy gives; each refusal has its cause |
| Store.Store.TakeRow | internal/allocator/prefix.go:70-112 | the positions are reserved, the block the pool's strategy gives against the rows then seen is recorded, and each refusal has its cause |
| Store.Store.FindBlock | internal/allocator/prefix.go:629-663 | the block is free in the space and is the one the pool's own strategy gives; exhaustion means nothing fits; only that space's floor moves, to the lowest free address at or above the old one, and stays sound |
| Store.Store.AddRow | internal/allocator/prefix.go:99-110 | the row is recorded, the pool's total becomes the exact count, and the invariant holds |
| Store.Store.Materialise | internal/allocator/reservations.go:48-108 | of the pool's edge positions exactly those free in every space become rows, once, and a position in use is left alone |
| Store.ReservedOnce | internal/allocator/reservations.go:48-108 | a pool that has a reserved position gets no more |
| Store.Store.AllocatePrefix | internal/allocator/prefix.go:56-119 | a claim gets the block the pool's strategy gives, free in its space among the rows seen, recorded under that space; a refusal leaves all tables as they were and means no pool, a reservation the pool cannot express, no block that fits, a key in use, or a search that may fail |
| Store.Store.CarveFromPool | internal/allocator/cascade.go:576-624 | the carve is free in every space of the source, the one its strategy gives, and held by the pool itself; each refusal has its cause |
| Store.Store.Provision | internal/allocator/cascade.go:423-457 | the pool object, its carve and its own reserved positions appear together, or nothing does; a refusal means one of the carve's causes, a taken key, or a reservation the new block cannot express |
| Store.NothingElseRefuses | internal/allocator/prefix.go:56-119 | with room, free keys, no reservation and a search that cannot fail, no refusal is possible |
| Store.DeleteEach | migrations/002_class_model.sql:1019-1048 | each deleted row lowers exactly the floors it held, keeping the rows' invariant and every floor |
| Store.Store.DropRows | internal/allocator/prefix.go:254-314 | exactly the rows named go and other pools' totals are untouched; the pool's total is what is left of the stored one, exact if and only if no address is freed twice or none is left |
| Store.Store.Release | internal/allocator/prefix.go:193-244 | a retained row only loses its claim, with totals and floors unchanged; any other row goes; nothing stays bound to the claim; pools still match their rows if and only if the claim held no range |
| Store.Store.ReleaseAllocation | internal/allocator/prefix.go:205-207 | exactly that allocation's row goes |
| Store.Store.BindScopeRange | internal/allocator/scoperange.go:89-124 | the claim takes the range exactly when there is a carve, the pool itself holds it and the claim holds nothing; a missing range, a held one and a claim in use are told apart |
| Store.Store.FindScopeRange | internal/allocator/scoperange.go:133-147 | the pool found is the one whose carve the claim holds, and there is only one |
| Store.Store.DropPool | internal/allocator/scoperange.go:220-231 | a pool holding only reserved positions goes with them, its carve, its floors and its total, and every other pool keeps the invariant |
| Store.Store.DeletePool | internal/registry/ipam/ippool/storage.go:271-333 | an operator's delete is refused exactly when the pool is missing or holds a claim or a carve; otherwise the pool goes, and pools still match their rows if and only if no claim holds its range |
| Store.ReadPool | internal/allocator/scoperange.go:180-209 | exactly the carves of a pool that their own pools hold, and whether it holds anything but those and reserved positions |
| Store.Store.ReleaseTree | internal/allocator/scoperange.go:175-232 | succeeds exactly when the tree is clear, and then exactly the pools reached through untaken carves are gone, with their rows and carves; a refusal names a path down to a pool that holds a claim, or to one too deep |
| Store.Store.ReleaseScopeRange | internal/allocator/scoperange.go:171-173 | succeeds exactly when every path of self-held carves down from the pool has at most eight steps and ends in a pool that holds only reserved positions and such carves; a refusal at any depth has its path and leaves every table unchanged |
| Runs.Execute | internal/registry/ipam/ipclaim/scoperange.go:155-164 | every operation, accepted or refused, keeps the whole invariant and has its stated effect on pools and rows, a refusal having its cause; only an operator's child pool adds a child that is not carved |
| Runs.Run | internal/allocator/interface.go:1-12 | any sequence of operations, each run alone, from empty tables passes through states each of which is the next operation's effect on the one before; at the end every row lies in its pool, rows overlap only as claims of different spaces, child pools are exactly their rows, totals are exact, floors sound, and the ranges, trees and forests of pools keep apart as the three theorems on them say; with no operator's child pool, different pools of a tree share nothing |
| Runs.ClaimEntersChild | internal/registry/ipam/ippool/storage.go:190-196 | for every root not at its family's top, every child length and every claim length at least that, one block is handed out in the root and again in the child, in one space, and both claims live |
| Runs.BindThenFind | internal/allocator/scoperange.go:79-147 | a range bound to a claim is found by that claim and refused to any other |
| Runs.AllocateThenRelease | internal/allocator/prefix.go:56-207 | a claim's block, released by the name of its allocation, or by the claim's own where it names none, fits again, and only positions the pool reserved on the way stay |
| Runs.ProvisionThenRelease | internal/allocator/scoperange.go:171-232 | a pool provisioned from any tables, with any reservation, can be given back at once, and pools and rows are then what they were but for positions its source reserved on the way |
| Runs.CapacityAddsUp | internal/allocator/prefix.go:341-354 | a pool's total never exceeds its size, so the published figures add up |
| Interleaved.StepKeepsInv | internal/allocator/prefix.go:254-314 | every step, of releases in flight and of anything between, keeps rows, totals and the releases' locks right |
| Interleaved.RowsAlwaysRight | internal/allocator/prefix.go:254-314 | in every state of every interleaved run rows lie in their pools, overlap only as claims of different spaces, and totals are exact |
| Interleaved.SettledIsExact | internal/allocator/consumption.go:129-158 | the totals a release leaves are exact, whatever was allocated since its deletes |
| Interleaved.FinishKeepsFloor | migrations/002_class_model.sql:1019-1048 | a sound floor is sound after a release commits if and only if it lies no higher than every row the release gives back to its space |
| Interleaved.StepKeepsFloor | internal/allocator/boundedsearch.go:219-255 | every other step keeps a sound floor sound and makes a new one sound |
| Interleaved.MissedMeansLate | migrations/002_class_model.sql:1109-1115 | a commit that leaves a floor unsound was in flight when that floor row appeared |
| Interleaved.SoundUnlessLate | migrations/002_class_model.sql:1109-1115 | in every state of every interleaved run a floor is sound unless it appeared inside the window of a release whose commit then missed it |
| Interleaved.SoundWithoutWindows | migrations/002_class_model.sql:1109-1115 | where no floor appears inside a window, every floor is sound throughout |
| Interleaved.AloneIsDrop | internal/allocator/prefix.go:254-283 | a release nobody interrupts is the delete of the one-step model |
| Interleaved.ClaimIsSteps | internal/allocator/prefix.go:639-662 | a first-fit claim of the one-step model is a floor raised and a row added |
| Interleaved.RangeIsLost | internal/allocator/scoperange.go:175-231 | for every first-fit root not at its family's top, every range and every claim length, a run in which a released range ends below the floor of a space, out of its claims' reach |
| Roots.WriteExactlyWhen | internal/registry/ipam/ippool/rootoverlap.go:33-52 | a root written keeps the project's roots apart if and only if none meets it by then |
| Roots.ApartUnlessRaced | internal/registry/ipam/ippool/storage.go:126-131 | in every state of every run the roots are apart unless one was written between the check and the write of another it meets |
| Roots.RootRace | internal/registry/ipam/ippool/storage.go:126-131 | for every range, a run that leaves a project two roots over it |
| Roots.AloneIsAuthored | internal/registry/ipam/ippool/storage.go:126-131 | checked and written with nothing between, a root is accepted exactly as in the one-step model |
| Identity.StepKeepsInv | internal/allocator/cascade.go:295-457 | every step of every transaction keeps the protocol's invariant |
| Identity.OneIdentityPerSlot | internal/allocator/cascade.go:376-417 | in every state of every run a slot has one committed identity row at most, and its pool and carve are committed with it |
| Identity.OneCarvePerSlot | internal/allocator/cascade.go:423-457 | in every state of every run a slot has one committed carve at most |
| Identity.CallersAgree | internal/allocator/cascade.go:295-354 | all callers for a slot that began after its last deletion and succeed return one key, which names a committed pool |
| Identity.RowIsAdopted | internal/allocator/cascade.go:308-354 | in every state of every run, while a committed row of its slot is there each step a caller takes leads it to that row's key: from the lookup and the second read to holding it, from the insert to losing, from holding to returning it; it writes nothing |
| Identity.CallerAdopts | internal/allocator/cascade.go:308-417 | such a caller, at its lookup, its insert or its second read, has steps of its own that end in returning that row's key |
| Identity.CallerProvisions | internal/allocator/cascade.go:376-457 | a caller that finds its slot and its pool key free has steps of its own that end in returning the key it proposed, with its identity row, pool and carve committed |
| Identity.OnlyAbortFails | internal/allocator/cascade.go:295-457 | nothing but its own abort makes a caller fail |
| Identity.OnlyOwnSteps | internal/allocator/cascade.go:295-457 | nobody else's step changes where a caller stands |
| Identity.ConfusedExactlyWhen | internal/allocator/cascade.go:404-416 | a caller meets the error for a writer that left no row if and only if the pool was deleted, and not provisioned anew, between its lost insert and its second read |
| Identity.GoneExactlyWhen | internal/allocator/cascade.go:404-416 | a slot's row that was there is gone if and only if it was deleted since and none was committed after that |
| Identity.NeverConfused | internal/allocator/cascade.go:404-416 | in runs without a deletion of the slot the error never arises |
| Identity.ConfusedRun | internal/allocator/cascade.go:408-415 | for every slot, a run that ends in the error |
| Identity.KeysAreStable | internal/allocator/cascade.go:356-358 | what a caller returned, a key or the error, never changes |
| Identity.WaiterIsNotStuck | internal/allocator/cascade.go:376-385 | an insert waits only for a transaction that can still abort, and otherwise wins or loses |
| Watch.HistoryIsLater | internal/watch/postgres.go:859-865 | along any interleaving of transactions, an ended transaction stays as it ended and the log only grows |
| Watch.ReadPending | internal/watch/postgres.go:884-904 | exactly the committed rows the watch lists after the cursor and below the horizon, in (transaction, row) order |
| Watch.HandedOnStays | internal/watch/postgres.go:859-868 | what was handed on stays right as other transactions commit and abort |
| Watch.HandNext | internal/watch/postgres.go:911-955 | handing on or passing over the next row keeps the account right |
| Watch.Watcher.AdvanceCursor | internal/watch/postgres.go:986-992 | the cursor is the row's and the resource version never falls |
| Watch.Watcher.PollChanges | internal/watch/postgres.go:870-959 | after a poll of any batch size the rows handed on are exactly the committed wanted rows up to the cursor, in order, once each; the cursor passed exactly as many listed rows as the poll counts, a full batch of them unless none is left below the horizon; with none passed nothing moves; it stays below the horizon, and the resource version is the highest passed |
| Watch.Watcher.DrainChangelog | internal/watch/postgres.go:832-857 | every poll but the last passes a full batch, so the number of rows passed is known to within one; a complete drain is caught up with its last poll and every committed row the watch wants below that horizon has been handed on |
| Watch.Watcher.DrainUnchanging | internal/watch/postgres.go:832-857 | while nobody writes, a drain is complete if and only if its polls have room for more than the rows that wait, and then none waits |
| Watch.WatchHistory | internal/watch/postgres.go:832-992 | a watch from the beginning, polling anywhere along any history, has handed on exactly the committed wanted rows up to its cursor, in order, each once; it was caught up with some poll, or with none, and each poll since has passed a full batch |
| Watch.Watcher.AfterList | internal/watch/postgres.go:653-765 | the cursor seeded from a snapshot has no committed row of an ended transaction after it and lies below the snapshot's horizon |
| Watch.HandoffHasNoGap | internal/watch/postgres.go:641-652 | a committed wanted row comes from below the snapshot's horizon, was visible to the list and is never handed on, or is handed on exactly when the cursor has passed it |
| Watch.WatchAfterList | internal/watch/postgres.go:641-765 | listing at any state of any history and polling anywhere after it loses no committed row, hands none on twice, and keeps up in the same way |
| Scope.FieldsInjective | internal/scope/scope.go:181-192 | the fields are determined by the encoding, whatever digits and colons they hold |
| Scope.ItoaIsDecimal | internal/scope/scope.go:262-266 | a length is written in decimal, with no leading zero |
| Scope.FieldsAsWritten | internal/scope/scope.go:262-266 | each field is its length in decimal, a colon, and its bytes |
| Scope.Roles | internal/scope/scope.go:383-390 | the role names, each once, in order |
| Scope.SortedIsUnique | internal/scope/scope.go:377-382 | a set of names has one sorted list, whatever order a map is visited in |
| Scope.CanonicalPool | internal/scope/scope.go:203-223 | the result is the pool form of the tenancy and the scope |
| Scope.CanonicalAddressSpace | internal/scope/scope.go:244-260 | the result is the address-space form of the tenant and the scope |
| Scope.PoolFormInjective | internal/scope/scope.go:203-223 | one form has one owner, one consumer and one scope |
| Scope.PoolFormUnique | internal/scope/scope.go:203-223 | a tenancy and a scope have one form |
| Scope.PoolFormOfTwo | internal/scope/scope_test.go:29-57 | for any tenancy and any two refs the pool form of a network and a location is the version, owner, consumer, count, then each role in name order with its group, kind and name |
| Scope.SpaceFormInjective | internal/scope/scope.go:225-260 | a form fits another tenant and scope exactly when the scopes are equal and, unless they are empty, the tenants too |
| Scope.SpaceFormOfTwo | internal/scope/scope_test.go:69-77 | the address-space form of the same carries the tenant inside each role's group |
| Scope.EmptySpaceForm | internal/scope/scope_test.go:79-83 | with no roles the form names no tenant |
| Scope.FormsNeverMeet | internal/scope/scope.go:38-64 | no pool form is an address-space form |
| Scope.Project | internal/scope/scope.go:444-461 | the scope narrowed to exactly the named roles, or every role not supplied, once each in the order asked; a ref with no name is not supplied |
| Scope.ProjectFor | internal/scope/scope.go:472-482 | the same without the reserved role |
| Scope.PoolPerRoles | internal/scope/scope.go:109-119 | exactly the roles other than the reserved one with their repeats, the list itself if it is not named, and whether it was |
| Scope.ReservedDropsOut | internal/scope/scope.go:109-119 | wherever the reserved role stands it drops out, and the roles before and after it keep their order |
| Scope.OneSpaceExactlyWhen | internal/scope/scope.go:307-335 | two claims of a class fall in one space exactly when they agree on every role and, if there is one, on the tenant |
| Scope.RoleSetKeyDecides | internal/scope/scope.go:361-375 | two role lists have one key exactly when they name the same roles |
| Scope.FirstDisagreement | internal/allocator/agreement.go:53-60 | none is reported exactly when all classes name the same roles, and the one reported is the first that differs |
| Scope.AgreeingClassesAgree | internal/allocator/agreement.go:50-60 | classes that agree project every claim alike or reject it for the same missing roles |
| Classes.Resolve | internal/allocator/class.go:107-126 | exactly the definition a name stands for is found, itself or one reference away; a chained reference and a missing class are told apart |
| Classes.LoadAncestry | internal/allocator/class.go:217-249 | ends on every graph, with the leaf's ancestry if it has one; if it has none, with the error that says why the walk up stops: a parent missing, a chained reference, a class met before, another family, or more than eight steps |
| Classes.AncestryIsBounded | internal/allocator/class.go:217-249 | at most eight ancestors, distinct from one another and the leaf, all of its family |
| Classes.AncestryIsUnique | internal/allocator/class.go:209-217 | a leaf has one ancestry |
| Classes.StopIsUnique | internal/allocator/class.go:217-249 | a leaf has one such walk at most, and one reason |
| Classes.PlanLevels | internal/allocator/cascade.go:145-178 | one level for each class, root first; or no tenant, or the first class short of roles with all it misses |
| Classes.PlanDescends | internal/allocator/cascade.go:145-178 | each level's class is the parent of the next, from one with no parent down to the leaf's own |
| Classes.OnePoolExactlyWhen | internal/allocator/cascade.go:145-178 | two claims share a class's pool if and only if they agree on every role it carves pools per and, where it carves them per project, on the project |
| Classes.PlanCascade | internal/allocator/cascade.go:110-116 | the plan of the leaf's ancestry; a failure is the ancestry's error, or no tenant, or the roles missing |
| Classes.PlanScopeRangeCascade | internal/allocator/cascade.go:127-134 | the plan with the leaf included, failing in the same cases |
| Classes.ChildAdoptsRange | internal/allocator/cascade.go:136-141 | a child's plan is its parent's range plan |
| Classes.PlanChildThenRange | internal/allocator/cascade.go:118-178 | when a claim of a child plans, the parent's range plans too, with the very same levels |

## Left out

- CIDRPool, FragmentationPct, CountAddresses and the percentages: float rounding and saturating display figures over counts that are modelled exactly.
- FindFirstAvailableBlockWithReservations: a composition of two modelled operations.
- Non-canonical masks and IPv4-mapped IPv6 addresses: a block here has a family tag and a masked base.
- Result, Done and FirstFree of a scan: they read the fields whose meaning the scan's invariant states.
- Scanning.NotedAtEnd: the first-free note is stated over one range, which is all a pool has; over several ranges the code notes the first gap of the first range that has one.
- Density.LowestDensityExactlyWhen: ranges that overlap are covered by Density.LargestIsPicked when the largest holds four addresses or more; overlapping lists of single addresses and pairs, and lists that mix families, are not decided.
- Concurrent allocation inside a range being released: the foreign key refuses the release then, which the interleaved model takes as a condition on its commit.
- Waiting and deadlock between transactions: a step that would wait is not taken, and a transaction the database ends is an abort.
- Deleting a pool through the registry as a step of a run, because it can leave a carve behind (`Store.Store.DeletePool`), and re-binding a retained allocation. The one-time repair of operators' child pools (`migrations/002_class_model.sql:888-895`) is not an operation of a run.
- Specific-address claims, ASN allocation, entitlement, admission, authorisation, discovery of the pool offering a class, and the class registry's own validation.
- Pool names and SHA-256: a level's name and digest are functions of what `Classes.Level` holds.
- seedCursorFromRV, bookmarks, resource-version order and changelog cleanup by age: resource versions and transaction ids are ordered differently, so exactly-once is not claimed there.
- Stopping a watch part-way through a batch, horizon-stall warnings, notifications and coalescing: they change when a poll happens, not what it hands on.
- CLI, transport, rendering, metrics, tracing and generated code.
