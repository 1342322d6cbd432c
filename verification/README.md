# Cable grouper — a Dafny model of `group_combinations`

The grouper reads circuits from a spreadsheet. Each circuit has a length per
wire colour. For each requested colour it packs the circuits into *groups*
whose lengths add up to exactly 500 or 1000, the two roll sizes. What cannot
be completed becomes a *surplus* record ("Costums"). After each colour, a
merge pass joins same-colour surpluses whose leftovers fit together in 500.

This project models that core, the function `group_combinations`, in Dafny.
Within one colour it works as follows:

1. sort the circuits by length, longest first, keeping the input order of
   equal lengths (`Sorting.SortDesc`);
2. repeat passes until no circuit is left (`Packing.Pack`). A pass (`Packing.Pass`):
   - scans the pool first-fit: it accepts each circuit that keeps the running
     sum at most 1000, and stops as soon as the sum is exactly 500 or 1000
     (`Packing.Scan`);
   - removes the accepted circuits by position;
   - if the sum missed both targets and is positive, runs the repair step over
     the ascending leftover lengths (`Packing.Repair`). That step adds lengths
     while the sum stays at most 500 and deletes pool items *by value*;
   - emits a group at 500/1000, or a surplus otherwise;
3. append the colour's records to the shared lists and merge the surpluses of
   all colours seen so far (`Merging.MergeSurpluses`).

`Grouping.GroupCombinations` is the loop over the colours.

Modules:

- `Sequences`: sub-sequences and multiset helpers.
- `Cables`: the data — circuits, groups, surpluses, sums and id lists.
- `Sorting`: the two sorts.
- `Packing`: scan, repair, pass and the per-colour loop.
- `Merging`: the merge pass, as two loops and as the recursive functions
  `Absorb`/`MergeFrom` that the loops compute.
- `Grouping`: the whole function.
- `Scenarios`: small worked inputs.

Behaviour that the code has and a reader of its description might not expect.
The model follows the code and proves each of these:

- **A pass never repairs anything.** If the scan misses both targets, it has
  walked the whole pool. So every circuit left behind overflowed the sum past
  1000, and therefore past 500. The repair step is reached only in that case,
  so it can never add a length (`Packing.Pass` ensures `r.topUp == []`).
  Its by-value deletion therefore never loses circuits in practice.
  `Scenarios.RepairDropsDuplicates` shows what that deletion would do on its own.
- **Length-0 circuits can vanish.** A pass made only of length-0 circuits has
  sum 0. It emits nothing (the surplus branch needs a positive sum), yet its
  circuits leave the pool (`Scenarios.ZeroLengthDropped`). Every circuit of
  positive length is listed somewhere, under its own colour
  (`Grouping.GroupCombinations`).
- **A merged surplus can be exactly 500.** The merge bound is inclusive
  (`Scenarios.MergeReachesHalf`).
- **Within one colour the merge pass has nothing to do.** A surplus is emitted
  only when every remaining circuit is longer than 1000 minus its leftover.
  Every later surplus is built from such circuits, so no two of them fit
  together in 500 (`Grouping.PackComplete`). With pairwise distinct colours,
  the surplus list is just every colour's own surpluses in order
  (`Grouping.GroupCombinations`, last ensures).

## Model

| member | source | states |
|---|---|---|
| Sorting.SortDesc | Agrupaciones.py:42 | the result is a permutation of the input (items and ids) sorted by descending length |
| Sorting.SortDescStable | Agrupaciones.py:42 | the sort is stable: for every length, the circuits of that length keep their input order |
| Sorting.SortAsc | Agrupaciones.py:70 | the leftover lengths are sorted ascending without losing or adding any |
| Packing.Scan | Agrupaciones.py:49-62 | the running sum never exceeds 1000 and never decreases |
| Packing.ScanSnoc | Agrupaciones.py:49-62 | the scan is the source's `for` loop read left to right: its result on the first k + 1 circuits is one loop step applied to its result on the first k; a step accepts a circuit that keeps the sum at most 1000, leaves one that does not, and after a sum of 500 or 1000 leaves every later circuit, so the scan is first-fit |
| Packing.ScanTotal | Agrupaciones.py:49-62 | the final sum is the start plus the accepted lengths, and only the last accepted circuit can make the sum 500 or 1000 |
| Packing.ScanPartition | Agrupaciones.py:49-65 | accepted and remaining circuits together are exactly the pool: nothing lost or duplicated |
| Packing.ScanSubseq | Agrupaciones.py:49-65 | accepted circuits keep pool order, and the removal by index keeps the others in pool order |
| Packing.ScanMaximal | Agrupaciones.py:49-62 | without a hit, every circuit left behind would take the sum past 1000 |
| Packing.ScanProgress | Agrupaciones.py:49-54 | the head of the pool is accepted whenever it fits; a pool where nothing fits is left untouched |
| Packing.RemoveLength | Agrupaciones.py:75 | the removal deletes every item of that length and keeps all others with their multiplicity, in order |
| Packing.Repair | Agrupaciones.py:70-77 | the final sum is the start plus the added lengths, and at most 500 once anything was added |
| Packing.RepairStopsAtHalf | Agrupaciones.py:72-77 | the repair step stops at the first sum equal to 500 |
| Packing.RepairIdle | Agrupaciones.py:71-72 | when every value would take the sum past 500, the repair step changes nothing |
| Packing.RepairSubseq | Agrupaciones.py:71-75 | added lengths come from the leftover list in its order, and the pool only loses items |
| Packing.RepairRemovesByValue | Agrupaciones.py:71-75 | an item survives repair iff its length was never added, and then with all its occurrences |
| Packing.RepairMaximal | Agrupaciones.py:71-77 | unless the sum reached 500, every skipped value would have overflowed 500 |
| Packing.TopUpIdsFiltered | Agrupaciones.py:74-90 | a record lists exactly the scanned circuits; entries added by repair carry no id and are filtered out |
| Packing.Pass | Agrupaciones.py:44-92 | a pass emits a valid group (total 500 or 1000, roll size equal to the total) or a surplus strictly between 0 and 1000 and not 500, listing the scanned ids; it emits nothing iff the sum is 0, and repair never adds a length |
| Packing.PassPool | Agrupaciones.py:49-65 | members and the remaining pool are sub-sequences of the pool, and the remaining pool stays sorted |
| Packing.PassPartition | Agrupaciones.py:49-65 | members plus the remaining pool are exactly the pool, and so are their ids |
| Packing.PassProgress | Agrupaciones.py:44-65 | a pass shrinks the pool when its head fits; on a pool of circuits all longer than 1000 it emits nothing and leaves the pool as it was |
| Packing.Pack | Agrupaciones.py:44-92 | all groups are valid, all surpluses fresh, all of this colour; no id is listed more often than it occurs; every circuit of positive length is listed |
| Packing.PackBuiltFromMembers | Agrupaciones.py:44-92 | every group and surplus has a member list: it lists exactly their ids, and its total (group) or leftover (surplus) is the sum of their lengths; the member lists together take each circuit of the pool at most once |
| Merging.MergeAt | Agrupaciones.py:99-104 | folding record j into record i: i gets the combined record, the records before j keep their places, the later ones move up by one |
| Merging.MergeAtTotals | Agrupaciones.py:99-104 | one merge keeps every colour's total leftover |
| Merging.MergeAtIds | Agrupaciones.py:102-104 | one merge neither loses nor duplicates a circuit |
| Merging.MergeAtColorIds | Agrupaciones.py:99-104 | one merge neither loses nor duplicates a circuit among the records of any one colour |
| Merging.MergeAtOtherColors | Agrupaciones.py:99-104 | one merge leaves the records of every other colour as they were |
| Merging.MergeAtSurvivors | Agrupaciones.py:99-104 | each record after a merge descends from an input record: same colour, original circuits first, leftover not smaller, at most 500 if it grew |
| Merging.Absorb | Agrupaciones.py:97-106 | the inner loop for record i leaves index i in the list and never makes the list longer |
| Merging.MergeFrom | Agrupaciones.py:95-107 | the merge pass never makes the list longer |
| Merging.AbsorbColorIds | Agrupaciones.py:97-106 | the inner loop keeps, for every colour, the multiset of circuits listed under it |
| Merging.AbsorbApart | Agrupaciones.py:97-106 | after the inner loop, record i can absorb none of the later records |
| Merging.AbsorbPrefix | Agrupaciones.py:97-106 | the inner loop gives no earlier record a new partner |
| Merging.AbsorbOthers | Agrupaciones.py:97-106 | the inner loop for record i leaves the records of other colours unchanged |
| Merging.MergeFromComplete | Agrupaciones.py:95-107 | after the merge pass no earlier record can absorb a later one |
| Merging.MergeFromTotals | Agrupaciones.py:95-107 | the merge pass keeps every colour's total leftover |
| Merging.MergeFromIds | Agrupaciones.py:95-107 | the merge pass keeps the multiset of listed circuits |
| Merging.MergeFromSurvivors | Agrupaciones.py:95-107 | every record of the result descends from an input record, in the input order |
| Merging.MergeFromColorIds | Agrupaciones.py:95-107 | the merge pass keeps, for every colour, the multiset of circuits listed under it |
| Merging.MergeFromIdle | Agrupaciones.py:95-107 | on a list with no mergeable pair the merge pass changes nothing |
| Merging.MergeSurpluses | Agrupaciones.py:95-107 | the two loops compute the merge; the result is complete, no longer than the input, keeps colour totals and circuits, keeps the survivors in order, and keeps leftovers strictly between 0 and 1000 |
| Grouping.PackSurplusesAbove | Agrupaciones.py:44-92 | surpluses made only from circuits longer than some bound have a leftover above it |
| Grouping.PackComplete | Agrupaciones.py:44-92 | within one colour no two surpluses can be merged |
| Grouping.PackColumn | Agrupaciones.py:39-92 | one colour's work: valid groups and fresh surpluses of that colour, ids within the input, every circuit of positive length listed, no mergeable surplus pair |
| Grouping.ColumnBuiltFromMembers | Agrupaciones.py:39-92 | after the sort, every group and surplus of a colour lists exactly the ids of its member list and totals their lengths; the member lists together take each circuit of the colour at most once |
| Grouping.ProcessColor | Agrupaciones.py:39-107 | one iteration of the colour loop (pack colour k, append its groups and surpluses, merge) keeps the loop's invariant: after k + 1 colours the groups are valid and of those colours, the surpluses lie strictly between 0 and 1000 with no mergeable pair, no circuit is listed more often than it occurs overall and within its colour, every circuit of positive length is listed under its colour, and with distinct colours no merge happened |
| Grouping.FoldMerge | Agrupaciones.py:95-107 | the merge after each colour leaves a complete list, changes nothing when no pair fits, keeps the listed circuits overall and per colour, keeps survivors in order and leftovers strictly between 0 and 1000 |
| Grouping.FoldProcessed | Agrupaciones.py:30-109 | after the first k colours: valid groups of those colours; surpluses of those colours strictly between 0 and 1000 with no mergeable pair; no circuit listed more often than in those colours' input; each of their circuits of positive length listed; with distinct colours, no merge happened |
| Grouping.FoldColors | Agrupaciones.py:30-109 | after the first k colours, for every colour c, the circuits listed under c are a sub-multiset of the input of colour c, and every circuit of positive length is listed under its own colour |
| Grouping.FoldDone | Agrupaciones.py:30-109 | every property of the whole function, stated of the fold over all colours |
| Grouping.GroupCombinations | Agrupaciones.py:30-109 | the loop's results are the groups of each colour in turn and the surpluses merged colour by colour; valid groups of requested colours; surpluses strictly between 0 and 1000 with no mergeable pair left; no circuit listed more often than it occurs, overall and within each colour; every circuit of positive length listed, and under its own colour; with distinct colours, the surpluses are the colours' own surpluses in order |
| Scenarios.SurplusAboveHalf | Agrupaciones.py:49-92 | pool 600, 500: the first pass emits a surplus of 600, the second a group of 500 |
| Scenarios.ExactThousand | Agrupaciones.py:49-62 | pool 600, 400: one group of 1000 |
| Scenarios.ZeroLengthDropped | Agrupaciones.py:44-92 | pool 500, 0: the passes emit one group listing circuit 1 only; the length-0 circuit 2 appears in no record |
| Scenarios.MergeReachesHalf | Agrupaciones.py:99-104 | surpluses of 300 and 200 of one colour merge into one of exactly 500 |
| Scenarios.MergeKeepsColorsApart | Agrupaciones.py:99 | a Rojo and an Azul surplus of 100 each, which would fit together in 500, stay apart |
| Scenarios.RepairDropsDuplicates | Agrupaciones.py:70-77 | taken alone from sum 300 over leftovers 100, 100, 200: the ascending list is computed once, both 100s are added to reach 500, and both circuits of length 100 are deleted by value |

## Left out

- Reading the spreadsheet is not modelled: the file dialog, `read_excel`,
  `dropna` and the `Length <color>` column lookup. A colour's input is given
  as a `Bucket` of (id, length) rows with the empty cells already dropped.
- Writing the two result sheets and the GUI (`export_to_excel`, the tkinter
  window) are not modelled: they are I/O.
- `validate_columns` is not modelled. It is a separate pre-check over column names.
- Lengths are natural numbers. The spreadsheet may hold floats; with them the
  exact `in [500, 1000]` tests behave differently. Negative lengths are not
  modelled.
- Unused code is not modelled: `acceptable_ranges`, the `combinations` import,
  and the `cable_size` parameter of the export.
- Packing.Pack: requires every length to be at most 1000. With a longer
  circuit the source's `while sorted_values` loop never ends, because no pass
  removes it. `Packing.PassProgress` states that stall; `Pass` itself needs no
  precondition.
- Grouping.PackColumn: same precondition as `Pack`, for the same reason.
- Grouping.GroupCombinations: same precondition, for every requested colour.
- Circuit ids are plain integers. The source's ids are whatever the
  `# de circuitos` column holds, compared only for equality.
