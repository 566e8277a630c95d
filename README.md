# MST spatial index and contact list, in Dafny

This project models two sequential pieces of the MST protein-structure
library and proves properties of them.

- The bucket-grid spatial index `ProximitySearch` (`include/msttypes.h`) is an
  N x N x N grid over a box [xlo, xhi] x [ylo, yhi] x [zlo, zhi].
  - Each bucket lists indices into two parallel vectors: the points and their
    integer tags.
  - `addPoint` appends a point and files its index in the bucket of its
    coordinates. The bucket index is clamped to [0, N-1] by `limitIndex`.
  - The range query `pointsWithin` scans the buckets within ceil(dmax / width)
    of the query point's clamped bucket. It reports exactly the stored points
    whose distance to the query lies in [dmin, dmax]. This holds even when the
    query point lies outside the grid.
- `DecoratedProximitySearch<T>` puts a second layer of tags, of any type, on
  top of this index. Every base tag is the index of the point's decoration.
- The small `MstUtils` templates `min`, `max`, `sortIndices` and `keys`.
- The contact relation collection `contactList` (`include/mstcondeg.h`) keeps:
  - four parallel vectors: source residue, destination residue, degree and
    annotation;
  - a nested lookup map `inContact[src][dst]` holding the position of the
    latest record for the pair;
  - a `std::set` of canonical residue pairs, ordered by the comparator
    `contComp`.
  `sortByDegree` reorders all the stores by one permutation.
- The inline state setters of the contact engine `ConFind`.

Modules and files:

| file | module | what |
|---|---|---|
| `grid.dfy` | `Grid` | points, squared distances, `limitIndex`, grid spacing, bucket index of a coordinate, scanned range of a query |
| `proximity.dfy` | `Proximity` | classes `ProximitySearch` and `DecoratedProximitySearch` |
| `utils.dfy` | `MstUtils` | `min`, `max`, `sortIndices`, `keys` (as written and corrected) |
| `contact_order.dfy` | `ContactOrder` | residues, `contComp`, the ordered set and its `insert` |
| `contacts.dfy` | `ConDeg` | classes `ContactList` and `ConFind` |

Coordinates are exact `real`s, and distances are compared squared, so no square
root is taken. `Grid.WithinIsDistanceRange` proves that the squared test is
exactly `dmin <= d <= dmax` for the true distance `d`.

A residue is a value `Residue(id, residueIndex)`:
- `id` stands for the pointer identity that the C++ maps are keyed by;
- `residueIndex` is what `getResidueIndex()` reports.

The ordered set is a sequence kept strictly increasing under `contComp`.

Two more modelling choices:
- Each contact list carries a ghost record of which contacts were added as
  directional. The C++ object does not store this, but the exact consistency
  of the lookup map and the ordered set can only be stated with it.
- `DecoratedProximitySearch` holds its base index as a field, rather than
  inheriting from it.

The bodies of the following operations are in the library's .cpp files, which
are not part of this model. For them the model follows their declarations and
the comments beside them, and the behaviour it gives them is the one stated in
this README:
- `addPoint`, `pointBucket`, `limitIndex`, `pointsWithin`, `getPointsWithin`,
  `isPointWithinGrid`;
- `sortByDegree`, `getOrderedContacts`, `areInContact`, `degree(resi, resj)`.

`sortByDegree` is declared at include/mstcondeg.h:48 with the comment that it
sorts the contact list by degree, highest to lowest. The model sorts with
`sortIndices(degrees, true)`, applies that permutation to every parallel
store, and remaps the lookup map through the inverse permutation. As a result,
every pair keeps the degree and annotation it had, and the ordered set is
unchanged. The C++ object keeps no record of which contacts were added as
directional (include/mstcondeg.h:66-71), so a rebuild from the sorted vectors
could not tell which records need the reversed map entry or which pair to put in
the set. This is why the model remaps through the inverse permutation instead;
"## Left out" lists where a rebuild would differ.

The one-line accessors are modelled one-to-one, each returning the store entry
it reads, with no contract beyond that: `Proximity.ProximitySearch.GetPointTag`
(include/msttypes.h:522) and the `contactList` accessors `ResidueA`,
`ResidueB`, `SrcResidue`, `DstResidue`, `SrcResidues`, `DestResidues`,
`DegreeAt` (for `degree(i)`) and `Info` (include/mstcondeg.h:39-45 and 47).
`ConDeg.ContactList.InfoOf` has no counterpart in `contactList`: it is a ghost
specification helper, the annotation of the record a pair's map entry names,
which `SortByDegree`'s contract uses.

## Model

| member | source | states |
|---|---|---|
| `Grid.LimitIndex` | include/msttypes.h:532 | the clamped index lies in [0, N-1] and is the valid index nearest to the input |
| `Grid.LimitIndexMonotone` | include/msttypes.h:532 | clamping preserves the order of indices |
| `Grid.GridSpacing` | include/msttypes.h:533-535 | N bucket widths span exactly hi - lo; the width is positive for a non-empty extent |
| `Grid.AxisCell` | include/msttypes.h:529-532 | the per-axis bucket index of a coordinate always lies in [0, N-1] |
| `Grid.AxisCellInside` | include/msttypes.h:529-532 | inside the extent the bucket index is floor((v - lo) / width), and clamping changes nothing |
| `Grid.WithinIsDistanceRange` | include/msttypes.h:539 | the squared-distance test holds exactly when dmin <= d <= dmax for the true distance d |
| `Grid.AxisCovered` | include/msttypes.h:539 | a coordinate within dmax of the query coordinate falls in a bucket inside the scanned range, even when the query's own index was clamped |
| `Proximity.ProximitySearch.constructor` | include/msttypes.h:509 | a grid with the given extent and N, no points and N^3 empty buckets |
| `Proximity.ProximitySearch.PointSize` | include/msttypes.h:520 | the number of stored points, equal to the number of tags |
| `Proximity.ProximitySearch.GetPoint` | include/msttypes.h:521 | the i-th stored point, which is filed in the bucket of its own coordinates |
| `Proximity.ProximitySearch.GridSpacingX` | include/msttypes.h:533 | N widths span exactly xhi - xlo; the width is positive for a non-empty extent |
| `Proximity.ProximitySearch.GridSpacingY` | include/msttypes.h:534 | N widths span exactly yhi - ylo; the width is positive for a non-empty extent |
| `Proximity.ProximitySearch.GridSpacingZ` | include/msttypes.h:535 | N widths span exactly zhi - zlo; the width is positive for a non-empty extent |
| `Grid.AxisRawRange` | include/msttypes.h:528 | on the closed extent the unclamped index lies in [0, N]; outside it the unclamped index is not an index of the grid |
| `Proximity.ProximitySearch.IsPointWithinGrid` | include/msttypes.h:528 | true for a point in the closed box [lo, hi] on every axis; then its unclamped bucket lies in [0, N] on every axis, and otherwise its unclamped bucket is not a bucket of the grid, so pointBucket clamps it |
| `Proximity.ProximitySearch.PointBucket` | include/msttypes.h:529-531 | every point, inside the grid or not, is assigned a bucket of the grid |
| `Proximity.ProximitySearch.InteriorBucket` | include/msttypes.h:528-531 | a point strictly inside the extent lies in the unclamped floor cell of its coordinates |
| `Proximity.ProximitySearch.FileInto` | include/msttypes.h:558-566 | filing an index appends it to one bucket, keeps the N x N x N shape, and leaves every other bucket unchanged |
| `Proximity.ProximitySearch.FileIntoKeepsFiled` | include/msttypes.h:558-566 | after filing the new point, every stored index still sits in exactly one bucket, the one of its point, without repetition |
| `Proximity.ProximitySearch.AddPoint` | include/msttypes.h:526 | the point and tag are appended to the parallel vectors; the new index is appended to the point's bucket only; the bucket invariant is kept |
| `Proximity.ProximitySearch.QueryBoxCovers` | include/msttypes.h:539 | every point within the distance bound lies in a bucket of the scanned box, wherever the query point is |
| `Proximity.ProximitySearch.PointsWithin` | include/msttypes.h:539 | the list gains one entry per stored point within [dmin, dmax] of c, each once: its index, or its tag when byTag; earlier entries are kept; the result is true exactly when something was found |
| `Proximity.ProximitySearch.GetPointsWithin` | include/msttypes.h:540 | the same report, starting from an empty list: as many entries as points in range, and with indices exactly the in-range points |
| `Proximity.ProximitySearch.NumPointsWithin` | include/msttypes.h:541-543 | the count equals the number of stored points within [dmin, dmax] of c |
| `Proximity.DistinctCard` | include/msttypes.h:541-543 | a repetition-free report has as many entries as the set it reports |
| `Proximity.Decorations` | include/msttypes.h:594-595 | the decoration loop yields, at every position i, the decoration tags[inds[i]] |
| `Proximity.DecoratedProximitySearch.constructor` | include/msttypes.h:572-573 | an empty decorated grid over the given extent |
| `Proximity.DecoratedProximitySearch.GetPointTag` | include/msttypes.h:586 | the decoration reached through the base tag, tags[pointTags[i]], is tags[i], because every base tag is its point's own index |
| `Proximity.DecoratedProximitySearch.AddPoint` | include/msttypes.h:587-590 | the base receives the point with base tag tags.size(); the decoration of the new point is the given tag; the decorations of earlier points are unchanged |
| `Proximity.DecoratedProximitySearch.TagsAreIndices` | include/msttypes.h:593 | a by-tag base report of a decorated index is the list of point indices |
| `Proximity.DecoratedProximitySearch.GetPointsWithin` | include/msttypes.h:592-597 | one decoration per point within [dmin, dmax] of c, each point once: the result has as many entries as there are such points, and the decoration of each of them appears |
| `Proximity.DecoratedProximitySearch.GetPointsWithinIndices` | include/msttypes.h:598-600 | exactly the indices of the points within [dmin, dmax] of c, each once |
| `MstUtils.Min` | include/msttypes.h:705-708 | the result is one of the arguments and no larger than either |
| `MstUtils.Max` | include/msttypes.h:711-714 | the result is one of the arguments and no smaller than either |
| `MstUtils.SortByRank` | include/msttypes.h:676-680 | the sort call rearranges the index vector, keeping its multiset, into non-decreasing value order (non-increasing when descending) |
| `MstUtils.SortIndices` | include/msttypes.h:673-682 | the result is a permutation of 0 .. n-1 whose indexed values are non-decreasing, or non-increasing when descending |
| `MstUtils.PermutationRange` | include/msttypes.h:673-682 | a permutation has length n, stays in range and names every index |
| `MstUtils.PermutationInjective` | include/msttypes.h:673-682 | a permutation names no index twice |
| `MstUtils.Keys` | include/msttypes.h:685-692 | as written: a vector of map.size() entries whose first entry is the greatest key and whose others are 0 |
| `MstUtils.KeysMissesAKey` | include/msttypes.h:685-692 | a map with two or more keys and no key 0 has a key missing from what keys returns |
| `MstUtils.SortedKeys` | include/msttypes.h:685-692 | as intended: every key exactly once, in increasing order |
| `ContactOrder.ContCompIsStrictWeakOrder` | include/mstcondeg.h:54-64 | contComp is irreflexive, asymmetric and transitive; two pairs are equivalent exactly when both residue indices agree |
| `ContactOrder.OrderedKeysDistinct` | include/mstcondeg.h:71 | the ordered set holds at most one pair per pair of residue indices |
| `ContactOrder.Insert` | include/mstcondeg.h:71 | set insertion gives an ordered set with the same elements plus the new pair, unless an equivalent pair is present, in which case nothing changes |
| `ContactOrder.InsertIdempotent` | include/mstcondeg.h:71 | inserting the same pair twice is the same as inserting it once |
| `ConDeg.Put` | include/mstcondeg.h:30-31 | the nested map write changes the entry for (a, b) only |
| `ConDeg.CanonPair` | include/mstcondeg.h:32-36 | a directional contact is filed as (a, b); an undirected one as the same two residues, lower residue index first; a pair already in that order is kept as (a, b), so equal indices keep (a, b) |
| `ConDeg.AppendConsistent` | include/mstcondeg.h:25-37 | appending a record with the map and set writes of addContact keeps the stores consistent |
| `ConDeg.Inverse` | include/mstcondeg.h:48 | the inverse of the sorting permutation undoes it on both sides |
| `ConDeg.DescendingOrder` | include/mstcondeg.h:48 | the sorting permutation orders the degrees from highest to lowest, and comes with its inverse |
| `ConDeg.PermutedConsistent` | include/mstcondeg.h:48 | rearranging the records by a permutation and remapping the map through its inverse keeps the stores consistent |
| `ConDeg.PermutedLookup` | include/mstcondeg.h:48 | after the rearrangement each pair still has an entry, and that entry names a record with the same degree and annotation |
| `ConDeg.ContactList.constructor` | include/mstcondeg.h:16 | an empty, consistent contact list |
| `ConDeg.ContactList.Copy` | include/mstcondeg.h:17-24 | the copy's six stores equal those of the original |
| `ConDeg.ContactList.Size` | include/mstcondeg.h:38 | size is the common length of the four parallel vectors |
| `ConDeg.ContactList.AddContact` | include/mstcondeg.h:25-37 | see the text after this table |
| `ConDeg.ContactList.AreInContact` | include/mstcondeg.h:50 | true exactly when some record connects A and B in one orientation or the other |
| `ConDeg.ContactList.Degree` | include/mstcondeg.h:46 | for a pair with a map entry, the degree of a record connecting the pair |
| `ConDeg.ContactList.GetOrderedContacts` | include/mstcondeg.h:49 | see the text after this table |
| `ConDeg.ContactList.SortByDegree` | include/mstcondeg.h:48 | see the text after this table |
| `ConDeg.ConFind.SetFreedomParams` | include/mstcondeg.h:79 | sets the two cutoffs and the formula switch, and nothing else |
| `ConDeg.ConFind.ClearFreedom` | include/mstcondeg.h:136 | empties the freedom cache, and nothing else |
| `ConDeg.ConFind.CollProbUpdateOn` | include/mstcondeg.h:149 | sets `updateCollProb[res]` to true and changes no other flag |
| `ConDeg.ConFind.CollProbUpdateOff` | include/mstcondeg.h:150 | sets `updateCollProb[res]` to false and changes no other flag |

The three rows marked "see the text after this table" state the following.

`ConDeg.ContactList.AddContact` ensures:
- each parallel vector grows by one, at the end: a, b, d and s;
- `inContact[a][b]` becomes the new index, and so does `inContact[b][a]` when
  the contact is undirected;
- every other map entry is unchanged;
- the ordered set receives the canonical pair;
- the list stays consistent.

`ConDeg.ContactList.GetOrderedContacts` returns pairs that are:
- strictly ordered by contComp;
- unique per pair of residue indices;
- each the canonical pair of some record;
- together covering every record.

`ConDeg.ContactList.SortByDegree` ensures:
- one permutation is applied to all four vectors;
- the degrees become non-increasing;
- the same pairs have map entries;
- each map entry follows its record to the record's new position;
- every pair keeps its degree and annotation;
- the ordered set is unchanged;
- the list stays consistent.

## Left out

- Proximity.ProximitySearch.PointsWithin: the order of the reported entries is not stated. The model reports them in bucket scan order (i, then j, then k) and, within a bucket, in insertion order.
- MstUtils.SortIndices: the relative order of indices with equal values is not stated; `std::sort` gives no guarantee about it either.
- ConDeg.ContactList.SortByDegree: which permutation is chosen among equal degrees is not stated, as for `sortIndices`.
- ConDeg.ContactList.SortByDegree: the lookup map is remapped through the inverse permutation, not rebuilt from the sorted records, because the records do not say which contacts were directional. A rebuild would differ from the model in three ways:
  - a pair added more than once: the model keeps its latest record's degree, where a rebuild would take whichever of its records comes last in the sorted order, and the model's ordered set keeps the representatives inserted first;
  - an undirected contact (a, b): a rebuild that writes only `inContact[resi[i]][resj[i]]` loses the (b, a) entry the model keeps;
  - a directional contact (a, b) whose first residue has the higher residue index: a rebuild through `addContact` with its default `directional = false` adds a (b, a) map entry the model lacks, and inserts (b, a) into the ordered set where the model keeps (a, b).
- Proximity.ProximitySearch.GetPoint returns the point as a value. The C++ `getPoint` returns a mutable reference, through which a caller can move a stored point away from the bucket it is filed in; that aliasing is not modelled.
- `pointsWithin` called with no output list (a null pointer): only the report into a list is modelled.
- Floating point: coordinates, degrees and cutoffs are exact reals, so rounding in the distance test and in (v - lo) / width is not modelled.
- The `ProximitySearch` constructors over atom sets and a characteristic distance, `reinitBuckets`, `addAtoms`, `calculateExtent`, `setBinWidths` and `overlaps` are left out: their bodies are not in the headers. Only the constructor from explicit extents is modelled.
- `distance(i, j)` (include/msttypes.h:523) is left out: it returns the square-root distance `CartesianPoint::distance`, whose body is not in the headers. The model compares squared distances (`Grid.Dist2`) instead.
- The bucket width is taken to be `gridSpacingX/Y/Z`, that is (hi - lo)/N, in `pointBucket` (`Grid.RawAxisCell`) and in the reach ceil(dmax / width) of `pointsWithin` (`Grid.Reach`). The C++ class keeps separate width fields `xbw`, `ybw`, `zbw` (include/msttypes.h:552), which `setBinWidths` sets with a body the headers do not show. The proof that `pointsWithin` reports every point in range does not depend on which positive width is used, as long as `pointBucket` and the reach use the same width.
- The ProximitySearch constructor requires N >= 1 and a box that is not empty on any axis. The header's default N is 20, but it does not say what happens otherwise.
- The extents and N are constants fixed at construction, because `reinitBuckets` is left out.
- `DecoratedProximitySearch` inheritance is modelled as a class holding its base index and delegating to it.
- The `DecoratedProximitySearch` constructors that copy an external tag vector are left out, with the atom-set constructors.
- `MstUtils.min`, `max` and `sortIndices` are modelled at `real` values, and `keys` at maps from `int` keys to `real` values. The C++ templates are generic.
- The other `MstUtils` helpers (string conversion, file handling, `randInt`, `closeEnough`) are left out: they are I/O, randomness or floating-point tolerance.
- `getOrderedContacts` is modelled as returning the ordered set in its order; its body is not in the headers.
- `degree(resi, resj)` is modelled as a lookup through the map. A pair without an entry is excluded by its precondition: the header gives no value for it.
- `areInContact` reads the map in both orientations; its body is not in the headers.
- The contact list does not store whether each contact was directional, so the model keeps that history as ghost state only.
- `ConFind` scoring, pruning, caching and neighbour search are left out: the `contactDegree`, `cache`, `getContacts`, `getInterference`, `getFreedom` and `getCrowdedness` families. They depend on an external rotamer library and on probability arithmetic whose bodies are not in the headers.
- The `ConFind` constructors, `init` and `setParams` are left out for the same reason. The model's constructor takes the three freedom parameters directly and starts with empty freedom and update-flag maps; the other state `ConFind` holds is not modelled.
- The `Structure`/`Chain`/`Residue`/`Atom` hierarchy is left out beyond a residue's identity and index.
- Reading and writing PDB files, log files and the stream printers are left out: they are I/O.
- The geometry numerics of include/mstgeometry.h and the structure fuser of include/mstfuser.h are left out: they are floating-point approximation, and the fuser also uses randomness.

## Findings

| source | as written | input that shows it | evidently intended | confidence | as-written member | corrected member |
|---|---|---|---|---|---|---|
| include/msttypes.h:685-692 | the loop of `keys` writes `K[k]` but never increments `k`, so every key is written to `K[0]`; the result holds the greatest key first and the default value 0 in every other slot | the map {1: x, 2: y} gives [2, 0] where [1, 2] is expected | every key of the map once, in the map's (increasing) order, by advancing `k` after each write | not executed | `MstUtils.Keys` with `MstUtils.KeysMissesAKey` | `MstUtils.SortedKeys` |
