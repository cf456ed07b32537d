# moovoo core in Dafny

This project models two parts of moovoo, a Vulkan molecule viewer.

**Gilgamesh distance field** (`external/gilgamesh/distance_field.hpp`).
The `distance_field` constructor builds a field over an `xdim × ydim × zdim` grid in two stages:

1. It seeds the grid. Each point is rounded to its nearest grid cell. That cell keeps the point with the smallest distance, and on a tie the earlier point.
2. It runs a "dead reckoning" sweep. Pass 0 walks every cell upwards in z, y, x order, and pass 1 walks it downwards. At each cell the sweep tries the stencil entries `min_k` to 12. Each entry is a direction that precedes the cell in scan order, applied as a linear offset. On a grid where xdim = 0, ydim ≠ 1 or zdim ≤ 1 (`SweepSafe`), the index read lies in [0, index] in pass 0 and in [index, size-1] in pass 1. On the other grids cell (0,0,1) reads index -1 (`Stencil.FlatGridReadsBeforeStart`). `min_k` skips only a prefix of the table, so at x == 0 some entries wrap to the far end of an earlier row, and on some grids a cell reads its own index. The sweep adopts the owner at the index read when the cell is unowned or when the bound `distances_[new_index] + diag[k]` is smaller. It then stores the adopted owner's exact distance.

The model has these layers:

- **Values.**
  - `Grid`: dimensions and cells, the linear index and its inverse, and the mirrored index of pass 1.
  - `Stencil`: the 13-entry offset and length tables.
  - `FieldSpec`: the state of both vectors, written as functions. These are `Initial`, `Seeded`, `Relax`, `VisitCell`, `Loops`, `Pass`, `Swept` and `Build`.
- **Properties.** `FieldProperties` proves properties of these functions:
  - ownership after seeding is exactly "first nearest point";
  - every owned cell holds the exact distance of its owner;
  - owners only ever come from the seeds;
  - each pass visits each index once;
  - the field depends on the distance function only at the points and, where seeding leaves a cell unowned, at owner -1;
  - a single shared radius seeds the same field as one radius per point, and builds the same field when seeding owns every cell, when there is one point, or when the undefined read `radii[-1]` yields that radius;
  - two behaviours of the code as written, shown on concrete inputs:
    - `LoneSeedErased`: a seeded cell can lose its owner to an unowned neighbour, whose distance is still the initial 0.0;
    - `SweepCanRaiseDistance`: the sweep can replace a cell's distance with a larger one.
- **Imperative code.** The class `Gilgamesh.DistanceField` keeps `distances_` and `pindices_` as arrays. It runs the same loops as the C++, and each method is proved against the value functions.

**moovoo viewer state** (`moovoo/main.cpp` and `moovoo/moovoo.cpp`, which repeat the same code):

- `Molecule`: the bond pass. Each pair `(first, second)` is written into the first free of the five connection slots of both atoms.
- `Selection`: the range a button-1 press selects. This covers the shift-extend within one chain, the swap into order and the selected flags.
- `Viewer.Molvoo`: a class holding the scalar state that `mouseButtonHandler` and the pick FIFO update. The FIFO is masked with `fifoSize - 1`, its counters are 32-bit and wrap, and a consumed slot is reset to `~0`.

The model captures integer width in two places, both in the pick FIFO; the grid's `int` index arithmetic is taken as unbounded (see "Left out"). The `uint32_t` pick counters wrap (`Viewer.Inc`). The `uint` atom index of a pick is stored into the `int` field `mouseAtom`, so `~0` becomes -1 (`Viewer.AsInt`).

## Model

| member | source | states |
|---|---|---|
| Grid.Index | external/gilgamesh/distance_field.hpp:55 | `((z*ydim)+y)*xdim+x` of an in-grid cell is below `xdim*ydim*zdim` |
| Grid.IndexRoundTrip | external/gilgamesh/distance_field.hpp:55 | decoding the linear index of a cell gives back the cell |
| Grid.CellOf | external/gilgamesh/distance_field.hpp:41-43 | every index of the vectors decodes to an in-grid cell whose linear index is that index |
| Grid.MirrorIndex | external/gilgamesh/distance_field.hpp:100-109 | the cell pass 1 writes at loop point (x,y,z) is the mirrored cell, whose index is size-1 minus the index of (x,y,z) |
| Grid.LinearAdd | external/gilgamesh/distance_field.hpp:88 | adding a direction's linear offset moves the index by that direction |
| Stencil.BuildStencil | external/gilgamesh/distance_field.hpp:80-94 | max_k ends at 13, and entry k holds the linear offset and the length of the k-th unit direction preceding the centre in z, y, x order |
| Stencil.StencilRow | external/gilgamesh/distance_field.hpp:85-92 | the x loop appends exactly the entries of row (y, z) and keeps the earlier ones |
| Stencil.StencilTable | external/gilgamesh/distance_field.hpp:80-94 | the tables as values satisfy the table property |
| Stencil.TableUnique | external/gilgamesh/distance_field.hpp:80-94 | any table with that property is the stencil table |
| Stencil.DirectionIsStencil | external/gilgamesh/distance_field.hpp:86 | every entry is a unit direction the ascending scan has already visited, at its enumeration position |
| Stencil.StencilIsComplete | external/gilgamesh/distance_field.hpp:83-93 | every unit direction that precedes the centre is in the table |
| Stencil.EntryOf | external/gilgamesh/distance_field.hpp:87-88 | the entry of a preceding direction holds that direction's offset and length |
| Stencil.DirectionsAscend | external/gilgamesh/distance_field.hpp:83-85 | table order is ascending z, then y, then x |
| Stencil.TableLayout | external/gilgamesh/distance_field.hpp:108 | entries 0-8 step back a plane, 9-11 step back a row, and 12 steps back a column, which is what min_k's 9/3/1 skip |
| Stencil.DiagOrdered | external/gilgamesh/distance_field.hpp:87 | diag is 1 for axis steps and grows strictly with the squared length |
| Stencil.MinK | external/gilgamesh/distance_field.hpp:108 | min_k is at most 13, and it is 13 exactly at cell (0,0,0) |
| Stencil.NeighbourBehind | external/gilgamesh/distance_field.hpp:113-115 | on a SweepSafe grid every read of entries min_k..12 at its linear offset lands in [0, index], inside the vector (not always on a neighbour, see RowWrapRead and SelfRead) |
| Stencil.RowWrapRead | external/gilgamesh/distance_field.hpp:108-115 | at x == 0 entry 3, the direction (-1,0,-1), is still tried: cell (0,1,1) reads cell (xdim-1,0,0), not the cell (-1,1,0) the direction names, which lies outside the grid |
| Stencil.SelfRead | external/gilgamesh/distance_field.hpp:108-115 | on a grid one column wide and two rows deep, entry 8 has offset 0, so cell (0,0,1) reads its own, not yet written, index |
| Stencil.Offset | external/gilgamesh/distance_field.hpp:88 | the offset of an entry is never positive once a plane holds more than one row (a single row is enough for entries 9-12) |
| Stencil.Diag | external/gilgamesh/distance_field.hpp:87 | the length of an entry lies in [1, 2), and it is 1 exactly for axis steps |
| Stencil.FlatGridReadsBeforeStart | external/gilgamesh/distance_field.hpp:108-115 | on a grid with ydim = 1 and zdim ≥ 2, cell (0,0,1) reads index -1 at k = 9 |
| FieldSpec.Initial | external/gilgamesh/distance_field.hpp:41-43 | both vectors have `size` entries, every pindex is -1 and every distance is 0 |
| FieldSpec.ReadsAtCell | external/gilgamesh/distance_field.hpp:113-115 | the reads at a cell stay inside the vectors: behind the index in pass 0 and ahead of it in pass 1 |
| FieldSpec.VisitorVisits | external/gilgamesh/distance_field.hpp:105-124 | the x-loop body of a pass is the visit of the cell the loops stand at |
| FieldSpec.SeedStep | external/gilgamesh/distance_field.hpp:48-61 | one point of the seeding loop keeps both vectors at `size` entries; its effect on each cell is stated by FieldProperties.SeedStepAt |
| FieldSpec.Seeded | external/gilgamesh/distance_field.hpp:47-62 | the seeding loop over the first n points keeps both vectors at `size` entries; ownership is stated by FieldProperties.SeededCell |
| FieldSpec.ScanCell | external/gilgamesh/distance_field.hpp:100-105 | the index a pass writes at an in-grid cell lies inside the vectors |
| FieldSpec.VisitCell | external/gilgamesh/distance_field.hpp:105-124 | one x-loop body keeps both vectors at `size` entries; FieldProperties.VisitCellFrame and VisitCellWritten state what it writes |
| FieldSpec.Loops | external/gilgamesh/distance_field.hpp:103-105 | the z, y and x loops over any length-keeping body keep the vectors at `size` entries at every loop point |
| FieldSpec.Visitor | external/gilgamesh/distance_field.hpp:105-124 | the x-loop body of a pass applies at every grid cell and keeps the vectors' length |
| FieldSpec.PassBefore | external/gilgamesh/distance_field.hpp:99-127 | one pass stopped at any loop point keeps the vectors at `size` entries |
| FieldSpec.Pass | external/gilgamesh/distance_field.hpp:99-127 | a whole pass keeps the vectors at `size` entries |
| FieldSpec.Swept | external/gilgamesh/distance_field.hpp:77-136 | pass 0 then pass 1 with the grid's stencil keeps the vectors at `size` entries |
| FieldSpec.Build | external/gilgamesh/distance_field.hpp:34-66 | seeding then sweeping gives vectors of `size` entries; FieldProperties.BuildConsistent and BuildOwners state their contents |
| FieldSpec.RadiusAt | external/gilgamesh/distance_field.hpp:35-38 | `radii[pindex & rmask]` is the one radius when there is one, the point's own radius for a valid index otherwise, and the open value `stray` for the undefined read outside the array |
| FieldProperties.SeedStepAt | external/gilgamesh/distance_field.hpp:54-61 | one point writes its own cell when that cell is unowned or strictly farther, and leaves every other cell as it was |
| FieldProperties.SeededCell | external/gilgamesh/distance_field.hpp:47-62 | after seeding, a cell is unowned exactly when no point rounds into it; otherwise its owner is the first nearest point rounding into it, with that point's exact distance |
| FieldProperties.OutsideSeedOwnsNothing | external/gilgamesh/distance_field.hpp:54 | a point rounding outside the grid owns no cell |
| FieldProperties.SeededOwnerRange | external/gilgamesh/distance_field.hpp:58 | seeding writes only -1 or point indices |
| FieldProperties.SeededUsesSeedDistancesOnly | external/gilgamesh/distance_field.hpp:56 | seeding evaluates the distance only for the points it handles |
| FieldProperties.LoopsKeep | external/gilgamesh/distance_field.hpp:103-105 | a property every x-loop body keeps holds at every later point of the three loops |
| FieldProperties.LoopsUnvisited | external/gilgamesh/distance_field.hpp:103-123 | a cell the pass has not reached yet still holds its value from the start of the pass |
| FieldProperties.LoopsAgree | external/gilgamesh/distance_field.hpp:103-105 | two loop bodies that agree on states with an invariant give the same loops |
| FieldProperties.RowEnd | external/gilgamesh/distance_field.hpp:104-105 | the index after the last cell of a row is the first index of the next row |
| FieldProperties.PlaneEnd | external/gilgamesh/distance_field.hpp:103-104 | the index after the last row of a plane is the first index of the next plane |
| FieldProperties.RelaxKeepsConsistent | external/gilgamesh/distance_field.hpp:113-121 | the k loop ends with an owner of -1 or a distance that is the owner's exact distance at the cell |
| FieldSpec.Relax | external/gilgamesh/distance_field.hpp:113-121 | the k loop from entry k keeps the cell's owner or adopts one already present in pindices |
| FieldProperties.SeededConsistent | external/gilgamesh/distance_field.hpp:56-59 | after seeding, every owned cell holds its owner's exact distance |
| FieldProperties.VisitCellFrame | external/gilgamesh/distance_field.hpp:122-123 | a visit writes only the index it stands at |
| FieldProperties.VisitCellWritten | external/gilgamesh/distance_field.hpp:113-123 | the written owner was already present, and its distance is exact when the field was consistent |
| FieldProperties.VisitCellConsistent | external/gilgamesh/distance_field.hpp:105-124 | a visit keeps every owned distance exact |
| FieldProperties.VisitKeepsOwnersIn | external/gilgamesh/distance_field.hpp:118 | a visit introduces no owner outside a set that held every earlier owner |
| FieldProperties.PassBeforeConsistent | external/gilgamesh/distance_field.hpp:99-127 | at every point of either pass, owned distances are exact |
| FieldProperties.PassOwnersSince | external/gilgamesh/distance_field.hpp:99-127 | every owner at a later point of a pass was already an owner at any earlier point |
| FieldProperties.PassBeforeOwners | external/gilgamesh/distance_field.hpp:99-127 | every owner during a pass was an owner when the pass started |
| FieldProperties.PassBeforeUnvisited | external/gilgamesh/distance_field.hpp:99-127 | cells the pass has not reached keep their values |
| FieldProperties.ScanVisitsEachIndexOnce | external/gilgamesh/distance_field.hpp:100-105 | in each pass every index is written at exactly one loop point |
| FieldProperties.RelaxUsesPresentOwners | external/gilgamesh/distance_field.hpp:119 | the k loop evaluates the distance only for owners already present |
| FieldProperties.VisitUsesPresentOwners | external/gilgamesh/distance_field.hpp:105-124 | a visit depends on the distance function only at owners present before it |
| FieldProperties.PassUsesPresentOwners | external/gilgamesh/distance_field.hpp:99-127 | a whole pass depends on the distance function only at owners present when it starts |
| FieldProperties.BuildConsistent | external/gilgamesh/distance_field.hpp:34-66 | in the finished field every owned cell holds its owner's exact distance |
| FieldProperties.BuildOwners | external/gilgamesh/distance_field.hpp:34-66 | every owner in the finished field is -1 or a point that owned a cell after seeding, so it lies in [-1, points.size()) |
| FieldProperties.SharedRadiusBroadcast | external/gilgamesh/distance_field.hpp:35-39 | with one radius, `radii[pindex & 0]` gives every point that radius |
| FieldProperties.BuildUsesSeededOwners | external/gilgamesh/distance_field.hpp:34-66 | two distance functions that agree at every point and at every owner seeding leaves (-1 included where a cell stays unowned) build the same field |
| FieldProperties.BuildUsesSeedDistancesOnly | external/gilgamesh/distance_field.hpp:34-66 | two distance functions that agree at -1 and at every point build the same field |
| FieldProperties.FullySeededUsesSeedDistancesOnly | external/gilgamesh/distance_field.hpp:47-66 | when seeding owns every cell, agreement at the points alone is enough |
| FieldProperties.SharedRadiusAgrees | external/gilgamesh/distance_field.hpp:35-38 | a shared radius and the same radius per point give every point the same distance; at owner -1 they agree when there is one point, and otherwise exactly when the undefined read `radii[-1]` yields that radius |
| FieldProperties.SharedRadiusSameField | external/gilgamesh/distance_field.hpp:35-39 | one shared radius and the same radius repeated per point seed the same field, and build the same field when every cell is seeded, when there is one point, or when the undefined read `radii[-1]` yields that radius |
| FieldProperties.VisitFirstCell | external/gilgamesh/distance_field.hpp:108-113 | cell (0,0,0) tries no neighbour and is left unchanged |
| FieldProperties.UpwardSecondVisit | external/gilgamesh/distance_field.hpp:113-123 | the second upward visit adopts cell 0's owner exactly when cell 1 is unowned or farther than cell 0's distance + 1 |
| FieldProperties.SeededLone | external/gilgamesh/distance_field.hpp:47-62 | one point in cell (1,0,0) owns that cell alone |
| FieldProperties.SeededPair | external/gilgamesh/distance_field.hpp:47-62 | points in cells (0,0,0) and (1,0,0) own one cell each |
| FieldProperties.LoneSeedErased | external/gilgamesh/distance_field.hpp:113-121 | with one point in cell (1,0,0) farther than 1 from it, the finished field has no owned cell: the unowned cell 0, with distance 0.0, replaces the seed |
| FieldProperties.SweepCanRaiseDistance | external/gilgamesh/distance_field.hpp:115-119 | the sweep can replace a cell's distance with a larger one, because it compares the bound and stores the owner's exact distance |
| Gilgamesh.DistanceField.constructor | external/gilgamesh/distance_field.hpp:34-66 | the vectors are fresh, and they hold the seeded and then swept field |
| Gilgamesh.DistanceField.Seed | external/gilgamesh/distance_field.hpp:47-62 | from the initial vectors, the seeding loop leaves the seeded field |
| Gilgamesh.DistanceField.Distances | external/gilgamesh/distance_field.hpp:69 | returns the object's own distance vector, not a copy |
| Gilgamesh.DistanceField.PIndices | external/gilgamesh/distance_field.hpp:72 | returns the object's own pindex vector, not a copy |
| Gilgamesh.DistanceField.Sweep | external/gilgamesh/distance_field.hpp:77-136 | the vectors become pass 1 applied to pass 0 applied to the old vectors |
| Gilgamesh.DistanceField.SweepPass | external/gilgamesh/distance_field.hpp:100-126 | one pass of the z and y loops, starting at index 0 or size-1, leaves the pass's value |
| Gilgamesh.DistanceField.SweepRow | external/gilgamesh/distance_field.hpp:105-124 | the x loop advances index by mul per cell and applies the visit to every cell of the row |
| Gilgamesh.DistanceField.VisitAt | external/gilgamesh/distance_field.hpp:106-123 | the loop body leaves the visit of its cell |
| Gilgamesh.DistanceField.ChooseAt | external/gilgamesh/distance_field.hpp:106-121 | the value chosen for the cell is what the visit stores there |
| Gilgamesh.DistanceField.RelaxCell | external/gilgamesh/distance_field.hpp:113-121 | the k loop computes the relaxation from min_k on the current vectors |
| Gilgamesh.VisitStores | external/gilgamesh/distance_field.hpp:122-123 | storing the chosen distance and pindex at the index is the visit |
| Gilgamesh.ScanStep | external/gilgamesh/distance_field.hpp:100-105 | the index at loop point (x,y,z) is the pass's scan index, and it moves by mul per cell |
| Molecule.FirstFree | moovoo/moovoo.cpp:366-371 | the index of the first -1 slot, every slot before it being taken, or the slot count when none is free |
| Molecule.Link | moovoo/moovoo.cpp:366-371 | the slot scan keeps the slot count and never overwrites a taken slot; LinkFirstFree states where the partner goes |
| Molecule.LinkPair | moovoo/moovoo.cpp:363-377 | one pair changes only its two atoms and no selected flag |
| Molecule.Connected | moovoo/moovoo.cpp:363-378 | the bond pass changes no selected flag and keeps the atom count |
| Molecule.Partners | moovoo/moovoo.cpp:363-378 | every partner of atom a comes from a pair (a, v) or (v, a) |
| Molecule.LinkPairSlots | moovoo/moovoo.cpp:363-378 | one pair applied to atoms holding the earlier pairs' partners gives each atom its partners including this pair |
| Molecule.LinkFirstFree | moovoo/moovoo.cpp:366-377 | the slot scan writes the partner into the first free slot only, and drops the bond when every slot is taken |
| Molecule.PartnersAreAtoms | moovoo/main.cpp:461-476 | bond partners are atom indices, never the empty-slot value |
| Molecule.FilledLink | moovoo/main.cpp:464-469 | linking a new partner into slots filled from a partner list appends it to that list |
| Molecule.ConnectedSlots | moovoo/moovoo.cpp:363-378 | from fresh atoms, each atom ends with its first five partners in pair order and the rest of its slots free, and stays unselected |
| Molecule.SlotsHoldPartners | moovoo/main.cpp:461-476 | an atom with at most five partners holds all of them, and every taken slot holds a partner |
| Molecule.MoleculeModel.constructor | moovoo/moovoo.cpp:334 | fresh atoms with every slot -1, then the bond pass over the pairs |
| Molecule.MoleculeModel.Connect | moovoo/moovoo.cpp:363-378 | the loop over pairs leaves the bond pass's value |
| Molecule.MoleculeModel.FillSlot | moovoo/main.cpp:464-469 | the slot loop with break changes only atom a, which is linked to v |
| Selection.Target | moovoo/main.cpp:994-1013 | before the swap the range is empty, the old selection, or ends at the picked atom; a plain click or a click with nothing selected gives the picked atom alone |
| Selection.Ordered | moovoo/main.cpp:1020-1022 | the swap leaves start <= end, exchanges the ends or keeps them, and keeps an ordered range |
| Selection.SetFlags | moovoo/main.cpp:1015-1029 | the flag loop sets the flag of every atom in the range to v and leaves every other atom and every connection as it was |
| Selection.Pressed | moovoo/main.cpp:987-1024 | no pick selects nothing; a plain click or a click with no selection selects the picked atom; shift within the start atom's chain spans start to pick in order; shift on another chain keeps the selection; the result is always empty or a valid range |
| Selection.Reselect | moovoo/moovoo.cpp:831-845 | atoms in the new range are selected, atoms only in the old range are cleared, every other atom is untouched, and connections never change |
| Selection.ReselectShows | moovoo/moovoo.cpp:831-845 | flags that showed the old range show exactly the new one afterwards |
| Selection.FreshShowsEmpty | moovoo/moovoo.cpp:334 | fresh atoms show the empty selection the viewer starts with |
| Viewer.Molvoo.constructor | moovoo/moovoo.cpp:962-982 | nothing is selected, nothing is picked, no drag or rotation, and both counters are 0 |
| Viewer.Molvoo.MouseButtonHandler | moovoo/moovoo.cpp:799-875 | a button-1 press sets the range to Pressed, reselects the flags and copies mouseDistance when the range is non-empty; a button-1 release clears dragging; button 2 sets rotating to "pressed"; other buttons change nothing; the selection stays well formed |
| Viewer.Molvoo.SetSelected | moovoo/main.cpp:1015-1017 | the flag loop sets exactly the atoms of the range |
| Viewer.Inc | moovoo/moovoo.cpp:683 | `uint32_t` increment wraps from 2^32-1 to 0 |
| Viewer.Slot | moovoo/moovoo.cpp:672 | the masked counter is a slot of the four-entry FIFO |
| Viewer.SlotsCycle | moovoo/main.cpp:833-844 | consecutive counter values use consecutive FIFO slots, including across the 32-bit wrap |
| Viewer.AsInt | moovoo/moovoo.cpp:676 | storing a uint into an int keeps the 32 bits, read as two's complement |
| Viewer.AsIntPicks | moovoo/main.cpp:837-841 | a reset slot (`~0`) reads back as mouseAtom -1, and an atom index reads back as itself |
| Viewer.Molvoo.NextPickIndex | moovoo/moovoo.cpp:725 | returns the masked write counter and advances the counter with wrap-around |
| Viewer.Molvoo.TakePick | moovoo/moovoo.cpp:674-683 | the pick in the read slot becomes mouseAtom (-1 when reset) and distance/10000; the slot is reset to `~0`; the read counter advances; the selection state stays valid |

## Left out

- Gilgamesh.DistanceField.constructor: requires `SweepSafe`, meaning xdim = 0, ydim ≠ 1 or zdim ≤ 1. On the other grids the source reads `distances_[-1]` at cell (0,0,1). `Stencil.FlatGridReadsBeforeStart` exhibits this read, and the model does not give it a meaning.
- Gilgamesh.DistanceField.constructor: takes each point as the grid cell it rounds to. The float arithmetic of lines 48-53 (scaling, `floor(x + 0.5)`, the world position) is left out.
- The distance is not computed. It is a function parameter `dist(pindex, cell index)`, given as the caller's exact real value, in place of `glm::length(points[pindex] - pos) - radii[pindex & rmask]`.
  - `FieldSpec.SphereDistance` keeps only the radius selection.
  - Owner -1 is passed to `dist` as the source passes it. In the source that call reads `points[-1]`. The model leaves the value open. The radius read `radii[-1]` outside the array is open too: `RadiusAt` and `SphereDistance` take it as a parameter `stray`.
- Float rounding in `distances_[new_index] + diag[k]` and in the comparisons is not modelled. Distances are reals. `diag` holds the single-precision values the source stores for 1, √2 and √3, written out as exact reals.
- Gilgamesh.DistanceField.constructor: `xdim * ydim * zdim` and the index arithmetic are unbounded. The source uses `int`, and the model does not capture overflow on grids of 2^31 cells or more.
- Grid.Dims: the dimensions are `nat`. The source takes `int` dimensions, and a negative `xdim * ydim * zdim` makes the `std::vector` constructors throw `std::length_error`. That error path is not modelled.
- The `grid_spacing`, `min`, `max` and `minmax` positions of `sweep` are left out, because they only feed the distance call. The model passes the cell index in their place: the cell itself in pass 0 and the mirrored cell in pass 1.
- Viewer: GLFW, Vulkan and all rendering are left out. This includes event polling, buffer map/unmap, `glfwGetCursorPos` for the rotation, and the pick shader. A pick is a parameter of `TakePick`.
- Viewer.Molvoo.TakePick: models one iteration of the poll loop. The loop condition `getEventStatus` is GPU state and is not modelled.
- Viewer.Molvoo.TakePick: requires that the GPU wrote an atom index or left the slot reset. A pick shader writing anything else is outside the model.
- Viewer.Molvoo.TakePick: `mouseDistance` is the real quotient `distance / 10000`, not the float one.
- Viewer.Molvoo.TakePick: the source resets the slot to `~0` after `unmap`, through a pointer into memory that is no longer mapped. The model lets that write reach the FIFO, and it does not capture whether the write is actually seen.
- Viewer.Molvoo.constructor: starts `mouseAtom` at -1 and both distances at 0. The source leaves these members uninitialised, so the handler's first press reads an indeterminate `mouseAtom`.
- FieldProperties.SharedRadiusSameField: proves equal whole fields only when seeding owns every cell, when there is one point, or when the out-of-range read `radii[-1]` (the parameter `stray`) yields the shared radius. The source gives that read no value, so no case rests on a value chosen by the model. The two configurations differ only in `distance(-1, ·)`, where the per-point array is read out of range (FieldProperties.BuildUsesSeedDistancesOnly). Runs that leave cells unowned but never evaluate owner -1 also give equal fields, and the model does not characterise them.
- FieldSpec.SphereDistance: has no contract of its own. Its radius selection is stated by FieldSpec.RadiusAt and FieldProperties.SharedRadiusAgrees.
- Viewer.Molvoo.MouseButtonHandler: `chains` stands for `pdbAtoms()[i].chainID()`, so PDB decoding is not part of this model.
- Viewer.Slot: is written as `counter % 4`. For the power-of-two `fifoSize` this equals the source's mask `& (fifoSize - 1)`, and the bit operation itself is not modelled.
- Molecule: only the `selected` flag and the connection slots of `Atom` are kept. Position, radius, colour, mass and acceleration are GPU floats and are left out.
- Molecule: building `pairs` from the PDB (`addImplicitConnections`) is not part of this model, and neither is the `Connection` list built after the bond pass.
- moovoo/main.cpp and moovoo/moovoo.cpp repeat the same code for these operations. One model serves both, and the table cites either file.
- The Python front ends (`moovoo/main.py`, `examples/*.py`) only start the viewer, and they are not part of this model.
