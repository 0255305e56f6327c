# Verified models of the vendored data structures

Dafny models of five self-contained headers under `include/`, with proofs that each does what it promises.
`dafny verify dfyconfig.toml` checks everything.

* **Incremental grid connectivity** (`include/stb/stb_connected_components.h`): modules from `Paths` to `Converse`.
  A grid of squares is cut into square clusters. Every cluster labels its components ("clumps") with a union-find of its
  own, keeps lists of the clumps across its borders in a fixed pool of slots, and a second union-find over those lists
  labels clumps globally. Changing a square takes the neighbours' entries away, rebuilds one cluster, and puts entries
  back. The specification is a walk over orthogonally adjacent open squares (`GridMap.Reachable`); `GridInit.RunAndQuery`
  is the theorem about whole runs.
* **Open-addressing hash map** (`include/stb/stb_ds.h`): `HashProbe`, `HashTable`, `HashIndexes`, `HashSearch`, `HashMaps`.
  A table of hashes and indices over a dense array of entries. `HashMaps.Run` says that any run refines a map from keys
  to values and that making and refilling tables initialises and scans at most 24 m + 48 slots in m calls.
  `StringArenas` is the arena for copies of strings in the same header.
* **Red-black tree with parent pointers** (`include/angelscript/as_map.h`): the `Tree...` modules and `OrderedMaps`.
  All links are rewritten in place. `TreeShape.Linked` and `TreeInsert.InOrder` tie the links to one in-order sequence of
  nodes, `TreeColours.RedBlack` adds the colours; `TreePaths.DocumentedIsRedBlack` shows that it means the three properties
  the header documents. Five of the rotations of `BalanceInsert` and `BalanceErase`, left and
  right, rest on one lemma, `TreeColours.LiftColoured`.
* **Symbol table** (`include/angelscript/as_symboltable.h`): `SymbolLists`, `SymbolTables`.
  A packed array and, for each key, the list of positions that hold it. The table is shown to refine its history: the
  surviving symbols in the order they were put.
* **Division and modulus** (`include/stb/stb_divide.h`): `Divide`.
  Three pairs built from a native 32-bit division of which only the documented assumptions are known.

## How the models are built

Code that works in place is modelled in place: `Grid`, `HashIndex`, `HashMap`, `Node`, `OrderedMap` and `SymbolTable` are
classes whose fields the methods rewrite; loops are loops. Ghost snapshots (`Grid.Clusters()`, `OrderedMap.Links()`, ...)
turn a heap state into a value, each method says which value it leaves, and the lemmas are about values. A method too
large for one proof is cut at the source's own comments into smaller methods (`OrderedMap.BalanceErase` into
`RoundLeft`, `FinishLeft`, `InnerLeft`, `OuterLeft` and their mirror images, for example).

Sizes are parameters. In every valid grid the side of a cluster is a multiple of 4 up to 64 and there are at most 1024 clusters
along an axis; the map takes up any part of the memory that is made of whole clusters. Outside these sizes the code goes wrong,
as the findings below say. `FieldWidths.StoredFieldsFit` proves that within them every stored number fits its byte or bit field,
and tables of marks are modelled with the row widths of the source.

Findings about the code:

* `include/stb/stb_connected_components.h:930` runs `x` up to the cluster's *y* size. `LabelSpec.PassCoversBorderIffSquare`
  shows that the border passes visit exactly the border squares if and only if both sizes agree, so clusters are square here.
  `LabelSpec.LabelLoneSquare` runs the passes on a wider cluster with one open square: it keeps the null id exactly if it is a
  border square the passes miss, and `LabelSpec.NoneMissedIffNotWider` says that there is one in every cluster wider than high.
  In a cluster higher than wide, and in no other, the last pass leaves the cluster (`LabelSpec.VisitsOutsideIffHigher`).
* `stbcc_init_grid` writes the records of the map's clusters only, while the global passes
  (`include/stb/stb_connected_components.h:358-403`) read every record there is memory for. So lists that an earlier, larger map has
  left over count as well. `Reinit.ReinitFails` runs the example: two clusters, then the first of them alone, and the query about
  two rows that nothing joins says 1. When initialising is right:
  * `Leftovers.InBoundsForAllIffApart`: left-over lists are in bounds for every map of a size if and only if they name no clump of
    it (`Apart`). Then `GridInit.InitGrid` and `GridInit.RunAndQuery` are right, updates included. Zeroed memory is such a case
    (`GridInit.ZeroedRecords`).
  * With lists that are in bounds for the map at hand, `GridInit.InitGrid` is right if no chain of them joins two clumps of the map
    (`Reachability.Separate`), and `Converse.CheckerboardDecides` shows that this is needed: on the checkerboard the answers are
    right if and only if it holds.
  * `Reinit.ShrinkSafeIff`: after any valid state a smaller map finds only such records if and only if no two neighbouring open
    squares of the old map lie on both sides of the cut.
* Clusters of 128 x 128 squares pass the compile-time checks at `include/stb/stb_connected_components.h:200` and `:220`, but have
  8192 clump numbers for the 12 bits at `:232`. `LabelBits.PackedApartIffFieldsFit` says exactly when labels fit, and
  `Converse.WideClusterFails` runs the initialisation with one such cluster, its border closed, and finds two squares that no walk
  joins with the same 32 bits, which is what `:286` compares. The byte at `:248` is too short as well: `Rebuild.StartsNeedSide64`.
* Clusters of 2 x 2 squares, the default for a grid of 8 x 8, have tables of marks whose rows are 4 / 8 = 0 bytes wide (`:414`,
  `:713`, `:777`). `Connections.MarkRowsFitIff`: the rows are wide enough if and only if the side is a multiple of 4.
* The comment at `include/angelscript/as_map.h:461-464` says that a red brother always leads to case 2b. The code, which the
  model follows, goes on with case 2b, 3 or 4. `TreeExamples.RedBrotherCase`: case 2b follows if and only if the red brother's
  child on the short side has no red child. `TreeExamples.RedBrotherNotCase2b` is a red-black tree of six nodes in which erasing
  the smallest does not lead there.
* `include/stb/stb_divide.h:46` says that the Euclidean quotient is rounded to sign(b) times infinity. `Divide.EuclNotToSign`: 1 / 2
  is 0, not 1. `Divide.EuclToSignIffExact`: the documented rounding holds if and only if b divides a. `Divide.EuclRounding`: what
  the code does is round down for a positive divisor and up for a negative one.
* In `BalanceErase` the test `brother == 0` (`include/angelscript/as_map.h:498` and `:546`) never succeeds: `TreeErase.Brother` proves
  that a short subtree always has a brother, and the model has no such branch.

## Model

| member | source | states |
|---|---|---|
| GridInit.RunAndQuery | include/stb/stb_connected_components.h:272-289 | After initialising with any map that fits the memory and any allowed sequence of updates and batches that ends outside a batch, the query answers 1 exactly when the squares are the ends of a walk over open squares of the resulting map, written out step by step, and 0 otherwise; left-over records may list each other but no clump of the map |
| GridInit.OpenInMeaning | include/stb/stb_connected_components.h:606-615 | A square of the map is open at the start if and only if its tile is 0; every other value is solid |
| GridInit.LastUpdate | include/stb/stb_connected_components.h:528-567 | After any calls a square is open if and only if its last update says so, or, if none names it, it was open before |
| GridInit.LastBatchCall | include/stb/stb_connected_components.h:569-580 | A batch is open after some calls exactly if the last call that begins or ends one begins it |
| GridInit.AllowedMeaning | include/stb/stb_connected_components.h:569-580 | A sequence of calls is allowed exactly if updates name squares of the map, batches begin outside and end inside a batch |
| GridInit.Run | include/stb/stb_connected_components.h:528-580 | Any allowed sequence of updates, batch begins and batch ends keeps the whole invariant and leaves the map those updates describe |
| GridInit.InitGrid | include/stb/stb_connected_components.h:587-630 | For every map of whole clusters that fits, whatever its records held before: clumps, lists and labels are exact, and a square is open if and only if its tile is 0. Left-over lists have to be in bounds; if they join no two clumps of the map all answers are right, and if they name none all invariants hold |
| GridInit.ZeroedRecords | include/stb/stb_connected_components.h:587-630 | Zeroed memory meets what initialising asks for, for every map size |
| Leftovers.InBoundsForAllIffApart | include/stb/stb_connected_components.h:370-391 | The lists of records beyond a map are in bounds for every map of its size exactly if they name no clump of it |
| Leftovers.EdgeClumpIff | include/stb/stb_connected_components.h:904-955 | A clump number is in use at the border exactly if more components than that touch the border |
| Scattered.RightIffSeparate | include/stb/stb_connected_components.h:354-405 | Where no two open squares are neighbours, exact labels answer rightly exactly if no chain of left-over lists joins two clumps of the map |
| Converse.CheckerboardDecides | include/stb/stb_connected_components.h:587-630 | Initialising with the checkerboard, over whatever in-bounds lists the memory holds, answers rightly exactly if no chain of them joins two clumps of the map |
| Scattered.InBoundsOnCheckerboard | include/stb/stb_connected_components.h:370-391 | Left-over lists in bounds for some map of a size are in bounds for its checkerboard |
| Reinit.ReinitFails | include/stb/stb_connected_components.h:587-630 | Zeroed memory, a map of two clusters, then the first cluster alone: the query answers 1 about two squares no walk joins |
| Reinit.ShrinkSafeIff | include/stb/stb_connected_components.h:587-630 | After a valid state, the records a smaller map leaves over name no clump of it exactly if no two neighbouring open squares lay on both sides of the cut |
| GridMap.UpdateGrid | include/stb/stb_connected_components.h:528-567 | One square changes, no other; clumps and lists are exact again, and outside a batch so are the global labels |
| GridMap.UpdateBatchBegin | include/stb/stb_connected_components.h:569-573 | A batch suspends only the exactness of global labels |
| GridMap.UpdateBatchEnd | include/stb/stb_connected_components.h:575-580 | Ending a batch makes the global labels exact for the map as it then is |
| GridMap.QueryGridNodeConnection | include/stb/stb_connected_components.h:272-289 | Compares the labels' 32 bits; in every valid state that answers reachability, closed squares included |
| GridMap.ReachableMeaning | include/stb/stb_connected_components.h:282-288 | With exact labels, wide enough fields and no harm from left-over lists, equal bits mean that a walk joins the squares |
| GridMap.ReachableByWalk | include/stb/stb_connected_components.h:115-116 | Reachability is a walk whose squares are open and whose every step changes one coordinate by one |
| FieldWidths.StoredFieldsFit | include/stb/stb_connected_components.h:222-254 | In every valid state counters and places in the pool are below 256, clump counts below 0x8000, clump ids below 0x10000, label parts below 4096 and 1024, and list entries fit 12, 2 and 2 bits |
| Converse.WideClusterFails | include/stb/stb_connected_components.h:587-630 | With a side of 94 or more, initialising one cluster with a closed border leaves two squares that no walk joins and whose labels have the same 32 bits |
| Scattered.CrowdedCluster | include/stb/stb_connected_components.h:997-1003 | Any cluster with more than 4096 interior clumps has two squares that no walk joins and whose labels have the same 32 bits |
| GridMap.GetUniqueId | include/stb/stb_connected_components.h:296-304 | 12 bits of index and 10 and 10 bits of cluster position of the label stored for the square's clump; 0xffffffff exactly for closed squares |
| LabelBits.PackedIsNotNull | include/stb/stb_connected_components.h:134-135 | No label of a clump has the bits of the null id |
| LabelBits.PackedApartIffFieldsFit | include/stb/stb_connected_components.h:229-237 | Different labels have different bits if and only if a cluster has at most 4096 clump numbers and an axis at most 1024 clusters |
| GridMap.UniqueIdsAreComponents | include/stb/stb_connected_components.h:133-136 | Unique ids of open squares are equal exactly when a walk joins the squares |
| GridMap.QueryGridOpen | include/stb/stb_connected_components.h:291-294 | Open or closed as the current map has it |
| Reachability.LabelsAreComponents | include/stb/stb_connected_components.h:243-260 | Exact clumps, complete lists and exact global labels together mean: equal labels if and only if connected on the whole map |
| Reachability.SameLabelConnected | include/stb/stb_connected_components.h:321-405 | Soundness half: clumps with one label are joined through listed border pairs, hence by open squares |
| Reachability.NeighboursTouch | include/stb/stb_connected_components.h:192-193 | Neighbouring squares of the map are neighbours in a cluster or face each other across a border |
| Reachability.EntryMeaning | include/stb/stb_connected_components.h:632-667 | Each adjacency entry stands for a pair of open squares facing each other, and names an edge clump |
| ClusterLabels.ComputeLabels | include/stb/stb_connected_components.h:863-982 | In-cluster labelling is exact: same id if and only if connected inside the cluster, closed squares get the null id, edge clumps come first, ids are 0 .. n - 1 |
| ClusterStore.BuildClumpsForCluster | include/stb/stb_connected_components.h:984-1006 | Only this cluster's ids and record change; interior clumps are labelled by themselves and the record awaits new lists |
| ClusterLabels.SwitchRoot | include/stb/stb_connected_components.h:855-861 | Making a border square the leader keeps the partition and the forest |
| ClusterBuild.InclusterFind | include/stb/stb_connected_components.h:833-842 | Returns the leader, compresses the path, keeps every class; terminates because the links form a forest |
| ClusterBuild.InclusterUnion | include/stb/stb_connected_components.h:844-853 | Merges exactly the two classes |
| ClusterBuild.JoinOpenSquares | include/stb/stb_connected_components.h:872-891 | After the joining passes the classes are exactly the components of the cluster's open squares |
| ClusterPartition.AllJoinedIsExact | include/stb/stb_connected_components.h:880-891 | The downward and the rightward checks together see every edge |
| Forests.Compress | include/stb/stb_connected_components.h:839-841 | Path compression keeps a forest with the same classes |
| Forests.Link | include/stb/stb_connected_components.h:852-852 | Linking two roots keeps a forest and merges their classes |
| Forests.Reroot | include/stb/stb_connected_components.h:855-861 | Reversing the link between a root and a member keeps a forest and renames the class |
| LabelSpec.PassCoversBorderIffSquare | include/stb/stb_connected_components.h:904-951 | The border passes visit exactly the border squares if and only if the cluster is square |
| LabelSpec.PassVisitsAll | include/stb/stb_connected_components.h:904-951 | On a square cluster those squares are the ones the modelled passes have seen when they end |
| LabelSpec.LabelLoneSquare | include/stb/stb_connected_components.h:893-967 | On a cluster at least as wide as high, a lone open square keeps the null id exactly if it is a border square the passes miss |
| LabelSpec.NoneMissedIffNotWider | include/stb/stb_connected_components.h:930-951 | No border square is missed if and only if the cluster is not wider than high |
| LabelSpec.VisitsOutsideIffHigher | include/stb/stb_connected_components.h:930-951 | The last pass visits squares outside the cluster if and only if it is higher than wide |
| LabelSpec.LeadersBound | include/stb/stb_connected_components.h:186-204 | The number of clumps and of edge clumps stay within their limits in every pass |
| LabelSpec.FillDone | include/stb/stb_connected_components.h:969-982 | Once every square has its leader's label the labels are exact |
| Counting.ComponentsBound | include/stb/stb_connected_components.h:186-190 | A cluster has at most half as many components as squares, so no label is the null id |
| Counting.BorderComponentsBound | include/stb/stb_connected_components.h:202-204 | At most 2 s - 2 components of a cluster of side s touch its border |
| Scattered.CheckerTouchesIff | include/stb/stb_connected_components.h:202-204 | The checkerboard reaches that bound: its edge clumps are numbered 0 .. 2 s - 3 |
| Connections.MarkRowsFitIff | include/stb/stb_connected_components.h:414-414 | The rows of the table of marks have a bit for every edge clump exactly if the side is a multiple of 4 |
| Adjacency.PairCountBound | include/stb/stb_connected_components.h:202-220 | A side of a cluster has at most half as many distinct clump pairs across it as squares |
| Adjacency.AddEntryLists | include/stb/stb_connected_components.h:656-666 | Appending a missing pair adds exactly that pair to the lists |
| Adjacency.RemoveEntryLists | include/stb/stb_connected_components.h:699-708 | Overwriting an entry with the last one removes exactly that entry |
| Connections.AddClumpConnection | include/stb/stb_connected_components.h:632-667 | The entry goes behind the last one of its clump and the count grows by one, or, if the slice is full, only the rebuild flag is raised; nothing else changes |
| Connections.RemoveClumpConnection | include/stb/stb_connected_components.h:669-709 | The entry is found, the last one of its clump is written over it and the count falls by one; nothing else changes |
| Connections.AddConnectionsToAdjacentCluster | include/stb/stb_connected_components.h:711-773 | Scanning a side either lists exactly one entry per pair of facing clumps, or flags the cluster for a rebuild |
| Connections.RemoveConnectionsToAdjacentCluster | include/stb/stb_connected_components.h:775-831 | Scanning a side removes exactly the entries towards that neighbour; each is found |
| Rebuild.ExitsBound | include/stb/stb_connected_components.h:421-478 | All exits of a cluster, and those of any one clump, are at most twice its side |
| Rebuild.CountAll | include/stb/stb_connected_components.h:421-476 | The counting passes give each clump's number of distinct exits and their total |
| Rebuild.SlotsFit | include/stb/stb_connected_components.h:480-509 | The slack per clump is at least one and the slices handed out fit the pool |
| Rebuild.Apportion | include/stb/stb_connected_components.h:489-508 | Each edge clump gets its exits plus 4, 2, 1 or 0 spare slots, the most for which all fit twice the bound on exits, cut to 2 s; slices stand one behind the other from 0, empty and inside the pool, with room for all exits; up to a side of 64 where they start and how long they are fit a byte |
| Rebuild.StartsNeedSide64 | include/stb/stb_connected_components.h:489-508 | For every larger side there are counts with which the last slice starts at 256 or later |
| Rebuild.CountersFitBytes | include/stb/stb_connected_components.h:415-463 | The counters of exits fit their bytes |
| Rebuild.NoOverflow | include/stb/stb_connected_components.h:511-516 | After apportioning, filling the lists cannot overflow |
| Rebuild.BuildAllConnectionsForCluster | include/stb/stb_connected_components.h:407-517 | One cluster's lists hold exactly one entry per neighbouring clump it touches; the flag is down |
| GridUpdate.RemoveFrom | include/stb/stb_connected_components.h:543-546 | A neighbour's lists lose exactly what concerned the changed cluster |
| GridUpdate.AddToWithRebuild | include/stb/stb_connected_components.h:519-526 | A neighbour's lists are complete again, by adding or by a full rebuild after overflow |
| GridUpdate.AwaitingDone | include/stb/stb_connected_components.h:553-559 | When all four neighbours have their entries back all lists of the map are complete |
| ClumpForest.ClumpFind | include/stb/stb_connected_components.h:321-332 | Terminates on the forest of labels, compared by their bits, returns the root, compresses, keeps every class |
| ClumpForest.ClumpUnion | include/stb/stb_connected_components.h:341-352 | Merges exactly the two classes of clumps |
| GlobalPasses.LinkedIsExact | include/stb/stb_connected_components.h:372-391 | After the linking pass the classes are the components of the graph the lists describe |
| GlobalPasses.FlatLabels | include/stb/stb_connected_components.h:393-404 | After the last pass every edge clump's stored label is its root |
| GlobalPasses.BuildConnectedComponentsForClumps | include/stb/stb_connected_components.h:354-405 | Whatever the labels were, two edge clumps end with equal labels exactly when linked through adjacency entries; nothing but labels changes |
| HashMaps.Run | include/stb/stb_ds.h:1301-1500 | Any sequence of m puts and deletes refines the abstract map; making and refilling tables initialises and scans at most 24 m + 48 slots |
| HashMaps.LastOnKey | include/stb/stb_ds.h:1301-1500 | What a run leaves under a key: the value of its last operation on it if that is a put, nothing if it is a delete, and what was there before if there is none |
| HashMaps.ToMapMeaning | include/stb/stb_ds.h:1196-1243 | The abstract map has a key exactly if an entry of the dense array has it, with that entry's value |
| HashMaps.HashMap.Put | include/stb/stb_ds.h:1301-1421 | The abstract map gains or overwrites the key; a known key keeps its place in the dense array, a new one goes to the end; the first table has 8 slots, a table with no more than a quarter of its slots left doubles, any other stays; at most 12 units are saved up per call |
| HashMaps.HashMap.Delete | include/stb/stb_ds.h:1434-1500 | The abstract map loses the key; the dense array is one shorter, its last entry stands where the deleted one was and every other entry keeps its place; the table halves below a quarter; a missing key changes nothing |
| HashMaps.HashMap.GetIndex | include/stb/stb_ds.h:1245-1274 | Returns the one position that holds the key, -1 exactly if no entry has it |
| HashMaps.HashMap.FindSlot | include/stb/stb_ds.h:1196-1243 | Finds a slot exactly for keys in the table, and its index names the entry with that key |
| HashMaps.HashMap.RemoveAt | include/stb/stb_ds.h:1450-1483 | The last entry fills the hole, every other entry keeps its place; the moved entry's slot is found and renamed, every other back-pointer stays right |
| HashMaps.HashMap.Grow | include/stb/stb_ds.h:1321-1333 | Afterwards there is a table below its growth threshold with the same contents: one of 8 slots where there was none, twice the slots from three quarters on, else the same |
| HashMaps.HashMap.Settle | include/stb/stb_ds.h:1485-1493 | Below a quarter a table of more than 8 slots is halved, else one with more tombstones than 3/16 of its slots is rebuilt, else nothing changes; that restores all thresholds and is paid for by savings |
| HashMaps.SavedForDoubling | include/stb/stb_ds.h:1321-1333 | The savings before a doubling cover it and the savings needed after it |
| HashMaps.SavedForHalving | include/stb/stb_ds.h:1485-1488 | The same for halving |
| HashMaps.SavedForRebuild | include/stb/stb_ds.h:1489-1492 | The same for a rebuild of equal size, paid by the tombstones it clears |
| HashMaps.SwapDeleteFromMap | include/stb/stb_ds.h:1468-1483 | On the dense array, swap-delete is deletion from the abstract map |
| HashMaps.AppendToMap | include/stb/stb_ds.h:1399-1410 | Appending an entry with a new key is insertion into the abstract map |
| HashSearch.Search | include/stb/stb_ds.h:1210-1241 | The probe loop ends, at a match or at an empty slot before which the key does not occur; the tombstone remembered is the first on the path, if there is one |
| HashSearch.TombstoneMeaning | include/stb/stb_ds.h:1352-1384 | No slot before the tombstone remembered is deleted, and none on the path if there is none |
| HashSearch.VacantMeansAbsent | include/stb/stb_ds.h:1210-1241 | An empty slot on a key's probe path proves that no entry has the key |
| HashTable.SearchEnds | include/stb/stb_ds.h:898-899 | While some slot is empty, no search passes more than slot_count slots |
| HashTable.StoreIndex | include/stb/stb_ds.h:1392-1410 | Filling an empty or deleted slot on its probe path keeps every probe path unbroken |
| HashTable.DropIndex | include/stb/stb_ds.h:1456-1464 | A tombstone keeps every other probe path unbroken |
| HashTable.RenameIndex | include/stb/stb_ds.h:1478-1482 | Renaming an index changes no probe path |
| HashIndexes.Rehash | include/stb/stb_ds.h:917-972 | The new table, of any size with room, holds exactly the same pairs of hash and index, has no tombstone and unbroken probe paths |
| HashIndexes.HoldsMeansOwns | include/stb/stb_ds.h:917-972 | A pair of hash and index stands in one slot only |
| HashIndexes.ThresholdsLeaveRoom | include/stb/stb_ds.h:898-899 | The thresholds leave at least one slot empty |
| StringArenas.Arena.Alloc | include/stb/stb_ds.h:1519-1565 | The string is copied and followed by a terminator, in characters no other copy uses; all copies handed out before are still what they were |
| StringArenas.Arena.MakeRoom | include/stb/stb_ds.h:1523-1560 | A string longer than the next block's size gets a block of its own, behind the first one if there is one; any other makes a new first block of that size. The block counter advances below 1 MB; no block is lost and nothing handed out moves |
| StringArenas.BlockSizes | include/stb/stb_ds.h:1523-1533 | Block sizes start at 512 and double with every second block |
| StringArenas.Arena.Reset | include/stb/stb_ds.h:1567-1577 | Every block is freed once and the arena is as new |
| StringArenas.Grows | include/stb/stb_ds.h:1527-1533 | The counter of block sizes stops at 22, when blocks have their greatest size |
| HashProbe.TriDistinct | include/stb/stb_ds.h:1237-1240 | Triangular numbers below a power of two are different modulo it |
| HashProbe.ProbeDistinct | include/stb/stb_ds.h:828-836 | No slot is looked at twice within slot_count looks |
| HashProbe.ProbeReachesAll | include/stb/stb_ds.h:828-836 | Every slot is looked at within slot_count looks |
| HashProbe.ProbeClosedForm | include/stb/stb_ds.h:1237-1240 | Round r starts 4 r (r + 1) slots behind the hash, modulo the number of slots, and takes the eight slots of that bucket in turn, wrapping inside it |
| OrderedMaps.Run | include/angelscript/as_map.h:175-190 | Any sequence of insertions, erasures of the k-th entry and clearings keeps a valid red-black tree whose entries in order are those the operations mean |
| OrderedMaps.LastAdds | include/angelscript/as_map.h:175-233 | One more insertion loses no entry, equal keys or not: the new one stands behind all with a key that is not greater and before all with a greater one |
| OrderedMaps.LastErases | include/angelscript/as_map.h:371-448 | One more erasure takes exactly the k-th entry, or nothing past the end; clearing leaves none |
| OrderedMaps.AddedValues | include/angelscript/as_map.h:192-233 | For every key, its values in order are those inserted under it, oldest first: an insertion adds its value at the end for its key and changes no other key's |
| OrderedMaps.OrderedMap.InsertPair | include/angelscript/as_map.h:175-190 | The entries are the old ones with the new one behind every key that is not greater and before every greater one |
| OrderedMaps.OrderedMap.ValidMeaning | include/angelscript/as_map.h:96-101 | In every valid tree the root is black, no red node has a red child, children know their parents, and no left child has a greater key nor a right child a smaller one |
| OrderedMaps.ApplyAllSorted | include/angelscript/as_map.h:192-232 | The meaning of the operations keeps entries sorted |
| OrderedMaps.OrderedMap.Insert | include/angelscript/as_map.h:192-233 | The in-order sequence is the old one with the new node behind every node whose key is not greater; all red-black properties hold |
| OrderedMaps.OrderedMap.BalanceInsert | include/angelscript/as_map.h:235-318 | From a tree whose one fault is a red node below a red node (or a red root) to a red-black tree, with the in-order sequence unchanged |
| OrderedMaps.OrderedMap.Remove | include/angelscript/as_map.h:381-448 | The in-order sequence is the old one without exactly the given node, although its successor is spliced in only after rebalancing; null is answered with null |
| OrderedMaps.OrderedMap.Erase | include/angelscript/as_map.h:371-379 | The given node leaves the in-order sequence and no other; null changes nothing |
| OrderedMaps.OrderedMap.BalanceErase | include/angelscript/as_map.h:452-584 | From a tree that is one black node short below one place to a red-black tree, with the in-order sequence unchanged |
| OrderedMaps.OrderedMap.RotateLeft | include/angelscript/as_map.h:627-666 | The links afterwards are those of the rotated tree; -1 and no change without a right child |
| OrderedMaps.OrderedMap.RotateRight | include/angelscript/as_map.h:586-625 | The mirror image |
| OrderedMaps.OrderedMap.MoveTo | include/angelscript/as_map.h:350-369 | Succeeds exactly when the key is present, within 2 log2(count + 1) node visits, and finds the topmost node with it: all others are in its subtree |
| OrderedMaps.OrderedMap.MoveFirst | include/angelscript/as_map.h:695-705 | The first node in order, if any |
| OrderedMaps.OrderedMap.MoveLast | include/angelscript/as_map.h:707-717 | The last node in order, if any |
| OrderedMaps.OrderedMap.MoveNext | include/angelscript/as_map.h:719-748 | From the j-th node to the (j+1)-th, if any |
| OrderedMaps.OrderedMap.MovePrev | include/angelscript/as_map.h:750-780 | From the j-th node to the (j-1)-th, if any |
| OrderedMaps.Walk | include/angelscript/as_map.h:695-780 | MoveFirst and repeated MoveNext visit every node once in non-decreasing key order; MovePrev leads back from each node reached to the one before |
| OrderedMaps.OrderedMap.CheckIntegrity | include/angelscript/as_map.h:320-347 | On any linked tree, whatever its colours: -1 exactly when two paths down differ in black nodes (or a red root was asked about), else that number; on every reachable tree it is the black height and never -1 |
| TreePaths.DocumentedIsRedBlack | include/angelscript/as_map.h:96-101 | Black heights can be assigned to a tree exactly when it has the three documented properties: black root, equal black counts on all paths, no red node with a red parent |
| TreePaths.HeightsArePaths | include/angelscript/as_map.h:96-101 | In a red-black tree every path down from a node has as many black nodes as its black height |
| TreePaths.CheckNode | include/angelscript/as_map.h:334-346 | What two children's results say about all paths through a node |
| OrderedMaps.OrderedMap.EraseAll | include/angelscript/as_map.h:146-167 | The tree is empty and the count is 0 |
| OrderedMaps.OrderedMap.EraseBelow | include/angelscript/as_map.h:153-167 | Exactly the nodes of the subtree are freed, each once, and the count drops by their number |
| TreeShape.RotateLinked | include/angelscript/as_map.h:586-666 | A rotation leaves one well-linked binary tree |
| TreeShape.RotatedRec | include/angelscript/as_map.h:586-666 | What a rotation does to each single node; no node changes its place in the order |
| TreeColours.LiftColoured | include/angelscript/as_map.h:489-529 | When painting two nodes and rotating one over the other leaves all heights and colours right |
| TreeInsert.LeafLinked | include/angelscript/as_map.h:195-226 | Hanging a leaf adds it to the order at the leaf's index and nowhere else |
| TreeInsert.LeafColoured | include/angelscript/as_map.h:195-226 | A red leaf upsets no black height |
| TreeInsert.InsertRecolour | include/angelscript/as_map.h:244-258 | Red uncle: heights stay right and the only possible fault is now the grandparent |
| TreeInsert.InsertInner | include/angelscript/as_map.h:265-270 | Inner grandchild: the rotation puts the fault in line |
| TreeInsert.InsertOuter | include/angelscript/as_map.h:272-276 | Outer grandchild: repainting and rotating gives a red-black tree |
| TreeErase.SplicedLinked | include/angelscript/as_map.h:399-416 | Splicing out a node with at most one child removes exactly it from the order |
| TreeErase.SplicedShort | include/angelscript/as_map.h:399-420 | A spliced-out black node leaves its place one short, a red one leaves a red-black tree |
| TreeErase.Brother | include/angelscript/as_map.h:482-498 | A short subtree has a brother one black node higher, and the side test by pointer is right even for an empty child |
| TreeErase.EraseRedBrother | include/angelscript/as_map.h:488-495 | Case 1: the shortage stays, the parent is red, the new brother black |
| TreeExamples.RedBrotherCase | include/angelscript/as_map.h:488-512 | After case 1, case 2b follows if and only if the red brother's child on the short side has no red child |
| TreeExamples.RedBrotherNotCase2b | include/angelscript/as_map.h:461-464 | A red-black tree in which a red brother is met and case 2b does not follow |
| TreeErase.EraseBlackNephews | include/angelscript/as_map.h:497-512 | Cases 2a and 2b: the shortage moves to the parent, or ends there |
| TreeErase.EraseInner | include/angelscript/as_map.h:515-522 | Case 3: turns into case 4 |
| TreeErase.EraseOuter | include/angelscript/as_map.h:524-529 | Case 4: nothing is short any more |
| TreeErase.EraseBlacken | include/angelscript/as_map.h:582-583 | Painting a red child, or the root, black ends the search |
| TreeReplace.ReplacedLinked | include/angelscript/as_map.h:422-443 | The detached node takes the other's place in the order |
| TreeReplace.ReplacedColoured | include/angelscript/as_map.h:422-443 | Copying links and colour keeps the red-black properties |
| TreeOrder.HeightBound | include/angelscript/as_map.h:350-369 | A subtree of black height h has at least 2^h - 1 nodes |
| TreeOrder.ReachBound | include/angelscript/as_map.h:350-369 | No downward path is longer than 2 log2(n + 1) |
| SymbolTables.RunAndLookUp | include/angelscript/as_symboltable.h:209-246 | After any operations a lookup gives each position whose entry has the key, once, and no other; the first one is the list's head |
| SymbolTables.LastOperation | include/angelscript/as_symboltable.h:345-422 | A put goes to the end of the packed array; an erasure takes one entry away and moves no other but the last, into the hole; out of range it changes nothing |
| SymbolTables.SymbolTable.Erase | include/angelscript/as_symboltable.h:345-398 | The array stays packed: the last entry fills the hole and every other keeps its place. The history forgets exactly the erased symbol, the ages of the others keep their order, and every list stays right whether or not the moved entry has the erased one's key; out of range changes nothing |
| SymbolTables.SymbolTable.Put | include/angelscript/as_symboltable.h:402-422 | The entry gets the next position and becomes the youngest in the history |
| SymbolTables.SymbolTable.Clear | include/angelscript/as_symboltable.h:322-328 | No entry and no list is left |
| SymbolTables.SymbolTable.GetIndexes | include/angelscript/as_symboltable.h:209-220 | A duplicate-free list of exactly the positions with the key, in the order in which their entries came |
| SymbolTables.SymbolTable.GetFirstIndexBy | include/angelscript/as_symboltable.h:184-205 | A position with the key that passes the filter and before whose entry none came that does both; -1 exactly if there is none |
| SymbolTables.SymbolTable.GetFirstIndex | include/angelscript/as_symboltable.h:236-246 | A position with the key before whose entry none with the key came; -1 exactly if there is none |
| SymbolTables.SymbolTable.GetIndex | include/angelscript/as_symboltable.h:253-260 | The first position of the entry, -1 exactly if it is not there |
| SymbolTables.SymbolTable.GetSize | include/angelscript/as_symboltable.h:437-441 | The separate counter equals the length of the packed array |
| SymbolTables.OfKeyMoved | include/angelscript/as_symboltable.h:360-393 | An erasure acts on each key's list as on the list of all positions |
| SymbolTables.HistoryMoved | include/angelscript/as_symboltable.h:374-383 | The move of the last entry does not disturb the order in which symbols came |
| SymbolTables.OlderInList | include/angelscript/as_symboltable.h:236-246 | Older entries of a key stand further to the front of its list |
| SymbolLists.MovedSteps | include/angelscript/as_symboltable.h:366-391 | Removing a position and renaming the last one, in two steps, is the intended change of a list |
| SymbolLists.MovedElements | include/angelscript/as_symboltable.h:366-391 | Which positions a list has after an erasure |
| SymbolLists.MovedAt | include/angelscript/as_symboltable.h:366-391 | The same place by place: the erased position's place closes up and the old last position is renamed where it stands |
| Divide.TruncPair | include/stb/stb_divide.h:146-240 | For all 32-bit operands but a zero divisor and INT_MIN / -1: q b + r = a over the integers, the remainder smaller than the divisor and of a's sign; q is the quotient of the magnitudes with the sign restored |
| Divide.FloorPair | include/stb/stb_divide.h:163-261 | The same with the remainder of b's sign; q is the floor of the exact quotient |
| Divide.EuclPair | include/stb/stb_divide.h:187-271 | The same with a remainder that is never negative: mathematical Euclidean quotient and remainder |
| Divide.EuclToSignIffExact | include/stb/stb_divide.h:46-46 | The documented rounding to sign(b) times infinity holds if and only if b divides a |
| Divide.EuclNotToSign | include/stb/stb_divide.h:46-46 | 1 / 2 gives 0, which is not that rounding |
| Divide.EuclRounding | include/stb/stb_divide.h:187-219 | The quotient is the floor for a positive divisor and the ceiling for a negative one |
| Divide.OneResult | include/stb/stb_divide.h:44-51 | Each of the three specifications has only one quotient and remainder |
| Divide.SameEverywhere | include/stb/stb_divide.h:39-46 | All six functions give the same results on every machine that meets the assumptions |
| Divide.MachinesSound | include/stb/stb_divide.h:70-77 | A machine that truncates and one that floors both meet the assumptions |

## Left out

- Square clusters: the model has one cluster side (see the finding above). Grids of the sizes that the findings above show to fail have no valid state.
- Bit packing in the grid: open bits and bytes are booleans and integers, so the width of a map need not be a multiple of 8. That numbers fit where they are stored is proved of the integers (`FieldWidths.StoredFieldsFit`, `Rebuild.Apportion`, `Rebuild.CountersFitBytes`); labels are compared by their 32 bits.
- GridInit.InitGrid: memory whose left-over lists are out of bounds once the map is there is excluded; the global passes would follow an entry to a record that is no edge clump.
- Asserting builds: `assert` and `STBDS_ASSERT` are preconditions or proved facts, not run-time checks.
- Hash functions of `stb_ds.h`: any function of key and seed; the generator of seeds and the string modes, which decide whether a map copies its keys into an arena, are not modelled.
- StringArenas.Arena.Alloc: a string is a sequence of characters, its terminator is added; pointers are pairs of a block and an offset.
- HashMaps.HashMap.GetIndex: the default entry at index -1 and the macros around it are not modelled.
- Buckets are flattened: slot s stands for entry s % 8 of bucket s / 8; the order in which a search visits slots is the source's.
- Memory: allocation failure, alignment, capacity growth and deletion of nodes; `OrderedMaps.OrderedMap.EraseBelow` only names the nodes freed.
- OrderedMaps.OrderedMap.Insert: takes a node with no links, as `Init` leaves it; a removed node keeps its old links and must not be inserted again, which the source leaves to its callers.
- Order of keys: `<` is assumed to order the keys in one line with `==` as its equality, which the search needs; keys do not change while in the tree.
- SymbolTables.SymbolTable.Put: the multi-map inside the symbol table is a finite map here, since every key is inserted once; `as_map.h` is modelled by itself. Symbols have one fixed key and are never null.
- `SwapWith`, `Allocate`, the iterators, `GetFirst`, `Get`, `GetLast` and the dummy values for null cursors add only easy members.
- Divide: the branches selected by `C_INTEGER_DIVISION_TRUNCATES` or `C_INTEGER_DIVISION_FLOORS` are the native division itself; a zero divisor and INT_MIN / -1 are undefined in C and excluded.
- The plug-in server, sockets, SQL, logging, scripting-engine declarations, lexer, vector code and leak checker of the repository are not modelled: input and output, or no algorithm of their own.
