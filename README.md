# Inter-satellite link churn, modelled in Dafny

The two figure-9 data preparation scripts measure how often the inter-satellite links
between satellites of one shell break from one minute to the next, and how
often a tracked route between a satellite and a far-away target changes. For
every minute they take the positions of the shell's satellites and build a 3-D
grid index whose cell size is the maximum line-of-sight distance. For each
satellite they then keep the grid candidates in the 27 surrounding cells that
are really in range, and search a hop-count shortest route to each of the
satellite's targets. Finally they compare the merged snapshot with the
previous minute's. The uniform script does this for shells 2 and 3 (targets
for shell 2 only, 10 per satellite) and adds shell 3's counts onto shell 2's.
The nonuniform script does it for one shell with 5 targets per satellite.

This project models that pipeline without the orbital physics:

- `Types` holds satellite ids, unordered links (`set<SatId>`, the scripts'
  `frozenset`), routes and integer positions.
- `Geometry` holds the squared line-of-sight bound, squared distances, and
  grid cells keyed by truncating division (`int(p / g)` rounds toward zero, so
  cell 0 on each axis is two cells wide).
- `SpatialGrid` is the grid index as a class. The constructor fills the
  cell dictionary in place, and the neighbour query runs the triple loop over
  the 27 offsets.
- `Visibility` is the brute-force all-pairs reference (`get_visible_pairs`,
  `process_satellite_pair`) and the set of links it denotes.
- `PathFinder` is the heap search. The heap pop is a nondeterministic choice
  among minimum-distance entries, so every tie-break is covered.
- `Churn` holds the per-minute differences: broken links and changed routes.
- `Pipeline` holds the per-satellite processing, target selection, the
  per-minute snapshots and the series over one or more shells.

One consequence of the code as written is proved rather than changed. The
route search of a satellite receives only that satellite's own links, so
every link it can step along touches the source. No route of three or more
satellites can then exist, so the search always returns nothing. Every
snapshot's route map is empty, and the route-change series is zero at every
minute (`PathFinder.StarHasNoRelayRoute`,
`Pipeline.ProcessSatelliteVisibilityAndPaths`,
`Pipeline.AnalyzeNetworkChanges`).

`Pipeline.AnalyzeNetworkChanges` covers both scripts: a sequence of shells
and the target count `k`. The nonuniform script is the one-shell case with
`k = 5`, the uniform one the two-shell case with `k = 10`.

## Model

| member | source | states |
|---|---|---|
| Geometry.MaxVisibilityDistanceSquared | Figures-and-Tables/figure9/data_prepare_nonuniform_constellation.py:43-49 | for an altitude above the Earth's centre, the squared line-of-sight distance 4((6371+h)^2 - 6451^2) is nonnegative (the square root exists) exactly when the altitude is at least 80 km |
| Geometry.MaxVisibilityIncreasing | Figures-and-Tables/figure9/data_prepare_nonuniform_constellation.py:43-49 | the squared line-of-sight distance is strictly increasing in altitude |
| Geometry.ShellDistances | Figures-and-Tables/figure9/data_prepare_uniform_constellation.py:27-29 | the 540 km shell's distance lies in [4958, 4959) km and the 570 km shell's in [5123, 5124) km |
| Geometry.DistSq | Figures-and-Tables/figure9/data_prepare_uniform_constellation.py:120-122 | the squared distance is never negative and is zero exactly for equal positions |
| Geometry.Within | Figures-and-Tables/figure9/data_prepare_uniform_constellation.py:144 | definition of the range test (squared distance at most the squared bound, for a nonnegative bound); its properties are in the WithinSymmetric, WithinSelf and WithinCoords rows |
| Geometry.WithinSymmetric | Figures-and-Tables/figure9/data_prepare_uniform_constellation.py:120-122 | the range test gives the same answer for either order of the two positions |
| Geometry.WithinSelf | Figures-and-Tables/figure9/data_prepare_uniform_constellation.py:120-122 | a position is always in range of itself |
| Geometry.WithinCoords | Figures-and-Tables/figure9/data_prepare_uniform_constellation.py:120-122 | two positions in range differ by at most the range on every coordinate |
| Geometry.TruncDiv | Figures-and-Tables/figure9/data_prepare_uniform_constellation.py:105 | the cell key rounds toward zero: for a nonnegative coordinate p, g * key <= p < g * key + g; for a negative one, g * key - g < p <= g * key <= 0 |
| Geometry.CellOf | Figures-and-Tables/figure9/data_prepare_uniform_constellation.py:111 | definition: the truncated key on each axis; its properties are in the TruncDiv, TruncDivClose and CoordsWithinAdjacent rows |
| Geometry.CellWidth | Figures-and-Tables/figure9/data_prepare_uniform_constellation.py:105 | a coordinate has truncated cell key 0 exactly when it lies strictly between -g and g, a positive key exactly when it is at least g, and a negative key exactly when it is at most -g |
| Geometry.TruncDivClose | Figures-and-Tables/figure9/data_prepare_uniform_constellation.py:111 | two coordinates at most g apart have truncated cell keys at most one apart, including across the double-width cell 0 |
| Geometry.CoordsWithinAdjacent | Figures-and-Tables/figure9/data_prepare_uniform_constellation.py:110-117 | positions within g on every coordinate fall in cells that are neighbours among the 27 |
| SpatialGrid.CellMembers | Figures-and-Tables/figure9/data_prepare_uniform_constellation.py:104-106 | the ids filed under a cell are exactly the ids whose position has that cell key |
| SpatialGrid.GridOf | Figures-and-Tables/figure9/data_prepare_uniform_constellation.py:103-106 | definition of the cell dictionary filled one id at a time; its properties are in the CellMembers and GridOfBuckets rows |
| SpatialGrid.GridOfBuckets | Figures-and-Tables/figure9/data_prepare_uniform_constellation.py:103-106 | the list the construction stores under each cell (empty for an absent key) is that cell's ids in dictionary order |
| SpatialGrid.SpatialIndex.constructor | Figures-and-Tables/figure9/data_prepare_uniform_constellation.py:99-106 | the built index keeps the positions and distance, its grid is the dictionary filled one id at a time, and every satellite is filed under its own cell and nowhere else |
| SpatialGrid.SpatialIndex.SweptCell | Figures-and-Tables/figure9/data_prepare_uniform_constellation.py:116-117 | merging one offset's list into the candidate set adds exactly the satellites of that neighbouring cell |
| SpatialGrid.SpatialIndex.GetPotentialNeighbors | Figures-and-Tables/figure9/data_prepare_uniform_constellation.py:108-118 | the result is exactly the satellites in the 27 cells around the queried one, minus itself; it never holds the queried id, and it holds every satellite within the cell size on each coordinate despite truncating keys (no false negatives) |
| Visibility.ProcessSatellitePair | Figures-and-Tables/figure9/data_prepare_uniform_constellation.py:141-146 | definition of the pair check (the link of the two ids when in range, otherwise none); its properties are in the ProcessSatellitePairSymmetric and BruteForce rows |
| Visibility.GetVisiblePairs | Figures-and-Tables/figure9/data_prepare_uniform_constellation.py:148-154 | definition of the brute force over all pairs i < j; its properties are in the BruteForceSound, BruteForceComplete and BruteForceSpec rows |
| Visibility.ProcessSatellitePairSymmetric | Figures-and-Tables/figure9/data_prepare_uniform_constellation.py:141-146 | the pair check returns the same link, or none, for either order of the pair |
| Visibility.SatPairsMembers | Figures-and-Tables/figure9/data_prepare_uniform_constellation.py:151 | the enumerated pairs are exactly (ids[i], ids[j]) with i < j |
| Visibility.BruteForceSound | Figures-and-Tables/figure9/data_prepare_uniform_constellation.py:148-154 | every link the brute force returns joins two different shell satellites in range |
| Visibility.BruteForceComplete | Figures-and-Tables/figure9/data_prepare_uniform_constellation.py:148-154 | every pair of different shell satellites in range is returned as a link |
| Visibility.BruteForceSpec | Figures-and-Tables/figure9/data_prepare_nonuniform_constellation.py:126-140 | the brute-force link set equals the set of links between different satellites in range |
| Visibility.BruteForceLinksArePairs | Figures-and-Tables/figure9/data_prepare_uniform_constellation.py:145 | each brute-force link has exactly two different ends, both shell satellites |
| Visibility.IncidentLinksMatchBruteForce | Figures-and-Tables/figure9/data_prepare_uniform_constellation.py:160-163 | the in-range links of one satellite are exactly the brute-force links containing it |
| Visibility.IncidentLinksCoverBruteForce | Figures-and-Tables/figure9/data_prepare_uniform_constellation.py:201-205 | every brute-force link has an end among the shell's satellites, so merging the per-satellite link sets loses none |
| PathFinder.MinDist | Figures-and-Tables/figure9/data_prepare_uniform_constellation.py:130 | the heap minimum is the distance of some entry and no entry is smaller |
| PathFinder.PopIsShortest | Figures-and-Tables/figure9/data_prepare_uniform_constellation.py:129-130 | a popped minimum entry for an unvisited satellite has a distance no larger than the hop count of any walk from the source to it |
| PathFinder.FrontierBound | Figures-and-Tables/figure9/data_prepare_uniform_constellation.py:133-138 | any walk from the source leaving the visited set has a heap entry no farther than the walk |
| PathFinder.TargetPopped | Figures-and-Tables/figure9/data_prepare_uniform_constellation.py:131-132 | when the target is popped, its path has at least 3 satellites exactly when the target is neither the source nor linked to it and is reachable, and no walk to the target is shorter |
| PathFinder.PushesMembers | Figures-and-Tables/figure9/data_prepare_uniform_constellation.py:136-138 | an entry is among those pushed exactly when it is an unvisited neighbour linked to the popped satellite, one hop farther, with the path extended by it |
| PathFinder.PushNeighbors | Figures-and-Tables/figure9/data_prepare_uniform_constellation.py:136-138 | the heap becomes the old heap followed by one entry per unvisited linked neighbour, in neighbour-list order: each one hop farther with the path extended by it, old entries stay, nothing else is added, and every entry is a repetition-free walk |
| PathFinder.TargetStep | Figures-and-Tables/figure9/data_prepare_uniform_constellation.py:130-132 | a popped target yields a repetition-free, hop-minimal walk from source to target of at least 3 satellites, or none exactly in the excluded cases |
| PathFinder.SkipStep | Figures-and-Tables/figure9/data_prepare_uniform_constellation.py:133-134 | dropping an entry of an already visited satellite keeps the search invariant |
| PathFinder.VisitStep | Figures-and-Tables/figure9/data_prepare_uniform_constellation.py:135-138 | visiting the popped satellite and pushing its neighbours keeps the search invariant |
| PathFinder.Exhausted | Figures-and-Tables/figure9/data_prepare_uniform_constellation.py:139 | an empty heap with the target never popped means the target is unreachable |
| PathFinder.CalculateShortestPath | Figures-and-Tables/figure9/data_prepare_uniform_constellation.py:124-139 | a returned path starts at the source, ends at the target, repeats no satellite, steps only along links, has at least 3 satellites and is hop-minimal; nothing is returned exactly when source equals target, they are directly linked, or the target is unreachable |
| PathFinder.StarWalkEndsNextToSource | Figures-and-Tables/figure9/data_prepare_uniform_constellation.py:160-166 | when every link contains the source, every walk from the source to another satellite ends at a direct neighbour |
| PathFinder.StarHasNoRelayRoute | Figures-and-Tables/figure9/data_prepare_uniform_constellation.py:160-166 | when every link contains the source, each target is the source, directly linked, or unreachable, so the search returns nothing |
| Pipeline.FilterInRange | Figures-and-Tables/figure9/data_prepare_uniform_constellation.py:160-163 | the kept links are exactly {source, o} for the candidates o in range of the source |
| Pipeline.FilteredCandidatesAreIncident | Figures-and-Tables/figure9/data_prepare_uniform_constellation.py:159-163 | filtering a false-negative-free candidate set gives every in-range link of the source |
| Pipeline.TrackRoutes | Figures-and-Tables/figure9/data_prepare_uniform_constellation.py:164-168 | with only source-incident links the route map stays empty, whatever the targets |
| Pipeline.ProcessSatelliteVisibilityAndPaths | Figures-and-Tables/figure9/data_prepare_uniform_constellation.py:156-169 | returns the source id, exactly the brute-force links that contain the source, and an empty route map |
| Pipeline.Sample | Figures-and-Tables/figure9/data_prepare_uniform_constellation.py:193 | the sample has min(k, pool size) different members, all from the pool |
| Pipeline.GridInvisibleMatches | Figures-and-Tables/figure9/data_prepare_uniform_constellation.py:190-192 | the invisible set computed from the grid candidates (the shell minus the in-range candidates minus the satellite) is exactly the other shell satellites out of range |
| Pipeline.ChooseTargets | Figures-and-Tables/figure9/data_prepare_uniform_constellation.py:189-193 | a satellite's targets are different satellites drawn from `Invisible` (the reference definition: every other shell satellite out of range), min(k, its size) of them |
| Pipeline.SelectTargets | Figures-and-Tables/figure9/data_prepare_uniform_constellation.py:187-193 | builds the grid once and gives every shell satellite a duplicate-free list of min(k, its `Invisible` size) targets from its `Invisible` set (every other shell satellite out of range) |
| Pipeline.SelectTargetsWith | Figures-and-Tables/figure9/data_prepare_uniform_constellation.py:184-193 | every shell satellite gets a target list, each duplicate-free, within its `Invisible` set (every other shell satellite out of range) and of length min(k, its size) |
| Pipeline.TouchingAll | Figures-and-Tables/figure9/data_prepare_uniform_constellation.py:201-205 | the brute-force links touching some shell satellite are all of them |
| Pipeline.MapAndMerge | Figures-and-Tables/figure9/data_prepare_uniform_constellation.py:212-219 | merging every satellite's links gives exactly the brute-force link set, and the merged route map is empty |
| Pipeline.TakeSnapshot | Figures-and-Tables/figure9/data_prepare_uniform_constellation.py:195-205 | one minute's snapshot equals the brute-force link set, which is every in-range pair, with no routes |
| Pipeline.SnapshotAt | Figures-and-Tables/figure9/data_prepare_uniform_constellation.py:209-219 | minute t's snapshot is that minute's visible link set, with no routes |
| Pipeline.BreakSeriesAt | Figures-and-Tables/figure9/data_prepare_uniform_constellation.py:221 | entry j of a shell's break series counts the links of minute j missing at minute j + 1 |
| Pipeline.TotalBreaksStep | Figures-and-Tables/figure9/data_prepare_uniform_constellation.py:228 | one more shell adds its break count to every minute's total |
| Pipeline.DiffMinute | Figures-and-Tables/figure9/data_prepare_nonuniform_constellation.py:195-211 | one minute's step returns the new snapshot, the one-directional break count against the previous one, and a route change count of 0 |
| Pipeline.RecordFirstShell | Figures-and-Tables/figure9/data_prepare_nonuniform_constellation.py:184-218 | the first shell's pass yields timestamps exactly [1 .. duration - 1], its break series, and an all-zero route change series of the same length |
| Pipeline.AddShell | Figures-and-Tables/figure9/data_prepare_uniform_constellation.py:227-229 | a later shell adds its break count at index minute - 1 of the existing series, the length stays duration - 1, and route changes stay unchanged |
| Pipeline.AnalyzeNetworkChanges | Figures-and-Tables/figure9/data_prepare_uniform_constellation.py:171-232 | timestamps are [1 .. duration - 1]; entry j of the break series is the sum over shells of links lost between minutes j and j + 1; every route change entry is 0 |
| Churn.BrokenIsls | Figures-and-Tables/figure9/data_prepare_uniform_constellation.py:221 | the break count is at most the previous link count, and zero exactly when every previous link survives |
| Churn.BrokenIgnoresGained | Figures-and-Tables/figure9/data_prepare_uniform_constellation.py:221 | links gained since the previous minute do not change the count |
| Churn.BrokenIsPrevMinusKept | Figures-and-Tables/figure9/data_prepare_uniform_constellation.py:221 | the count is the previous link count minus the links kept |
| Churn.BrokenBalance | Figures-and-Tables/figure9/data_prepare_uniform_constellation.py:221 | links lost and links gained account for the change in link count |
| Churn.BrokenCountsLostLink | Figures-and-Tables/figure9/data_prepare_uniform_constellation.py:221 | adding to the previous snapshot a link that is absent from the current one raises the count by exactly one |
| Churn.BrokenIgnoresGainedLink | Figures-and-Tables/figure9/data_prepare_uniform_constellation.py:221 | adding to the current snapshot a link absent from the previous one leaves the count unchanged |
| Churn.BrokenIsOneDirectional | Figures-and-Tables/figure9/data_prepare_uniform_constellation.py:221 | a witness that the count is not symmetric: losing the link {0, 1} counts one, gaining it counts nothing |
| Churn.PathChanges | Figures-and-Tables/figure9/data_prepare_nonuniform_constellation.py:208-211 | the change count is bounded by both maps' key counts and is zero exactly when every route tracked in both snapshots is unchanged |
| Churn.PathChangesSymmetric | Figures-and-Tables/figure9/data_prepare_uniform_constellation.py:222 | swapping the two snapshots gives the same count |
| Churn.PathChangesIgnoresNewRoute | Figures-and-Tables/figure9/data_prepare_uniform_constellation.py:222 | a route tracked only in the current snapshot is not a change |
| Churn.PathChangesIgnoresDroppedRoute | Figures-and-Tables/figure9/data_prepare_uniform_constellation.py:222 | a route tracked only in the previous snapshot is not a change |
| Churn.PathChangesCountsReroute | Figures-and-Tables/figure9/data_prepare_uniform_constellation.py:222 | a route present in both snapshots counts one exactly when its satellites differ |
| Churn.PathChangesNoRoutes | Figures-and-Tables/figure9/data_prepare_uniform_constellation.py:222 | with no routes on one side the count is zero |

## Left out

- Orbital propagation with skyfield, the geodetic to Cartesian conversion and TLE/CSV/npy loading are physics and file input. Positions are given as integer triples per minute.
- Geometry.MaxVisibilityDistanceSquared: below 80 km the scripts' `math.sqrt` raises `ValueError` on the negative radicand, while the model returns that negative number; its contract says exactly when that happens, and visibility takes the bound as a positive parameter.
- Floating-point distances and `sqrt` are left out. Visibility compares squared integer distances with the square of a positive integer bound, which is also the grid cell size. The irrational line-of-sight distance is modelled only in squared form (`Geometry.MaxVisibilityDistanceSquared`). Float rounding inside `int(p / g)` is not modelled; the truncation itself is.
- `mp.Pool.map` is taken as an order-preserving sequential map; the parallelism is not modelled.
- `random.sample` is a nondeterministic choice (`:|`) constrained only by size, distinctness and membership. Its distribution is not modelled.
- Heap tie-breaking is left out: Python orders equal distances by id and then path, while the model lets the pop pick any minimum entry. Every property is proved for every choice.
- The unused `positions` and `max_distance` parameters of the route search are dropped.
- `defaultdict` inserting an empty list on a lookup of an absent cell has no effect on membership and is not modelled.
- Satellite ids are naturals rather than strings.
- The uniform script builds a second grid for the initial snapshot after target selection, while the nonuniform one reuses the first. The model builds the grid per snapshot; both give the same result.
- The `np.mean`/`max`/`min` statistics, plotting, `np.save`, progress bars and `print` output are output only and are not modelled.
- The fixed shell numbers and the `main()` configuration become parameters: the shells with their per-minute positions, and the target count.
