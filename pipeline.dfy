/** The per-minute churn pipeline: each satellite's own links and tracked
    routes, their merge into one snapshot, the choice of route targets, and
    the break and route-change series over one or more shells. */
module Pipeline {
  import opened Types
  import opened Geometry
  import opened SpatialGrid
  import opened Visibility
  import opened PathFinder
  import opened Churn

  /** The links from `source` to the members of `others` in range of it. */
  ghost function LinksAmong(source: SatId, others: set<SatId>, positions: map<SatId, Pos>, maxDist: int): set<Link>
    requires source in positions && forall o :: o in others ==> o in positions
  {
    set o | o in others && Within(positions[source], positions[o], maxDist) :: {source, o}
  }

  lemma LinksAmongAdd(source: SatId, others: set<SatId>, o: SatId, positions: map<SatId, Pos>, maxDist: int)
    requires source in positions && o in positions && forall x :: x in others ==> x in positions
    ensures LinksAmong(source, others + {o}, positions, maxDist) ==
            LinksAmong(source, others, positions, maxDist) +
            (if Within(positions[source], positions[o], maxDist) then {{source, o}} else {})
  {
  }

  /** The exact-distance filter of `process_satellite_visibility_and_paths`:
      a link to each candidate in range. */
  method FilterInRange(source: SatId, candidates: set<SatId>, positions: map<SatId, Pos>, maxDist: int)
    returns (links: set<Link>)
    requires source in positions && forall o :: o in candidates ==> o in positions
    ensures links == LinksAmong(source, candidates, positions, maxDist)
  {
    links := {};
    var rest, done := candidates, {};
    while rest != {}
      invariant done == candidates - rest && rest <= candidates
      invariant links == LinksAmong(source, done, positions, maxDist)
      decreases |rest|
    {
      var o :| o in rest;
      LinksAmongAdd(source, done, o, positions, maxDist);
      if Within(positions[source], positions[o], maxDist) {
        links := links + {{source, o}};
      }
      rest, done := rest - {o}, done + {o};
    }
  }

  /** Filtering the grid candidates by exact distance loses no link: every
      satellite in range is among the candidates. */
  lemma FilteredCandidatesAreIncident(source: SatId, positions: map<SatId, Pos>, maxDist: int, candidates: set<SatId>)
    requires source in positions && maxDist > 0
    requires forall o :: o in candidates ==> o in positions && o != source
    requires forall o :: o in positions && o != source && CoordsWithin(positions[o], positions[source], maxDist) ==> o in candidates
    ensures LinksAmong(source, candidates, positions, maxDist) == IncidentLinks(source, positions, maxDist)
  {
    forall o | o in positions && o != source && Within(positions[source], positions[o], maxDist)
      ensures o in candidates
    {
      WithinSymmetric(positions[source], positions[o], maxDist);
      WithinCoords(positions[o], positions[source], maxDist);
    }
  }

  /** `process_satellite_visibility_and_paths`: the source's links, found
      through the grid and checked against the exact distance, and a route to
      each of its targets. The route search only sees the source's own links,
      so no route with a relay exists and no route is ever kept. */
  method ProcessSatelliteVisibilityAndPaths(source: SatId, allSats: seq<SatId>, positions: map<SatId, Pos>,
                                            maxDist: int, targets: map<SatId, seq<SatId>>, index: SpatialIndex)
    returns (sid: SatId, links: set<Link>, paths: map<Link, Path>)
    requires index.Valid() && index.positions == positions && index.maxDist == maxDist
    requires source in positions
    ensures sid == source
    ensures links == IncidentLinks(source, positions, maxDist)
    ensures Distinct(allSats) && Covers(allSats, positions) ==>
              links == Touching(GetVisiblePairs(allSats, positions, maxDist), {source})
    ensures paths == map[]
  {
    var candidates := index.GetPotentialNeighbors(source);
    links := FilterInRange(source, candidates, positions, maxDist);
    FilteredCandidatesAreIncident(source, positions, maxDist, candidates);
    if Distinct(allSats) && Covers(allSats, positions) {
      IncidentLinksMatchBruteForce(allSats, positions, maxDist, source);
      assert Touching(GetVisiblePairs(allSats, positions, maxDist), {source}) ==
             set l | l in GetVisiblePairs(allSats, positions, maxDist) && source in l;
    }
    sid := source;
    forall l | l in links ensures source in l { }
    paths := TrackRoutes(source, if source in targets then targets[source] else [], links, allSats);
  }

  /** The route loop of `process_satellite_visibility_and_paths`: a route to
      each target is kept when the search finds one. Given only links that
      touch the source, the search never does. */
  method TrackRoutes(source: SatId, ts: seq<SatId>, links: set<Link>, allSats: seq<SatId>)
    returns (paths: map<Link, Path>)
    requires forall l :: l in links ==> source in l
    ensures paths == map[]
  {
    paths := map[];
    for i := 0 to |ts|
      invariant paths == map[]
    {
      var target := ts[i];
      var path := CalculateShortestPath(source, target, links, allSats);
      StarHasNoRelayRoute(source, target, links, allSats);
      match path {
        case Some(p) => paths := paths[{source, target} := p];
        case None =>
      }
    }
  }

  /** `random.sample(list(pool), k)`: `k` different members of `pool`, or all
      of them when there are fewer. Which ones is left open. */
  method Sample(pool: set<SatId>, k: nat) returns (s: seq<SatId>)
    ensures |s| == Min(k, |pool|)
    ensures Distinct(s) && Elems(s) <= pool
  {
    s := [];
    var rest := pool;
    while |s| < Min(k, |pool|)
      invariant Distinct(s) && Elems(s) <= pool
      invariant rest == pool - Elems(s)
      invariant |s| <= Min(k, |pool|)
      invariant |rest| == |pool| - |s|
      decreases Min(k, |pool|) - |s|
    {
      var x :| x in rest;
      s := s + [x];
      rest := rest - {x};
    }
    DistinctCard(s);
  }

  /** The satellites of `ids` other than `s` that are out of range of `s`. */
  function Invisible(ids: seq<SatId>, positions: map<SatId, Pos>, maxDist: int, s: SatId): set<SatId>
    requires s in positions && forall o :: o in ids ==> o in positions
  {
    set o | o in ids && o != s && !Within(positions[s], positions[o], maxDist)
  }

  /** The invisible set as the scripts compute it from the grid candidates
      (the shell, minus the candidates in range, minus the satellite itself)
      is every other shell satellite out of range. */
  lemma GridInvisibleMatches(ids: seq<SatId>, positions: map<SatId, Pos>, maxDist: int, s: SatId)
    requires maxDist > 0 && Covers(ids, positions) && s in positions
    ensures var candidates := set o | o in positions && o != s &&
                                      CellsAdjacent(CellOf(positions[o], maxDist), CellOf(positions[s], maxDist));
            Elems(ids) - (set o | o in candidates && Within(positions[s], positions[o], maxDist)) - {s} ==
            Invisible(ids, positions, maxDist, s)
  {
    var candidates := set o | o in positions && o != s &&
                              CellsAdjacent(CellOf(positions[o], maxDist), CellOf(positions[s], maxDist));
    var visible := set o | o in candidates && Within(positions[s], positions[o], maxDist);
    forall o | o in ids && o != s && Within(positions[s], positions[o], maxDist)
      ensures o in visible
    {
      WithinSymmetric(positions[s], positions[o], maxDist);
      WithinCoords(positions[o], positions[s], maxDist);
      CoordsWithinAdjacent(positions[o], positions[s], maxDist);
    }
  }

  /** One satellite's targets: a sample of the shell's satellites that are
      neither the satellite itself nor among its in-range grid candidates. */
  method ChooseTargets(s: SatId, ids: seq<SatId>, positions: map<SatId, Pos>, maxDist: int, k: nat, index: SpatialIndex)
    returns (chosen: seq<SatId>)
    requires index.Valid() && index.positions == positions && index.maxDist == maxDist
    requires Covers(ids, positions) && s in positions
    ensures Distinct(chosen) && Elems(chosen) <= Invisible(ids, positions, maxDist, s)
    ensures |chosen| == Min(k, |Invisible(ids, positions, maxDist, s)|)
  {
    var potential := index.GetPotentialNeighbors(s);
    var visible := set o | o in potential && Within(positions[s], positions[o], maxDist);
    var invisible := Elems(ids) - visible - {s};
    GridInvisibleMatches(ids, positions, maxDist, s);
    chosen := Sample(invisible, k);
  }

  /** A satellite's target list as the selection promises it: different
      satellites, none of them the source or in range of it, as many as
      allowed. */
  predicate TargetsOk(chosen: seq<SatId>, ids: seq<SatId>, positions: map<SatId, Pos>, maxDist: int, s: SatId, k: nat)
    requires s in positions && forall o :: o in ids ==> o in positions
  {
    Distinct(chosen) && Elems(chosen) <= Invisible(ids, positions, maxDist, s) &&
    |chosen| == Min(k, |Invisible(ids, positions, maxDist, s)|)
  }

  /** Target selection over a built grid: up to `k` different satellites
      per source, none of them the source itself or in range of it. */
  method SelectTargetsWith(ids: seq<SatId>, positions: map<SatId, Pos>, maxDist: int, k: nat, index: SpatialIndex)
    returns (targets: map<SatId, seq<SatId>>)
    requires index.Valid() && index.positions == positions && index.maxDist == maxDist
    requires Covers(ids, positions)
    ensures targets.Keys == Elems(ids)
    ensures forall s :: s in targets ==> Distinct(targets[s])
    ensures forall s :: s in targets ==> Elems(targets[s]) <= Invisible(ids, positions, maxDist, s)
    ensures forall s :: s in targets ==> |targets[s]| == Min(k, |Invisible(ids, positions, maxDist, s)|)
  {
    targets := map[];
    for i := 0 to |ids|
      invariant targets.Keys == Elems(ids[..i])
      invariant forall s :: s in targets ==> TargetsOk(targets[s], ids, positions, maxDist, s, k)
    {
      var s := ids[i];
      var chosen := ChooseTargets(s, ids, positions, maxDist, k, index);
      assert TargetsOk(chosen, ids, positions, maxDist, s, k);
      targets := targets[s := chosen];
      assert ids[..i + 1] == ids[..i] + [s];
    }
    assert ids[..|ids|] == ids;
  }

  /** Target selection at the first minute: the grid built over those
      positions, then a sample of invisible satellites per source. */
  method SelectTargets(ids: seq<SatId>, positions: map<SatId, Pos>, maxDist: int, k: nat)
    returns (targets: map<SatId, seq<SatId>>)
    requires maxDist > 0 && Covers(ids, positions)
    ensures targets.Keys == Elems(ids)
    ensures forall s :: s in targets ==> Distinct(targets[s])
    ensures forall s :: s in targets ==> Elems(targets[s]) <= Invisible(ids, positions, maxDist, s)
    ensures forall s :: s in targets ==> |targets[s]| == Min(k, |Invisible(ids, positions, maxDist, s)|)
  {
    var index := new SpatialIndex(ids, positions, maxDist);
    targets := SelectTargetsWith(ids, positions, maxDist, k, index);
  }

  /** The links of `all` that have an end in `sats`. */
  ghost function Touching(all: set<Link>, sats: set<SatId>): set<Link>
  {
    set l | l in all && l * sats != {}
  }

  lemma TouchingAdd(all: set<Link>, sats: set<SatId>, x: SatId)
    ensures Touching(all, sats + {x}) == Touching(all, sats) + Touching(all, {x})
  {
    forall l | l in Touching(all, sats + {x}) ensures l in Touching(all, sats) + Touching(all, {x}) {
      var y :| y in l * (sats + {x});
      if y != x {
        assert y in l * sats;
      } else {
        assert x in l * {x};
      }
    }
    forall l | l in Touching(all, sats) + Touching(all, {x}) ensures l in Touching(all, sats + {x}) {
      if l in Touching(all, sats) {
        var y :| y in l * sats;
        assert y in l * (sats + {x});
      } else {
        var y :| y in l * {x};
        assert y in l * (sats + {x});
      }
    }
  }

  /** Every brute-force link has an end among the shell's satellites. */
  lemma TouchingAll(ids: seq<SatId>, positions: map<SatId, Pos>, maxDist: int)
    requires Distinct(ids) && Covers(ids, positions)
    ensures Touching(GetVisiblePairs(ids, positions, maxDist), Elems(ids)) == GetVisiblePairs(ids, positions, maxDist)
  {
    forall l | l in GetVisiblePairs(ids, positions, maxDist) ensures l * Elems(ids) != {} {
      IncidentLinksCoverBruteForce(ids, positions, maxDist, l);
      var s :| s in ids && s in l;
      assert s in l * Elems(ids);
    }
  }

  /** `pool.map(process_satellite_visibility_and_paths, ...)` followed by the
      merge loop: every satellite's links and routes, unioned. The links are
      exactly the brute-force visible pairs, and no route is tracked. */
  method MapAndMerge(ids: seq<SatId>, positions: map<SatId, Pos>, maxDist: int,
                     targets: map<SatId, seq<SatId>>, index: SpatialIndex)
    returns (links: set<Link>, paths: map<Link, Path>)
    requires index.Valid() && index.positions == positions && index.maxDist == maxDist
    requires Distinct(ids) && Covers(ids, positions)
    ensures links == GetVisiblePairs(ids, positions, maxDist)
    ensures paths == map[]
  {
    ghost var all := GetVisiblePairs(ids, positions, maxDist);
    links, paths := {}, map[];
    for i := 0 to |ids|
      invariant links == Touching(all, Elems(ids[..i]))
      invariant paths == map[]
    {
      var sid, vis, p := ProcessSatelliteVisibilityAndPaths(ids[i], ids, positions, maxDist, targets, index);
      TouchingAdd(all, Elems(ids[..i]), ids[i]);
      links := links + vis;
      paths := paths + p;
      assert Elems(ids[..i + 1]) == Elems(ids[..i]) + {ids[i]} by {
        assert ids[..i + 1] == ids[..i] + [ids[i]];
      }
    }
    assert ids[..|ids|] == ids;
    TouchingAll(ids, positions, maxDist);
  }

  /** One minute's snapshot: the grid built over that minute's positions,
      then every satellite's results merged. */
  method TakeSnapshot(ids: seq<SatId>, positions: map<SatId, Pos>, maxDist: int, targets: map<SatId, seq<SatId>>)
    returns (links: set<Link>, paths: map<Link, Path>)
    requires maxDist > 0 && Distinct(ids) && Covers(ids, positions)
    ensures links == GetVisiblePairs(ids, positions, maxDist)
    ensures links == VisibleLinkSet(ids, positions, maxDist)
    ensures paths == map[]
  {
    var index := new SpatialIndex(ids, positions, maxDist);
    links, paths := MapAndMerge(ids, positions, maxDist, targets, index);
    BruteForceSpec(ids, positions, maxDist);
  }

  /** A shell: its satellites in dictionary order, their positions at every
      minute, and its visibility distance. */
  datatype Shell = Shell(ids: seq<SatId>, frames: seq<map<SatId, Pos>>, maxDist: int)

  /** Positions exist for every satellite of the shell at each of the
      `duration` minutes. */
  ghost predicate ShellOk(sh: Shell, duration: nat)
  {
    sh.maxDist > 0 && Distinct(sh.ids) && |sh.frames| == duration &&
    forall t :: 0 <= t < |sh.frames| ==> Covers(sh.ids, sh.frames[t])
  }

  /** The shell's visible link sets over its first `n` minutes, one per minute. */
  ghost function Snapshots(sh: Shell, duration: nat, n: nat): (s: seq<set<Link>>)
    requires ShellOk(sh, duration) && n <= duration
    ensures |s| == n
  {
    if n == 0 then []
    else Snapshots(sh, duration, n - 1) + [VisibleLinkSet(sh.ids, sh.frames[n - 1], sh.maxDist)]
  }

  /** Entry `t` of the snapshots is minute `t`'s visible link set, however far
      the run is extended. */
  lemma {:induction false} SnapshotsAt(sh: Shell, duration: nat, n: nat, t: nat)
    requires ShellOk(sh, duration) && t < n <= duration
    ensures Snapshots(sh, duration, n)[t] == VisibleLinkSet(sh.ids, sh.frames[t], sh.maxDist)
  {
    if t < n - 1 {
      SnapshotsAt(sh, duration, n - 1, t);
    }
  }

  /** The shell's visible links at minute `t`. */
  ghost function LinksAt(sh: Shell, duration: nat, t: nat): set<Link>
    requires ShellOk(sh, duration) && t < duration
  {
    Snapshots(sh, duration, duration)[t]
  }

  /** The shell's break series over its first `n` minute steps: entry `j`
      counts the links of minute `j` that are gone at minute `j + 1`. */
  ghost function BreakSeries(sh: Shell, duration: nat, n: nat): (s: seq<nat>)
    requires ShellOk(sh, duration) && n < duration
    ensures |s| == n
  {
    if n == 0 then []
    else BreakSeries(sh, duration, n - 1) + [BrokenIsls(LinksAt(sh, duration, n - 1), LinksAt(sh, duration, n))]
  }

  /** Entry `j` of the series is the break count between minutes `j` and `j + 1`,
      however far the series is extended. */
  lemma {:induction false} BreakSeriesAt(sh: Shell, duration: nat, n: nat, j: nat)
    requires ShellOk(sh, duration) && j < n < duration
    ensures BreakSeries(sh, duration, n)[j] == BrokenIsls(LinksAt(sh, duration, j), LinksAt(sh, duration, j + 1))
  {
    if j < n - 1 {
      BreakSeriesAt(sh, duration, n - 1, j);
    }
  }

  /** Entry `j` of the break series summed over the shells. */
  ghost function TotalBreaks(shells: seq<Shell>, duration: nat, j: nat): nat
    requires forall i :: 0 <= i < |shells| ==> ShellOk(shells[i], duration)
    requires j + 1 < duration
  {
    if shells == [] then 0
    else TotalBreaks(shells[..|shells| - 1], duration, j) + BreakSeries(shells[|shells| - 1], duration, duration - 1)[j]
  }

  /** Adding one more shell adds its breaks to every minute's total. */
  lemma TotalBreaksStep(shells: seq<Shell>, i: nat, duration: nat)
    requires i < |shells| && forall j :: 0 <= j < |shells| ==> ShellOk(shells[j], duration)
    ensures forall j: nat :: j + 1 < duration ==>
              TotalBreaks(shells[..i + 1], duration, j) ==
              TotalBreaks(shells[..i], duration, j) + BreakSeries(shells[i], duration, duration - 1)[j]
  {
    assert shells[..i + 1][..i] == shells[..i];
  }

  /** The snapshot of minute `t` of a shell. */
  method SnapshotAt(sh: Shell, duration: nat, t: nat, targets: map<SatId, seq<SatId>>)
    returns (links: set<Link>, paths: map<Link, Path>)
    requires ShellOk(sh, duration) && t < duration
    ensures links == LinksAt(sh, duration, t) && paths == map[]
  {
    links, paths := TakeSnapshot(sh.ids, sh.frames[t], sh.maxDist, targets);
    SnapshotsAt(sh, duration, duration, t);
  }

  /** One step of the minute loop: the minute's snapshot and its difference
      from the previous minute's. */
  method DiffMinute(sh: Shell, duration: nat, minute: nat, targets: map<SatId, seq<SatId>>,
                    prevLinks: set<Link>, prevPaths: map<Link, Path>)
    returns (curLinks: set<Link>, curPaths: map<Link, Path>, brokenIsls: nat, pathChangeCount: nat)
    requires ShellOk(sh, duration) && 1 <= minute < duration
    requires prevLinks == LinksAt(sh, duration, minute - 1) && prevPaths == map[]
    ensures curLinks == LinksAt(sh, duration, minute) && curPaths == map[]
    ensures brokenIsls == BreakSeries(sh, duration, duration - 1)[minute - 1] && pathChangeCount == 0
  {
    curLinks, curPaths := SnapshotAt(sh, duration, minute, targets);
    brokenIsls := BrokenIsls(prevLinks, curLinks);
    pathChangeCount := PathChanges(prevPaths, curPaths);
    PathChangesNoRoutes(curPaths);
    BreakSeriesAt(sh, duration, duration - 1, minute - 1);
  }

  /** The first shell's pass of `analyze_network_changes` after target
      selection: the initial snapshot, then one snapshot per minute, each
      appending one entry to every series. */
  method RecordFirstShell(sh: Shell, duration: nat, targets: map<SatId, seq<SatId>>)
    returns (timestamps: seq<nat>, islBreaks: seq<nat>, pathChanges: seq<nat>)
    requires duration >= 1 && ShellOk(sh, duration)
    ensures timestamps == seq(duration - 1, j => j + 1)
    ensures islBreaks == BreakSeries(sh, duration, duration - 1)
    ensures |pathChanges| == duration - 1 && forall j :: 0 <= j < duration - 1 ==> pathChanges[j] == 0
  {
    var prevLinks, prevPaths := SnapshotAt(sh, duration, 0, targets);
    timestamps, islBreaks, pathChanges := [], [], [];
    for minute := 1 to duration
      invariant prevLinks == LinksAt(sh, duration, minute - 1) && prevPaths == map[]
      invariant timestamps == seq(minute - 1, j => j + 1)
      invariant islBreaks == BreakSeries(sh, duration, duration - 1)[..minute - 1]
      invariant |pathChanges| == minute - 1 && forall j :: 0 <= j < minute - 1 ==> pathChanges[j] == 0
    {
      var curLinks, curPaths, brokenIsls, pathChangeCount := DiffMinute(sh, duration, minute, targets, prevLinks, prevPaths);
      assert BreakSeries(sh, duration, duration - 1)[..minute] == islBreaks + [brokenIsls];
      assert seq(minute, j => j + 1) == timestamps + [minute];
      timestamps := timestamps + [minute];
      islBreaks := islBreaks + [brokenIsls];
      pathChanges := pathChanges + [pathChangeCount];
      prevLinks, prevPaths := curLinks, curPaths;
    }
  }

  /** A later shell's pass: the same snapshots, with each minute's counts
      added onto the existing entries at index `minute - 1`. */
  method AddShell(sh: Shell, duration: nat, targets: map<SatId, seq<SatId>>,
                  islBreaks: seq<nat>, pathChanges: seq<nat>)
    returns (islBreaks': seq<nat>, pathChanges': seq<nat>)
    requires duration >= 1 && ShellOk(sh, duration)
    requires |islBreaks| == duration - 1 && |pathChanges| == duration - 1
    ensures |islBreaks'| == duration - 1 && |pathChanges'| == duration - 1
    ensures forall j :: 0 <= j < duration - 1 ==> islBreaks'[j] == islBreaks[j] + BreakSeries(sh, duration, duration - 1)[j]
    ensures forall j :: 0 <= j < duration - 1 ==> pathChanges'[j] == pathChanges[j]
  {
    var prevLinks, prevPaths := SnapshotAt(sh, duration, 0, targets);
    ghost var series := BreakSeries(sh, duration, duration - 1);
    islBreaks', pathChanges' := islBreaks, pathChanges;
    for minute := 1 to duration
      invariant prevLinks == LinksAt(sh, duration, minute - 1) && prevPaths == map[]
      invariant |islBreaks'| == duration - 1 && |pathChanges'| == duration - 1
      invariant forall j :: 0 <= j < minute - 1 ==> islBreaks'[j] == islBreaks[j] + series[j]
      invariant forall j :: minute - 1 <= j < duration - 1 ==> islBreaks'[j] == islBreaks[j]
      invariant forall j :: 0 <= j < duration - 1 ==> pathChanges'[j] == pathChanges[j]
    {
      var curLinks, curPaths, brokenIsls, pathChangeCount := DiffMinute(sh, duration, minute, targets, prevLinks, prevPaths);
      islBreaks' := islBreaks'[minute - 1 := islBreaks'[minute - 1] + brokenIsls];
      pathChanges' := pathChanges'[minute - 1 := pathChanges'[minute - 1] + pathChangeCount];
      prevLinks, prevPaths := curLinks, curPaths;
    }
  }

  /** `analyze_network_changes`: the per-minute break and route-change
      series over the shells. The first shell picks up to `k` route targets
      per satellite; later shells track none. Entry `j` belongs to minute
      `j + 1`: breaks add up over the shells, and route changes are always zero. */
  method AnalyzeNetworkChanges(shells: seq<Shell>, duration: nat, k: nat)
    returns (timestamps: seq<nat>, islBreaks: seq<nat>, pathChanges: seq<nat>)
    requires |shells| >= 1 && duration >= 1
    requires forall i :: 0 <= i < |shells| ==> ShellOk(shells[i], duration)
    ensures timestamps == seq(duration - 1, j => j + 1)
    ensures |islBreaks| == duration - 1 && |pathChanges| == duration - 1
    ensures forall j :: 0 <= j < duration - 1 ==> islBreaks[j] == TotalBreaks(shells, duration, j)
    ensures forall j :: 0 <= j < |pathChanges| ==> pathChanges[j] == 0
  {
    var first := shells[0];
    var targets := SelectTargets(first.ids, first.frames[0], first.maxDist, k);
    timestamps, islBreaks, pathChanges := RecordFirstShell(first, duration, targets);
    TotalBreaksStep(shells, 0, duration);
    for i := 1 to |shells|
      invariant |islBreaks| == duration - 1 && |pathChanges| == duration - 1
      invariant forall j :: 0 <= j < duration - 1 ==> islBreaks[j] == TotalBreaks(shells[..i], duration, j)
      invariant forall j :: 0 <= j < |pathChanges| ==> pathChanges[j] == 0
    {
      TotalBreaksStep(shells, i, duration);
      islBreaks, pathChanges := AddShell(shells[i], duration, map[], islBreaks, pathChanges);
    }
    assert shells[..|shells|] == shells;
  }
}
