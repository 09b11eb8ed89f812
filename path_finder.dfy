/** `calculate_shortest_path`: hop-count search over a set of links with a
    priority queue and a visited set, refusing routes without a relay. */
module PathFinder {
  import opened Types

  /** A heap entry (dist, current, path). */
  datatype Entry = Entry(dist: nat, node: SatId, path: Path)

  /** `v` is a neighbour the search may step to from `u`: it is one of the
      satellites the search iterates over, and {u, v} is a link. */
  ghost predicate Linked(u: SatId, v: SatId, pairs: set<Link>, sats: seq<SatId>)
  {
    v in sats && {u, v} in pairs
  }

  /** A walk from `source`: consecutive entries are linked. */
  ghost predicate IsWalk(w: Path, source: SatId, pairs: set<Link>, sats: seq<SatId>)
  {
    |w| >= 1 && w[0] == source &&
    forall i :: 1 <= i < |w| ==> Linked(w[i - 1], w[i], pairs, sats)
  }

  ghost predicate WalkTo(w: Path, source: SatId, target: SatId, pairs: set<Link>, sats: seq<SatId>)
  {
    IsWalk(w, source, pairs, sats) && w[|w| - 1] == target
  }

  ghost predicate Reachable(source: SatId, target: SatId, pairs: set<Link>, sats: seq<SatId>)
  {
    exists w :: WalkTo(w, source, target, pairs, sats)
  }

  /** Shape of every queued entry: a repetition-free walk to its node, one
      node longer than its distance, all of whose nodes but the last have
      been visited. */
  ghost predicate EntryOk(e: Entry, source: SatId, pairs: set<Link>, sats: seq<SatId>, visited: set<SatId>)
  {
    WalkTo(e.path, source, e.node, pairs, sats) && |e.path| == e.dist + 1 && Distinct(e.path) &&
    (forall i :: 0 <= i < |e.path| - 1 ==> e.path[i] in visited) &&
    (e.node == source || e.node in sats)
  }

  /** Every visited node was settled at a distance no longer than any walk to it. */
  ghost predicate Settled(visited: set<SatId>, dist: map<SatId, nat>, source: SatId, pairs: set<Link>, sats: seq<SatId>)
  {
    visited <= dist.Keys &&
    forall u, w :: u in visited && WalkTo(w, source, u, pairs, sats) ==> dist[u] <= |w| - 1
  }

  /** Every unvisited neighbour of a visited node is queued one hop further. */
  ghost predicate Frontier(pq: seq<Entry>, visited: set<SatId>, dist: map<SatId, nat>, pairs: set<Link>, sats: seq<SatId>)
    requires visited <= dist.Keys
  {
    forall u, v :: u in visited && v !in visited && Linked(u, v, pairs, sats) ==>
      exists e :: e in pq && e.node == v && e.dist <= dist[u] + 1
  }

  /** While some node on a walk is unvisited, the queue holds an entry no
      farther than the walk's length: the core of the minimality argument. */
  lemma {:induction false} FrontierBound(w: Path, source: SatId, pairs: set<Link>, sats: seq<SatId>,
                                         pq: seq<Entry>, visited: set<SatId>, dist: map<SatId, nat>)
    requires IsWalk(w, source, pairs, sats) && source in visited && w[|w| - 1] !in visited
    requires Settled(visited, dist, source, pairs, sats) && Frontier(pq, visited, dist, pairs, sats)
    ensures exists e :: e in pq && e.dist <= |w| - 1
  {
    var n := |w|;
    assert n >= 2;
    var prefix := w[..n - 1];
    assert IsWalk(prefix, source, pairs, sats);
    if w[n - 2] in visited {
      assert WalkTo(prefix, source, w[n - 2], pairs, sats);
      assert Linked(w[n - 2], w[n - 1], pairs, sats);
      var e :| e in pq && e.node == w[n - 1] && e.dist <= dist[w[n - 2]] + 1;
    } else {
      FrontierBound(prefix, source, pairs, sats, pq, visited, dist);
    }
  }

  /** The distance of a cheapest entry. */
  function MinDist(pq: seq<Entry>): (m: nat)
    requires |pq| > 0
    ensures (exists e :: e in pq && e.dist == m) && forall e :: e in pq ==> m <= e.dist
  {
    if |pq| == 1 then pq[0].dist
    else
      var rest := MinDist(pq[1..]);
      assert forall e :: e in pq[1..] ==> e in pq;
      if pq[0].dist <= rest then pq[0].dist else rest
  }

  lemma RemovePreserves(pq: seq<Entry>, k: nat, e: Entry)
    requires k < |pq| && e in pq && e != pq[k]
    ensures e in pq[..k] + pq[k + 1..]
  {
    var i :| 0 <= i < |pq| && pq[i] == e;
    if i < k { assert (pq[..k] + pq[k + 1..])[i] == e; }
    else { assert (pq[..k] + pq[k + 1..])[i - 1] == e; }
  }

  /** A popped entry of least distance whose node is not yet visited is no
      longer than any walk to that node. */
  lemma PopIsShortest(pq: seq<Entry>, k: nat, source: SatId, pairs: set<Link>, sats: seq<SatId>,
                      visited: set<SatId>, dist: map<SatId, nat>)
    requires k < |pq| && forall e :: e in pq ==> pq[k].dist <= e.dist
    requires visited == {} ==> pq == [Entry(0, source, [source])]
    requires visited != {} ==> source in visited
    requires Settled(visited, dist, source, pairs, sats) && Frontier(pq, visited, dist, pairs, sats)
    requires pq[k].node !in visited
    ensures forall w :: WalkTo(w, source, pq[k].node, pairs, sats) ==> pq[k].dist <= |w| - 1
  {
    forall w | WalkTo(w, source, pq[k].node, pairs, sats)
      ensures pq[k].dist <= |w| - 1
    {
      if visited != {} {
        FrontierBound(w, source, pairs, sats, pq, visited, dist);
      }
    }
  }

  /** When the target is popped at its shortest distance, its path is kept
      exactly when the target is neither the source nor a direct neighbour,
      and a kept path is as short as any walk. */
  lemma TargetPopped(entry: Entry, source: SatId, target: SatId, pairs: set<Link>, sats: seq<SatId>, visited: set<SatId>)
    requires EntryOk(entry, source, pairs, sats, visited) && entry.node == target
    requires forall w :: WalkTo(w, source, target, pairs, sats) ==> entry.dist <= |w| - 1
    ensures |entry.path| >= 3 <==>
              !(source == target || Linked(source, target, pairs, sats) || !Reachable(source, target, pairs, sats))
    ensures forall w :: WalkTo(w, source, target, pairs, sats) ==> |entry.path| <= |w|
  {
    assert Reachable(source, target, pairs, sats);
    if |entry.path| >= 3 {
      assert WalkTo([source], source, source, pairs, sats);
      assert Linked(source, target, pairs, sats) ==> WalkTo([source, target], source, target, pairs, sats);
    } else if |entry.path| == 2 {
      assert entry.path[0] == source && entry.path[1] == target;
      assert Linked(entry.path[0], entry.path[1], pairs, sats);
    }
  }

  /** Stepping from a visited node to an unvisited neighbour yields a
      well-formed entry one hop further. */
  lemma ExtendOk(entry: Entry, v: SatId, source: SatId, pairs: set<Link>, sats: seq<SatId>, visited: set<SatId>)
    requires EntryOk(entry, source, pairs, sats, visited) && entry.node in visited
    requires v !in visited && Linked(entry.node, v, pairs, sats)
    ensures EntryOk(Entry(entry.dist + 1, v, entry.path + [v]), source, pairs, sats, visited)
  {
    var p := entry.path + [v];
    assert forall i :: 0 <= i < |entry.path| ==> entry.path[i] in visited;
    assert forall i :: 0 <= i < |p| - 1 ==> p[i] == entry.path[i];
    assert IsWalk(p, source, pairs, sats);
  }

  /** Visiting more nodes keeps every queued entry well formed. */
  lemma EntriesStayOk(pq: seq<Entry>, source: SatId, pairs: set<Link>, sats: seq<SatId>, visited: set<SatId>, more: set<SatId>)
    requires visited <= more
    requires forall e :: e in pq ==> EntryOk(e, source, pairs, sats, visited)
    ensures forall e :: e in pq ==> EntryOk(e, source, pairs, sats, more)
  {
  }

  /** Dropping an entry of an already visited node keeps the frontier. */
  lemma FrontierAfterSkip(pq: seq<Entry>, k: nat, visited: set<SatId>, dist: map<SatId, nat>,
                          pairs: set<Link>, sats: seq<SatId>)
    requires k < |pq| && pq[k].node in visited && visited <= dist.Keys
    requires Frontier(pq, visited, dist, pairs, sats)
    ensures Frontier(pq[..k] + pq[k + 1..], visited, dist, pairs, sats)
  {
    forall u, v | u in visited && v !in visited && Linked(u, v, pairs, sats)
      ensures exists e :: e in pq[..k] + pq[k + 1..] && e.node == v && e.dist <= dist[u] + 1
    {
      var e :| e in pq && e.node == v && e.dist <= dist[u] + 1;
      RemovePreserves(pq, k, e);
    }
  }

  /** Visiting the popped node and queueing its unvisited neighbours one hop
      further keeps the frontier. */
  lemma FrontierAfterVisit(before: seq<Entry>, k: nat, pq: seq<Entry>, visited: set<SatId>, dist: map<SatId, nat>,
                           current: SatId, d: nat, pairs: set<Link>, sats: seq<SatId>)
    requires k < |before| && before[k].node == current && current !in visited && visited <= dist.Keys
    requires Frontier(before, visited, dist, pairs, sats)
    requires forall e :: e in before[..k] + before[k + 1..] ==> e in pq
    requires forall v :: v in sats && v !in visited && v != current && {current, v} in pairs ==>
               exists e :: e in pq && e.node == v && e.dist == d + 1
    ensures Frontier(pq, visited + {current}, dist[current := d], pairs, sats)
  {
    var visited', dist' := visited + {current}, dist[current := d];
    forall u, v | u in visited' && v !in visited' && Linked(u, v, pairs, sats)
      ensures exists e :: e in pq && e.node == v && e.dist <= dist'[u] + 1
    {
      if u != current {
        var e :| e in before && e.node == v && e.dist <= dist[u] + 1;
        RemovePreserves(before, k, e);
      } else {
        var e :| e in pq && e.node == v && e.dist == d + 1;
      }
    }
  }

  /** The entries the inner loop pushes for `entry`, in the order of `sats`:
      one per unvisited satellite linked to the popped node. */
  function Pushes(entry: Entry, sats: seq<SatId>, pairs: set<Link>, visited: set<SatId>): seq<Entry>
  {
    if sats == [] then []
    else
      var v := sats[|sats| - 1];
      Pushes(entry, sats[..|sats| - 1], pairs, visited) +
        (if v !in visited && {entry.node, v} in pairs then [Entry(entry.dist + 1, v, entry.path + [v])] else [])
  }

  /** An entry is pushed exactly when it extends the popped path by one
      unvisited satellite of `sats` linked to the popped node. */
  lemma {:induction false} PushesMembers(entry: Entry, sats: seq<SatId>, pairs: set<Link>, visited: set<SatId>, e: Entry)
    ensures e in Pushes(entry, sats, pairs, visited) <==>
              (e.node in sats && e.node !in visited && {entry.node, e.node} in pairs &&
               e == Entry(entry.dist + 1, e.node, entry.path + [e.node]))
  {
    if sats != [] {
      var init := sats[..|sats| - 1];
      PushesMembers(entry, init, pairs, visited, e);
      assert sats == init + [sats[|sats| - 1]];
    }
  }

  /** The inner loop of the search: queue every unvisited satellite linked
      to the popped node, one hop further along the popped path, and
      nothing else. */
  method PushNeighbors(pq: seq<Entry>, entry: Entry, ghost source: SatId, pairs: set<Link>, sats: seq<SatId>,
                       visited: set<SatId>) returns (pq': seq<Entry>)
    requires entry.node in visited && EntryOk(entry, source, pairs, sats, visited)
    requires forall e :: e in pq ==> EntryOk(e, source, pairs, sats, visited)
    ensures pq' == pq + Pushes(entry, sats, pairs, visited)
    ensures forall e :: e in pq' ==> EntryOk(e, source, pairs, sats, visited)
    ensures forall e :: e in pq ==> e in pq'
    ensures forall v :: v in sats && v !in visited && {entry.node, v} in pairs ==>
              Entry(entry.dist + 1, v, entry.path + [v]) in pq'
    ensures forall e :: e in pq' ==>
              (e in pq ||
               (e.node in sats && e.node !in visited && {entry.node, e.node} in pairs &&
                e == Entry(entry.dist + 1, e.node, entry.path + [e.node])))
  {
    pq' := pq;
    for j := 0 to |sats|
      invariant pq' == pq + Pushes(entry, sats[..j], pairs, visited)
      invariant forall e :: e in pq' ==> EntryOk(e, source, pairs, sats, visited)
    {
      var neighbor := sats[j];
      if neighbor !in visited && {entry.node, neighbor} in pairs {
        ExtendOk(entry, neighbor, source, pairs, sats, visited);
        pq' := pq' + [Entry(entry.dist + 1, neighbor, entry.path + [neighbor])];
      }
      assert sats[..j + 1][..j] == sats[..j];
    }
    assert sats[..|sats|] == sats;
    forall e ensures e in Pushes(entry, sats, pairs, visited) <==>
                       (e.node in sats && e.node !in visited && {entry.node, e.node} in pairs &&
                        e == Entry(entry.dist + 1, e.node, entry.path + [e.node])) {
      PushesMembers(entry, sats, pairs, visited, e);
    }
  }

  /** Everything the search loop keeps: entries are well formed, the target
      is never settled, the first iteration sees only the source's entry,
      settled distances are shortest, and the frontier is queued. */
  ghost predicate SearchInv(pq: seq<Entry>, visited: set<SatId>, dist: map<SatId, nat>,
                            source: SatId, target: SatId, pairs: set<Link>, sats: seq<SatId>)
  {
    visited <= Elems(sats) + {source} && target !in visited &&
    (forall e :: e in pq ==> EntryOk(e, source, pairs, sats, visited)) &&
    (visited == {} ==> pq == [Entry(0, source, [source])]) &&
    (visited != {} ==> source in visited) &&
    Settled(visited, dist, source, pairs, sats) &&
    Frontier(pq, visited, dist, pairs, sats)
  }

  /** The popped entry of least distance is the target's: decide the result. */
  lemma TargetStep(before: seq<Entry>, k: nat, visited: set<SatId>, dist: map<SatId, nat>,
                   source: SatId, target: SatId, pairs: set<Link>, sats: seq<SatId>)
    requires SearchInv(before, visited, dist, source, target, pairs, sats)
    requires k < |before| && (forall e :: e in before ==> before[k].dist <= e.dist) && before[k].node == target
    ensures var p := before[k].path;
            && (|p| >= 3 ==> WalkTo(p, source, target, pairs, sats) && Distinct(p))
            && (|p| >= 3 ==> forall w :: WalkTo(w, source, target, pairs, sats) ==> |p| <= |w|)
            && (|p| >= 3 <==> !(source == target || Linked(source, target, pairs, sats) || !Reachable(source, target, pairs, sats)))
  {
    assert before[k] in before;
    PopIsShortest(before, k, source, pairs, sats, visited, dist);
    TargetPopped(before[k], source, target, pairs, sats, visited);
  }

  /** Popping an entry of an already visited node keeps the invariant. */
  lemma SkipStep(before: seq<Entry>, k: nat, visited: set<SatId>, dist: map<SatId, nat>,
                 source: SatId, target: SatId, pairs: set<Link>, sats: seq<SatId>)
    requires SearchInv(before, visited, dist, source, target, pairs, sats)
    requires k < |before| && before[k].node in visited
    ensures SearchInv(before[..k] + before[k + 1..], visited, dist, source, target, pairs, sats)
  {
    var pq := before[..k] + before[k + 1..];
    assert forall e :: e in pq ==> e in before;
    assert visited != {};
    FrontierAfterSkip(before, k, visited, dist, pairs, sats);
  }

  /** Before its neighbours are queued, the popped node counts as visited:
      the remaining entries, and the popped one, stay well formed. */
  lemma VisitPrep(before: seq<Entry>, k: nat, visited: set<SatId>, dist: map<SatId, nat>,
                  source: SatId, target: SatId, pairs: set<Link>, sats: seq<SatId>)
    requires SearchInv(before, visited, dist, source, target, pairs, sats)
    requires k < |before| && before[k].node !in visited
    ensures EntryOk(before[k], source, pairs, sats, visited + {before[k].node})
    ensures forall e :: e in before[..k] + before[k + 1..] ==> EntryOk(e, source, pairs, sats, visited + {before[k].node})
  {
    assert before[k] in before;
    EntriesStayOk(before, source, pairs, sats, visited, visited + {before[k].node});
    assert forall e :: e in before[..k] + before[k + 1..] ==> e in before;
  }

  /** Settling the popped node at its distance keeps the invariant once its
      unvisited neighbours are queued. */
  lemma VisitStep(before: seq<Entry>, k: nat, pq: seq<Entry>, visited: set<SatId>, dist: map<SatId, nat>,
                  source: SatId, target: SatId, pairs: set<Link>, sats: seq<SatId>)
    requires SearchInv(before, visited, dist, source, target, pairs, sats)
    requires k < |before| && (forall e :: e in before ==> before[k].dist <= e.dist)
    requires before[k].node !in visited && before[k].node != target
    requires forall e :: e in pq ==> EntryOk(e, source, pairs, sats, visited + {before[k].node})
    requires forall e :: e in before[..k] + before[k + 1..] ==> e in pq
    requires forall v :: v in sats && v !in visited + {before[k].node} && {before[k].node, v} in pairs ==>
               Entry(before[k].dist + 1, v, before[k].path + [v]) in pq
    ensures before[k].node in Elems(sats) + {source}
    ensures SearchInv(pq, visited + {before[k].node}, dist[before[k].node := before[k].dist], source, target, pairs, sats)
  {
    var entry := before[k];
    assert entry in before;
    var current, d := entry.node, entry.dist;
    assert visited == {} ==> current == source;
    PopIsShortest(before, k, source, pairs, sats, visited, dist);
    var visited', dist' := visited + {current}, dist[current := d];
    assert Settled(visited', dist', source, pairs, sats);
    forall v | v in sats && v !in visited && v != current && {current, v} in pairs
      ensures exists e :: e in pq && e.node == v && e.dist == d + 1
    {
      assert Entry(d + 1, v, entry.path + [v]) in pq;
    }
    FrontierAfterVisit(before, k, pq, visited, dist, current, d, pairs, sats);
  }

  /** With the queue empty, the target is out of reach. */
  lemma Exhausted(visited: set<SatId>, dist: map<SatId, nat>,
                  source: SatId, target: SatId, pairs: set<Link>, sats: seq<SatId>)
    requires SearchInv([], visited, dist, source, target, pairs, sats)
    ensures !Reachable(source, target, pairs, sats)
  {
    forall w | WalkTo(w, source, target, pairs, sats) ensures false {
      FrontierBound(w, source, pairs, sats, [], visited, dist);
    }
  }

  /** Hop-count search from `source` to `target`. The result, when there is
      one, is a shortest repetition-free walk with at least one relay; there
      is none exactly when the target is the source, a direct neighbour, or
      out of reach. Pops among entries of equal distance are left to choice. */
  method CalculateShortestPath(source: SatId, target: SatId, pairs: set<Link>, sats: seq<SatId>)
    returns (r: Option<Path>)
    ensures r.Some? ==> WalkTo(r.value, source, target, pairs, sats) && Distinct(r.value) && |r.value| >= 3
    ensures r.Some? ==> forall w :: WalkTo(w, source, target, pairs, sats) ==> |r.value| <= |w|
    ensures r.None? <==> source == target || Linked(source, target, pairs, sats) || !Reachable(source, target, pairs, sats)
  {
    var pq := [Entry(0, source, [source])];
    var visited: set<SatId> := {};
    ghost var dist: map<SatId, nat> := map[];
    ghost var universe := Elems(sats) + {source};
    while pq != []
      invariant visited <= universe
      invariant SearchInv(pq, visited, dist, source, target, pairs, sats)
      decreases |universe - visited|, |pq|
    {
      var m := MinDist(pq);
      var k :| 0 <= k < |pq| && pq[k].dist == m;
      var entry := pq[k];
      ghost var before := pq;
      pq := pq[..k] + pq[k + 1..];
      if entry.node == target {
        TargetStep(before, k, visited, dist, source, target, pairs, sats);
        if |entry.path| >= 3 {
          return Some(entry.path);
        } else {
          return None;
        }
      }
      if entry.node !in visited {
        ghost var settled := visited;
        VisitPrep(before, k, visited, dist, source, target, pairs, sats);
        visited := visited + {entry.node};
        pq := PushNeighbors(pq, entry, source, pairs, sats, visited);
        VisitStep(before, k, pq, settled, dist, source, target, pairs, sats);
        dist := dist[entry.node := entry.dist];
      } else {
        SkipStep(before, k, visited, dist, source, target, pairs, sats);
      }
    }
    Exhausted(visited, dist, source, target, pairs, sats);
    return None;
  }

  /** When every link touches the source, as for the links one satellite
      reports about itself, a walk can only reach the source's direct
      neighbours: the last step into any other node comes from the source. */
  lemma StarWalkEndsNextToSource(w: Path, source: SatId, target: SatId, pairs: set<Link>, sats: seq<SatId>)
    requires forall l :: l in pairs ==> source in l
    requires WalkTo(w, source, target, pairs, sats) && target != source
    ensures Linked(source, target, pairs, sats)
  {
    var n := |w|;
    assert Linked(w[n - 2], w[n - 1], pairs, sats);
    assert source in {w[n - 2], w[n - 1]};
  }

  /** Over such a star of links every target is the source, a direct
      neighbour or out of reach, so the search never finds a relay route. */
  lemma StarHasNoRelayRoute(source: SatId, target: SatId, pairs: set<Link>, sats: seq<SatId>)
    requires forall l :: l in pairs ==> source in l
    ensures source == target || Linked(source, target, pairs, sats) || !Reachable(source, target, pairs, sats)
  {
    if source != target && Reachable(source, target, pairs, sats) {
      var w :| WalkTo(w, source, target, pairs, sats);
      StarWalkEndsNextToSource(w, source, target, pairs, sats);
    }
  }
}
