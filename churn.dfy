/** The per-minute difference between two snapshots: links that broke and
    tracked routes that changed. */
module Churn {
  import opened Types

  /** `len(prev_visible_pairs - current_visible_pairs)`: the links of the
      previous minute that are gone now. Links that appeared are not counted. */
  function BrokenIsls(prev: set<Link>, cur: set<Link>): (n: nat)
    ensures n <= |prev|
    ensures n == 0 <==> prev <= cur
  {
    SubsetCard(prev - cur, prev);
    EmptyCard(prev - cur);
    assert prev <= cur <==> prev - cur == {} by {
      if prev - cur == {} {
        forall x | x in prev ensures x in cur { assert x !in prev - cur; }
      }
    }
    |prev - cur|
  }

  /** The routes tracked in both snapshots whose node sequence differs. */
  function ChangedKeys(prev: map<Link, Path>, cur: map<Link, Path>): set<Link>
  {
    set p | p in prev && p in cur && prev[p] != cur[p]
  }

  /** `sum(1 for p in prev_paths if p in current_paths and prev_paths[p] != current_paths[p])`:
      a route that appears or disappears between the snapshots is not a change. */
  function PathChanges(prev: map<Link, Path>, cur: map<Link, Path>): (n: nat)
    ensures n <= |prev.Keys| && n <= |cur.Keys|
    ensures n == 0 <==> forall p :: p in prev && p in cur ==> prev[p] == cur[p]
  {
    SubsetCard(ChangedKeys(prev, cur), prev.Keys);
    SubsetCard(ChangedKeys(prev, cur), cur.Keys);
    EmptyCard(ChangedKeys(prev, cur));
    assert ChangedKeys(prev, cur) == {} ==> forall p :: p in prev && p in cur ==> prev[p] == cur[p] by {
      if ChangedKeys(prev, cur) == {} {
        forall p | p in prev && p in cur ensures prev[p] == cur[p] { assert p !in ChangedKeys(prev, cur); }
      }
    }
    |ChangedKeys(prev, cur)|
  }

  lemma {:induction false} SubsetCard<T>(a: set<T>, b: set<T>)
    requires a <= b
    ensures |a| <= |b|
  {
    if a != {} {
      var x :| x in a;
      SubsetCard(a - {x}, b - {x});
    }
  }

  lemma EmptyCard<T>(s: set<T>)
    ensures |s| == 0 <==> s == {}
  {
    if s != {} {
      var x :| x in s;
      SubsetCard({x}, s);
    }
  }

  /** Links gained since the previous minute never change the break count:
      only what the two snapshots share matters. */
  lemma BrokenIgnoresGained(prev: set<Link>, cur: set<Link>)
    ensures BrokenIsls(prev, cur) == BrokenIsls(prev, cur * prev)
  {
    assert prev - cur == prev - cur * prev;
  }

  /** The break count is prev's size minus the links kept. */
  lemma BrokenIsPrevMinusKept(prev: set<Link>, cur: set<Link>)
    ensures BrokenIsls(prev, cur) == |prev| - |prev * cur|
  {
    assert prev == (prev - cur) + (prev * cur);
    assert (prev - cur) * (prev * cur) == {};
  }

  /** Breaks and gains balance the change in link count. */
  lemma BrokenBalance(prev: set<Link>, cur: set<Link>)
    ensures |prev| - BrokenIsls(prev, cur) == |cur| - BrokenIsls(cur, prev)
  {
    BrokenIsPrevMinusKept(prev, cur);
    BrokenIsPrevMinusKept(cur, prev);
    assert prev * cur == cur * prev;
  }

  /** Every link lost since the previous minute adds one to the count. */
  lemma BrokenCountsLostLink(prev: set<Link>, cur: set<Link>, l: Link)
    requires l !in prev && l !in cur
    ensures BrokenIsls(prev + {l}, cur) == BrokenIsls(prev, cur) + 1
  {
    assert (prev + {l}) - cur == (prev - cur) + {l};
  }

  /** A link gained since the previous minute adds nothing to the count. */
  lemma BrokenIgnoresGainedLink(prev: set<Link>, cur: set<Link>, l: Link)
    requires l !in prev
    ensures BrokenIsls(prev, cur + {l}) == BrokenIsls(prev, cur)
  {
    assert prev - (cur + {l}) == prev - cur;
  }

  /** A witness that the count is not symmetric: losing the link {0, 1}
      counts one, gaining it counts nothing. */
  lemma BrokenIsOneDirectional()
    ensures BrokenIsls({{0, 1}}, {}) == 1 && BrokenIsls({}, {{0, 1}}) == 0
  {
    var l: Link := {0, 1};
    assert {l} - {} == {l};
  }

  /** The path change count does not depend on which snapshot is the previous one. */
  lemma PathChangesSymmetric(prev: map<Link, Path>, cur: map<Link, Path>)
    ensures PathChanges(prev, cur) == PathChanges(cur, prev)
  {
    assert ChangedKeys(prev, cur) == ChangedKeys(cur, prev);
  }

  /** A route that only the current snapshot tracks is not a change. */
  lemma PathChangesIgnoresNewRoute(prev: map<Link, Path>, cur: map<Link, Path>, p: Link, path: Path)
    requires p !in prev
    ensures PathChanges(prev, cur[p := path]) == PathChanges(prev, cur)
  {
    assert ChangedKeys(prev, cur[p := path]) == ChangedKeys(prev, cur);
  }

  /** A route that only the previous snapshot tracked is not a change. */
  lemma PathChangesIgnoresDroppedRoute(prev: map<Link, Path>, cur: map<Link, Path>, p: Link, path: Path)
    requires p !in cur
    ensures PathChanges(prev[p := path], cur) == PathChanges(prev, cur)
  {
    assert ChangedKeys(prev[p := path], cur) == ChangedKeys(prev, cur);
  }

  /** Replacing the route of a key both snapshots track counts exactly when it differs. */
  lemma PathChangesCountsReroute(prev: map<Link, Path>, cur: map<Link, Path>, p: Link, path: Path)
    requires p in prev && p !in cur
    ensures PathChanges(prev, cur[p := path]) == PathChanges(prev, cur) + (if prev[p] != path then 1 else 0)
  {
    var before, after := ChangedKeys(prev, cur), ChangedKeys(prev, cur[p := path]);
    var added: set<Link> := if prev[p] != path then {p} else {};
    forall q ensures q in after <==> q in before + added {
      if q != p {
        assert q in cur[p := path] <==> q in cur;
      }
    }
    assert after == before + added;
    assert before * added == {};
  }

  /** With nothing tracked on either side there is nothing to change. */
  lemma PathChangesNoRoutes(m: map<Link, Path>)
    ensures PathChanges(map[], m) == 0 && PathChanges(m, map[]) == 0
  {
  }
}
