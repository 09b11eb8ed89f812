/** Which satellite pairs can see each other: the brute-force all-pairs
    reference and the per-source view used by the indexed pipeline. */
module Visibility {
  import opened Types
  import opened Geometry

  /** `process_satellite_pair`: the link when the two satellites are in range. */
  function ProcessSatellitePair(s1: SatId, s2: SatId, positions: map<SatId, Pos>, maxDist: int): (r: Option<Link>)
    requires s1 in positions && s2 in positions
  {
    if Within(positions[s1], positions[s2], maxDist) then Some({s1, s2}) else None
  }

  /** Visibility does not depend on the order in which a pair is checked. */
  lemma ProcessSatellitePairSymmetric(s1: SatId, s2: SatId, positions: map<SatId, Pos>, maxDist: int)
    requires s1 in positions && s2 in positions
    ensures ProcessSatellitePair(s1, s2, positions, maxDist) == ProcessSatellitePair(s2, s1, positions, maxDist)
  {
    WithinSymmetric(positions[s1], positions[s2], maxDist);
    assert {s1, s2} == {s2, s1};
  }

  /** Every ordered pair (ids[i], ids[j]) with i < j, row by row. */
  function SatPairs(ids: seq<SatId>): (r: seq<(SatId, SatId)>)
  {
    if |ids| == 0 then []
    else seq(|ids| - 1, j requires 0 <= j < |ids| - 1 => (ids[0], ids[j + 1])) + SatPairs(ids[1..])
  }

  /** `pool.map(process_satellite_pair, ...)`, taken as an order-preserving sequential map. */
  function PairResults(pairs: seq<(SatId, SatId)>, positions: map<SatId, Pos>, maxDist: int): (r: seq<Option<Link>>)
    requires forall p :: p in pairs ==> p.0 in positions && p.1 in positions
  {
    seq(|pairs|, i requires 0 <= i < |pairs| => ProcessSatellitePair(pairs[i].0, pairs[i].1, positions, maxDist))
  }

  /** The set of links among the non-None results. */
  function CollectLinks(results: seq<Option<Link>>): set<Link>
  {
    set r | r in results && r.Some? :: r.value
  }

  /** `get_visible_pairs`: the brute-force reference over all pairs of the shell. */
  function GetVisiblePairs(ids: seq<SatId>, positions: map<SatId, Pos>, maxDist: int): set<Link>
    requires forall s :: s in ids ==> s in positions
  {
    SatPairsBound(ids);
    CollectLinks(PairResults(SatPairs(ids), positions, maxDist))
  }

  /** Every link between two different satellites of `ids` that are in range. */
  function VisibleLinkSet(ids: seq<SatId>, positions: map<SatId, Pos>, maxDist: int): set<Link>
    requires forall s :: s in ids ==> s in positions
  {
    set a, b | a in ids && b in ids && a != b && Within(positions[a], positions[b], maxDist) :: {a, b}
  }

  /** The links one source takes part in: every other satellite in range. */
  function IncidentLinks(source: SatId, positions: map<SatId, Pos>, maxDist: int): set<Link>
    requires source in positions
  {
    set o | o in positions && o != source && Within(positions[source], positions[o], maxDist) :: {source, o}
  }

  lemma {:induction false} SatPairsBound(ids: seq<SatId>)
    ensures forall p :: p in SatPairs(ids) ==> p.0 in ids && p.1 in ids
  {
    if |ids| > 0 {
      SatPairsBound(ids[1..]);
    }
  }

  /** The pair list holds exactly the index pairs i < j. */
  lemma {:induction false} SatPairsMembers(ids: seq<SatId>, p: (SatId, SatId))
    ensures p in SatPairs(ids) <==> exists i, j :: 0 <= i < j < |ids| && p == (ids[i], ids[j])
  {
    if |ids| > 0 {
      var row := seq(|ids| - 1, j requires 0 <= j < |ids| - 1 => (ids[0], ids[j + 1]));
      var tail := ids[1..];
      assert SatPairs(ids) == row + SatPairs(tail);
      SatPairsMembers(tail, p);
      if p in row {
        var j :| 0 <= j < |row| && row[j] == p;
        assert p == (ids[0], ids[j + 1]);
      } else if p in SatPairs(tail) {
        var i, j :| 0 <= i < j < |tail| && p == (tail[i], tail[j]);
        assert p == (ids[i + 1], ids[j + 1]);
      }
      if exists i, j :: 0 <= i < j < |ids| && p == (ids[i], ids[j]) {
        var i, j :| 0 <= i < j < |ids| && p == (ids[i], ids[j]);
        if i == 0 {
          assert row[j - 1] == p;
        } else {
          assert p == (tail[i - 1], tail[j - 1]);
        }
      }
    }
  }

  /** Each brute-force link joins two different in-range satellites of the shell. */
  lemma BruteForceSound(ids: seq<SatId>, positions: map<SatId, Pos>, maxDist: int, l: Link)
    requires Distinct(ids) && forall s :: s in ids ==> s in positions
    requires l in GetVisiblePairs(ids, positions, maxDist)
    ensures l in VisibleLinkSet(ids, positions, maxDist)
  {
    SatPairsBound(ids);
    var pairs := SatPairs(ids);
    var results := PairResults(pairs, positions, maxDist);
    var r :| r in results && r.Some? && r.value == l;
    var k :| 0 <= k < |results| && results[k] == r;
    var p := pairs[k];
    SatPairsMembers(ids, p);
    var i, j :| 0 <= i < j < |ids| && p == (ids[i], ids[j]);
    assert l == {ids[i], ids[j]} && Within(positions[ids[i]], positions[ids[j]], maxDist);
  }

  /** Each in-range pair of different satellites is found by the brute force. */
  lemma BruteForceComplete(ids: seq<SatId>, positions: map<SatId, Pos>, maxDist: int, a: SatId, b: SatId)
    requires forall s :: s in ids ==> s in positions
    requires a in ids && b in ids && a != b && Within(positions[a], positions[b], maxDist)
    ensures {a, b} in GetVisiblePairs(ids, positions, maxDist)
  {
    SatPairsBound(ids);
    var pairs := SatPairs(ids);
    var results := PairResults(pairs, positions, maxDist);
    var i :| 0 <= i < |ids| && ids[i] == a;
    var j :| 0 <= j < |ids| && ids[j] == b;
    var p := if i < j then (a, b) else (b, a);
    WithinSymmetric(positions[a], positions[b], maxDist);
    SatPairsMembers(ids, p);
    assert p in pairs;
    var k :| 0 <= k < |pairs| && pairs[k] == p;
    assert {b, a} == {a, b};
    assert results[k] == Some({a, b});
  }

  /** The brute-force result is exactly the set of in-range pairs of distinct
      satellites: no pair is lost and none is made up. */
  lemma BruteForceSpec(ids: seq<SatId>, positions: map<SatId, Pos>, maxDist: int)
    requires Distinct(ids) && forall s :: s in ids ==> s in positions
    ensures GetVisiblePairs(ids, positions, maxDist) == VisibleLinkSet(ids, positions, maxDist)
  {
    forall l | l in GetVisiblePairs(ids, positions, maxDist)
      ensures l in VisibleLinkSet(ids, positions, maxDist)
    {
      BruteForceSound(ids, positions, maxDist, l);
    }
    forall l | l in VisibleLinkSet(ids, positions, maxDist)
      ensures l in GetVisiblePairs(ids, positions, maxDist)
    {
      var a, b :| a in ids && b in ids && a != b && Within(positions[a], positions[b], maxDist) && l == {a, b};
      BruteForceComplete(ids, positions, maxDist, a, b);
    }
  }

  /** The links one source reports are exactly the brute-force links that
      contain it. */
  lemma IncidentLinksMatchBruteForce(ids: seq<SatId>, positions: map<SatId, Pos>, maxDist: int, source: SatId)
    requires Distinct(ids) && Covers(ids, positions) && source in positions
    ensures IncidentLinks(source, positions, maxDist) ==
            set l | l in GetVisiblePairs(ids, positions, maxDist) && source in l
  {
    BruteForceSpec(ids, positions, maxDist);
    var inc := IncidentLinks(source, positions, maxDist);
    var all := VisibleLinkSet(ids, positions, maxDist);
    forall l | l in inc ensures l in all && source in l {
      var o :| o in positions && o != source && Within(positions[source], positions[o], maxDist) && l == {source, o};
    }
    forall l | l in all && source in l ensures l in inc {
      var a, b :| a in ids && b in ids && a != b && Within(positions[a], positions[b], maxDist) && l == {a, b};
      if a == source {
        assert l == {source, b};
      } else {
        assert b == source;
        WithinSymmetric(positions[a], positions[b], maxDist);
        assert l == {source, a};
      }
    }
  }

  /** Merging every satellite's own links gives the brute-force link set. */
  lemma {:induction false} IncidentLinksCoverBruteForce(ids: seq<SatId>, positions: map<SatId, Pos>, maxDist: int, l: Link)
    requires Distinct(ids) && Covers(ids, positions)
    requires l in GetVisiblePairs(ids, positions, maxDist)
    ensures exists s :: s in ids && s in l
  {
    BruteForceSpec(ids, positions, maxDist);
    var a, b :| a in ids && b in ids && a != b && Within(positions[a], positions[b], maxDist) && l == {a, b};
    assert a in ids && a in l;
  }

  /** Every brute-force link joins two different satellites of the shell. */
  lemma BruteForceLinksArePairs(ids: seq<SatId>, positions: map<SatId, Pos>, maxDist: int, l: Link)
    requires Distinct(ids) && Covers(ids, positions)
    requires l in GetVisiblePairs(ids, positions, maxDist)
    ensures exists a, b :: a in ids && b in ids && a != b && l == {a, b}
  {
    BruteForceSpec(ids, positions, maxDist);
  }
}
