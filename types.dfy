/** Shared vocabulary of the churn pipeline: satellite ids, positions,
    unordered links and the optional result of a path search. */
module Types {

  /** A satellite id. The scripts use string ids; here they are dense naturals. */
  type SatId = nat

  /** An unordered pair of satellite ids, the model of `frozenset([a, b])`. */
  type Link = set<SatId>

  /** A route from a source to one of its targets. */
  type Path = seq<SatId>

  /** A Cartesian position in whole kilometres. */
  datatype Pos = Pos(x: int, y: int, z: int)

  datatype Option<+T> = None | Some(value: T)

  /** No id occurs twice. */
  predicate Distinct(s: seq<SatId>)
  {
    forall i, j :: 0 <= i < j < |s| ==> s[i] != s[j]
  }

  /** The elements of a sequence, as a set. */
  function Elems(s: seq<SatId>): set<SatId>
  {
    set x | x in s
  }

  /** The ids of `ids` are exactly the keys of `positions`, as when a
      positions dictionary is built from the list of satellite ids. */
  ghost predicate Covers(ids: seq<SatId>, positions: map<SatId, Pos>)
  {
    forall s :: s in positions <==> s in ids
  }

  function Min(a: nat, b: nat): nat
  {
    if a <= b then a else b
  }

  /** A duplicate-free sequence has as many distinct elements as entries. */
  lemma {:induction false} DistinctCard(s: seq<SatId>)
    requires Distinct(s)
    ensures |Elems(s)| == |s|
  {
    if s != [] {
      var t := s[..|s| - 1];
      assert Distinct(t);
      DistinctCard(t);
      assert Elems(s) == Elems(t) + {s[|s| - 1]};
      assert s[|s| - 1] !in Elems(t);
    }
  }
}
