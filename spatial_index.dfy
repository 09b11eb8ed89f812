/** The 3-D grid that narrows each satellite's visibility check to the 27
    cells around it. */
module SpatialGrid {
  import opened Types
  import opened Geometry

  /** The ids of `ids` whose position falls in cell `c`, in list order. */
  function CellMembers(ids: seq<SatId>, positions: map<SatId, Pos>, g: int, c: Cell): (r: seq<SatId>)
    requires g > 0 && forall s :: s in ids ==> s in positions
    ensures forall s :: s in r <==> s in ids && CellOf(positions[s], g) == c
  {
    if ids == [] then []
    else
      var last := ids[|ids| - 1];
      CellMembers(ids[..|ids| - 1], positions, g, c)
        + (if CellOf(positions[last], g) == c then [last] else [])
  }

  /** The dictionary the grid construction fills: each id appended, in list
      order, to the list under its cell. */
  function GridOf(ids: seq<SatId>, positions: map<SatId, Pos>, g: int): map<Cell, seq<SatId>>
    requires g > 0 && forall s :: s in ids ==> s in positions
  {
    if ids == [] then map[]
    else
      var grid := GridOf(ids[..|ids| - 1], positions, g);
      var last := ids[|ids| - 1];
      var key := CellOf(positions[last], g);
      grid[key := (if key in grid then grid[key] else []) + [last]]
  }

  /** Every cell's list in the filled dictionary holds the ids of that cell, in list order. */
  lemma {:induction false} GridOfBuckets(ids: seq<SatId>, positions: map<SatId, Pos>, g: int, c: Cell)
    requires g > 0 && forall s :: s in ids ==> s in positions
    ensures (if c in GridOf(ids, positions, g) then GridOf(ids, positions, g)[c] else []) == CellMembers(ids, positions, g, c)
  {
    if ids != [] {
      GridOfBuckets(ids[..|ids| - 1], positions, g, c);
    }
  }

  /** Cell offset of `d` from `c`, when both are within one step on every axis,
      comes strictly before offset (dx, dy, dz) in the dx-dy-dz loop order. */
  predicate SweptBefore(d: Cell, c: Cell, dx: int, dy: int, dz: int)
  {
    CellsAdjacent(d, c) &&
    (d.x - c.x < dx || (d.x - c.x == dx && (d.y - c.y < dy || (d.y - c.y == dy && d.z - c.z < dz))))
  }

  class SpatialIndex {
    var positions: map<SatId, Pos>
    var maxDist: int
    var gridSize: int
    /** The cell -> ids dictionary; an absent key is an empty cell. */
    var grid: map<Cell, seq<SatId>>

    /** The list stored under `c`, or the empty list. */
    function Bucket(c: Cell): seq<SatId>
      reads this
    {
      if c in grid then grid[c] else []
    }

    /** Every satellite is filed under its own cell, and nowhere else. */
    ghost predicate Valid()
      reads this
    {
      gridSize > 0 && gridSize == maxDist &&
      (forall c, s :: s in Bucket(c) ==> s in positions && CellOf(positions[s], gridSize) == c) &&
      (forall s :: s in positions ==> s in Bucket(CellOf(positions[s], gridSize)))
    }

    /** Builds the grid; `ids` is the iteration order of the positions dictionary. */
    constructor (ids: seq<SatId>, positions: map<SatId, Pos>, maxDist: int)
      requires maxDist > 0 && Covers(ids, positions)
      ensures Valid()
      ensures this.positions == positions && this.maxDist == maxDist
      ensures grid == GridOf(ids, positions, maxDist)
    {
      this.positions := positions;
      this.maxDist := maxDist;
      this.gridSize := maxDist;
      this.grid := map[];
      new;
      for i := 0 to |ids|
        invariant this.positions == positions && this.maxDist == maxDist && gridSize == maxDist
        invariant grid == GridOf(ids[..i], positions, gridSize)
      {
        var id := ids[i];
        var key := CellOf(positions[id], gridSize);
        grid := grid[key := Bucket(key) + [id]];
        assert ids[..i + 1][..i] == ids[..i];
      }
      assert ids[..|ids|] == ids;
      forall c ensures Bucket(c) == CellMembers(ids, positions, maxDist, c) {
        GridOfBuckets(ids, positions, maxDist, c);
      }
    }

    /** The satellites whose cell the 27-cell sweep around `c` has reached
        before offset (dx, dy, dz). */
    ghost function Swept(c: Cell, dx: int, dy: int, dz: int): set<SatId>
      requires Valid()
      reads this
    {
      set s | s in positions && SweptBefore(CellOf(positions[s], gridSize), c, dx, dy, dz)
    }

    /** Visiting one offset adds exactly the ids stored under that cell. */
    lemma SweptCell(c: Cell, dx: int, dy: int, dz: int)
      requires Valid() && -1 <= dx <= 1 && -1 <= dy <= 1 && -1 <= dz <= 1
      ensures Swept(c, dx, dy, dz + 1) == Swept(c, dx, dy, dz) + Elems(Bucket(Cell(c.x + dx, c.y + dy, c.z + dz)))
    {
      var key := Cell(c.x + dx, c.y + dy, c.z + dz);
      forall s | s in Elems(Bucket(key)) ensures s in Swept(c, dx, dy, dz + 1) {
        assert s in Bucket(key);
      }
    }

    /** Finishing a row of the sweep moves on to the next row. */
    lemma SweptRow(c: Cell, dx: int, dy: int)
      requires Valid()
      ensures Swept(c, dx, dy, 2) == Swept(c, dx, dy + 1, -1)
    {
    }

    /** Finishing a plane of the sweep moves on to the next plane. */
    lemma SweptPlane(c: Cell, dx: int)
      requires Valid()
      ensures Swept(c, dx, 2, -1) == Swept(c, dx + 1, -1, -1)
    {
    }

    /** Satellites in the 27 cells around `id`'s cell, minus `id` itself. */
    method GetPotentialNeighbors(id: SatId) returns (r: set<SatId>)
      requires Valid() && id in positions
      ensures r == set s | s in positions && s != id &&
                           CellsAdjacent(CellOf(positions[s], gridSize), CellOf(positions[id], gridSize))
      ensures id !in r
      ensures forall s :: s in positions && s != id && CoordsWithin(positions[s], positions[id], gridSize) ==> s in r
    {
      var c := CellOf(positions[id], gridSize);
      var neighbors: set<SatId> := {};
      for dx := -1 to 2
        invariant neighbors == Swept(c, dx, -1, -1)
      {
        for dy := -1 to 2
          invariant neighbors == Swept(c, dx, dy, -1)
        {
          for dz := -1 to 2
            invariant neighbors == Swept(c, dx, dy, dz)
          {
            var key := Cell(c.x + dx, c.y + dy, c.z + dz);
            SweptCell(c, dx, dy, dz);
            neighbors := neighbors + Elems(Bucket(key));
          }
          SweptRow(c, dx, dy);
        }
        SweptPlane(c, dx);
      }
      r := neighbors - {id};
      forall s | s in positions && s != id && CoordsWithin(positions[s], positions[id], gridSize)
        ensures s in r
      {
        CoordsWithinAdjacent(positions[s], positions[id], gridSize);
      }
    }
  }
}
