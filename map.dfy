/**
 * The square arena grid (core/map.c).  Cells are stored row by row, the
 * cell (x, y) at index y * size + x; a freshly created map has walls on
 * its border and floor inside, and every query outside the grid answers
 * "wall".
 */
module GridMap {
  import opened Util
  import opened Vectors

  /** Terrain codes as in core/map.h: FLOOR = 0, WALL = 1. */
  datatype Terrain = Floor | Wall
  {
    function Code(): int
    {
      if this == Floor then 0 else 1
    }
  }

  /** map_is_valid_pos: inside the size x size grid; a map of size 0 (destroyed) has no valid position. */
  predicate InBounds(size: int, p: Vec2)
    ensures InBounds(size, p) ==> size > 0
  {
    0 <= p.x < size && 0 <= p.y < size
  }

  /** map_pos_to_index: row-major cell index; a position on the grid indexes one of its size * size cells. */
  function PosToIndex(size: int, p: Vec2): (i: int)
    ensures InBounds(size, p) ==> 0 <= i < size * size
  {
    if InBounds(size, p) then
      MulMono(0, p.y, size);
      MulMono(p.y, size - 1, size);
      p.y * size + p.x
    else p.y * size + p.x
  }

  /**
   * map_index_to_pos: C's truncating `%` and `/` by the size.  On a
   * natural index they agree with Euclidean ones, and an index of one of
   * the size * size cells gives a position on the grid.
   */
  function IndexToPos(size: int, index: int): (p: Vec2)
    requires size != 0
    ensures size > 0 && index >= 0 ==> p == Vec2(index % size, index / size)
    ensures size > 0 && 0 <= index < size * size ==> InBounds(size, p)
  {
    if size > 0 && 0 <= index < size * size then
      RowBelowSize(size, index);
      Create(CMod(index, size), CDiv(index, size))
    else Create(CMod(index, size), CDiv(index, size))
  }

  /** The terrain map_create puts at p: wall on the border, floor elsewhere. */
  function BorderTerrain(size: int, p: Vec2): Terrain
  {
    if p.x == 0 || p.x == size - 1 || p.y == 0 || p.y == size - 1 then Wall else Floor
  }

  /** map_get_terrain over the cells: any position outside the grid is a wall. */
  function TerrainAt(size: int, cells: seq<Terrain>, p: Vec2): (t: Terrain)
    requires |cells| == size * size
    ensures !InBounds(size, p) ==> t == Wall
    ensures InBounds(size, p) ==> 0 <= PosToIndex(size, p) < |cells| && t == cells[PosToIndex(size, p)]
  {
    if !InBounds(size, p) then Wall
    else
      cells[PosToIndex(size, p)]
  }

  /** map_is_walkable over the cells: exactly the floor cells are walkable. */
  predicate Walkable(size: int, cells: seq<Terrain>, p: Vec2)
    requires |cells| == size * size
    ensures Walkable(size, cells, p) ==> InBounds(size, p)
  {
    TerrainAt(size, cells, p) == Floor
  }

  /** The grid map_create builds: every in-bounds cell holds its BorderTerrain. */
  ghost predicate Walled(size: int, cells: seq<Terrain>)
    requires |cells| == size * size
  {
    forall p :: InBounds(size, p) ==> TerrainAt(size, cells, p) == BorderTerrain(size, p)
  }

  /** On a walled grid only interior cells are walkable: never the border, never outside. */
  lemma {:induction false} WalledWalkable(size: int, cells: seq<Terrain>, p: Vec2)
    requires |cells| == size * size && Walled(size, cells)
    ensures Walkable(size, cells, p) <==> 0 < p.x < size - 1 && 0 < p.y < size - 1
  {
  }

  lemma {:induction false} MulMono(a: int, b: int, c: int)
    requires a <= b && c >= 0
    ensures a * c <= b * c
  {
    assert b * c - a * c == (b - a) * c;
  }

  /** Row-major order: an earlier row, or an earlier column in the same row, has a smaller index. */
  lemma {:induction false} IndexOrder(size: int, p: Vec2, q: Vec2)
    requires InBounds(size, p) && InBounds(size, q)
    requires p.y < q.y || (p.y == q.y && p.x < q.x)
    ensures PosToIndex(size, p) < PosToIndex(size, q)
  {
    assert PosToIndex(size, p) == p.y * size + p.x && PosToIndex(size, q) == q.y * size + q.x;
    if p.y < q.y {
      MulMono(p.y + 1, q.y, size);
      assert (p.y + 1) * size == p.y * size + size;
    }
  }

  lemma {:induction false} DivModUnique(a: int, b: int, q: int, r: int)
    requires b > 0 && 0 <= r < b && a == q * b + r
    ensures a / b == q && a % b == r
  {
    var q' := a / b;
    var r' := a % b;
    assert a == q' * b + r';
    if q' < q {
      MulMono(q' + 1, q, b);
    } else if q < q' {
      MulMono(q + 1, q', b);
    }
  }

  /** map_pos_to_index and map_index_to_pos are mutual inverses on valid positions. */
  lemma {:induction false} PosIndexRoundTrip(size: int, p: Vec2)
    requires InBounds(size, p)
    ensures 0 <= PosToIndex(size, p) < size * size
    ensures IndexToPos(size, PosToIndex(size, p)) == p
  {
    DivModUnique(PosToIndex(size, p), size, p.y, p.x);
  }

  /** ... and on indices of the grid. */
  lemma {:induction false} IndexPosRoundTrip(size: int, index: int)
    requires size > 0 && 0 <= index < size * size
    ensures InBounds(size, IndexToPos(size, index))
    ensures PosToIndex(size, IndexToPos(size, index)) == index
  {
    RowBelowSize(size, index);
  }

  /** The row of an index below size * size is below size. */
  lemma {:induction false} RowBelowSize(size: int, index: int)
    requires size > 0 && 0 <= index < size * size
    ensures 0 <= index / size < size
  {
    var y := index / size;
    assert index == y * size + index % size;
    if y >= size {
      MulMono(size, y, size);
    }
  }

  /**
   * The Map record: its size and the heap block of cells it owns.  A
   * destroyed map has size 0 and an empty block (the C code's NULL).
   */
  class Map {
    var size: int
    var ground: array<Terrain>

    ghost predicate Valid()
      reads this
    {
      ground.Length == size * size
    }

    /** map_create: the border is wall, the interior floor, filled row by row. */
    constructor (size: int)
      ensures Valid() && fresh(ground) && this.size == size
      ensures Walled(size, ground[..])
    {
      this.size := size;
      SquareNat(size);
      var cells := new Terrain[size * size];
      var y := 0;
      while y < size
        invariant size <= 0 || 0 <= y <= size
        invariant forall p :: InBounds(size, p) && p.y < y ==> TerrainAt(size, cells[..], p) == BorderTerrain(size, p)
      {
        var x := 0;
        while x < size
          invariant 0 <= x <= size
          invariant forall p :: InBounds(size, p) && (p.y < y || (p.y == y && p.x < x)) ==> TerrainAt(size, cells[..], p) == BorderTerrain(size, p)
        {
          var here := Create(x, y);
          assert 0 <= PosToIndex(size, here) < size * size;
          var index := y * size + x;
          if x == 0 || x == size - 1 || y == 0 || y == size - 1 {
            cells[index] := Wall;
          } else {
            cells[index] := Floor;
          }
          forall p | InBounds(size, p) && (p.y < y || (p.y == y && p.x < x))
            ensures PosToIndex(size, p) != index
          {
            IndexOrder(size, p, here);
          }
          x := x + 1;
        }
        y := y + 1;
      }
      ground := cells;
    }

    /** map_get_terrain */
    function GetTerrain(p: Vec2): (t: Terrain)
      reads this, ground
      requires Valid()
      ensures !IsValidPos(p) ==> t == Wall
      ensures t == TerrainAt(size, ground[..], p)
    {
      if !IsValidPos(p) then Wall
      else
        ground[PosToIndex(size, p)]
    }

    /** map_set_terrain: writes the one cell at p when p is on the grid, nothing otherwise. */
    method SetTerrain(p: Vec2, t: Terrain)
      requires Valid()
      modifies ground
      ensures Valid()
      ensures IsValidPos(p) ==> TerrainAt(size, ground[..], p) == t
      ensures forall q :: q != p ==> TerrainAt(size, ground[..], q) == TerrainAt(size, old(ground[..]), q)
      ensures !IsValidPos(p) ==> ground[..] == old(ground[..])
    {
      if IsValidPos(p) {
        assert 0 <= PosToIndex(size, p) < size * size;
        ground[p.y * size + p.x] := t;
        forall q | q != p && InBounds(size, q)
          ensures PosToIndex(size, q) != PosToIndex(size, p)
        {
          if q.y < p.y || (q.y == p.y && q.x < p.x) {
            IndexOrder(size, q, p);
          } else {
            IndexOrder(size, p, q);
          }
        }
      }
    }

    /** map_index_to_pos */
    function IndexToPosition(index: int): (p: Vec2)
      reads this
      requires size != 0
      ensures size > 0 && 0 <= index < size * size ==> IsValidPos(p) && PosToIndex(size, p) == index
    {
      if size > 0 && 0 <= index < size * size then IndexPosRoundTrip(size, index); IndexToPos(size, index)
      else IndexToPos(size, index)
    }

    /** map_pos_to_index */
    function PositionToIndex(p: Vec2): (index: int)
      reads this
      ensures IsValidPos(p) ==> 0 <= index < size * size && IndexToPos(size, index) == p
    {
      if IsValidPos(p) then PosIndexRoundTrip(size, p); PosToIndex(size, p)
      else PosToIndex(size, p)
    }

    /** map_is_valid_pos */
    predicate IsValidPos(p: Vec2)
      reads this
    {
      InBounds(size, p)
    }

    /** map_is_walkable: floor only, so never outside the grid. */
    predicate IsWalkable(p: Vec2)
      reads this, ground
      requires Valid()
      ensures IsWalkable(p) ==> IsValidPos(p)
    {
      GetTerrain(p) == Floor
    }

    /** map_destroy: releases the cells and leaves an empty map of size 0. */
    method Destroy()
      modifies this
      ensures Valid() && size == 0 && ground.Length == 0
    {
      ground := new Terrain[0];
      size := 0;
    }
  }

  lemma {:induction false} SquareNat(n: int)
    ensures n * n >= 0
  {
    if n < 0 {
      assert n * n == (-n) * (-n);
    }
  }
}
