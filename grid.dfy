/**
 * Grid geometry shared by the maze generator, the navigation query and the
 * entities that move on the maze.
 *
 * Directions are encoded as the cell's wall indices: 0 = top (y - 1),
 * 1 = right (x + 1), 2 = bottom (y + 1), 3 = left (x - 1). The grid is
 * `cols` cells wide and `rows` cells high, indexed by (x, y).
 */
module Grid {

  datatype Pos = Pos(x: int, y: int)

  /** The cell where generation starts, where the player spawns (the start marker). */
  const Origin := Pos(0, 0)

  predicate IsDir(d: int) { 0 <= d < 4 }

  /** Horizontal component of the unit vector of direction `d`. */
  function Dx(d: int): int
  {
    if d == 1 then 1 else if d == 3 then -1 else 0
  }

  /** Vertical component of the unit vector of direction `d` (y grows downwards). */
  function Dy(d: int): int
  {
    if d == 0 then -1 else if d == 2 then 1 else 0
  }

  /** The wall on the far side of a shared wall: `(d + 2) % 4`. */
  function Opposite(d: int): (o: int)
    requires IsDir(d)
    ensures IsDir(o) && o != d
    ensures Dx(o) == -Dx(d) && Dy(o) == -Dy(d)
  {
    (d + 2) % 4
  }

  function Neighbour(p: Pos, d: int): Pos
  {
    Pos(p.x + Dx(d), p.y + Dy(d))
  }

  /** True of the four unit cardinal vectors and of nothing else. */
  predicate IsUnitStep(dx: int, dy: int)
  {
    (dx == 0 && (dy == 1 || dy == -1)) || (dy == 0 && (dx == 1 || dx == -1))
  }

  /** The direction index of a unit cardinal vector. */
  function DirOf(dx: int, dy: int): (d: int)
    requires IsUnitStep(dx, dy)
    ensures IsDir(d) && Dx(d) == dx && Dy(d) == dy
  {
    if dy == -1 then 0 else if dx == 1 then 1 else if dy == 1 then 2 else 3
  }

  /** Every direction's vector is a unit step, and `DirOf` recovers the direction from it. */
  lemma DirRoundTrip(d: int)
    requires IsDir(d)
    ensures IsUnitStep(Dx(d), Dy(d)) && DirOf(Dx(d), Dy(d)) == d
  {
  }

  /**
   * The directions `d` from `k` on whose flag `wanted[d]` is set, in
   * increasing order: the order top, right, bottom, left in which the
   * generator collects its candidate neighbours.
   */
  function Candidates(wanted: seq<bool>, k: nat): (ds: seq<int>)
    requires k <= |wanted|
    ensures forall i | 0 <= i < |ds| :: k <= ds[i] < |wanted|
    ensures forall i, j | 0 <= i < j < |ds| :: ds[i] < ds[j]
    ensures forall d | k <= d < |wanted| :: d in ds <==> wanted[d]
    decreases |wanted| - k
  {
    if k == |wanted| then []
    else if wanted[k] then [k] + Candidates(wanted, k + 1)
    else Candidates(wanted, k + 1)
  }

  predicate InGrid(cols: int, rows: int, p: Pos)
  {
    0 <= p.x < cols && 0 <= p.y < rows
  }

  /** All cells of a `cols` x `rows` grid. */
  function Cells(cols: int, rows: int): set<Pos>
  {
    set x, y | 0 <= x < cols && 0 <= y < rows :: Pos(x, y)
  }

  function Row(cols: int, y: int): set<Pos>
  {
    set x | 0 <= x < cols :: Pos(x, y)
  }

  lemma {:induction false} RowCount(cols: nat, y: int)
    ensures |Row(cols, y)| == cols
  {
    if cols > 0 {
      var shorter, last := Row(cols - 1, y), Pos(cols - 1, y);
      RowCount(cols - 1, y);
      forall p | p in Row(cols, y) ensures p in shorter + {last} {
        if p.x < cols - 1 {
          assert Pos(p.x, p.y) in shorter;
        }
      }
      forall p | p in shorter ensures p in Row(cols, y) {
        assert Pos(p.x, p.y) in Row(cols, y);
      }
      assert last in Row(cols, y) && last !in shorter;
      assert Row(cols, y) == shorter + {last};
    } else {
      assert Row(cols, y) == {};
    }
  }

  lemma CellsSplit(cols: int, rows: nat)
    ensures Cells(cols, rows + 1) == Cells(cols, rows) + Row(cols, rows)
    ensures Cells(cols, rows) !! Row(cols, rows)
  {
    forall p | p in Cells(cols, rows + 1) ensures p in Cells(cols, rows) + Row(cols, rows) {
      if p.y < rows {
        assert Pos(p.x, p.y) in Cells(cols, rows);
      } else {
        assert Pos(p.x, p.y) in Row(cols, rows);
      }
    }
    forall p | p in Cells(cols, rows) + Row(cols, rows) ensures p in Cells(cols, rows + 1) {
      assert Pos(p.x, p.y) in Cells(cols, rows + 1);
    }
  }

  /** A grid has exactly cols * rows cells. */
  lemma {:induction false} CellsCount(cols: nat, rows: nat)
    ensures |Cells(cols, rows)| == cols * rows
  {
    if rows > 0 {
      var upper, last := Cells(cols, rows - 1), Row(cols, rows - 1);
      CellsCount(cols, rows - 1);
      RowCount(cols, rows - 1);
      CellsSplit(cols, rows - 1);
      assert Cells(cols, rows) == upper + last;
      assert |upper + last| == |upper| + |last|;
      assert cols * rows == cols * (rows - 1) + cols;
    } else {
      assert Cells(cols, rows) == {};
      assert cols * rows == 0;
    }
  }

  /** A set whose every element lies in the grid is a subset of the grid's cells. */
  lemma InGridSubset(cols: int, rows: int, s: set<Pos>)
    requires forall p | p in s :: InGrid(cols, rows, p)
    ensures s <= Cells(cols, rows)
  {
    forall p | p in s ensures p in Cells(cols, rows) {
      assert Pos(p.x, p.y) in Cells(cols, rows);
    }
  }

  /** A subset of the grid has at most cols * rows cells, and all of them only when it is the grid. */
  lemma SubsetOfCells(cols: nat, rows: nat, s: set<Pos>)
    requires s <= Cells(cols, rows)
    ensures |s| <= cols * rows
    ensures |s| == cols * rows ==> s == Cells(cols, rows)
  {
    var all := Cells(cols, rows);
    CellsCount(cols, rows);
    assert all == s + (all - s);
    assert |all| == |s| + |all - s|;
    if |s| == cols * rows {
      assert |all - s| == 0;
      assert all - s == {};
    }
  }

  /**
   * A passage between two adjacent cells, named by its top-left end `lo` and
   * its bottom-right end `hi`, so that both cells of a wall pair name it alike.
   */
  datatype Edge = Edge(lo: Pos, hi: Pos)

  /** The passage behind wall `d` of cell `p`. */
  function EdgeAt(p: Pos, d: int): (e: Edge)
    requires IsDir(d)
    ensures e.lo == p || e.hi == p
    ensures e.hi == Neighbour(e.lo, 1) || e.hi == Neighbour(e.lo, 2)
  {
    if d == 1 || d == 2 then Edge(p, Neighbour(p, d)) else Edge(Neighbour(p, d), p)
  }

  /** Wall `d` of `p` and wall `(d + 2) % 4` of its neighbour name the same passage. */
  lemma EdgeAtPair(p: Pos, d: int)
    requires IsDir(d)
    ensures Neighbour(Neighbour(p, d), Opposite(d)) == p
    ensures EdgeAt(Neighbour(p, d), Opposite(d)) == EdgeAt(p, d)
  {
  }

  /** A passage is named by exactly two (cell, wall) pairs: the two sides of one wall pair. */
  lemma EdgeAtSides(p: Pos, d: int, q: Pos, k: int)
    requires IsDir(d) && IsDir(k)
    requires EdgeAt(q, k) == EdgeAt(p, d)
    ensures (q == p && k == d) || (q == Neighbour(p, d) && k == Opposite(d))
  {
  }

  /** Every neighbour of `p` that lies in the grid is in `s`. */
  ghost predicate ClosedIn(cols: int, rows: int, s: set<Pos>, p: Pos)
  {
    forall d | IsDir(d) :: InGrid(cols, rows, Neighbour(p, d)) ==> Neighbour(p, d) in s
  }

  lemma {:induction false} ClosedReaches(cols: int, rows: int, s: set<Pos>, x: int, y: int)
    requires Origin in s
    requires forall p {:trigger ClosedIn(cols, rows, s, p)} | p in s :: ClosedIn(cols, rows, s, p)
    requires 0 <= x < cols && 0 <= y < rows
    ensures Pos(x, y) in s
    decreases x + y
  {
    if y > 0 {
      ClosedReaches(cols, rows, s, x, y - 1);
      assert ClosedIn(cols, rows, s, Pos(x, y - 1));
      assert Neighbour(Pos(x, y - 1), 2) == Pos(x, y);
    } else if x > 0 {
      ClosedReaches(cols, rows, s, x - 1, y);
      assert ClosedIn(cols, rows, s, Pos(x - 1, y));
      assert Neighbour(Pos(x - 1, y), 1) == Pos(x, y);
    }
  }

  /**
   * A set of cells that holds the origin and is closed under moving to an
   * in-grid neighbour covers the whole grid.
   */
  lemma ClosedCoversGrid(cols: int, rows: int, s: set<Pos>)
    requires Origin in s
    requires forall p {:trigger ClosedIn(cols, rows, s, p)} | p in s :: ClosedIn(cols, rows, s, p)
    ensures Cells(cols, rows) <= s
  {
    forall q | q in Cells(cols, rows) ensures q in s {
      ClosedReaches(cols, rows, s, q.x, q.y);
    }
  }

  /** Walking from `p` along `dirs` only through passages in `open`. */
  ghost predicate OpenWalk(open: set<Edge>, p: Pos, dirs: seq<int>)
    decreases |dirs|
  {
    dirs == [] ||
    (IsDir(dirs[0]) && EdgeAt(p, dirs[0]) in open && OpenWalk(open, Neighbour(p, dirs[0]), dirs[1..]))
  }

  /** Where a walk from `p` along `dirs` ends. */
  function WalkEnd(p: Pos, dirs: seq<int>): Pos
    decreases |dirs|
  {
    if dirs == [] then p else WalkEnd(Neighbour(p, dirs[0]), dirs[1..])
  }

  lemma {:induction false} OpenWalkExtend(open: set<Edge>, p: Pos, dirs: seq<int>, d: int)
    requires OpenWalk(open, p, dirs)
    requires IsDir(d) && EdgeAt(WalkEnd(p, dirs), d) in open
    ensures OpenWalk(open, p, dirs + [d])
    ensures WalkEnd(p, dirs + [d]) == Neighbour(WalkEnd(p, dirs), d)
    decreases |dirs|
  {
    if dirs == [] {
      assert dirs + [d] == [d];
      assert [d][1..] == [];
    } else {
      assert (dirs + [d])[1..] == dirs[1..] + [d];
      OpenWalkExtend(open, Neighbour(p, dirs[0]), dirs[1..], d);
    }
  }

  /**
   * The shape a depth-first backtracker leaves behind: every reached cell but
   * the origin has a parent direction, across an opened passage, to a reached
   * cell of smaller depth.
   */
  ghost predicate Rooted(reached: set<Pos>, open: set<Edge>, parent: map<Pos, int>, depth: map<Pos, nat>)
  {
    && Origin in reached
    && (forall p | p in reached :: p in depth)
    && (forall p {:trigger LinkedToParent(reached, open, parent, depth, p)} | p in reached && p != Origin ::
          LinkedToParent(reached, open, parent, depth, p))
  }

  /** `p` reaches its parent through an opened passage, and the parent is shallower. */
  ghost predicate LinkedToParent(reached: set<Pos>, open: set<Edge>, parent: map<Pos, int>, depth: map<Pos, nat>, p: Pos)
  {
    && p in parent && IsDir(parent[p])
    && EdgeAt(p, parent[p]) in open
    && Neighbour(p, parent[p]) in reached
    && p in depth && Neighbour(p, parent[p]) in depth
    && depth[Neighbour(p, parent[p])] < depth[p]
  }

  /** Reaching a new neighbour `q` of a reached cell through wall `d` keeps the tree rooted. */
  lemma RootedExtend(reached: set<Pos>, open: set<Edge>, parent: map<Pos, int>, depth: map<Pos, nat>,
                     from: Pos, d: int, q: Pos, qDepth: nat)
    requires Rooted(reached, open, parent, depth)
    requires IsDir(d) && from in reached && q == Neighbour(from, d) && q !in reached
    requires from in depth && qDepth == depth[from] + 1
    ensures Rooted(reached + {q}, open + {EdgeAt(from, d)}, parent[q := Opposite(d)], depth[q := qDepth])
  {
    var reached', open', parent', depth' :=
      reached + {q}, open + {EdgeAt(from, d)}, parent[q := Opposite(d)], depth[q := qDepth];
    EdgeAtPair(from, d);
    forall p | p in reached' && p != Origin
      ensures LinkedToParent(reached', open', parent', depth', p)
    {
      if p != q {
        assert LinkedToParent(reached, open, parent, depth, p);
      }
    }
    assert forall p | p in reached' :: p in depth';
    assert Origin in reached';
    assert Rooted(reached', open', parent', depth');
  }

  /** In a rooted tree every reached cell can be walked to from the origin through open passages. */
  lemma {:induction false} RouteFromOrigin(reached: set<Pos>, open: set<Edge>, parent: map<Pos, int>,
                                           depth: map<Pos, nat>, p: Pos) returns (dirs: seq<int>)
    requires Rooted(reached, open, parent, depth)
    requires p in reached
    ensures OpenWalk(open, Origin, dirs) && WalkEnd(Origin, dirs) == p
    decreases depth[p]
  {
    if p == Origin {
      dirs := [];
    } else {
      assert LinkedToParent(reached, open, parent, depth, p);
      var d := parent[p];
      var q := Neighbour(p, d);
      var toQ := RouteFromOrigin(reached, open, parent, depth, q);
      EdgeAtPair(p, d);
      OpenWalkExtend(open, Origin, toQ, Opposite(d));
      dirs := toQ + [Opposite(d)];
    }
  }
}
