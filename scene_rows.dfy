/**
 * The row-based chart scene: a jagged list of rows of cells, with lookup,
 * insertion with column clamping, insertion with row creation, removal by
 * identity, the per-row re-layout of positions and anchors, bulk chart
 * construction and the stitch-mode mouse-release rule.
 *
 * Cells are objects in the program; here a cell is an identity (CellId) into
 * the scene's arena of cell states, and the grid holds identities.
 */
module SceneRows {
  import opened Wrappers
  import EditModes

  type CellId = nat

  datatype Point = Point(x: int, y: int)

  /** A point whose two coordinates are zero counts as a "null" point. */
  const Origin: Point := Point(0, 0)

  const White: string := "#ffffff"

  /** The horizontal gap between two neighbouring cells of a row. */
  const Gutter: int := 5

  /** What the scene changes on a cell: position, anchor, colour, and its stitch with its side. */
  datatype CellState = CellState(pos: Point, anchor: Point, color: string, stitch: string, wrongSide: bool)

  /** A command pushed on the scene's undo stack, recorded but not executed here. */
  datatype Command =
    | AddCellCmd(at: Point, stitch: string, wrongSide: bool)
    | RemoveCellCmd(cell: CellId)
    | SetCellStitchCmd(cell: CellId, stitch: string)

  /** A mouse release: its scene position, whether it is the left button, and whether Control is held. */
  datatype Release = Release(x: int, y: int, leftButton: bool, control: bool)

  type Grid = seq<seq<CellId>>

  // ---------------------------------------------------------------------------
  // Layout and its inverse

  /**
   * The canvas position of column `column` of row `row` for cells of size w by
   * h. The lower edge of the cell it places lies in that row's band.
   */
  function LayoutPos(row: int, column: int, w: int, h: int): (p: Point)
    ensures h > 0 ==> GridCoord(p.y + h, h) == row
  {
    var p := Point(column * w + column * Gutter, row * h);
    if h > 0 then GridCoordInside(row, h, h); p else p
  }

  /** A cell re-laid at `p` with a forced anchor: position and anchor `p`, colour white. */
  function Placed(st: CellState, p: Point): (r: CellState)
    ensures r.pos == p && r.anchor == p && r.color == White
    ensures r.stitch == st.stitch && r.wrongSide == st.wrongSide
  {
    st.(pos := p, anchor := p, color := White)
  }

  /** The integer ceiling of v / size. */
  function CeilDiv(v: int, size: int): int
    requires size > 0
  {
    -((-v) / size)
  }

  /**
   * The grid line index a scene coordinate resolves to, ceil(v / size) - 1:
   * the band (k * size, (k + 1) * size] resolves to k, so a point exactly on
   * the line k * size resolves to the preceding index k - 1.
   */
  function GridCoord(v: int, size: int): (k: int)
    requires size > 0
    ensures k * size < v <= (k + 1) * size
  {
    var q := (-v) / size;
    assert q * size <= -v < q * size + size;
    CeilDiv(v, size) - 1
  }

  /** The band property determines the resolved index: GridCoord is the only such index. */
  lemma GridCoordUnique(v: int, size: int, j: int)
    requires size > 0
    requires j * size < v <= (j + 1) * size
    ensures j == GridCoord(v, size)
  {
    var k := GridCoord(v, size);
    if j < k {
      MulMonotone(j + 1, k, size);
    } else if k < j {
      MulMonotone(k + 1, j, size);
    }
  }

  /**
   * Layout and hit-testing agree on rows: every point of the vertical band a
   * laid-out cell occupies, its top edge excluded, resolves to the cell's row.
   */
  lemma LayoutRowResolves(row: int, column: int, w: int, h: int, v: int)
    requires h > 0
    requires LayoutPos(row, column, w, h).y < v <= LayoutPos(row, column, w, h).y + h
    ensures GridCoord(v, h) == row
  {
    assert row * h < v <= (row + 1) * h;
    GridCoordUnique(v, h, row);
  }

  /**
   * A release in the first band above the chart, at a scene height in
   * (-h, 0], resolves to row -1: a row index no list of rows holds.
   */
  lemma ClickAboveChartRow(v: int, h: int)
    requires h > 0 && -h < v <= 0
    ensures GridCoord(v, h) == -1
  {
    GridCoordUnique(v, h, -1);
  }

  lemma MulMonotone(a: int, b: int, size: int)
    requires a <= b && size > 0
    ensures a * size <= b * size
  {
    assert b * size - a * size == (b - a) * size;
  }

  /** A point exactly on the grid line k * size resolves to k - 1, the preceding column or row. */
  lemma {:induction false} GridCoordOnLine(k: int, size: int)
    requires size > 0
    ensures GridCoord(k * size, size) == k - 1
  {
    assert (k - 1) * size == k * size - size;
    GridCoordUnique(k * size, size, k - 1);
  }

  /** Any point strictly inside the band after line k * size resolves to k. */
  lemma GridCoordInside(k: int, size: int, d: int)
    requires size > 0 && 0 < d <= size
    ensures GridCoord(k * size + d, size) == k
  {
    assert (k + 1) * size == k * size + size;
    GridCoordUnique(k * size + d, size, k);
  }

  // ---------------------------------------------------------------------------
  // Rows as sequences

  /** The row with `c` inserted at index i. */
  function InsertAt(s: seq<CellId>, i: nat, c: CellId): (r: seq<CellId>)
    requires i <= |s|
    ensures |r| == |s| + 1 && r[i] == c
    ensures r[..i] == s[..i] && r[i + 1..] == s[i..]
    ensures multiset(r) == multiset(s) + multiset{c}
  {
    assert s == s[..i] + s[i..];
    s[..i] + [c] + s[i..]
  }

  /**
   * The index `addCell` inserts at for column x in a row of length len: at most
   * len (the source clamps a column past the end to the end), and index 0 for a
   * column at or below 0, where the list prepends.
   */
  function InsertIndex(x: int, len: nat): (i: nat)
    ensures i <= len
    ensures 0 <= x <= len ==> i == x
    ensures x >= len ==> i == len
    ensures x <= 0 ==> i == 0
  {
    if len <= x then len else if x <= 0 then 0 else x
  }

  /** The index of the first occurrence of c in s. */
  function IndexOf(s: seq<CellId>, c: CellId): (i: nat)
    requires c in s
    ensures i < |s| && s[i] == c && c !in s[..i]
  {
    if s[0] == c then 0 else 1 + IndexOf(s[1..], c)
  }

  /** The row with the first occurrence of c removed; the row itself when c is absent. */
  function RemoveOne(s: seq<CellId>, c: CellId): (r: seq<CellId>)
    ensures c !in s ==> r == s
    ensures c in s ==> |r| == |s| - 1
  {
    if c !in s then s else s[..IndexOf(s, c)] + s[IndexOf(s, c) + 1..]
  }

  /** Removing from a row removes one occurrence of c exactly when there is one, and nothing else. */
  lemma RemoveOneCount(s: seq<CellId>, c: CellId)
    ensures c in s ==> |RemoveOne(s, c)| == |s| - 1
    ensures multiset(RemoveOne(s, c)) == multiset(s) - multiset{c}
  {
    if c in s {
      var i := IndexOf(s, c);
      assert s == s[..i] + [c] + s[i + 1..];
      SplitCount(s[..i], c, s[i + 1..]);
    }
  }

  lemma SplitCount(before: seq<CellId>, c: CellId, after: seq<CellId>)
    ensures multiset(before + [c] + after) == multiset(before + after) + multiset{c}
  {
    assert multiset(before + [c] + after) == multiset(before) + multiset{c} + multiset(after);
  }

  /** Inserting a cell that is not in a row and then removing it gives back the row. */
  lemma InsertRemove(s: seq<CellId>, i: nat, c: CellId)
    requires i <= |s| && c !in s
    ensures RemoveOne(InsertAt(s, i, c), c) == s
  {
    var r := InsertAt(s, i, c);
    assert r == s[..i] + [c] + s[i..];
    assert c !in r[..i] by { assert r[..i] == s[..i]; }
    assert r[i] == c;
    IndexOfUnique(r, c, i);
    assert r[..i] + r[i + 1..] == s[..i] + s[i..];
    assert s[..i] + s[i..] == s;
  }

  lemma {:induction false} IndexOfUnique(s: seq<CellId>, c: CellId, i: nat)
    requires i < |s| && s[i] == c && c !in s[..i]
    ensures IndexOf(s, c) == i
  {
    if i > 0 {
      assert s[0] in s[..i];
      assert s[1..][..i - 1] == s[..i][1..];
      IndexOfUnique(s[1..], c, i - 1);
    }
  }

  predicate NoDup(s: seq<CellId>)
  {
    forall i, j :: 0 <= i < j < |s| ==> s[i] != s[j]
  }

  /** Element k of a row after removing c is element k of the row before, or k + 1 past the removed index. */
  lemma RemoveOneAt(s: seq<CellId>, c: CellId, k: nat)
    requires c in s && k < |s| - 1
    ensures |RemoveOne(s, c)| == |s| - 1
    ensures RemoveOne(s, c)[k] == if k < IndexOf(s, c) then s[k] else s[k + 1]
  {
  }

  /** Removing from a row without duplicates keeps it without duplicates and drops c from it. */
  lemma RemoveOneNoDup(s: seq<CellId>, c: CellId)
    requires NoDup(s)
    ensures NoDup(RemoveOne(s, c)) && c !in RemoveOne(s, c)
    ensures forall d :: d in RemoveOne(s, c) ==> d in s
  {
    if c in s {
      var i := IndexOf(s, c);
      var r := RemoveOne(s, c);
      forall a, b | 0 <= a < b < |r| ensures r[a] != r[b] {
        RemoveOneAt(s, c, a);
        RemoveOneAt(s, c, b);
      }
      forall k | 0 <= k < |r| ensures r[k] != c && r[k] in s {
        RemoveOneAt(s, c, k);
      }
    }
  }

  /** Inserting a cell that is not in a row without duplicates keeps it without duplicates. */
  lemma InsertAtNoDup(s: seq<CellId>, i: nat, c: CellId)
    requires i <= |s| && NoDup(s) && c !in s
    ensures NoDup(InsertAt(s, i, c))
    ensures forall d :: d in InsertAt(s, i, c) ==> d == c || d in s
  {
    var t := InsertAt(s, i, c);
    assert t == s[..i] + [c] + s[i..];
    assert forall k :: 0 <= k < |t| ==> t[k] == if k < i then s[k] else if k == i then c else s[k - 1];
  }

  // ---------------------------------------------------------------------------
  // The grid as a value

  /** Every cell occurs at most once in the whole grid. */
  predicate GridDistinct(g: Grid)
  {
    (forall r :: 0 <= r < |g| ==> NoDup(g[r])) &&
    (forall r1, r2, c :: 0 <= r1 < r2 < |g| && c in g[r1] ==> c !in g[r2])
  }

  predicate InGrid(g: Grid, c: CellId)
  {
    exists r :: 0 <= r < |g| && c in g[r]
  }

  /** The grid after `addCell` creates the one missing row, if any, for row y. */
  function WithRow(g: Grid, y: nat): (g': Grid)
    requires y <= |g|
    ensures |g'| == if y == |g| then |g| + 1 else |g|
    ensures y < |g'| && forall r :: 0 <= r < |g| ==> g'[r] == g[r]
    ensures y == |g| ==> g'[y] == []
  {
    if y == |g| then g + [[]] else g
  }

  /** The grid after `addCell(p, c)`: c inserted in row p.y at the clamped column of p.x. */
  function AddedGrid(g: Grid, p: Point, c: CellId): (g': Grid)
    requires 0 <= p.y <= |g|
    ensures |g'| == if p.y == |g| then |g| + 1 else |g|
    ensures |g'[p.y]| == (if p.y < |g| then |g[p.y]| else 0) + 1
    ensures forall r :: 0 <= r < |g| && r != p.y ==> g'[r] == g[r]
  {
    var g1 := WithRow(g, p.y);
    g1[p.y := InsertAt(g1[p.y], InsertIndex(p.x, |g1[p.y]|), c)]
  }

  /** The grid after `appendCell` has appended the missing rows so that index `row` exists. */
  function PaddedGrid(g: Grid, row: nat): (g': Grid)
    ensures |g'| == if row < |g| then |g| else row + 1
    ensures forall r :: 0 <= r < |g| ==> g'[r] == g[r]
    ensures forall r :: |g| <= r < |g'| ==> g'[r] == []
  {
    if row < |g| then g else g + seq(row + 1 - |g|, _ => [])
  }

  /** The grid after `appendCell(row, c)`: padding, then `addCell` at the end of that row. */
  function AppendedGrid(g: Grid, row: nat, c: CellId): (g': Grid)
    ensures |g'| == if row < |g| then |g| else row + 1
    ensures forall r :: 0 <= r < |g| && r != row ==> g'[r] == g[r]
    ensures forall r :: |g| <= r < |g'| && r != row ==> g'[r] == []
  {
    var g1 := PaddedGrid(g, row);
    AddedGrid(g1, Point(|g1[row]|, row), c)
  }

  /** The grid after `removeCell(c)`: the first occurrence of c taken out of every row. */
  function RemovedGrid(g: Grid, c: CellId): (g': Grid)
    ensures |g'| == |g|
    ensures forall r :: 0 <= r < |g| ==> g'[r] == RemoveOne(g[r], c)
  {
    seq(|g|, r requires 0 <= r < |g| => RemoveOne(g[r], c))
  }

  /** The first row containing c, or |g| when no row does. */
  function FirstRowWith(g: Grid, c: CellId): (y: nat)
    ensures y <= |g|
    ensures y < |g| ==> c in g[y]
    ensures forall k :: 0 <= k < y ==> c !in g[k]
  {
    if |g| == 0 then 0
    else if c in g[0] then 0
    else 1 + FirstRowWith(g[1..], c)
  }

  /** What `findGridPosition(c)` returns: (index in row, row) of the first row holding c, else (0, 0). */
  function GridPosition(g: Grid, c: CellId): (p: Point)
    ensures p == Origin || (0 <= p.y < |g| && 0 <= p.x < |g[p.y]| && g[p.y][p.x] == c)
  {
    var y := FirstRowWith(g, c);
    if y < |g| then Point(IndexOf(g[y], c), y) else Origin
  }

  /**
   * `addCell(p, c)` stores c at the clamped column of row p.y (so no gap
   * appears) and shifts the rest of the row one place right.
   */
  lemma AddedGridShape(g: Grid, p: Point, c: CellId)
    requires 0 <= p.y <= |g|
    ensures var row := AddedGrid(g, p, c)[p.y];
      var old_row := if p.y < |g| then g[p.y] else [];
      var i := InsertIndex(p.x, |old_row|);
      && row[i] == c
      && row[..i] == old_row[..i] && row[i + 1..] == old_row[i..]
  {
  }

  /** For a cell not yet in the grid, `addCell` followed by `removeCell` restores every row. */
  lemma {:induction false} AddThenRemove(g: Grid, p: Point, c: CellId)
    requires 0 <= p.y <= |g|
    requires !InGrid(g, c)
    ensures RemovedGrid(AddedGrid(g, p, c), c) == WithRow(g, p.y)
  {
    var g1 := WithRow(g, p.y);
    var g2 := AddedGrid(g, p, c);
    var g3 := RemovedGrid(g2, c);
    forall r | 0 <= r < |g1|
      ensures g3[r] == g1[r]
    {
      if r == p.y {
        assert c !in g1[r] by {
          if r < |g| { assert c !in g[r]; }
        }
        InsertRemove(g1[r], InsertIndex(p.x, |g1[r]|), c);
      } else {
        assert g1[r] == g[r];
        assert c !in g[r];
      }
    }
  }

  /**
   * `appendCell(row, c)` creates empty rows up to index `row`, keeps every
   * existing row as it was except row `row`, which gains c as its last element.
   */
  lemma AppendedGridShape(g: Grid, row: nat, c: CellId)
    ensures var g' := AppendedGrid(g, row, c);
      && |g'| == (if row < |g| then |g| else row + 1)
      && g'[row] == (if row < |g| then g[row] else []) + [c]
      && (forall r :: 0 <= r < |g'| && r != row ==> g'[r] == if r < |g| then g[r] else [])
  {
    var g1 := PaddedGrid(g, row);
    var s := g1[row];
    assert InsertIndex(|s|, |s|) == |s|;
    assert InsertAt(s, |s|, c) == s + [c];
  }

  /** `removeCell` never deletes a row, and a cell that is not in the grid leaves every row unchanged. */
  lemma RemovedGridAbsent(g: Grid, c: CellId)
    requires !InGrid(g, c)
    ensures RemovedGrid(g, c) == g
  {
    forall r | 0 <= r < |g| ensures RemoveOne(g[r], c) == g[r] {
      assert c !in g[r];
    }
  }

  /** Removing a cell from a grid takes exactly one cell out of exactly the rows that held it. */
  lemma RemovedGridRows(g: Grid, c: CellId, r: nat)
    requires r < |g|
    ensures c in g[r] ==> |RemovedGrid(g, c)[r]| == |g[r]| - 1
    ensures c !in g[r] ==> RemovedGrid(g, c)[r] == g[r]
    ensures multiset(RemovedGrid(g, c)[r]) == multiset(g[r]) - multiset{c}
  {
    RemoveOneCount(g[r], c);
  }

  /**
   * `findGridPosition(c)` names the first row holding c and the index of c in it,
   * and (0, 0) when no row holds c.
   */
  lemma GridPositionSpec(g: Grid, c: CellId)
    ensures var p := GridPosition(g, c);
      && (InGrid(g, c) ==>
            0 <= p.y < |g| && 0 <= p.x < |g[p.y]| && g[p.y][p.x] == c
            && c !in g[p.y][..p.x]
            && forall k :: 0 <= k < p.y ==> c !in g[k])
      && (!InGrid(g, c) ==> p == Origin)
  {
    var y := FirstRowWith(g, c);
    if !InGrid(g, c) {
      assert y == |g|;
    }
  }

  /** Inserting a fresh cell keeps every cell of the grid distinct. */
  lemma AddedGridDistinct(g: Grid, p: Point, c: CellId)
    requires 0 <= p.y <= |g| && GridDistinct(g) && !InGrid(g, c)
    ensures GridDistinct(AddedGrid(g, p, c))
  {
    var g1 := WithRow(g, p.y);
    var g2 := AddedGrid(g, p, c);
    var s := g1[p.y];
    var i := InsertIndex(p.x, |s|);
    assert s == [] || s == g[p.y];
    assert c !in s;
    InsertAtNoDup(s, i, c);
    forall r1, r2, d | 0 <= r1 < r2 < |g2| && d in g2[r1]
      ensures d !in g2[r2]
    {
      if r2 == p.y {
        assert g2[r1] == g[r1] && c !in g[r1];
        assert d != c && d !in s;
      } else if r1 == p.y {
        assert r2 < |g| && s == g[p.y];
        assert g2[r2] == g[r2] && c !in g[r2];
      }
    }
  }

  /** Removing a cell keeps every cell of the grid distinct and takes c out of the grid. */
  lemma RemovedGridDistinct(g: Grid, c: CellId)
    requires GridDistinct(g)
    ensures GridDistinct(RemovedGrid(g, c)) && !InGrid(RemovedGrid(g, c), c)
  {
    var g' := RemovedGrid(g, c);
    forall r | 0 <= r < |g| ensures NoDup(g'[r]) && c !in g'[r] {
      RemoveOneNoDup(g[r], c);
    }
    forall r1, r2, d | 0 <= r1 < r2 < |g'| && d in g'[r1]
      ensures d !in g'[r2]
    {
      RemoveOneNoDup(g[r1], c);
      RemoveOneNoDup(g[r2], c);
    }
  }

  /** Removal keeps a grid free of duplicates and within the arena. */
  lemma RemovedGridKeeps<V>(g: Grid, g': Grid, c: CellId, arena: map<CellId, V>)
    requires GridDistinct(g)
    requires forall r, d :: 0 <= r < |g| && d in g[r] ==> d in arena
    requires |g'| == |g| && forall r :: 0 <= r < |g| ==> g'[r] == RemoveOne(g[r], c)
    ensures g' == RemovedGrid(g, c) && GridDistinct(g')
    ensures forall r, d :: 0 <= r < |g'| && d in g'[r] ==> d in arena
  {
    RemovedGridDistinct(g, c);
    RemovedGridCells(g, c, arena);
  }

  /** Every cell of the grid after inserting c is c or a cell of the grid before. */
  lemma AddedGridCells<V>(g: Grid, p: Point, c: CellId, arena: map<CellId, V>)
    requires 0 <= p.y <= |g| && c in arena
    requires forall r, d :: 0 <= r < |g| && d in g[r] ==> d in arena
    ensures forall r, d :: 0 <= r < |AddedGrid(g, p, c)| && d in AddedGrid(g, p, c)[r] ==> d in arena
  {
    var g1 := WithRow(g, p.y);
    var s := g1[p.y];
    assert s == [] || s == g[p.y];
    var t := InsertAt(s, InsertIndex(p.x, |s|), c);
    forall d | d in t ensures d in arena {
      assert d in multiset(t);
    }
  }

  /** Every cell of the grid after removing c was a cell of the grid before. */
  lemma RemovedGridCells<V>(g: Grid, c: CellId, arena: map<CellId, V>)
    requires GridDistinct(g)
    requires forall r, d :: 0 <= r < |g| && d in g[r] ==> d in arena
    ensures forall r, d :: 0 <= r < |g| && d in RemovedGrid(g, c)[r] ==> d in arena
  {
    forall r, d | 0 <= r < |g| && d in RemovedGrid(g, c)[r] ensures d in arena {
      RemoveOneNoDup(g[r], c);
    }
  }

  /** Padding with empty rows keeps the cells of the grid, and keeps them distinct. */
  lemma PaddedGridCells<V>(g: Grid, row: nat, arena: map<CellId, V>)
    requires GridDistinct(g)
    requires forall r, d :: 0 <= r < |g| && d in g[r] ==> d in arena
    ensures GridDistinct(PaddedGrid(g, row))
    ensures forall r, d :: 0 <= r < |PaddedGrid(g, row)| && d in PaddedGrid(g, row)[r] ==> d in arena
    ensures forall c :: InGrid(PaddedGrid(g, row), c) ==> InGrid(g, c)
  {
    var g' := PaddedGrid(g, row);
    assert forall r :: 0 <= r < |g'| ==> g'[r] == [] || (r < |g| && g'[r] == g[r]);
  }

  /** Re-laying a cell keeps only its stitch and side, so two states with the same stitch and side are re-laid alike. */
  lemma PlacedKeepsOnlyStitch(a: CellState, b: CellState, p: Point)
    requires a.stitch == b.stitch && a.wrongSide == b.wrongSide
    ensures Placed(a, p) == Placed(b, p)
  {
  }

  /**
   * `s` is a row just built by `createRow(row, columns, stitch)`: one cell per
   * column, each new (absent from `before`), with the stitch on the side of
   * the row's parity, white, and laid out with its anchor as column i of `row`.
   */
  ghost predicate FreshRow(s: seq<CellId>, row: int, columns: int, stitch: string, w: int, h: int,
                           before: map<CellId, CellState>, after: map<CellId, CellState>)
  {
    && |s| == (if columns < 0 then 0 else columns)
    && forall i :: 0 <= i < |s| ==>
         (s[i] !in before && s[i] in after &&
          after[s[i]] == CellState(LayoutPos(row, i, w, h), LayoutPos(row, i, w, h), White, stitch, row % 2 != 0))
  }

  /** A fresh row stays fresh, and laid out, while later steps only add cells. */
  lemma FreshRowStable(s: seq<CellId>, row: int, columns: int, stitch: string, w: int, h: int,
                       before: map<CellId, CellState>, mid: map<CellId, CellState>, after: map<CellId, CellState>)
    requires FreshRow(s, row, columns, stitch, w, h, before, mid)
    requires forall d :: d in mid ==> d in after && after[d] == mid[d]
    ensures FreshRow(s, row, columns, stitch, w, h, before, after)
  {
  }

  // ---------------------------------------------------------------------------
  // The scene

  /** The state a freshly created cell starts from: null position and anchor, no stitch yet. */
  function NewCellState(): CellState
  {
    CellState(Origin, Origin, White, "", false)
  }

  /**
   * The chart scene. `grid` is the list of rows; `cells` is the state of every
   * cell object the scene has created or been given, including cells removed
   * from the grid; `w` and `h` are the default cell size; `mode`, `curCell`,
   * `moving`, `rubberBand` and `editStitch` are the interaction state the scene
   * shares with its base class; `undoStack` is the list of pushed commands.
   */
  class Scene {
    var grid: Grid
    var cells: map<CellId, CellState>
    var nextCell: CellId
    var w: int
    var h: int
    var mode: int
    var curCell: Option<CellId>
    var moving: bool
    var rubberBand: bool
    var editStitch: string
    var undoStack: seq<Command>

    /** Every cell in the grid has a state, no cell occurs twice, and the remembered cell has a state. */
    ghost predicate Valid()
      reads this
    {
      (forall c :: c in cells ==> c < nextCell) &&
      (forall r, c :: 0 <= r < |grid| && c in grid[r] ==> c in cells) &&
      GridDistinct(grid) &&
      (curCell.Some? ==> curCell.value in cells)
    }

    constructor (mode: int, editStitch: string)
      ensures Valid()
      ensures grid == [] && cells == map[] && curCell == None && undoStack == []
      ensures this.mode == mode && this.editStitch == editStitch && !moving && !rubberBand
    {
      grid := [];
      cells := map[];
      nextCell := 0;
      w, h := 0, 0;
      this.mode := mode;
      curCell := None;
      moving, rubberBand := false, false;
      this.editStitch := editStitch;
      undoStack := [];
    }

    function RowCount(): (n: nat)
      reads this
      ensures n == |grid|
    {
      |grid|
    }

    /** The number of cells in a row; 0 for a row that does not exist. */
    function ColumnCount(row: int): (n: nat)
      reads this
      requires 0 <= row
      ensures row >= |grid| ==> n == 0
      ensures row < |grid| ==> n == |grid[row]|
    {
      if |grid| <= row then 0 else |grid[row]|
    }

    /** The cell at a row and column: the row must exist, a column past its end gives None. */
    function Cell(row: int, column: int): (r: Option<CellId>)
      reads this
      requires 0 <= row < |grid| && 0 <= column
      ensures r.None? <==> column >= ColumnCount(row)
      ensures r.Some? ==> r.value == grid[row][column] && r.value in grid[row]
    {
      if |grid[row]| <= column then None else Some(grid[row][column])
    }

    /** The cell at a point read as (column, row). */
    function CellAtPoint(p: Point): (r: Option<CellId>)
      reads this
      requires 0 <= p.y < |grid| && 0 <= p.x
      ensures r.None? <==> p.x >= |grid[p.y]|
      ensures r.Some? ==> r.value == grid[p.y][p.x]
    {
      Cell(p.y, p.x)
    }

    /** Creates a cell object: a fresh identity in the arena with the state of a new cell. */
    method NewCell() returns (c: CellId)
      requires Valid()
      modifies this`cells, this`nextCell
      ensures Valid()
      ensures c !in old(cells) && cells == old(cells)[c := NewCellState()]
    {
      c := nextCell;
      cells := cells[c := NewCellState()];
      nextCell := nextCell + 1;
    }

    /**
     * Places a cell at the layout position of (row, column) and paints it white;
     * the anchor moves too when forced or when it is still null, and otherwise stays.
     */
    method SetCellPosition(row: int, column: int, c: CellId, updateAnchor: bool)
      requires c in cells
      modifies this`cells
      ensures cells.Keys == old(cells).Keys
      ensures var p := LayoutPos(row, column, w, h);
        cells == old(cells)[c := old(cells)[c].(pos := p, color := White,
          anchor := if updateAnchor || old(cells)[c].anchor == Origin then p else old(cells)[c].anchor)]
      ensures !updateAnchor && old(cells)[c].anchor != Origin ==> cells[c].anchor == old(cells)[c].anchor
      ensures updateAnchor ==> cells[c] == Placed(old(cells)[c], LayoutPos(row, column, w, h))
    {
      var p := LayoutPos(row, column, w, h);
      var st := cells[c].(pos := p);
      if updateAnchor || st.anchor == Origin {
        st := st.(anchor := p);
      }
      st := st.(color := White);
      cells := cells[c := st];
    }

    /**
     * Re-lays a whole row: each cell at column i gets position and anchor
     * LayoutPos(row, i) and colour white; nothing else changes, and a row
     * that does not exist is left alone.
     */
    method RedistributeCells(row: int)
      requires Valid() && 0 <= row
      modifies this`cells
      ensures Valid() && cells.Keys == old(cells).Keys
      ensures row >= |grid| ==> cells == old(cells)
      ensures row < |grid| ==> forall i :: 0 <= i < |grid[row]| ==>
        cells[grid[row][i]] == Placed(old(cells)[grid[row][i]], LayoutPos(row, i, w, h))
      ensures forall d :: d in old(cells) && (row >= |grid| || d !in grid[row]) ==> cells[d] == old(cells)[d]
    {
      if row >= |grid| {
        return;
      }
      var columns := |grid[row]|;
      assert NoDup(grid[row]);
      var i := 0;
      while i < columns
        invariant 0 <= i <= columns
        invariant cells.Keys == old(cells).Keys
        invariant forall k :: 0 <= k < i ==>
          cells[grid[row][k]] == Placed(old(cells)[grid[row][k]], LayoutPos(row, k, w, h))
        invariant forall k :: i <= k < columns ==> cells[grid[row][k]] == old(cells)[grid[row][k]]
        invariant forall d :: d in old(cells) && d !in grid[row] ==> cells[d] == old(cells)[d]
      {
        SetCellPosition(row, i, grid[row][i], true);
        i := i + 1;
      }
    }

    /**
     * Inserts c into row p.y at column p.x, clamped to the row's end; a missing
     * row p.y == RowCount() is created first. The row is then re-laid.
     */
    method AddCell(p: Point, c: CellId)
      requires Valid()
      requires 0 <= p.y <= |grid|
      requires c in cells && !InGrid(grid, c)
      modifies this`grid, this`cells
      ensures Valid() && cells.Keys == old(cells).Keys
      ensures grid == AddedGrid(old(grid), p, c)
      ensures ColumnCount(p.y) == old(ColumnCount(p.y)) + 1
      ensures Cell(p.y, InsertIndex(p.x, old(ColumnCount(p.y)))) == Some(c)
      ensures forall i :: 0 <= i < |grid[p.y]| ==>
        cells[grid[p.y][i]] == Placed(old(cells)[grid[p.y][i]], LayoutPos(p.y, i, w, h))
      ensures forall d :: d in old(cells) && d !in grid[p.y] ==> cells[d] == old(cells)[d]
    {
      var x := InsertIntoRow(p, c);
      SetCellPosition(p.y, x, c, false);
      ghost var cells1 := cells;
      RedistributeCells(p.y);
      forall i | 0 <= i < |grid[p.y]|
        ensures cells[grid[p.y][i]] == Placed(old(cells)[grid[p.y][i]], LayoutPos(p.y, i, w, h))
      {
        PlacedKeepsOnlyStitch(cells1[grid[p.y][i]], old(cells)[grid[p.y][i]], LayoutPos(p.y, i, w, h));
      }
    }

    /** The grid part of `AddCell`: the missing row, the clamped column and the insertion; x is the clamped column. */
    method InsertIntoRow(p: Point, c: CellId) returns (x: int)
      requires Valid()
      requires 0 <= p.y <= |grid|
      requires c in cells && !InGrid(grid, c)
      modifies this`grid
      ensures Valid() && grid == AddedGrid(old(grid), p, c)
      ensures p.y < |grid| && x <= |grid[p.y]|
    {
      ghost var g0 := grid;
      x := p.x;
      if |grid| <= p.y {
        grid := grid + [[]];
      }
      if |grid[p.y]| <= p.x {
        x := |grid[p.y]|;
      }
      // inserting at an index at or below 0 prepends
      var at := if x <= 0 then 0 else x;
      assert at == InsertIndex(p.x, |grid[p.y]|);
      grid := grid[p.y := InsertAt(grid[p.y], at, c)];
      assert grid == AddedGrid(g0, p, c);
      AddedGridDistinct(g0, p, c);
      AddedGridCells(g0, p, c, cells);
    }

    /**
     * Appends c at the end of row `row`, first creating every missing row up to
     * it; the row is re-laid and c ends up white.
     */
    method AppendCell(row: int, c: CellId)
      requires Valid()
      requires 0 <= row
      requires c in cells && !InGrid(grid, c)
      modifies this`grid, this`cells
      ensures Valid() && cells.Keys == old(cells).Keys
      ensures grid == AppendedGrid(old(grid), row, c)
      ensures forall i :: 0 <= i < |grid[row]| ==>
        cells[grid[row][i]] == Placed(old(cells)[grid[row][i]], LayoutPos(row, i, w, h))
      ensures forall d :: d in old(cells) && d !in grid[row] ==> cells[d] == old(cells)[d]
    {
      AppendMissingRows(row);
      AddCell(Point(|grid[row]|, row), c);
      var col := |grid[row]| - 1;
      assert grid[row][col] == c && cells[c] == Placed(old(cells)[c], LayoutPos(row, col, w, h));
      RelayAppended(row, col, c);
    }

    /**
     * The last steps of `AppendCell`: c is positioned at (row, col) and turned
     * white, which changes nothing for a cell `addCell` has already laid there.
     */
    method RelayAppended(row: int, col: int, c: CellId)
      requires c in cells
      requires var p := LayoutPos(row, col, w, h);
        cells[c].pos == p && cells[c].anchor == p && cells[c].color == White
      modifies this`cells
      ensures cells == old(cells)
    {
      SetCellPosition(row, col, c, false);
      assert cells[c] == old(cells)[c];
      cells := cells[c := cells[c].(color := White)];
      assert cells[c] == old(cells)[c];
    }

    /** The first step of `AppendCell`: empty rows appended until index `row` exists. */
    method AppendMissingRows(row: int)
      requires Valid() && 0 <= row
      modifies this`grid
      ensures Valid() && grid == PaddedGrid(old(grid), row)
      ensures forall c :: InGrid(grid, c) ==> InGrid(old(grid), c)
    {
      ghost var g0 := grid;
      assert GridDistinct(g0) && forall r, d :: 0 <= r < |g0| && d in g0[r] ==> d in cells;
      if |grid| <= row {
        var i := |grid|;
        while i < row + 1
          invariant |g0| <= i <= row + 1 && |grid| == i
          invariant grid[..|g0|] == g0
          invariant forall r :: |g0| <= r < i ==> grid[r] == []
        {
          grid := grid + [[]];
          i := i + 1;
        }
      }
      assert grid == PaddedGrid(g0, row);
      PaddedGridCells(g0, row, cells);
    }

    /**
     * Finds the first row holding c by scanning the rows in order, and c's index in it;
     * (0, 0) when no row holds c.
     */
    method FindGridPosition(c: CellId) returns (p: Point)
      ensures p == GridPosition(grid, c)
      ensures InGrid(grid, c) ==>
        (0 <= p.y < |grid| && 0 <= p.x && Cell(p.y, p.x) == Some(c) && forall k :: 0 <= k < p.y ==> c !in grid[k])
      ensures !InGrid(grid, c) ==> p == Origin
    {
      GridPositionSpec(grid, c);
      var y := 0;
      while y < |grid|
        invariant 0 <= y <= |grid|
        invariant forall k :: 0 <= k < y ==> c !in grid[k]
      {
        if c in grid[y] {
          return Point(IndexOf(grid[y], c), y);
        }
        y := y + 1;
      }
      return Origin;
    }

    /**
     * Removes c from every row that holds it (its first occurrence), never
     * deleting a row, then re-lays the row where c was found: row 0 when c was
     * in no row.
     */
    method RemoveCell(c: CellId)
      requires Valid()
      modifies this`grid, this`cells
      ensures Valid() && cells.Keys == old(cells).Keys
      ensures grid == RemovedGrid(old(grid), c)
      ensures var y := GridPosition(old(grid), c).y;
        && (y < |grid| ==> forall i :: 0 <= i < |grid[y]| ==>
              cells[grid[y][i]] == Placed(old(cells)[grid[y][i]], LayoutPos(y, i, w, h)))
        && forall d :: d in old(cells) && (y >= |grid| || d !in grid[y]) ==> cells[d] == old(cells)[d]
    {
      var pos := FindGridPosition(c);
      var y := pos.y;
      RemoveFromRows(c);
      RedistributeCells(y);
    }

    /** The list part of `RemoveCell`: the first occurrence of c taken out of every row that holds it. */
    method RemoveFromRows(c: CellId)
      requires Valid()
      modifies this`grid
      ensures Valid() && grid == RemovedGrid(old(grid), c)
    {
      ghost var g0 := grid;
      assert GridDistinct(g0) && forall r, d :: 0 <= r < |g0| && d in g0[r] ==> d in cells;
      var i := 0;
      while i < |grid|
        invariant 0 <= i <= |grid| == |g0|
        invariant forall k :: 0 <= k < i ==> grid[k] == RemoveOne(g0[k], c)
        invariant forall k :: i <= k < |grid| ==> grid[k] == g0[k]
      {
        if c in grid[i] {
          grid := grid[i := RemoveOne(grid[i], c)];
        }
        i := i + 1;
      }
      RemovedGridKeeps(g0, grid, c, cells);
    }

    /**
     * Appends one row of `columns` new cells with the given stitch, on the wrong
     * side for an odd `row`, each white and laid out (with its anchor) as
     * column i of row `row`.
     */
    method CreateRow(row: int, columns: int, stitch: string)
      requires Valid()
      modifies this`grid, this`cells, this`nextCell
      ensures Valid()
      ensures |grid| == |old(grid)| + 1 && grid[..|old(grid)|] == old(grid)
      ensures FreshRow(grid[|old(grid)|], row, columns, stitch, w, h, old(cells), cells)
      ensures forall d :: d in old(cells) ==> d in cells && cells[d] == old(cells)[d]
    {
      var modelRow: seq<CellId> := [];
      var i := 0;
      while i < columns
        invariant 0 <= i && (columns >= 0 ==> i <= columns) && (columns < 0 ==> i == 0)
        invariant |modelRow| == i && NoDup(modelRow)
        invariant FreshRow(modelRow, row, i, stitch, w, h, old(cells), cells)
        invariant forall d :: d in old(cells) ==> d in cells && cells[d] == old(cells)[d]
        invariant grid == old(grid) && curCell == old(curCell)
        invariant Valid()
      {
        ghost var before := cells;
        var c := NewRowCell(row, i, stitch);
        FreshRowStable(modelRow, row, i, stitch, w, h, old(cells), before, cells);
        modelRow := modelRow + [c];
        i := i + 1;
      }
      grid := grid + [modelRow];
    }

    /** One step of `CreateRow`: a new cell with the stitch, white, laid out with its anchor as column `column` of `row`. */
    method NewRowCell(row: int, column: int, stitch: string) returns (c: CellId)
      requires Valid()
      modifies this`cells, this`nextCell
      ensures Valid() && c !in old(cells)
      ensures cells == old(cells)[c := CellState(LayoutPos(row, column, w, h), LayoutPos(row, column, w, h),
                                                 White, stitch, row % 2 != 0)]
    {
      c := NewCell();
      cells := cells[c := cells[c].(stitch := stitch, wrongSide := row % 2 != 0)];
      cells := cells[c := cells[c].(color := White)];
      SetCellPosition(row, column, c, false);
    }

    /**
     * Sets the default cell size, then creates `rows` rows of `cols` new cells;
     * the i-th new row is laid out as row i.
     */
    method CreateChart(rows: int, cols: int, stitch: string, width: int, height: int)
      requires Valid()
      modifies this`grid, this`cells, this`nextCell, this`w, this`h
      ensures Valid() && w == width && h == height
      ensures |grid| == |old(grid)| + (if rows < 0 then 0 else rows) && grid[..|old(grid)|] == old(grid)
      ensures forall r :: |old(grid)| <= r < |grid| ==>
        FreshRow(grid[r], r - |old(grid)|, cols, stitch, w, h, old(cells), cells)
      ensures forall d :: d in old(cells) ==> d in cells && cells[d] == old(cells)[d]
    {
      w, h := width, height;
      ghost var g0 := grid;
      var i := 0;
      while i < rows
        invariant 0 <= i && (rows >= 0 ==> i <= rows) && (rows < 0 ==> i == 0)
        invariant Valid() && w == width && h == height
        invariant |grid| == |g0| + i && grid[..|g0|] == g0
        invariant forall r :: |g0| <= r < |grid| ==> FreshRow(grid[r], r - |g0|, cols, stitch, w, h, old(cells), cells)
        invariant forall d :: d in old(cells) ==> d in cells && cells[d] == old(cells)[d]
      {
        ghost var cellsBefore := cells;
        ghost var gBefore := grid;
        CreateRow(i, cols, stitch);
        forall r | |g0| <= r < |grid|
          ensures FreshRow(grid[r], r - |g0|, cols, stitch, w, h, old(cells), cells)
        {
          if r < |gBefore| {
            assert grid[r] == gBefore[r];
            FreshRowStable(gBefore[r], r - |g0|, cols, stitch, w, h, old(cells), cellsBefore, cells);
          } else {
            assert r == |gBefore| && r - |g0| == i;
          }
        }
        i := i + 1;
      }
    }

    /**
     * The stitch-mode release rule. With a remembered cell: push SetCellStitch
     * when its stitch differs from the edit stitch and nothing is moving, then
     * forget the cell. Without one, and with no rubber band and no move: a left
     * click without Control pushes AddCell at the resolved (column, row) with the
     * edit stitch, on the wrong side for an odd row. Any other release pushes
     * nothing; in particular RemoveCell is never pushed.
     */
    method StitchModeMouseRelease(e: Release)
      requires Valid() && w > 0 && h > 0
      modifies this`undoStack, this`curCell
      ensures Valid() && curCell == None
      ensures old(curCell).Some? ==>
        undoStack == old(undoStack) +
          (if cells[old(curCell).value].stitch != editStitch && !moving
           then [SetCellStitchCmd(old(curCell).value, editStitch)] else [])
      ensures old(curCell).None? ==>
        undoStack == old(undoStack) +
          (if !rubberBand && !moving && e.leftButton && !e.control
           then [AddCellCmd(Point(GridCoord(e.x, w), GridCoord(e.y, h)), editStitch, GridCoord(e.y, h) % 2 != 0)]
           else [])
      ensures |old(undoStack)| <= |undoStack| <= |old(undoStack)| + 1 && undoStack[..|old(undoStack)|] == old(undoStack)
      ensures forall k :: |old(undoStack)| <= k < |undoStack| ==> !undoStack[k].RemoveCellCmd?
    {
      if curCell.Some? {
        var cur := curCell.value;
        if cells[cur].stitch != editStitch && !moving {
          undoStack := undoStack + [SetCellStitchCmd(cur, editStitch)];
        }
        curCell := None;
      } else if !rubberBand && !moving {
        var x := CeilDiv(e.x, w) - 1;
        var y := CeilDiv(e.y, h) - 1;
        if e.leftButton && !e.control {
          undoStack := undoStack + [AddCellCmd(Point(x, y), editStitch, y % 2 != 0)];
        }
        // Otherwise the source pushes RemoveCell for the remembered cell only if
        // there is one, and in this branch there never is: it returns.
      }
    }

    /** Releases are handled only in stitch mode; in any other mode the scene pushes nothing and keeps its state. */
    method MouseReleaseEvent(e: Release)
      requires Valid() && (mode == EditModes.StitchMode ==> w > 0 && h > 0)
      modifies this`undoStack, this`curCell
      ensures Valid()
      ensures mode != EditModes.StitchMode ==> undoStack == old(undoStack) && curCell == old(curCell)
      ensures mode == EditModes.StitchMode ==> curCell == None
      ensures |old(undoStack)| <= |undoStack| <= |old(undoStack)| + 1 && undoStack[..|old(undoStack)|] == old(undoStack)
      ensures forall k :: |old(undoStack)| <= k < |undoStack| ==> !undoStack[k].RemoveCellCmd?
    {
      if mode == EditModes.StitchMode {
        StitchModeMouseRelease(e);
      }
    }
  }

  /** A client of the scene: adding a cell that is not in the grid to an existing row and removing it again restores the grid. */
  method AddThenRemoveRestoresGrid(s: Scene, p: Point, c: CellId)
    requires s.Valid() && 0 <= p.y < |s.grid|
    requires c in s.cells && !InGrid(s.grid, c)
    modifies s
    ensures s.Valid() && s.grid == old(s.grid)
  {
    s.AddCell(p, c);
    s.RemoveCell(c);
    AddThenRemove(old(s.grid), p, c);
  }
}
