/** Pixel grids as values, and the row-major order in which the generated
    programs visit them. */
module Grids {
  import opened Pixels

  /** `g` has `h` rows of `w` pixels each. */
  ghost predicate IsGrid(g: seq<seq<Pixel>>, h: nat, w: nat) {
    |g| == h && forall r :: 0 <= r < h ==> |g[r]| == w
  }

  /** The grid held by a two-dimensional pixel array, indexed `[row][col]`. */
  ghost function GridOf(a: array2<Pixel>): (g: seq<seq<Pixel>>)
    reads a
    ensures IsGrid(g, a.Length0, a.Length1)
    ensures forall r, c :: 0 <= r < a.Length0 && 0 <= c < a.Length1 ==> g[r][c] == a[r, c]
  {
    seq(a.Length0, r requires 0 <= r < a.Length0 reads a =>
      seq(a.Length1, c requires 0 <= c < a.Length1 reads a => a[r, c]))
  }

  /** Two grids of the same shape that agree at every cell are equal. */
  lemma SameGrid(a: seq<seq<Pixel>>, b: seq<seq<Pixel>>, h: nat, w: nat)
    requires IsGrid(a, h, w) && IsGrid(b, h, w)
    requires forall r, c :: 0 <= r < h && 0 <= c < w ==> a[r][c] == b[r][c]
    ensures a == b
  {
    forall r | 0 <= r < h ensures a[r] == b[r] {
      assert |a[r]| == |b[r]| == w;
    }
  }

  /** `f` applied to every pixel of one row. */
  function MapRow(f: Pixel -> Pixel, row: seq<Pixel>): (r: seq<Pixel>)
    ensures |r| == |row|
    ensures forall i :: 0 <= i < |row| ==> r[i] == f(row[i])
  {
    if row == [] then [] else [f(row[0])] + MapRow(f, row[1..])
  }

  /** `f` applied to every pixel of a grid: same shape, every cell transformed. */
  function MapGrid(f: Pixel -> Pixel, g: seq<seq<Pixel>>): (r: seq<seq<Pixel>>)
    ensures |r| == |g|
    ensures forall i :: 0 <= i < |g| ==> |r[i]| == |g[i]|
    ensures forall i, j :: 0 <= i < |g| && 0 <= j < |g[i]| ==> r[i][j] == f(g[i][j])
  {
    if g == [] then [] else [MapRow(f, g[0])] + MapGrid(f, g[1..])
  }

  /** The cells `(r, 0), …, (r, w - 1)` in the order the inner loop visits them. */
  function Row(r: int, w: nat): seq<(int, int)>
  {
    if w == 0 then [] else Row(r, w - 1) + [(r, w - 1)]
  }

  /** The cells of an `h` by `w` grid in the order the nested loops visit them. */
  function RowMajor(h: nat, w: nat): seq<(int, int)>
  {
    if h == 0 then [] else RowMajor(h - 1, w) + Row(h - 1, w)
  }

  /** How many times `cell` occurs in the visit order `s`. */
  function Occurrences(s: seq<(int, int)>, cell: (int, int)): nat
  {
    if s == [] then 0 else Occurrences(s[..|s| - 1], cell) + (if s[|s| - 1] == cell then 1 else 0)
  }

  lemma {:induction false} OccurrencesAppend(a: seq<(int, int)>, b: seq<(int, int)>, cell: (int, int))
    ensures Occurrences(a + b, cell) == Occurrences(a, cell) + Occurrences(b, cell)
  {
    if b == [] {
      assert a + b == a;
    } else {
      assert (a + b)[..|a + b| - 1] == a + b[..|b| - 1];
      OccurrencesAppend(a, b[..|b| - 1], cell);
    }
  }

  /** The inner loop visits each column of its row once, and no other cell. */
  lemma {:induction false} RowOccurrences(r: int, w: nat, cell: (int, int))
    ensures Occurrences(Row(r, w), cell) == if cell.0 == r && 0 <= cell.1 < w then 1 else 0
  {
    if w > 0 {
      RowOccurrences(r, w - 1, cell);
      OccurrencesAppend(Row(r, w - 1), [(r, w - 1)], cell);
    }
  }

  /** Appending row `h - 1` to the visits of rows `0 .. h - 2` gives the
      visits of rows `0 .. h - 1`, counted cell by cell. */
  lemma AddRow(h: nat, w: nat, earlier: seq<(int, int)>, last: seq<(int, int)>, cell: (int, int))
    requires h > 0
    requires Occurrences(earlier, cell) == if 0 <= cell.0 < h - 1 && 0 <= cell.1 < w then 1 else 0
    requires Occurrences(last, cell) == if cell.0 == h - 1 && 0 <= cell.1 < w then 1 else 0
    ensures Occurrences(earlier + last, cell) == if 0 <= cell.0 < h && 0 <= cell.1 < w then 1 else 0
  {
    OccurrencesAppend(earlier, last, cell);
  }

  /** The nested loops visit every in-bounds cell exactly once and no other cell. */
  lemma {:induction false} RowMajorOccurrences(h: nat, w: nat, cell: (int, int))
    ensures Occurrences(RowMajor(h, w), cell) == if 0 <= cell.0 < h && 0 <= cell.1 < w then 1 else 0
  {
    if h > 0 {
      var earlier, last := RowMajor(h - 1, w), Row(h - 1, w);
      RowOccurrences(h - 1, w, cell);
      var y := Occurrences(last, cell);
      assert y == if cell.0 == h - 1 && 0 <= cell.1 < w then 1 else 0;
      RowMajorOccurrences(h - 1, w, cell);
      AddRow(h, w, earlier, last, cell);
    }
  }
}
