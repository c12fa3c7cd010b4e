/**
  Counting cells of a rectangular grid that satisfy a predicate.

  The game invariant of the board (a ship's health equals its number of
  untried cells, the turn counter equals the number of tried cells) is stated
  with these counts, so this module proves how a count reacts to the three
  kinds of change the board undergoes: one cell rewritten, every cell
  rewritten in a way the predicate cannot see, and a straight run of cells
  claimed by a ship.
*/
module GridCount {

  /** Number of cells among `row[0..n]` satisfying `p`. */
  function CountCells<T>(row: seq<T>, p: T -> bool, n: nat): nat
    requires n <= |row|
  {
    if n == 0 then 0 else CountCells(row, p, n - 1) + (if p(row[n - 1]) then 1 else 0)
  }

  /** Number of cells in rows `g[0..n]` satisfying `p`. */
  function CountRows<T>(g: seq<seq<T>>, p: T -> bool, n: nat): nat
    requires n <= |g|
  {
    if n == 0 then 0 else CountRows(g, p, n - 1) + CountCells(g[n - 1], p, |g[n - 1]|)
  }

  /** Number of cells of the whole grid satisfying `p`. */
  function Count<T>(g: seq<seq<T>>, p: T -> bool): nat
  {
    CountRows(g, p, |g|)
  }

  /** The grid has `rows` rows of `cols` cells each. */
  predicate Rect<T>(g: seq<seq<T>>, rows: nat, cols: nat)
  {
    |g| == rows && forall i :: 0 <= i < rows ==> |g[i]| == cols
  }

  /** A count never exceeds the number of cells looked at. */
  lemma {:induction false} CellsBound<T>(row: seq<T>, p: T -> bool, n: nat)
    requires n <= |row|
    ensures CountCells(row, p, n) <= n
  {
    if n > 0 {
      CellsBound(row, p, n - 1);
    }
  }

  lemma {:induction false} RowsBound<T>(g: seq<seq<T>>, p: T -> bool, n: nat, cols: nat)
    requires n <= |g|
    requires forall i :: 0 <= i < n ==> |g[i]| == cols
    ensures CountRows(g, p, n) <= n * cols
  {
    if n > 0 {
      RowsBound(g, p, n - 1, cols);
      CellsBound(g[n - 1], p, |g[n - 1]|);
      assert (n - 1) * cols + cols == n * cols;
    }
  }

  /** A rows-by-cols grid has at most rows*cols cells satisfying anything. */
  lemma CountBound<T>(g: seq<seq<T>>, p: T -> bool, rows: nat, cols: nat)
    requires Rect(g, rows, cols)
    ensures Count(g, p) <= rows * cols
  {
    RowsBound(g, p, rows, cols);
  }

  /** A count is zero exactly when no cell satisfies the predicate. */
  lemma {:induction false} CellsZero<T>(row: seq<T>, p: T -> bool, n: nat)
    requires n <= |row|
    ensures CountCells(row, p, n) == 0 <==> forall j :: 0 <= j < n ==> !p(row[j])
  {
    if n > 0 {
      CellsZero(row, p, n - 1);
    }
  }

  lemma {:induction false} RowsZero<T>(g: seq<seq<T>>, p: T -> bool, n: nat)
    requires n <= |g|
    ensures CountRows(g, p, n) == 0 <==>
            forall i, j :: 0 <= i < n && 0 <= j < |g[i]| ==> !p(g[i][j])
  {
    if n > 0 {
      RowsZero(g, p, n - 1);
      CellsZero(g[n - 1], p, |g[n - 1]|);
      if CountRows(g, p, n) != 0 {
        if CountRows(g, p, n - 1) == 0 {
          var j :| 0 <= j < |g[n - 1]| && p(g[n - 1][j]);
        }
      }
    }
  }

  lemma CountZero<T>(g: seq<seq<T>>, p: T -> bool)
    ensures Count(g, p) == 0 <==> forall i, j :: 0 <= i < |g| && 0 <= j < |g[i]| ==> !p(g[i][j])
  {
    RowsZero(g, p, |g|);
  }

  /** Rewriting cell j of a row changes the count by what p says of the old and new value. */
  lemma {:induction false} CellsUpdate<T>(row: seq<T>, p: T -> bool, n: nat, j: nat, e: T)
    requires n <= |row| && j < |row|
    ensures CountCells(row[j := e], p, n) ==
            CountCells(row, p, n)
            - (if j < n && p(row[j]) then 1 else 0)
            + (if j < n && p(e) then 1 else 0)
  {
    if n > 0 {
      CellsUpdate(row, p, n - 1, j, e);
    }
  }

  lemma {:induction false} RowsUpdate<T>(g: seq<seq<T>>, p: T -> bool, n: nat, i: nat, j: nat, e: T)
    requires n <= |g| && i < |g| && j < |g[i]|
    ensures CountRows(g[i := g[i][j := e]], p, n) ==
            CountRows(g, p, n)
            - (if i < n && p(g[i][j]) then 1 else 0)
            + (if i < n && p(e) then 1 else 0)
  {
    if n > 0 {
      RowsUpdate(g, p, n - 1, i, j, e);
      if n - 1 == i {
        CellsUpdate(g[i], p, |g[i]|, j, e);
      }
    }
  }

  /** Rewriting one cell changes the count by at most one, in the direction p dictates. */
  lemma CountUpdate<T>(g: seq<seq<T>>, p: T -> bool, i: nat, j: nat, e: T)
    requires i < |g| && j < |g[i]|
    ensures Count(g[i := g[i][j := e]], p) ==
            Count(g, p) - (if p(g[i][j]) then 1 else 0) + (if p(e) then 1 else 0)
  {
    RowsUpdate(g, p, |g|, i, j, e);
  }

  lemma {:induction false} CellsAgree<T, U>(row: seq<T>, p: T -> bool, row': seq<U>, q: U -> bool, n: nat)
    requires n <= |row| && n <= |row'|
    requires forall j :: 0 <= j < n ==> (p(row[j]) <==> q(row'[j]))
    ensures CountCells(row, p, n) == CountCells(row', q, n)
  {
    if n > 0 {
      CellsAgree(row, p, row', q, n - 1);
    }
  }

  lemma {:induction false} RowsAgree<T, U>(g: seq<seq<T>>, p: T -> bool, h: seq<seq<U>>, q: U -> bool, n: nat)
    requires n <= |g| && n <= |h|
    requires forall i :: 0 <= i < n ==> |g[i]| == |h[i]|
    requires forall i, j :: 0 <= i < n && 0 <= j < |g[i]| ==> (p(g[i][j]) <==> q(h[i][j]))
    ensures CountRows(g, p, n) == CountRows(h, q, n)
  {
    if n > 0 {
      RowsAgree(g, p, h, q, n - 1);
      CellsAgree(g[n - 1], p, h[n - 1], q, |g[n - 1]|);
    }
  }

  /** Two grids of the same shape on which the predicates agree cell by cell have equal counts. */
  lemma CountAgree<T, U>(g: seq<seq<T>>, p: T -> bool, h: seq<seq<U>>, q: U -> bool)
    requires |g| == |h|
    requires forall i :: 0 <= i < |g| ==> |g[i]| == |h[i]|
    requires forall i, j :: 0 <= i < |g| && 0 <= j < |g[i]| ==> (p(g[i][j]) <==> q(h[i][j]))
    ensures Count(g, p) == Count(h, q)
  {
    RowsAgree(g, p, h, q, |g|);
  }

  lemma {:induction false} CellsSplit<T>(row: seq<T>, p: T -> bool, a: T -> bool, b: T -> bool, n: nat)
    requires n <= |row|
    requires forall j :: 0 <= j < |row| ==> (p(row[j]) <==> a(row[j]) || b(row[j])) && !(a(row[j]) && b(row[j]))
    ensures CountCells(row, p, n) == CountCells(row, a, n) + CountCells(row, b, n)
  {
    if n > 0 {
      CellsSplit(row, p, a, b, n - 1);
    }
  }

  lemma {:induction false} RowsSplit<T>(g: seq<seq<T>>, p: T -> bool, a: T -> bool, b: T -> bool, n: nat)
    requires n <= |g|
    requires forall i, j :: 0 <= i < |g| && 0 <= j < |g[i]| ==>
               (p(g[i][j]) <==> a(g[i][j]) || b(g[i][j])) && !(a(g[i][j]) && b(g[i][j]))
    ensures CountRows(g, p, n) == CountRows(g, a, n) + CountRows(g, b, n)
  {
    if n > 0 {
      RowsSplit(g, p, a, b, n - 1);
      CellsSplit(g[n - 1], p, a, b, |g[n - 1]|);
    }
  }

  /** When p holds of a cell exactly when one of two exclusive predicates does, the counts add up. */
  lemma CountSplit<T>(g: seq<seq<T>>, p: T -> bool, a: T -> bool, b: T -> bool)
    requires forall i, j :: 0 <= i < |g| && 0 <= j < |g[i]| ==>
               (p(g[i][j]) <==> a(g[i][j]) || b(g[i][j])) && !(a(g[i][j]) && b(g[i][j]))
    ensures Count(g, p) == Count(g, a) + Count(g, b)
  {
    RowsSplit(g, p, a, b, |g|);
  }

  /** A row in which exactly the cells lo..hi-1 qualify counts hi - lo of them. */
  lemma {:induction false} CellsSpan<T>(row: seq<T>, p: T -> bool, n: nat, lo: int, hi: int)
    requires n <= |row| && 0 <= lo <= hi <= |row|
    requires forall j :: 0 <= j < |row| ==> (p(row[j]) <==> lo <= j < hi)
    ensures CountCells(row, p, n) == if n <= lo then 0 else if n <= hi then n - lo else hi - lo
  {
    if n > 0 {
      CellsSpan(row, p, n - 1, lo, hi);
    }
  }

  /** A grid in which only the rows lo..hi-1 hold qualifying cells, `per` of them each. */
  lemma {:induction false} RowsSpan<T>(g: seq<seq<T>>, p: T -> bool, n: nat, lo: int, hi: int, per: nat)
    requires n <= |g| && 0 <= lo <= hi <= |g|
    requires forall i :: 0 <= i < |g| ==> CountCells(g[i], p, |g[i]|) == if lo <= i < hi then per else 0
    ensures CountRows(g, p, n) == (if n <= lo then 0 else if n <= hi then n - lo else hi - lo) * per
  {
    if n > 0 {
      RowsSpan(g, p, n - 1, lo, hi, per);
      if lo < n <= hi {
        assert (n - lo) * per == (n - 1 - lo) * per + per;
      }
    }
  }

  /**
    A straight run of `len` cells, either down one column index (rows x..x+len-1
    at column y) or along one row (row x, columns y..y+len-1), holds exactly
    `len` qualifying cells when it is exactly the set of qualifying cells.
  */
  lemma CountRun<T>(g: seq<seq<T>>, p: T -> bool, rows: nat, cols: nat,
                    x: int, y: int, len: nat, across: bool)
    requires Rect(g, rows, cols)
    requires across ==> 0 <= x && x + len <= rows && 0 <= y < cols
    requires !across ==> 0 <= x < rows && 0 <= y && y + len <= cols
    requires forall i, j :: 0 <= i < rows && 0 <= j < cols ==>
               (p(g[i][j]) <==> if across then j == y && x <= i < x + len
                                else i == x && y <= j < y + len)
    ensures Count(g, p) == len
  {
    if across {
      forall i | 0 <= i < rows
        ensures CountCells(g[i], p, |g[i]|) == if x <= i < x + len then 1 else 0
      {
        if x <= i < x + len {
          CellsSpan(g[i], p, cols, y, y + 1);
        } else {
          CellsSpan(g[i], p, cols, 0, 0);
        }
      }
      RowsSpan(g, p, rows, x, x + len, 1);
    } else {
      forall i | 0 <= i < rows
        ensures CountCells(g[i], p, |g[i]|) == if x <= i < x + 1 then len else 0
      {
        if i == x {
          CellsSpan(g[i], p, cols, y, y + len);
        } else {
          CellsSpan(g[i], p, cols, 0, 0);
        }
      }
      RowsSpan(g, p, rows, x, x + 1, len);
    }
  }
}
