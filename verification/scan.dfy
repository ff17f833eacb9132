/** The 5x5 neighbourhood scanner. Distances are squared (dx^2 + dy^2): the
    script takes a square root but only ever compares or squares it again. */
module Scan {
  import opened Wrappers
  import opened Raster
  import opened Classify

  /** The script's "no match yet" sentinel; every in-window distance is below it. */
  const NoMatch: nat := 10000

  /** Squared Euclidean distance between (x, y) and (p, q). */
  function Dist2(x: int, y: int, p: int, q: int): nat {
    (p - x) * (p - x) + (q - y) * (q - y)
  }

  /** (p, q) lies in the 5x5 window centred on (x, y). */
  predicate InWindow(x: int, y: int, p: int, q: int) {
    x - 2 <= p <= x + 2 && y - 2 <= q <= y + 2
  }

  /** (p, q) is a cell of the grid marked background; cells off the grid
      are not (no wrap-around, no error). */
  predicate BackgroundAt(m: seq<seq<Mark>>, p: int, q: int) {
    0 <= p < |m| && 0 <= q < |m[p]| && m[p][q] == Background
  }

  /** Some background cell lies in the window of (x, y). */
  ghost predicate NearBackground(m: seq<seq<Mark>>, x: int, y: int) {
    exists p, q :: InWindow(x, y, p, q) && BackgroundAt(m, p, q)
  }

  /** The inner loop over `dy` for a fixed column `p`: cells (p, q..y+2). */
  function ScanColumn(m: seq<seq<Mark>>, w: nat, h: nat, x: int, y: int, p: int, q: int, best: nat): (r: nat)
    requires IsGrid(m, w, h) && 0 <= p < w
    ensures r <= best
    ensures r == best || exists q' :: q <= q' <= y + 2 && BackgroundAt(m, p, q') && r == Dist2(x, y, p, q')
    ensures forall q' :: q <= q' <= y + 2 && BackgroundAt(m, p, q') ==> r <= Dist2(x, y, p, q')
    decreases y + 3 - q
  {
    if q > y + 2 then best
    else if q < 0 || q >= h then ScanColumn(m, w, h, x, y, p, q + 1, best)
    else
      var d := Dist2(x, y, p, q);
      var best' := if m[p][q] == Background && d < best then d else best;
      ScanColumn(m, w, h, x, y, p, q + 1, best')
  }

  /** The outer loop over `dx`: columns p..x+2 of the window, those off the
      grid skipped. */
  function ScanColumns(m: seq<seq<Mark>>, w: nat, h: nat, x: int, y: int, p: int, best: nat): (r: nat)
    requires IsGrid(m, w, h) && x - 2 <= p
    ensures r <= best
    ensures r == best || exists p', q' :: p <= p' <= x + 2 && InWindow(x, y, p', q') && BackgroundAt(m, p', q') && r == Dist2(x, y, p', q')
    ensures forall p', q' :: p <= p' <= x + 2 && InWindow(x, y, p', q') && BackgroundAt(m, p', q') ==> r <= Dist2(x, y, p', q')
    decreases x + 3 - p
  {
    if p > x + 2 then best
    else if p < 0 || p >= w then ScanColumns(m, w, h, x, y, p + 1, best)
    else ScanColumns(m, w, h, x, y, p + 1, ScanColumn(m, w, h, x, y, p, y - 2, best))
  }

  /** `neighbor_matches_mask` with bounds [0, w) x [0, h): the smallest
      squared distance from (x, y) to a background cell of its window, or
      `None` (the script's -1) when the window holds none. */
  function Nearest(m: seq<seq<Mark>>, w: nat, h: nat, x: int, y: int): (r: Option<nat>)
    requires IsGrid(m, w, h)
    ensures r.None? <==> !NearBackground(m, x, y)
    ensures r.Some? ==> exists p, q :: InWindow(x, y, p, q) && BackgroundAt(m, p, q) && r.value == Dist2(x, y, p, q)
    ensures r.Some? ==> forall p, q :: InWindow(x, y, p, q) && BackgroundAt(m, p, q) ==> r.value <= Dist2(x, y, p, q)
  {
    var best := ScanColumns(m, w, h, x, y, x - 2, NoMatch);
    SentinelAboveWindow(m, x, y);
    if best < NoMatch then Some(best) else None
  }

  /** A background cell of the window is closer than the sentinel. */
  lemma SentinelAboveWindow(m: seq<seq<Mark>>, x: int, y: int)
    ensures forall p, q :: InWindow(x, y, p, q) && BackgroundAt(m, p, q) ==> Dist2(x, y, p, q) < NoMatch
  {
    forall p, q | InWindow(x, y, p, q) && BackgroundAt(m, p, q)
      ensures Dist2(x, y, p, q) < NoMatch
    {
      WindowDistBound(x, y, p, q);
    }
  }

  /** Every cell of the window is at squared distance at most 8, and the
      only cell at distance 0 is the centre. */
  lemma WindowDistBound(x: int, y: int, p: int, q: int)
    requires InWindow(x, y, p, q)
    ensures Dist2(x, y, p, q) <= 8
    ensures Dist2(x, y, p, q) == 0 <==> p == x && q == y
  {
    var dx, dy := p - x, q - y;
    assert dx * dx <= 4 by { assert -2 <= dx <= 2; }
    assert dy * dy <= 4 by { assert -2 <= dy <= 2; }
  }

  /** For a centre that is not background, a match lies in [1, 8]
      (distance 1 to sqrt 8). */
  lemma NearestRange(m: seq<seq<Mark>>, w: nat, h: nat, x: int, y: int)
    requires IsGrid(m, w, h) && !BackgroundAt(m, x, y)
    ensures Nearest(m, w, h, x, y).Some? ==> 1 <= Nearest(m, w, h, x, y).value <= 8
  {
    var r := Nearest(m, w, h, x, y);
    if r.Some? {
      var p, q :| InWindow(x, y, p, q) && BackgroundAt(m, p, q) && r.value == Dist2(x, y, p, q);
      WindowDistBound(x, y, p, q);
    }
  }

  /** A background cell directly left, right, above or below gives distance 1. */
  lemma NearestOrthogonal(m: seq<seq<Mark>>, w: nat, h: nat, x: int, y: int, p: int, q: int)
    requires IsGrid(m, w, h) && !BackgroundAt(m, x, y)
    requires BackgroundAt(m, p, q) && Dist2(x, y, p, q) == 1
    ensures Nearest(m, w, h, x, y) == Some(1)
  {
    assert InWindow(x, y, p, q) by { DistOneInWindow(x, y, p, q); }
    var r := Nearest(m, w, h, x, y);
    assert r.Some?;
    assert r.value <= Dist2(x, y, p, q);
    NearestRange(m, w, h, x, y);
  }

  lemma DistOneInWindow(x: int, y: int, p: int, q: int)
    requires Dist2(x, y, p, q) <= 2
    ensures InWindow(x, y, p, q)
  {
  }

  /** With no orthogonal background neighbour, a diagonal one gives distance
      2 (the script's sqrt 2). */
  lemma NearestDiagonal(m: seq<seq<Mark>>, w: nat, h: nat, x: int, y: int, p: int, q: int)
    requires IsGrid(m, w, h) && !BackgroundAt(m, x, y)
    requires !BackgroundAt(m, x - 1, y) && !BackgroundAt(m, x + 1, y)
    requires !BackgroundAt(m, x, y - 1) && !BackgroundAt(m, x, y + 1)
    requires BackgroundAt(m, p, q) && Dist2(x, y, p, q) == 2
    ensures Nearest(m, w, h, x, y) == Some(2)
  {
    DistOneInWindow(x, y, p, q);
    var r := Nearest(m, w, h, x, y);
    var p', q' :| InWindow(x, y, p', q') && BackgroundAt(m, p', q') && r.value == Dist2(x, y, p', q');
    if r.value < 2 {
      WindowDistBound(x, y, p', q');
      UnitDistance(x, y, p', q');
    }
  }

  /** The cells at squared distance 1 are the four orthogonal neighbours. */
  lemma UnitDistance(x: int, y: int, p: int, q: int)
    requires InWindow(x, y, p, q) && Dist2(x, y, p, q) == 1
    ensures ((p == x - 1 || p == x + 1) && q == y) || (p == x && (q == y - 1 || q == y + 1))
  {
    var dx, dy := p - x, q - y;
    assert -2 <= dx <= 2 && -2 <= dy <= 2;
  }

  /** The scanner reads only which cells are background: two grids that
      agree on that give the same answer. */
  lemma NearestDependsOnBackground(m: seq<seq<Mark>>, m': seq<seq<Mark>>, w: nat, h: nat, x: int, y: int)
    requires IsGrid(m, w, h) && IsGrid(m', w, h)
    requires forall p, q :: 0 <= p < w && 0 <= q < h ==> (m[p][q] == Background <==> m'[p][q] == Background)
    ensures Nearest(m, w, h, x, y) == Nearest(m', w, h, x, y)
  {
    assert forall p, q :: BackgroundAt(m, p, q) <==> BackgroundAt(m', p, q);
    var r, r' := Nearest(m, w, h, x, y), Nearest(m', w, h, x, y);
    if r.Some? && r'.Some? {
      var p, q :| InWindow(x, y, p, q) && BackgroundAt(m, p, q) && r.value == Dist2(x, y, p, q);
      var p', q' :| InWindow(x, y, p', q') && BackgroundAt(m', p', q') && r'.value == Dist2(x, y, p', q');
      assert r'.value <= r.value;
      assert r.value <= r'.value;
    }
  }

  // ---------------------------------------------------------------------
  // The scanner as written: the bound tests are `dx > width` and
  // `dy > height`, so index `width` (or `height`) reaches the matrix and
  // numpy raises an IndexError.

  datatype ScanError = IndexOutOfBounds(p: int, q: int)

  /** The index error of the as-written scanner names a cell just past the
      matrix: column `w` or row `h`. */
  predicate JustPastGrid(e: ScanError, w: nat, h: nat) {
    0 <= e.p <= w && 0 <= e.q <= h && (e.p == w || e.q == h)
  }

  function ScanColumnAsWritten(m: seq<seq<Mark>>, w: nat, h: nat, x: int, y: int, p: int, q: int, best: nat): (r: Result<nat, ScanError>)
    requires IsGrid(m, w, h) && 0 <= p <= w
    ensures r.Failure? ==> JustPastGrid(r.error, w, h) && r.error.p == p && q <= r.error.q <= y + 2
    decreases y + 3 - q
  {
    if q > y + 2 then Success(best)
    else if q < 0 || q > h then ScanColumnAsWritten(m, w, h, x, y, p, q + 1, best)
    else if p == w || q == h then Failure(IndexOutOfBounds(p, q))
    else
      var d := Dist2(x, y, p, q);
      var best' := if m[p][q] == Background && d < best then d else best;
      ScanColumnAsWritten(m, w, h, x, y, p, q + 1, best')
  }

  function ScanColumnsAsWritten(m: seq<seq<Mark>>, w: nat, h: nat, x: int, y: int, p: int, best: nat): (r: Result<nat, ScanError>)
    requires IsGrid(m, w, h)
    ensures r.Failure? ==> JustPastGrid(r.error, w, h) && p <= r.error.p <= x + 2 && y - 2 <= r.error.q <= y + 2
    decreases x + 3 - p
  {
    if p > x + 2 then Success(best)
    else if p < 0 || p > w then ScanColumnsAsWritten(m, w, h, x, y, p + 1, best)
    else
      match ScanColumnAsWritten(m, w, h, x, y, p, y - 2, best)
      case Failure(e) => Failure(e)
      case Success(b) => ScanColumnsAsWritten(m, w, h, x, y, p + 1, b)
  }

  /** `neighbor_matches_mask` exactly as its bound tests are written. It
      fails only by reading column `w` or row `h` inside the 5x5 window. */
  function NearestAsWritten(m: seq<seq<Mark>>, w: nat, h: nat, x: int, y: int): (r: Result<Option<nat>, ScanError>)
    requires IsGrid(m, w, h)
    ensures r.Failure? ==> JustPastGrid(r.error, w, h) && InWindow(x, y, r.error.p, r.error.q)
    ensures r.Success? && r.value.Some? ==> r.value.value < NoMatch
  {
    match ScanColumnsAsWritten(m, w, h, x, y, x - 2, NoMatch)
    case Failure(e) => Failure(e)
    case Success(best) => Success(if best < NoMatch then Some(best) else None)
  }

  /** Away from the right and bottom borders the as-written scanner agrees
      with the corrected one. */
  lemma {:induction false} ColumnAgrees(m: seq<seq<Mark>>, w: nat, h: nat, x: int, y: int, p: int, q: int, best: nat)
    requires IsGrid(m, w, h) && 0 <= p < w && y + 2 < h
    ensures ScanColumnAsWritten(m, w, h, x, y, p, q, best) == Success(ScanColumn(m, w, h, x, y, p, q, best))
    decreases y + 3 - q
  {
    if q <= y + 2 {
      var d := Dist2(x, y, p, q);
      var best' := if 0 <= q < h && m[p][q] == Background && d < best then d else best;
      ColumnAgrees(m, w, h, x, y, p, q + 1, best');
    }
  }

  lemma {:induction false} ColumnsAgree(m: seq<seq<Mark>>, w: nat, h: nat, x: int, y: int, p: int, best: nat)
    requires IsGrid(m, w, h) && x - 2 <= p && x + 2 < w && y + 2 < h
    ensures ScanColumnsAsWritten(m, w, h, x, y, p, best) == Success(ScanColumns(m, w, h, x, y, p, best))
    decreases x + 3 - p
  {
    if p <= x + 2 {
      if p < 0 {
        ColumnsAgree(m, w, h, x, y, p + 1, best);
      } else {
        ColumnAgrees(m, w, h, x, y, p, y - 2, best);
        ColumnsAgree(m, w, h, x, y, p + 1, ScanColumn(m, w, h, x, y, p, y - 2, best));
      }
    }
  }

  /** A column at index `w`, or any column once the window reaches row `h`,
      indexes past the matrix. */
  lemma {:induction false} ColumnCrashes(m: seq<seq<Mark>>, w: nat, h: nat, x: int, y: int, p: int, q: int, best: nat)
    requires IsGrid(m, w, h) && 0 <= p <= w && 0 <= y < h && q <= y
    requires p == w || y + 2 >= h
    ensures ScanColumnAsWritten(m, w, h, x, y, p, q, best).Failure?
    decreases y + 3 - q
  {
    if q < 0 {
      ColumnCrashes(m, w, h, x, y, p, q + 1, best);
    } else if p != w && q != h {
      var d := Dist2(x, y, p, q);
      var best' := if m[p][q] == Background && d < best then d else best;
      if q < y {
        ColumnCrashes(m, w, h, x, y, p, q + 1, best');
      } else {
        ColumnReachesRowH(m, w, h, x, y, p, q + 1, best');
      }
    }
  }

  /** From row `q` on, a column with `q <= h <= y + 2` crashes at row `h`. */
  lemma {:induction false} ColumnReachesRowH(m: seq<seq<Mark>>, w: nat, h: nat, x: int, y: int, p: int, q: int, best: nat)
    requires IsGrid(m, w, h) && 0 <= p <= w && 0 <= q <= h <= y + 2
    ensures ScanColumnAsWritten(m, w, h, x, y, p, q, best).Failure?
    decreases h - q
  {
    if p != w && q != h {
      var d := Dist2(x, y, p, q);
      var best' := if m[p][q] == Background && d < best then d else best;
      ColumnReachesRowH(m, w, h, x, y, p, q + 1, best');
    }
  }

  /** Once column `c` crashes, the whole scan from any column `p <= c` fails. */
  lemma {:induction false} ColumnsCrash(m: seq<seq<Mark>>, w: nat, h: nat, x: int, y: int, p: int, c: int, best: nat)
    requires IsGrid(m, w, h) && 0 <= x < w && 0 <= y < h && x - 2 <= p
    requires p <= c <= x + 2 && 0 <= c <= w && (c == w || y + 2 >= h)
    ensures ScanColumnsAsWritten(m, w, h, x, y, p, best).Failure?
    decreases x + 3 - p
  {
    if p < 0 || p > w {
      ColumnsCrash(m, w, h, x, y, p + 1, c, best);
    } else if p == w || y + 2 >= h {
      ColumnCrashes(m, w, h, x, y, p, y - 2, best);
    } else {
      var col := ScanColumnAsWritten(m, w, h, x, y, p, y - 2, best);
      if col.Success? {
        ColumnsCrash(m, w, h, x, y, p + 1, c, col.value);
      }
    }
  }

  /** The as-written scanner fails exactly for centres within two cells of
      the right or bottom border, and elsewhere matches `Nearest`. Pass 2
      calls it on every unmarked cell, so any foreground pixel that close to
      those borders aborts the run. */
  lemma AsWrittenFailsNearBorder(m: seq<seq<Mark>>, w: nat, h: nat, x: int, y: int)
    requires IsGrid(m, w, h) && 0 <= x < w && 0 <= y < h
    ensures NearestAsWritten(m, w, h, x, y).Failure? <==> x + 2 >= w || y + 2 >= h
    ensures x + 2 < w && y + 2 < h ==> NearestAsWritten(m, w, h, x, y) == Success(Nearest(m, w, h, x, y))
  {
    if x + 2 >= w || y + 2 >= h {
      var c := if x + 2 >= w then w else x;
      ColumnsCrash(m, w, h, x, y, x - 2, c, NoMatch);
    } else {
      ColumnsAgree(m, w, h, x, y, x - 2, NoMatch);
    }
  }

  /** A column inside the matrix is read row by row until row `h`, the
      first row the as-written test lets through. */
  lemma {:induction false} ColumnStopsAtRowH(m: seq<seq<Mark>>, w: nat, h: nat, x: int, y: int, p: int, q: int, best: nat)
    requires IsGrid(m, w, h) && 0 <= p < w && q <= h <= y + 2
    ensures ScanColumnAsWritten(m, w, h, x, y, p, q, best) == Failure(IndexOutOfBounds(p, h))
    decreases h - q
  {
    if q < h {
      var d := Dist2(x, y, p, q);
      var best' := if 0 <= q && m[p][q] == Background && d < best then d else best;
      ColumnStopsAtRowH(m, w, h, x, y, p, q + 1, best');
    }
  }

  /** Columns left of the matrix are skipped. */
  lemma {:induction false} LeftColumnsSkipped(m: seq<seq<Mark>>, w: nat, h: nat, x: int, y: int, p: int, best: nat)
    requires IsGrid(m, w, h) && p <= 0 <= x + 2
    ensures ScanColumnsAsWritten(m, w, h, x, y, p, best) == ScanColumnsAsWritten(m, w, h, x, y, 0, best)
    decreases -p
  {
    if p < 0 {
      LeftColumnsSkipped(m, w, h, x, y, p + 1, best);
    }
  }

  /** For a centre in column 0 near the bottom border, the first index past
      the matrix is (0, h): column 0 is read down to row `h`. */
  lemma LeftEdgeCentreFails(m: seq<seq<Mark>>, w: nat, h: nat, x: int, y: int)
    requires IsGrid(m, w, h) && x == 0 && 0 < w && 0 <= y < h && y + 2 >= h
    ensures NearestAsWritten(m, w, h, x, y) == Failure(IndexOutOfBounds(0, h))
  {
    LeftColumnsSkipped(m, w, h, x, y, x - 2, NoMatch);
    ColumnStopsAtRowH(m, w, h, x, y, 0, y - 2, NoMatch);
  }

  /** Concretely: a 1 x 1 frame whose only pixel is not background reads
      `matrix[0][1]`. */
  lemma AsWrittenCrashesOnSinglePixel()
    ensures NearestAsWritten([[Foreground]], 1, 1, 0, 0) == Failure(IndexOutOfBounds(0, 1))
  {
    LeftEdgeCentreFails([[Foreground]], 1, 1, 0, 0);
  }
}
