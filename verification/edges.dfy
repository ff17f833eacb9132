/** Pass 2: unmarked cells near a background cell become edge cells, and the
    intensity grid records their distance. */
module Edges {
  import opened Wrappers
  import opened Raster
  import opened Classify
  import opened Scan

  /** The classification and intensity matrices after pass 2. */
  datatype Classified = Classified(marks: seq<seq<Mark>>, intensity: seq<seq<nat>>)

  /** The state of one cell after pass 2, read off the finished pass-1 grid. */
  function EdgeMark(m: seq<seq<Mark>>, w: nat, h: nat, x: nat, y: nat): Mark
    requires IsGrid(m, w, h) && x < w && y < h
  {
    if m[x][y] == Foreground && Nearest(m, w, h, x, y).Some? then Edge else m[x][y]
  }

  /** The intensity recorded for one cell: the scanner's distance at edge
      cells, the initial zero elsewhere. */
  function EdgeIntensity(m: seq<seq<Mark>>, w: nat, h: nat, x: nat, y: nat): nat
    requires IsGrid(m, w, h) && x < w && y < h
  {
    if m[x][y] == Foreground && Nearest(m, w, h, x, y).Some? then Nearest(m, w, h, x, y).value else 0
  }

  /** Pass 2 over a snapshot of the pass-1 grid: no cell depends on another
      cell's pass-2 outcome. */
  function MarkEdges(m: seq<seq<Mark>>, w: nat, h: nat): (c: Classified)
    requires IsGrid(m, w, h)
    ensures IsGrid(c.marks, w, h) && IsGrid(c.intensity, w, h)
    // pass 2 never touches a background cell and never creates one
    ensures forall x, y :: 0 <= x < w && 0 <= y < h ==>
      (c.marks[x][y] == Background <==> m[x][y] == Background)
    // a cell becomes an edge exactly when it was unmarked and its window holds background
    ensures forall x, y :: 0 <= x < w && 0 <= y < h && m[x][y] != Edge ==>
      (c.marks[x][y] == Edge <==> m[x][y] == Foreground && NearBackground(m, x, y))
    // unmarked cells with no background nearby stay unmarked
    ensures forall x, y :: 0 <= x < w && 0 <= y < h && m[x][y] == Foreground && !NearBackground(m, x, y) ==>
      c.marks[x][y] == Foreground
    // intensity is written only at new edge cells, and holds the nearest distance
    ensures forall x, y :: 0 <= x < w && 0 <= y < h ==>
      (c.intensity[x][y] != 0 <==> m[x][y] == Foreground && NearBackground(m, x, y))
    ensures forall x, y :: 0 <= x < w && 0 <= y < h && m[x][y] == Foreground && NearBackground(m, x, y) ==>
      1 <= c.intensity[x][y] <= 8 && Some(c.intensity[x][y]) == Nearest(m, w, h, x, y)
  {
    NearestRangeAll(m, w, h);
    Classified(
      seq(w, x requires 0 <= x < w => seq(h, y requires 0 <= y < h => EdgeMark(m, w, h, x, y))),
      seq(w, x requires 0 <= x < w => seq(h, y requires 0 <= y < h => EdgeIntensity(m, w, h, x, y))))
  }

  lemma NearestRangeAll(m: seq<seq<Mark>>, w: nat, h: nat)
    requires IsGrid(m, w, h)
    ensures forall x, y :: 0 <= x < w && 0 <= y < h && m[x][y] == Foreground && Nearest(m, w, h, x, y).Some? ==>
      1 <= Nearest(m, w, h, x, y).value <= 8
  {
    forall x, y | 0 <= x < w && 0 <= y < h && m[x][y] == Foreground
      ensures Nearest(m, w, h, x, y).Some? ==> 1 <= Nearest(m, w, h, x, y).value <= 8
    {
      NearestRange(m, w, h, x, y);
    }
  }

  /** Cell (i, j) comes before cell (x, y) in the script's traversal: rows
      (`y`) outermost, columns (`x`) within a row. */
  predicate Before(i: int, j: int, x: int, y: int) {
    j < y || (j == y && i < x)
  }

  /** The live matrices part-way through the traversal, just before cell
      (x, y): cells already visited hold their pass-2 outcome, the others
      still hold pass 1's mark and a zero intensity. */
  predicate Progress(m: seq<seq<Mark>>, marks: seq<seq<Mark>>, intensity: seq<seq<nat>>, w: nat, h: nat, x: int, y: int)
    requires IsGrid(m, w, h)
  {
    && IsGrid(marks, w, h) && IsGrid(intensity, w, h)
    && (forall i, j :: 0 <= i < w && 0 <= j < h ==>
          marks[i][j] == (if Before(i, j, x, y) then EdgeMark(m, w, h, i, j) else m[i][j]))
    && (forall i, j :: 0 <= i < w && 0 <= j < h ==>
          intensity[i][j] == (if Before(i, j, x, y) then EdgeIntensity(m, w, h, i, j) else 0))
  }

  /** Pass 2 as the script runs it: one traversal that rewrites the live
      matrix while the scanner keeps reading it. The result is the snapshot
      pass, because the scanner reads only background cells and pass 2 never
      creates or removes one; so the traversal order does not matter. */
  method MarkEdgesInPlace(m: seq<seq<Mark>>, w: nat, h: nat) returns (marks: seq<seq<Mark>>, intensity: seq<seq<nat>>)
    requires IsGrid(m, w, h)
    ensures Classified(marks, intensity) == MarkEdges(m, w, h)
  {
    marks := m;
    intensity := seq(w, x requires 0 <= x < w => seq(h, y => 0));
    var y := 0;
    while y < h
      invariant 0 <= y <= h
      invariant Progress(m, marks, intensity, w, h, 0, y)
    {
      var x := 0;
      while x < w
        invariant 0 <= x <= w
        invariant Progress(m, marks, intensity, w, h, x, y)
      {
        var marks', intensity' := marks, intensity;
        if marks[x][y] == Foreground {
          var found := Nearest(marks, w, h, x, y);
          if found.Some? {
            marks' := SetCell(marks, x, y, Edge);
            intensity' := SetCell(intensity, x, y, found.value);
          }
        }
        VisitCell(m, marks, intensity, marks', intensity', w, h, x, y);
        marks, intensity := marks', intensity';
        x := x + 1;
      }
      RowDone(m, marks, intensity, w, h, y);
      y := y + 1;
    }
    FinishedTraversal(m, marks, intensity, w, h);
  }

  /** One step of the traversal keeps the live matrices in step with the
      snapshot pass. */
  lemma VisitCell(m: seq<seq<Mark>>, marks: seq<seq<Mark>>, intensity: seq<seq<nat>>,
                  marks': seq<seq<Mark>>, intensity': seq<seq<nat>>, w: nat, h: nat, x: nat, y: nat)
    requires IsGrid(m, w, h) && x < w && y < h
    requires Progress(m, marks, intensity, w, h, x, y)
    requires marks' == if marks[x][y] == Foreground && Nearest(marks, w, h, x, y).Some?
      then SetCell(marks, x, y, Edge) else marks
    requires intensity' == if marks[x][y] == Foreground && Nearest(marks, w, h, x, y).Some?
      then SetCell(intensity, x, y, Nearest(marks, w, h, x, y).value) else intensity
    ensures Progress(m, marks', intensity', w, h, x + 1, y)
  {
    ProgressKeepsBackground(m, marks, intensity, w, h, x, y);
    NearestDependsOnBackground(m, marks, w, h, x, y);
    assert marks[x][y] == m[x][y];
    forall i, j | 0 <= i < w && 0 <= j < h
      ensures marks'[i][j] == (if Before(i, j, x + 1, y) then EdgeMark(m, w, h, i, j) else m[i][j])
      ensures intensity'[i][j] == (if Before(i, j, x + 1, y) then EdgeIntensity(m, w, h, i, j) else 0)
    {
      if i != x || j != y {
        assert Before(i, j, x + 1, y) == Before(i, j, x, y);
      }
    }
  }

  /** Pass 2 neither creates nor removes background cells. */
  lemma ProgressKeepsBackground(m: seq<seq<Mark>>, marks: seq<seq<Mark>>, intensity: seq<seq<nat>>, w: nat, h: nat, x: int, y: int)
    requires IsGrid(m, w, h) && Progress(m, marks, intensity, w, h, x, y)
    ensures forall p, q :: 0 <= p < w && 0 <= q < h ==> (m[p][q] == Background <==> marks[p][q] == Background)
  {
    forall p, q | 0 <= p < w && 0 <= q < h
      ensures m[p][q] == Background <==> marks[p][q] == Background
    {
      assert marks[p][q] == (if Before(p, q, x, y) then EdgeMark(m, w, h, p, q) else m[p][q]);
    }
  }

  lemma RowDone(m: seq<seq<Mark>>, marks: seq<seq<Mark>>, intensity: seq<seq<nat>>, w: nat, h: nat, y: int)
    requires IsGrid(m, w, h) && Progress(m, marks, intensity, w, h, w, y)
    ensures Progress(m, marks, intensity, w, h, 0, y + 1)
  {
  }

  lemma FinishedTraversal(m: seq<seq<Mark>>, marks: seq<seq<Mark>>, intensity: seq<seq<nat>>, w: nat, h: nat)
    requires IsGrid(m, w, h) && Progress(m, marks, intensity, w, h, 0, h)
    ensures Classified(marks, intensity) == MarkEdges(m, w, h)
  {
    GridExt(marks, MarkEdges(m, w, h).marks, w, h);
    GridExt(intensity, MarkEdges(m, w, h).intensity, w, h);
  }
}
