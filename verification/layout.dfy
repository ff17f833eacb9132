/** The spritesheet grid: how many cells per side, and where each frame goes. */
module Layout {
  import opened Arith

  /** The breakpoints the side is chosen from: the squares 0, 1, ..., 256. */
  const Breakpoints: seq<nat> := [0, 1, 4, 9, 16, 25, 36, 49, 64, 81, 100, 121, 144, 169, 196, 225, 256]

  /** The side used when no breakpoint exceeds the frame count. */
  const MaxSide: nat := 16

  lemma BreakpointsAreSquares()
    ensures |Breakpoints| == MaxSide + 1
    ensures forall i :: 0 <= i < |Breakpoints| ==> Breakpoints[i] == i * i
  {
  }

  /** The search loop from index `i`: the first breakpoint index whose value
      exceeds `n`, or `MaxSide` when none does. */
  function FirstAbove(n: nat, i: nat): (side: nat)
    requires i <= |Breakpoints|
    ensures forall j :: i <= j < |Breakpoints| && j < side ==> n >= Breakpoints[j]
    ensures (i <= side < |Breakpoints| && n < Breakpoints[side])
         || (side == MaxSide && forall j :: i <= j < |Breakpoints| ==> n >= Breakpoints[j])
    decreases |Breakpoints| - i
  {
    if i == |Breakpoints| then MaxSide
    else if n < Breakpoints[i] then i
    else FirstAbove(n, i + 1)
  }

  /** The side of the square spritesheet grid for `n` frames. The comparison
      is strict, so a perfect square gets an extra row and column. */
  function SheetSide(n: nat): (side: nat)
    ensures 1 <= side <= MaxSide
    ensures n < 256 ==> n < side * side && (side - 1) * (side - 1) <= n
    ensures n >= 256 ==> side == MaxSide
  {
    FirstAboveIsSquareBound(n);
    FirstAbove(n, 0)
  }

  lemma FirstAboveIsSquareBound(n: nat)
    ensures 1 <= FirstAbove(n, 0) <= MaxSide
    ensures n < 256 ==> var side := FirstAbove(n, 0); n < side * side && (side - 1) * (side - 1) <= n
    ensures n >= 256 ==> FirstAbove(n, 0) == MaxSide
  {
    BreakpointsAreSquares();
    var side := FirstAbove(n, 0);
    if n < 256 {
      assert n < Breakpoints[16];
      assert Breakpoints[side - 1] <= n;
    }
  }

  /** The frame counts the layout yields for a few inputs. */
  lemma SheetSideExamples()
    ensures SheetSide(0) == 1 && SheetSide(1) == 2 && SheetSide(3) == 2
    ensures SheetSide(4) == 3 && SheetSide(5) == 3 && SheetSide(16) == 5
    ensures SheetSide(17) == 5 && SheetSide(255) == 16 && SheetSide(256) == 16
    ensures SheetSide(300) == 16
  {
    SideIsSmallestAbove(0, 1);
    SideIsSmallestAbove(1, 2);
    SideIsSmallestAbove(3, 2);
    SideIsSmallestAbove(4, 3);
    SideIsSmallestAbove(5, 3);
    SideIsSmallestAbove(16, 5);
    SideIsSmallestAbove(17, 5);
    SideIsSmallestAbove(255, 16);
  }

  /** Below 256 frames the side is the unique `i` with (i - 1)^2 <= n < i^2. */
  lemma SideIsSmallestAbove(n: nat, i: nat)
    requires n < 256 && 1 <= i && (i - 1) * (i - 1) <= n < i * i
    ensures SheetSide(n) == i
  {
    var side := SheetSide(n);
    SquareBracketUnique(n, side, i);
  }

  /** At most one `a >= 1` brackets `n` as (a - 1)^2 <= n < a^2. */
  lemma SquareBracketUnique(n: int, a: int, b: int)
    requires 1 <= a && (a - 1) * (a - 1) <= n < a * a
    requires 1 <= b && (b - 1) * (b - 1) <= n < b * b
    ensures a == b
  {
    if a < b {
      SquareMono(a, b - 1);
    } else if b < a {
      SquareMono(b, a - 1);
    }
  }

  lemma SquareMono(a: int, b: int)
    requires 0 <= a <= b
    ensures a * a <= b * b
  {
    MulLeftMono(a, a, b);
    MulLeftMono(b, a, b);
  }

  /** Column offset of frame `i`'s block: `i mod side` blocks of width `w`. */
  function OriginX(i: nat, side: nat, w: nat): nat
    requires side >= 1
  {
    (i % side) * w
  }

  /** Row offset of frame `i`'s block: `i div side` blocks of height `h`. */
  function OriginY(i: nat, side: nat, h: nat): nat
    requires side >= 1
  {
    (i / side) * h
  }

  /** The frame whose block holds sheet cell (sx, sy). */
  function Owner(sx: nat, sy: nat, side: nat, w: nat, h: nat): nat
    requires side >= 1 && w >= 1 && h >= 1
  {
    (sy / h) * side + sx / w
  }

  /** A cell of frame `i`'s block maps back to frame `i` and to its position
      inside the frame. */
  lemma OriginRoundTrip(i: nat, side: nat, w: nat, h: nat, x: nat, y: nat)
    requires side >= 1 && x < w && y < h
    ensures (OriginX(i, side, w) + x) / w == i % side && (OriginX(i, side, w) + x) % w == x
    ensures (OriginY(i, side, h) + y) / h == i / side && (OriginY(i, side, h) + y) % h == y
    ensures Owner(OriginX(i, side, w) + x, OriginY(i, side, h) + y, side, w, h) == i
  {
    DivModUnique(OriginX(i, side, w) + x, w, i % side, x);
    DivModUnique(OriginY(i, side, h) + y, h, i / side, y);
  }

  /** Blocks of different frames share no cell. */
  lemma BlocksDisjoint(i: nat, j: nat, side: nat, w: nat, h: nat, x: nat, y: nat, x': nat, y': nat)
    requires side >= 1 && x < w && y < h && x' < w && y' < h && i != j
    ensures OriginX(i, side, w) + x != OriginX(j, side, w) + x' || OriginY(i, side, h) + y != OriginY(j, side, h) + y'
  {
    OriginRoundTrip(i, side, w, h, x, y);
    OriginRoundTrip(j, side, w, h, x', y');
  }

  /** The blocks of frames 0 .. side^2 - 1 lie inside the side*w x side*h sheet. */
  lemma BlockInSheet(i: nat, side: nat, w: nat, h: nat, x: nat, y: nat)
    requires side >= 1 && i < side * side && x < w && y < h
    ensures OriginX(i, side, w) + x < side * w
    ensures OriginY(i, side, h) + y < side * h
  {
    var col, row := i % side, i / side;
    MulStrictMono(col, side, w);
    if row >= side {
      MulLeftMono(side, side, row);
    }
    MulStrictMono(row, side, h);
  }

  /** Every sheet cell lies in the block of exactly one frame below side^2:
      its owner, at the offset given by the remainders. */
  lemma OwnerCoversSheet(sx: nat, sy: nat, side: nat, w: nat, h: nat)
    requires side >= 1 && w >= 1 && h >= 1 && sx < side * w && sy < side * h
    ensures Owner(sx, sy, side, w, h) < side * side
    ensures sx == OriginX(Owner(sx, sy, side, w, h), side, w) + sx % w
    ensures sy == OriginY(Owner(sx, sy, side, w, h), side, h) + sy % h
  {
    var col, row := sx / w, sy / h;
    if col >= side {
      MulLeftMono(w, side, col);
    }
    if row >= side {
      MulLeftMono(h, side, row);
    }
    var i := row * side + col;
    DivModUnique(i, side, row, col);
    MulStrictMono(row, side, side);
  }
}
