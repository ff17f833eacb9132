/** Pixels, channels, rectangular grids and the per-frame palette lookup. */
module Raster {
  import opened Wrappers

  /** A palette channel value. */
  type Byte = x: int | 0 <= x < 256

  /** An RGB triple as fetched from a frame's palette. */
  datatype Rgb = Rgb(r: Byte, g: Byte, b: Byte)

  /** An RGBA value as handed to the sheet. Components are plain integers:
      the edge corrector can produce an alpha above 255 for pixels whose key
      channel is below the mean of the other two. */
  datatype Rgba = Rgba(r: int, g: int, b: int, a: int)

  /** The sheet's initial fill. */
  const Transparent := Rgba(0, 0, 0, 0)

  /** The chroma-key channel: 0 red, 1 green, 2 blue on the command line. */
  datatype Key = Red | Green | Blue

  /** The value of channel `k` of a palette colour. */
  function Channel(p: Rgb, k: Key): Byte {
    match k
    case Red => p.r
    case Green => p.g
    case Blue => p.b
  }

  /** The value of channel `k` of an output colour. */
  function ChannelA(q: Rgba, k: Key): int {
    match k
    case Red => q.r
    case Green => q.g
    case Blue => q.b
  }

  /** Sum of the two channels other than `k`. */
  function OthersSum(p: Rgb, k: Key): (s: int)
    ensures 0 <= s <= 510
    ensures s == p.r + p.g + p.b - Channel(p, k)
  {
    match k
    case Red => p.g + p.b
    case Green => p.r + p.b
    case Blue => p.r + p.g
  }

  /** A foreground pixel written with full opacity: the script puts an RGB
      triple into an RGBA image, which stores alpha 255. */
  function Opaque(p: Rgb): Rgba {
    Rgba(p.r, p.g, p.b, 255)
  }

  /** `g` is a `w` x `h` grid indexed `g[x][y]`, the layout of the script's
      numpy matrices built from the image size `(width, height)`. */
  predicate IsGrid<T>(g: seq<seq<T>>, w: nat, h: nat) {
    |g| == w && forall x :: 0 <= x < w ==> |g[x]| == h
  }

  /** The grid with cell (x, y) replaced by `v`. */
  function SetCell<T>(g: seq<seq<T>>, x: nat, y: nat, v: T): (g': seq<seq<T>>)
    requires x < |g| && y < |g[x]|
    ensures |g'| == |g| && forall i :: 0 <= i < |g| ==> |g'[i]| == |g[i]|
    ensures forall i, j :: 0 <= i < |g| && 0 <= j < |g[i]| ==>
      g'[i][j] == if i == x && j == y then v else g[i][j]
  {
    g[x := g[x][y := v]]
  }

  /** Two grids of the same shape and contents are equal. */
  lemma GridExt<T>(a: seq<seq<T>>, b: seq<seq<T>>, w: nat, h: nat)
    requires IsGrid(a, w, h) && IsGrid(b, w, h)
    requires forall x, y :: 0 <= x < w && 0 <= y < h ==> a[x][y] == b[x][y]
    ensures a == b
  {
    forall x | 0 <= x < w
      ensures a[x] == b[x]
    {
      assert forall y :: 0 <= y < h ==> a[x][y] == b[x][y];
    }
  }

  /** One frame of the animation: its own palette (flat, three entries per
      colour) and a raster of palette indices. */
  datatype Frame = Frame(palette: seq<Byte>, indices: seq<seq<nat>>)

  /** Palette lookup: entries `3 * id .. 3 * id + 3`. A shorter slice, which
      Python returns silently, makes the first channel access fail; that is
      the `None` case. */
  function Resolve(palette: seq<Byte>, id: nat): (c: Option<Rgb>)
    ensures c.Some? <==> 3 * id + 3 <= |palette|
  {
    if 3 * id + 3 <= |palette| then
      Some(Rgb(palette[3 * id], palette[3 * id + 1], palette[3 * id + 2]))
    else
      None
  }

  /** A list of colours laid out as a flat palette. */
  function Flatten(cs: seq<Rgb>): (p: seq<Byte>)
    ensures |p| == 3 * |cs|
  {
    if cs == [] then [] else [cs[0].r, cs[0].g, cs[0].b] + Flatten(cs[1..])
  }

  /** Resolving index `i` of a flattened colour list gives colour `i` back,
      and indices past the list are rejected. */
  lemma {:induction false} ResolveFlatten(cs: seq<Rgb>, i: nat)
    ensures i < |cs| ==> Resolve(Flatten(cs), i) == Some(cs[i])
    ensures i >= |cs| ==> Resolve(Flatten(cs), i) == None
  {
    if cs != [] && 0 < i < |cs| {
      ResolveFlatten(cs[1..], i - 1);
      var p := Flatten(cs);
      assert p == [cs[0].r, cs[0].g, cs[0].b] + Flatten(cs[1..]);
      assert p[3 * i] == Flatten(cs[1..])[3 * (i - 1)];
      assert p[3 * i + 1] == Flatten(cs[1..])[3 * (i - 1) + 1];
      assert p[3 * i + 2] == Flatten(cs[1..])[3 * (i - 1) + 2];
    }
  }

  /** Every index of a frame resolves against its palette. */
  predicate AllResolve(f: Frame, w: nat, h: nat)
    requires IsGrid(f.indices, w, h)
  {
    forall x, y :: 0 <= x < w && 0 <= y < h ==> Resolve(f.palette, f.indices[x][y]).Some?
  }

  /** The frame's colours, or `None` when some index falls off the palette
      (the script raises an IndexError in its first pass over that frame). */
  function Decode(f: Frame, w: nat, h: nat): (img: Option<seq<seq<Rgb>>>)
    requires IsGrid(f.indices, w, h)
    ensures img.Some? <==> AllResolve(f, w, h)
    ensures img.Some? ==> IsGrid(img.value, w, h)
    ensures img.Some? ==> forall x, y :: 0 <= x < w && 0 <= y < h ==>
      Resolve(f.palette, f.indices[x][y]) == Some(img.value[x][y])
  {
    if AllResolve(f, w, h) then
      Some(seq(w, x requires 0 <= x < w =>
        seq(h, y requires 0 <= y < h => Resolve(f.palette, f.indices[x][y]).value)))
    else
      None
  }
}
