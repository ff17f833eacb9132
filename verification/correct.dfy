/** The edge corrector: pulls the key channel of an edge pixel towards the
    mean of the other two and derives alpha from the same adjustment. */
module Correct {
  import opened Arith
  import opened Raster
  import opened Classify

  /** Boundary2N ("B2N", the default) applies the full adjustment;
      IntensityMatrix ("IM") divides it by the squared distance. */
  datatype Mode = Boundary2N | IntensityMatrix

  /** The divisor of the adjustment. `d2` is the squared distance to the
      nearest background cell. */
  function Scale(mode: Mode, d2: nat): nat {
    match mode
    case Boundary2N => 1
    case IntensityMatrix => d2
  }

  /** The colour with channel `k` replaced by `v` and alpha `a`. */
  function WithKey(p: Rgb, k: Key, v: int, a: int): (q: Rgba)
    ensures ChannelA(q, k) == v && q.a == a
    ensures forall k' :: k' != k ==> ChannelA(q, k') == Channel(p, k')
  {
    match k
    case Red => Rgba(v, p.g, p.b, a)
    case Green => Rgba(p.r, v, p.b, a)
    case Blue => Rgba(p.r, p.g, v, a)
  }

  /** The truncated adjustment `(c - mean) / scale`, from the key channel
      `c`, the sum `o` of the other two channels and the scale `s`. */
  function Adjustment(c: int, o: int, s: nat): int
    requires s >= 1
  {
    TruncDiv(2 * c - o, 2 * s)
  }

  /** The new key channel: the truncated `c - (c - mean) / scale`. */
  function AdjustedKey(c: int, o: int, s: nat): int
    requires s >= 1
  {
    TruncDiv(2 * s * c - (2 * c - o), 2 * s)
  }

  /** `process_boundary_pixel`. With `mean` the mean of the two other
      channels (a half-integer) and `adj = (c - mean) / scale` exact, the key
      channel becomes `c - adj` and alpha `255 - adj`, each truncated toward
      zero separately. Numerators are doubled to stay in integers. */
  function CorrectPixel(p: Rgb, k: Key, mode: Mode, d2: nat): (q: Rgba)
    requires mode == IntensityMatrix ==> d2 >= 1
    // the two other channels are untouched
    ensures forall k' :: k' != k ==> ChannelA(q, k') == Channel(p, k')
    // 255 - alpha is the truncated (c - mean) / scale
    ensures TruncatesTo(2 * Channel(p, k) - OthersSum(p, k), 2 * Scale(mode, d2), 255 - q.a)
    // the key channel is the truncated c - (c - mean) / scale
    ensures TruncatesTo(2 * Scale(mode, d2) * Channel(p, k) - (2 * Channel(p, k) - OthersSum(p, k)),
                        2 * Scale(mode, d2), ChannelA(q, k))
  {
    var c, o, s := Channel(p, k), OthersSum(p, k), Scale(mode, d2);
    WithKey(p, k, AdjustedKey(c, o, s), 255 - Adjustment(c, o, s))
  }

  /** The contract of `CorrectPixel` pins its result down: any RGBA value
      that keeps the other channels and truncates both quotients is it. */
  lemma CorrectPixelDetermined(p: Rgb, k: Key, mode: Mode, d2: nat, q: Rgba)
    requires mode == IntensityMatrix ==> d2 >= 1
    requires forall k' :: k' != k ==> ChannelA(q, k') == Channel(p, k')
    requires TruncatesTo(2 * Channel(p, k) - OthersSum(p, k), 2 * Scale(mode, d2), 255 - q.a)
    requires TruncatesTo(2 * Scale(mode, d2) * Channel(p, k) - (2 * Channel(p, k) - OthersSum(p, k)),
                         2 * Scale(mode, d2), ChannelA(q, k))
    ensures q == CorrectPixel(p, k, mode, d2)
  {
    var r := CorrectPixel(p, k, mode, d2);
    var c, o, s := Channel(p, k), OthersSum(p, k), Scale(mode, d2);
    TruncatesToUnique(2 * c - o, 2 * s, 255 - q.a, 255 - r.a);
    TruncatesToUnique(2 * s * c - (2 * c - o), 2 * s, ChannelA(q, k), ChannelA(r, k));
    match k
    case Red => assert ChannelA(q, Green) == ChannelA(r, Green) && ChannelA(q, Blue) == ChannelA(r, Blue);
    case Green => assert ChannelA(q, Red) == ChannelA(r, Red) && ChannelA(q, Blue) == ChannelA(r, Blue);
    case Blue => assert ChannelA(q, Red) == ChannelA(r, Red) && ChannelA(q, Green) == ChannelA(r, Green);
  }

  /** In B2N mode the key channel becomes the truncated mean of the other two. */
  lemma B2NKeyIsMean(p: Rgb, k: Key, d2: nat)
    ensures ChannelA(CorrectPixel(p, k, Boundary2N, d2), k) == OthersSum(p, k) / 2
  {
  }

  /** At distance 1 IM mode corrects exactly as B2N does. */
  lemma IMAtDistanceOneIsB2N(p: Rgb, k: Key, d2: nat)
    ensures CorrectPixel(p, k, IntensityMatrix, 1) == CorrectPixel(p, k, Boundary2N, d2)
  {
  }

  /** A neutral pixel (key channel equal to the mean of the others) is left
      as it is, fully opaque, in either mode. */
  lemma NeutralUnchanged(p: Rgb, k: Key, mode: Mode, d2: nat)
    requires mode == IntensityMatrix ==> d2 >= 1
    requires 2 * Channel(p, k) == OthersSum(p, k)
    ensures CorrectPixel(p, k, mode, d2) == Opaque(p)
  {
    var c, o, s := Channel(p, k), OthersSum(p, k), Scale(mode, d2);
    NeutralKey(c, o, s);
    match k
    case Red =>
    case Green =>
    case Blue =>
  }

  lemma NeutralKey(c: int, o: int, s: nat)
    requires s >= 1 && 0 <= c && 2 * c == o
    ensures AdjustedKey(c, o, s) == c && Adjustment(c, o, s) == 0
  {
    var m := 2 * s;
    assert 2 * s * c - (2 * c - o) == m * c;
    DivModUnique(m * c, m, c, 0);
  }

  /** In B2N mode the pure key colour becomes fully transparent black. */
  lemma PureKeyVanishes(k: Key, d2: nat)
    ensures CorrectPixel(KeyColour(k), k, Boundary2N, d2) == Transparent
  {
    match k
    case Red =>
    case Green =>
    case Blue =>
  }

  /** The worked examples for a green key in B2N mode. */
  lemma GreenExamples(d2: nat)
    ensures CorrectPixel(Rgb(0, 255, 0), Green, Boundary2N, d2) == Rgba(0, 0, 0, 0)
    ensures CorrectPixel(Rgb(0, 240, 0), Green, Boundary2N, d2) == Rgba(0, 0, 0, 15)
    ensures CorrectPixel(Rgb(128, 128, 128), Green, Boundary2N, d2) == Rgba(128, 128, 128, 255)
    ensures CorrectPixel(Rgb(128, 192, 128), Green, Boundary2N, d2) == Rgba(128, 128, 128, 191)
  {
  }

  /** When the key channel is at least the mean of the others, the output
      stays in range: alpha in [0, 255] and the key channel between the
      truncated mean and its old value. */
  lemma CorrectionInRange(p: Rgb, k: Key, mode: Mode, d2: nat)
    requires mode == IntensityMatrix ==> d2 >= 1
    requires 2 * Channel(p, k) >= OthersSum(p, k)
    ensures 0 <= CorrectPixel(p, k, mode, d2).a <= 255
    ensures OthersSum(p, k) / 2 <= ChannelA(CorrectPixel(p, k, mode, d2), k) <= Channel(p, k)
  {
    var c, o, s := Channel(p, k), OthersSum(p, k), Scale(mode, d2);
    AdjustmentInRange(c, o, s);
    AdjustedKeyInRange(c, o, s);
  }

  lemma AdjustmentInRange(c: int, o: int, s: nat)
    requires s >= 1 && 0 <= o && 2 * c >= o && c <= 255
    ensures 0 <= Adjustment(c, o, s) <= 255
  {
    TruncDivAntiMonotone(2 * c - o, 2, 2 * s);
  }

  lemma AdjustedKeyInRange(c: int, o: int, s: nat)
    requires s >= 1 && 0 <= o && 2 * c >= o
    ensures o / 2 <= AdjustedKey(c, o, s) <= c
  {
    var d := 2 * c - o;
    var mid := o / 2;
    var num := 2 * s * c - d;
    assert d <= 2 * (c - mid);
    MulLeftMono(c - mid, 1, s);
    assert mid * (2 * s) + 2 * (c - mid) * s == num + d;
    assert mid * (2 * s) <= num;
    FloorGreatest(num, 2 * s, mid);
    var v := num / (2 * s);
    assert v * (2 * s) <= num;
    if v > c {
      MulStrictMono(c, v, 2 * s);
    }
  }

  /** In IM mode a farther edge pixel is corrected less: its alpha and its
      key channel never decrease as the distance grows. */
  lemma IMFadesWithDistance(p: Rgb, k: Key, d2: nat, d2': nat)
    requires 1 <= d2 <= d2'
    requires 2 * Channel(p, k) >= OthersSum(p, k)
    ensures CorrectPixel(p, k, IntensityMatrix, d2).a <= CorrectPixel(p, k, IntensityMatrix, d2').a
    ensures ChannelA(CorrectPixel(p, k, IntensityMatrix, d2), k) <= ChannelA(CorrectPixel(p, k, IntensityMatrix, d2'), k)
  {
    var c, o := Channel(p, k), OthersSum(p, k);
    TruncDivAntiMonotone(2 * c - o, 2 * d2, 2 * d2');
    AdjustedKeyMonotone(c, o, d2, d2');
  }

  lemma AdjustedKeyMonotone(c: int, o: int, s: nat, s': nat)
    requires 1 <= s <= s' && 0 <= o && 2 * c >= o
    ensures AdjustedKey(c, o, s) <= AdjustedKey(c, o, s')
  {
    var d := 2 * c - o;
    AdjustedKeyInRange(c, o, s);
    var v := AdjustedKey(c, o, s);
    var m, m' := 2 * s, 2 * s';
    assert v == (m * c - d) / m;
    assert v * m <= m * c - d;
    // d <= (c - v) * m <= (c - v) * m', so v * m' <= m' * c - d
    Distrib(c, v, m);
    MulLeftMono(c - v, m, m');
    Distrib(c, v, m');
    FloorGreatest(m' * c - d, m', v);
  }

  lemma Distrib(a: int, b: int, m: int)
    ensures (a - b) * m == m * a - b * m
  {
  }
}
