/** The background classifier and the first classification pass. */
module Classify {
  import opened Raster

  /** The three states of the classification matrix: 0, 1 and 2 in the script. */
  datatype Mark = Foreground | Edge | Background

  /** The pure primary colour of the key channel. */
  function KeyColour(k: Key): (m: Rgb)
    ensures Channel(m, k) == 255 && OthersSum(m, k) == 0
  {
    match k
    case Red => Rgb(255, 0, 0)
    case Green => Rgb(0, 255, 0)
    case Blue => Rgb(0, 0, 255)
  }

  function Abs(n: int): nat {
    if n < 0 then -n else n
  }

  /** Manhattan distance between two colours. */
  function Manhattan(p: Rgb, q: Rgb): nat {
    Abs(p.r - q.r) + Abs(p.g - q.g) + Abs(p.b - q.b)
  }

  /** A pixel is background when its Manhattan distance to the pure key
      colour does not exceed the threshold. */
  function IsWithinThreshold(p: Rgb, k: Key, threshold: int): (b: bool)
    // channels lie in 0..255, so the distance has a closed form: how far
    // the key channel is below 255, plus the other two channels
    ensures b <==> (255 - Channel(p, k)) + OthersSum(p, k) <= threshold
  {
    Manhattan(p, KeyColour(k)) <= threshold
  }

  /** At threshold 0 only the exact key colour is background. */
  lemma ThresholdZeroExact(p: Rgb, k: Key)
    ensures IsWithinThreshold(p, k, 0) <==> p == KeyColour(k)
  {
  }

  /** Raising the threshold never turns a match into a non-match. */
  lemma ThresholdMonotone(p: Rgb, k: Key, t: int, t': int)
    requires t <= t' && IsWithinThreshold(p, k, t)
    ensures IsWithinThreshold(p, k, t')
  {
  }

  /** At threshold 765 (three full channel ranges) every colour matches. */
  lemma ThresholdFull(p: Rgb, k: Key)
    ensures IsWithinThreshold(p, k, 765)
  {
  }

  /** Pass 1: every pixel within threshold is marked background, every other
      one stays unmarked. */
  function MarkBackground(img: seq<seq<Rgb>>, w: nat, h: nat, k: Key, threshold: int): (m: seq<seq<Mark>>)
    requires IsGrid(img, w, h)
    ensures IsGrid(m, w, h)
    ensures forall x, y :: 0 <= x < w && 0 <= y < h ==>
      m[x][y] != Edge && (m[x][y] == Background <==> IsWithinThreshold(img[x][y], k, threshold))
  {
    seq(w, x requires 0 <= x < w =>
      seq(h, y requires 0 <= y < h =>
        if IsWithinThreshold(img[x][y], k, threshold) then Background else Foreground))
  }
}
