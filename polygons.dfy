/**
 * The bookkeeping of the polygon image generator (generatePolygons.py):
 * the `clip` clamp and the nested generation loop that picks, for each of
 * 18000 images, its number of sides, its background and fill grey levels,
 * the bounds of its random radius and its file number.
 */
module Polygons {
  import opened PartNames

  /**
   * `clip(x, min, max)` (lines 57-61): x clamped to [lo, hi], and x itself
   * when the bounds are the wrong way round.
   */
  function Clip(x: real, lo: real, hi: real): (r: real)
    ensures lo > hi ==> r == x
    ensures lo <= hi ==> lo <= r <= hi
    ensures lo <= x <= hi ==> r == x
  {
    if lo > hi then x
    else if x < lo then lo
    else if x > hi then hi
    else x
  }

  function Distance(a: real, b: real): real
  {
    if a < b then b - a else a - b
  }

  /** With proper bounds, the result is the point of [lo, hi] nearest to x. */
  lemma ClipIsNearest(x: real, lo: real, hi: real, y: real)
    requires lo <= y <= hi
    ensures Distance(Clip(x, lo, hi), x) <= Distance(y, x)
  {
  }

  /** Clipping twice is clipping once. */
  lemma ClipIdempotent(x: real, lo: real, hi: real)
    ensures Clip(Clip(x, lo, hi), lo, hi) == Clip(x, lo, hi)
  {
  }

  /** With proper bounds, clipping keeps the order of its arguments. */
  lemma ClipMonotone(x: real, y: real, lo: real, hi: real)
    requires lo <= hi && x <= y
    ensures Clip(x, lo, hi) <= Clip(y, lo, hi)
  {
  }

  /** `r` (line 65): radius bounds, two per polygon kind. */
  const Radii: seq<int> := [14, 21, 12, 19, 11, 17]

  /** The background grey levels of the `for a in [0,255]` loop (line 69). */
  const Backgrounds: seq<nat> := [0, 255]

  /** Images per (sides, background) batch: `range(0,3000)` (line 77). */
  const BatchSize: nat := 3000

  /** Three polygon kinds times two backgrounds times one batch each. */
  const ImageCount: nat := 6 * BatchSize

  /**
   * What one iteration of the innermost loop asks for: the image number used
   * in the file name, the number of vertices, the background and fill grey
   * levels and the bounds of `np.random.randint` for the radius.
   */
  datatype ImageJob = ImageJob(number: nat, sides: nat, background: nat, fill: nat, radiusLow: int, radiusHigh: int)

  /**
   * Reference description of image k, independent of the counters: batches of
   * BatchSize images; two batches (black, then white background) per kind of
   * polygon; triangles first.
   */
  function JobAt(k: nat): (job: ImageJob)
    requires k < ImageCount
    ensures job.number == k
    ensures job.sides == 3 + k / (2 * BatchSize)
  {
    var batch := k / BatchSize;
    var kind := batch / 2;
    var background := if batch % 2 == 0 then 0 else 255;
    ImageJob(k, 3 + kind, background, 255 - background, Radii[2 * kind], Radii[2 * kind + 1])
  }

  lemma BatchOf(c: nat, j: nat)
    requires j < BatchSize
    ensures (c * BatchSize + j) / BatchSize == c
  {
  }

  /**
   * The generation loop (lines 65-88) with drawing and saving abstracted away:
   * the counters c and cc pick the file numbers and the radius bounds. The
   * numbers run 0, 1, ..., 17999, each once, and image k gets what JobAt(k)
   * describes.
   */
  method GenerationPlan() returns (plan: seq<ImageJob>)
    ensures |plan| == ImageCount
    ensures forall k :: 0 <= k < |plan| ==> plan[k].number == k
    ensures forall k :: 0 <= k < |plan| ==> plan[k] == JobAt(k)
  {
    plan := [];
    var c: nat := 0;
    var cc: nat := 0;
    for x := 3 to 6
      invariant cc == 2 * (x - 3) && c == 2 * (x - 3)
      invariant |plan| == c * BatchSize
      invariant forall k :: 0 <= k < |plan| ==> plan[k] == JobAt(k)
    {
      for ai := 0 to |Backgrounds|
        invariant cc == 2 * (x - 3) && c == 2 * (x - 3) + ai
        invariant |plan| == c * BatchSize
        invariant forall k :: 0 <= k < |plan| ==> plan[k] == JobAt(k)
      {
        var a := Backgrounds[ai];
        var b: nat;
        if a == 0 {
          b := 255;
        } else {
          b := 0;
        }
        for j := 0 to BatchSize
          invariant |plan| == c * BatchSize + j
          invariant forall k :: 0 <= k < |plan| ==> plan[k] == JobAt(k)
        {
          BatchOf(c, j);
          plan := plan + [ImageJob(j + c * BatchSize, x, a, b, Radii[cc], Radii[cc + 1])];
        }
        c := c + 1;
      }
      cc := cc + 2;
    }
  }

  /** The fill colour is always the opposite of the background (lines 72-75). */
  lemma FillOppositeBackground(k: nat)
    requires k < ImageCount
    ensures JobAt(k).background in Backgrounds && JobAt(k).fill in Backgrounds
    ensures JobAt(k).fill != JobAt(k).background
  {
  }

  /**
   * Each kind of polygon draws its radius from the range its comment names
   * (lines 92-94), and that range is never empty, so `randint` is defined.
   */
  lemma RadiusBoundsPerKind(k: nat)
    requires k < ImageCount
    ensures 3 <= JobAt(k).sides <= 5
    ensures JobAt(k).sides == 3 ==> JobAt(k).radiusLow == 14 && JobAt(k).radiusHigh == 21
    ensures JobAt(k).sides == 4 ==> JobAt(k).radiusLow == 12 && JobAt(k).radiusHigh == 19
    ensures JobAt(k).sides == 5 ==> JobAt(k).radiusLow == 11 && JobAt(k).radiusHigh == 17
    ensures 0 < JobAt(k).radiusLow < JobAt(k).radiusHigh
  {
  }

  /** Images of one batch differ only in their number. */
  lemma BatchIsUniform(k: nat, l: nat)
    requires k < ImageCount && l < ImageCount && k / BatchSize == l / BatchSize
    ensures JobAt(k).(number := 0) == JobAt(l).(number := 0)
  {
  }

  /** The file an image is saved to: `'image_' + str(j+c*3000) + '.png'` (line 85). */
  function ImageFileName(number: nat): (name: string)
    ensures |name| > 10 && name[..6] == "image_" && name[|name| - 4..] == ".png"
    ensures AllDigits(name[6..|name| - 4]) && Value(name[6..|name| - 4]) == number
  {
    var digits := DecimalString(number);
    ValueOfDecimal(number);
    assert ("image_" + digits + ".png")[6..6 + |digits|] == digits;
    "image_" + digits + ".png"
  }

  /** Different image numbers never share a file name, so no image overwrites another. */
  lemma ImageFileNamesDistinct(m: nat, n: nat)
    requires ImageFileName(m) == ImageFileName(n)
    ensures m == n
  {
    var s, t := DecimalString(m), DecimalString(n);
    assert |s| == |t|;
    assert s == ImageFileName(m)[6..6 + |s|];
    assert t == ImageFileName(n)[6..6 + |t|];
    ValueOfDecimal(m);
    ValueOfDecimal(n);
  }
}
