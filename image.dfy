/** What a render must leave in the framebuffer, independently of how the
    work is scheduled: every pixel's bytes are the quantised sum of its
    samples' integrator estimates. Also the orders in which the two render
    loops visit the pixels. */
module Image {
  import opened Base
  import opened Integrator
  import opened Framebuffer

  /** The parameters both render paths receive. `sampleRay(i, j, s)` is the
      camera ray of sample `s` of pixel `(i, j)`: it stands for
      `cam.get_ray((i + random_double()) / (width-1), (j + random_double()) / (height-1))`.
      `sqrt` is the gamma correction `write_color` applies. */
  datatype RenderJob = RenderJob(
    width: int, height: int, samplesPerPixel: int, maxDepth: int,
    background: Color, world: Scene,
    sampleRay: (int, int, int) -> Ray,
    sqrt: real -> real)

  predicate ValidJob(job: RenderJob) {
    job.width >= 0 && job.height >= 0 && job.samplesPerPixel != 0
  }

  /** `pixel_color` after the first `n` samples of pixel `(i, j)`. */
  function SampleSum(job: RenderJob, i: int, j: int, n: int): Color
    decreases n
  {
    if n <= 0 then Black
    else Add(SampleSum(job, i, j, n - 1),
             RayColor(job.sampleRay(i, j, n - 1), job.background, job.world, job.maxDepth))
  }

  /** The sum `write_color` receives for pixel `(i, j)`. */
  function PixelColor(job: RenderJob, i: int, j: int): Color {
    SampleSum(job, i, j, job.samplesPerPixel)
  }

  /** The byte a finished render holds at offset `k`. */
  function FrameByte(job: RenderJob, k: int): int
    requires ValidJob(job) && k >= 0
  {
    if job.width == 0 then 0
    else PixelByte(PixelColor(job, PixelCol(job.width, k), PixelRow(job.width, k)), k % 3,
                   job.samplesPerPixel, job.sqrt)
  }

  /** The whole framebuffer of a finished render. */
  function RenderedImage(job: RenderJob): (s: seq<int>)
    requires ValidJob(job)
    ensures |s| == 3 * job.width * job.height
  {
    seq(3 * job.width * job.height, k requires k >= 0 => FrameByte(job, k))
  }

  /** Pixel `(i, j)` of the finished framebuffer sits at byte offset
      `3 * (j * width + i)`, red, green, blue in that order, and every byte is
      in `[0, 255]`. */
  lemma RenderedPixel(job: RenderJob, i: int, j: int, c: int)
    requires ValidJob(job) && 0 <= i < job.width && 0 <= j < job.height && 0 <= c < 3
    ensures Offset(job.width, i, j) + c < |RenderedImage(job)|
    ensures RenderedImage(job)[Offset(job.width, i, j) + c] ==
            PixelByte(PixelColor(job, i, j), c, job.samplesPerPixel, job.sqrt)
  {
    OffsetInBounds(job.width, job.height, i, j);
    OffsetDecodes(job.width, i, j, c);
  }

  lemma RenderedBytesInRange(job: RenderJob, k: int)
    requires ValidJob(job) && 0 <= k < |RenderedImage(job)|
    ensures 0 <= RenderedImage(job)[k] <= 255
  {
  }

  /** With non-negative light every sample sum is non-negative. */
  lemma {:induction false} SampleSumNonNegative(job: RenderJob, i: int, j: int, n: int)
    requires NonNegativeScene(job.world) && NonNegative(job.background)
    ensures NonNegative(SampleSum(job, i, j, n))
    decreases n
  {
    if n > 0 {
      SampleSumNonNegative(job, i, j, n - 1);
    }
  }

  /** A negative sample count runs no sample: every pixel sums to black,
      and with `sqrt(0) = 0` every byte of the finished image is 0. */
  lemma NoSamplesBlack(job: RenderJob, k: int)
    requires ValidJob(job) && job.samplesPerPixel < 0 && job.sqrt(0.0) == 0.0
    requires 0 <= k < |RenderedImage(job)|
    ensures RenderedImage(job)[k] == 0
  {
    var p := PixelColor(job, PixelCol(job.width, k), PixelRow(job.width, k));
    assert p == Black;
    assert Channel(p, k % 3) / job.samplesPerPixel as real == 0.0;
  }

  /** Writing pixel `(i, j)`'s finished bytes and nothing else finishes
      exactly the bytes that decode to `(i, j)`. */
  lemma PixelWrite(job: RenderJob, before: seq<int>, after: seq<int>, i: int, j: int)
    requires ValidJob(job) && 0 <= i < job.width && 0 <= j < job.height
    requires |before| == |after| == 3 * job.width * job.height
    requires forall c :: 0 <= c < 3 && 0 <= Offset(job.width, i, j) + c < |after| ==>
               after[Offset(job.width, i, j) + c] ==
               PixelByte(PixelColor(job, i, j), c, job.samplesPerPixel, job.sqrt)
    requires forall k :: 0 <= k < |after| && !(Offset(job.width, i, j) <= k < Offset(job.width, i, j) + 3) ==>
               after[k] == before[k]
    ensures forall k :: 0 <= k < |after| ==>
              after[k] == if PixelCol(job.width, k) == i && PixelRow(job.width, k) == j
                          then FrameByte(job, k) else before[k]
  {
    forall k | 0 <= k < |after|
      ensures after[k] == if PixelCol(job.width, k) == i && PixelRow(job.width, k) == j
                          then FrameByte(job, k) else before[k]
    {
      PixelWriteAt(job, before, after, i, j, k);
    }
  }

  lemma PixelWriteAt(job: RenderJob, before: seq<int>, after: seq<int>, i: int, j: int, k: int)
    requires ValidJob(job) && 0 <= i < job.width && 0 <= j < job.height
    requires |before| == |after| && 0 <= k < |after|
    requires forall c :: 0 <= c < 3 && 0 <= Offset(job.width, i, j) + c < |after| ==>
               after[Offset(job.width, i, j) + c] ==
               PixelByte(PixelColor(job, i, j), c, job.samplesPerPixel, job.sqrt)
    requires !(Offset(job.width, i, j) <= k < Offset(job.width, i, j) + 3) ==> after[k] == before[k]
    ensures after[k] == if PixelCol(job.width, k) == i && PixelRow(job.width, k) == j
                        then FrameByte(job, k) else before[k]
  {
    var base := Offset(job.width, i, j);
    ByteEncodes(job.width, k);
    if base <= k < base + 3 {
      var c := k - base;
      OffsetDecodes(job.width, i, j, c);
      assert after[base + c] == PixelByte(PixelColor(job, i, j), c, job.samplesPerPixel, job.sqrt);
    }
  }

  datatype Pixel = Pixel(i: int, j: int)

  /** Columns `x0 .. x1-1` of row `j`, left to right. */
  function Row(j: int, x0: int, x1: int): seq<Pixel>
    decreases x1 - x0
  {
    if x1 <= x0 then [] else Row(j, x0, x1 - 1) + [Pixel(x1 - 1, j)]
  }

  /** Rows `y0 .. y1-1` of the rectangle `[x0, x1)`, top to bottom: the order of `render_tile`. */
  function RowMajor(x0: int, x1: int, y0: int, y1: int): seq<Pixel>
    decreases y1 - y0
  {
    if y1 <= y0 then [] else RowMajor(x0, x1, y0, y1 - 1) + Row(y1 - 1, x0, x1)
  }

  /** Rows `height-1` down to `lo` of the whole image: the order of main.cpp's scanline loop. */
  function Scanlines(width: int, height: int, lo: int): seq<Pixel>
    decreases height - lo
  {
    if height <= lo then [] else Scanlines(width, height, lo + 1) + Row(lo, 0, width)
  }

  lemma {:induction false} RowOnce(j: int, x0: int, x1: int, p: Pixel)
    ensures multiset(Row(j, x0, x1))[p] == if p.j == j && x0 <= p.i < x1 then 1 else 0
    decreases x1 - x0
  {
    if x0 < x1 {
      RowOnce(j, x0, x1 - 1, p);
    }
  }

  /** `render_tile` visits each pixel of its rectangle exactly once, and no other. */
  lemma {:induction false} RowMajorOnce(x0: int, x1: int, y0: int, y1: int, p: Pixel)
    ensures multiset(RowMajor(x0, x1, y0, y1))[p] ==
            if x0 <= p.i < x1 && y0 <= p.j < y1 then 1 else 0
    decreases y1 - y0
  {
    if y0 < y1 {
      RowMajorOnce(x0, x1, y0, y1 - 1, p);
      RowOnce(y1 - 1, x0, x1, p);
    }
  }

  /** The scanline loop visits each pixel of the image exactly once. */
  lemma {:induction false} ScanlinesOnce(width: int, height: int, lo: int, p: Pixel)
    ensures multiset(Scanlines(width, height, lo))[p] ==
            if 0 <= p.i < width && lo <= p.j < height then 1 else 0
    decreases height - lo
  {
    if lo < height {
      ScanlinesOnce(width, height, lo + 1, p);
      RowOnce(lo, 0, width, p);
    }
  }

  /** ... and it visits the rows from the top index down: a pixel visited
      earlier never has a smaller row than one visited later. */
  lemma {:induction false} ScanlinesDescend(width: int, height: int, lo: int, a: int, b: int)
    requires 0 <= a < b < |Scanlines(width, height, lo)|
    ensures Scanlines(width, height, lo)[a].j >= Scanlines(width, height, lo)[b].j
    decreases height - lo
  {
    var rest := Scanlines(width, height, lo + 1);
    RowRows(lo, 0, width);
    ScanlinesRows(width, height, lo + 1);
    if b < |rest| {
      ScanlinesDescend(width, height, lo + 1, a, b);
    }
  }

  lemma {:induction false} RowRows(j: int, x0: int, x1: int)
    ensures forall n :: 0 <= n < |Row(j, x0, x1)| ==> Row(j, x0, x1)[n].j == j
    decreases x1 - x0
  {
    if x0 < x1 {
      RowRows(j, x0, x1 - 1);
    }
  }

  lemma {:induction false} ScanlinesRows(width: int, height: int, lo: int)
    ensures forall n :: 0 <= n < |Scanlines(width, height, lo)| ==>
              Scanlines(width, height, lo)[n].j >= lo
    decreases height - lo
  {
    if lo < height {
      ScanlinesRows(width, height, lo + 1);
      RowRows(lo, 0, width);
    }
  }
}
