/** The single-threaded path of main.cpp: the scanline loop that walks the
    image from the top row down, and the choice between it and the tiled
    renderer made on the configured thread count. */
module MainRender {
  import opened Base
  import opened Integrator
  import opened Framebuffer
  import opened Image
  import opened Tiles

  /** The sample loop of main.cpp for pixel `(i, j)`. */
  method ScanlineSamples(job: RenderJob, i: int, j: int) returns (pixel: Color)
    requires ValidJob(job)
    ensures pixel == PixelColor(job, i, j)
  {
    pixel := Black;
    var s := 0;
    while s < job.samplesPerPixel
      invariant 0 <= s
      invariant job.samplesPerPixel >= 0 ==> s <= job.samplesPerPixel
      invariant job.samplesPerPixel < 0 ==> s == 0
      invariant pixel == SampleSum(job, i, j, s)
    {
      var r := job.sampleRay(i, j, s);
      var estimate := RayColor(r, job.background, job.world, job.maxDepth);
      assert SampleSum(job, i, j, s + 1) == Add(SampleSum(job, i, j, s), estimate);
      pixel := Add(pixel, estimate);
      s := s + 1;
    }
  }

  /** Byte `k` is finished once the loop has done every row above `j` and
      columns `0 .. i-1` of row `j`. */
  predicate ScanDone(width: int, k: int, j: int, i: int) {
    width > 0 &&
    (PixelRow(width, k) > j || (PixelRow(width, k) == j && PixelCol(width, k) < i))
  }

  /** The `Threads == 0` loop: rows `height-1` down to 0, each left to right.
      It leaves the finished image, and the ghost result records that it
      visits the pixels in `Scanlines` order. */
  method RenderScanlines(job: RenderJob, img: array<int>) returns (ghost visits: seq<Pixel>)
    requires ValidJob(job) && img.Length == 3 * job.width * job.height
    modifies img
    ensures img[..] == RenderedImage(job)
    ensures visits == Scanlines(job.width, job.height, 0)
  {
    var width := job.width;
    visits := [];
    var j := job.height - 1;
    forall k | 0 <= k < img.Length
      ensures !ScanDone(width, k, j, 0)
    {
      ByteRowInRange(width, job.height, k);
    }
    while j >= 0
      invariant -1 <= j < job.height
      invariant visits == Scanlines(width, job.height, j + 1)
      invariant forall k :: 0 <= k < img.Length ==>
                  img[k] == if ScanDone(width, k, j, 0) then FrameByte(job, k) else old(img[k])
    {
      var i := 0;
      while i < width
        invariant 0 <= i <= width
        invariant visits == Scanlines(width, job.height, j + 1) + Row(j, 0, i)
        invariant forall k :: 0 <= k < img.Length ==>
                    img[k] == if ScanDone(width, k, j, i) then FrameByte(job, k) else old(img[k])
      {
        var pixel := ScanlineSamples(job, i, j);
        OffsetInBounds(width, job.height, i, j);
        ghost var before := img[..];
        WriteColor(img, pixel, width, i, j, job.samplesPerPixel, job.sqrt);
        PixelWrite(job, before, img[..], i, j);
        visits := visits + [Pixel(i, j)];
        i := i + 1;
      }
      forall k | 0 <= k < img.Length
        ensures ScanDone(width, k, j, width) == ScanDone(width, k, j - 1, 0)
      {
        if width > 0 {
          ByteEncodes(width, k);
        }
      }
      j := j - 1;
    }
    forall k | 0 <= k < img.Length
      ensures img[k] == RenderedImage(job)[k]
    {
      ByteEncodes(width, k);
    }
  }

  /** main.cpp from the allocation of `image_data` to the render call. The
      buffer's initial bytes, which C++ leaves indeterminate, are taken to be 0.
      A thread count of 0 takes the scanline loop, any other the tiled
      renderer; a positive one finishes the image, a negative one spawns no
      tile and leaves the buffer as allocated. */
  method RenderFrame(job: RenderJob, threads: int) returns (img: array<int>)
    requires ValidJob(job)
    ensures fresh(img) && img.Length == 3 * job.width * job.height
    ensures threads >= 0 ==> img[..] == RenderedImage(job)
    ensures threads < 0 ==> forall k :: 0 <= k < img.Length ==> img[k] == 0
  {
    img := new int[job.width * job.height * 3](_ => 0);
    if threads == 0 {
      ghost var order := RenderScanlines(job, img);
    } else {
      var tiles, tilesLeft, visits := RenderMultithreaded(job, threads, img);
    }
  }
}
