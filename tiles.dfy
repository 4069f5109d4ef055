/** The tile scheduler of multithreading.h. The image is cut into
    `num_threads` column tiles of `width / num_threads` columns, the last one
    taking the remainder; `render_tile` renders one tile into the shared
    framebuffer and decrements the tiles-left counter. Threads are left out:
    the tiles run here one after another, which is sound because they write
    disjoint bytes. */
module Tiles {
  import opened Base
  import opened Integrator
  import opened Framebuffer
  import opened Image

  /** `ray_colora`, the copy of `ray_color` the worker threads call. It computes
      exactly what `ray_color` computes. */
  function RayColorA(r: Ray, background: Color, world: Scene, depth: int): (c: Color)
    ensures c == RayColor(r, background, world, depth)
    decreases depth
  {
    if depth <= 0 then Black
    else match world.hit(r, TMin, Infinity)
      case None => background
      case Some(rec) =>
        var emitted := world.emitted(rec.mat, rec.u, rec.v, rec.p);
        match world.scatter(rec.mat, r, rec)
        case None => emitted
        case Some(s) =>
          Add(emitted, Mul(s.attenuation, RayColorA(s.scattered, background, world, depth - 1)))
  }

  /** The rectangle `[x0, x1) x [y0, y1)` one worker renders. */
  datatype Tile = Tile(x0: int, y0: int, x1: int, y1: int)

  /** The `i`-th of `n` tiles. Dafny's `/` agrees with C++'s on a non-negative
      dividend, whatever the divisor's sign. */
  function TileAt(width: int, height: int, n: int, i: int): Tile
    requires n > 0
  {
    var tileWidth := width / n;
    Tile(i * tileWidth, 0, if i == n - 1 then width else (i + 1) * tileWidth, height)
  }

  /** The tiles `render_multithreaded` hands to its threads, in order. A
      negative thread count starts no tile at all. */
  function Partition(width: int, height: int, n: int): (tiles: seq<Tile>)
    requires width >= 0 && n != 0
    ensures |tiles| == if n > 0 then n else 0
  {
    if n < 0 then [] else seq(n, i => TileAt(width, height, n, i))
  }

  /** Byte `k` belongs to a pixel of tile `t`. */
  predicate InTile(t: Tile, width: int, k: int) {
    width > 0 && t.x0 <= PixelCol(width, k) < t.x1 && t.y0 <= PixelRow(width, k) < t.y1
  }

  /** The first tile starts at column 0, the last ends at `width`, and every
      tile spans the full height. */
  lemma PartitionEnds(width: int, height: int, n: int)
    requires width >= 0 && n > 0
    ensures Partition(width, height, n)[0].x0 == 0
    ensures Partition(width, height, n)[n - 1].x1 == width
    ensures forall t :: 0 <= t < n ==>
              Partition(width, height, n)[t].y0 == 0 && Partition(width, height, n)[t].y1 == height
  {
  }

  /** Each tile ends where the next begins. */
  lemma PartitionContiguous(width: int, height: int, n: int, t: int)
    requires width >= 0 && n > 0 && 0 <= t < n - 1
    ensures Partition(width, height, n)[t].x1 == Partition(width, height, n)[t + 1].x0
  {
  }

  /** Every tile is a well-formed column range inside the image. */
  lemma PartitionInBounds(width: int, height: int, n: int, t: int)
    requires width >= 0 && n > 0 && 0 <= t < n
    ensures var tile := Partition(width, height, n)[t];
            0 <= tile.x0 <= tile.x1 <= width
  {
    var tw := width / n;
    assert n * tw <= width;
    MulMonotone(t + 1, n, tw);
    MulMonotone(t, t + 1, tw);
    assert 0 <= t * tw;
  }

  /** Tiles are ordered: an earlier tile ends no later than a later one begins. */
  lemma PartitionOrdered(width: int, height: int, n: int, t: int, t': int)
    requires width >= 0 && n > 0 && 0 <= t < t' < n
    ensures Partition(width, height, n)[t].x1 <= Partition(width, height, n)[t'].x0
  {
    MulMonotone(t + 1, t', width / n);
  }

  /** Every column of the image lies in exactly one tile. */
  lemma PartitionCovers(width: int, height: int, n: int, c: int)
    requires width >= 0 && n > 0 && 0 <= c < width
    ensures exists t :: 0 <= t < n && Partition(width, height, n)[t].x0 <= c < Partition(width, height, n)[t].x1
  {
    var tw := width / n;
    var tiles := Partition(width, height, n);
    var t := if tw == 0 then n - 1 else if c / tw < n - 1 then c / tw else n - 1;
    if tw == 0 {
      assert tiles[t].x0 == 0;
    } else if c / tw < n - 1 {
      DivModUnique(c, tw, c / tw, c % tw);
      assert tiles[t].x0 == (c / tw) * tw;
      assert tiles[t].x1 == (c / tw) * tw + tw;
    } else {
      var q := c / tw;
      assert c == q * tw + c % tw;
      MulMonotone(n - 1, q, tw);
      assert tiles[t].x0 == (n - 1) * tw;
    }
    assert tiles[t].x0 <= c < tiles[t].x1;
  }

  lemma PartitionColumnOnce(width: int, height: int, n: int, c: int, t: int, t': int)
    requires width >= 0 && n > 0 && 0 <= t < n && 0 <= t' < n
    requires Partition(width, height, n)[t].x0 <= c < Partition(width, height, n)[t].x1
    requires Partition(width, height, n)[t'].x0 <= c < Partition(width, height, n)[t'].x1
    ensures t == t'
  {
    if t < t' {
      PartitionOrdered(width, height, n, t, t');
    } else if t' < t {
      PartitionOrdered(width, height, n, t', t);
    }
  }

  /** Two distinct tiles never own the same framebuffer byte. */
  lemma PartitionBytesDisjoint(width: int, height: int, n: int, t: int, t': int, k: int)
    requires width >= 0 && n > 0 && 0 <= t < n && 0 <= t' < n && t != t'
    ensures !(InTile(Partition(width, height, n)[t], width, k) && InTile(Partition(width, height, n)[t'], width, k))
  {
    if InTile(Partition(width, height, n)[t], width, k) && InTile(Partition(width, height, n)[t'], width, k) {
      PartitionColumnOnce(width, height, n, PixelCol(width, k), t, t');
    }
  }

  /** With more threads than columns every tile but the last is empty and the
      last one covers the whole width. */
  lemma PartitionNarrowImage(width: int, height: int, n: int)
    requires 0 <= width < n
    ensures forall t :: 0 <= t < n - 1 ==>
              Partition(width, height, n)[t].x0 == 0 && Partition(width, height, n)[t].x1 == 0
    ensures Partition(width, height, n)[n - 1].x0 == 0 && Partition(width, height, n)[n - 1].x1 == width
  {
    DivModUnique(width, n, 0, width);
  }

  /** The pixels the tiles in `tiles` visit, one tile after another, each in
      `render_tile`'s row-major order. */
  function TiledOrder(tiles: seq<Tile>): seq<Pixel>
    decreases |tiles|
  {
    if |tiles| == 0 then []
    else
      var t := tiles[|tiles| - 1];
      TiledOrder(tiles[..|tiles| - 1]) + RowMajor(t.x0, t.x1, t.y0, t.y1)
  }

  /** The first `t` tiles visit each pixel left of tile `t`'s start exactly
      once, and no other pixel. */
  lemma {:induction false} TiledPrefixOnce(width: int, height: int, n: int, t: int, p: Pixel)
    requires width >= 0 && n > 0 && 0 <= t <= n
    ensures multiset(TiledOrder(Partition(width, height, n)[..t]))[p] ==
            if t > 0 && 0 <= p.i < Partition(width, height, n)[t - 1].x1 && 0 <= p.j < height then 1 else 0
  {
    if t > 0 {
      var tiles := Partition(width, height, n);
      assert tiles[..t][..t - 1] == tiles[..t - 1];
      TiledPrefixOnce(width, height, n, t - 1, p);
      RowMajorOnce(tiles[t - 1].x0, tiles[t - 1].x1, 0, height, p);
      PartitionInBounds(width, height, n, t - 1);
      PartitionEnds(width, height, n);
      if t > 1 {
        PartitionContiguous(width, height, n, t - 2);
      }
    }
  }

  /** Over all its tiles, `render_multithreaded` visits every pixel of the
      image exactly once, and no pixel outside it. */
  lemma TiledOnce(width: int, height: int, n: int, p: Pixel)
    requires width >= 0 && n > 0
    ensures multiset(TiledOrder(Partition(width, height, n)))[p] ==
            if 0 <= p.i < width && 0 <= p.j < height then 1 else 0
  {
    var tiles := Partition(width, height, n);
    assert tiles[..n] == tiles;
    TiledPrefixOnce(width, height, n, n, p);
    PartitionEnds(width, height, n);
  }

  /** The `per` counter the workers share with the progress reporter. */
  class ProgressCounter {
    var tilesLeft: int

    constructor (n: int)
      ensures tilesLeft == n
    {
      tilesLeft := n;
    }
  }

  /** Byte `k` is finished in a tile render that has done rows `y0 .. j-1`
      and columns `x0 .. i-1` of row `j`. */
  predicate TileDone(width: int, k: int, x0: int, x1: int, y0: int, j: int, i: int) {
    width > 0 &&
    ((y0 <= PixelRow(width, k) < j && x0 <= PixelCol(width, k) < x1) ||
     (PixelRow(width, k) == j && x0 <= PixelCol(width, k) < i))
  }

  /** The sample loop of `render_tile` for pixel `(i, j)`: the sum of
      `samples_per_pixel` integrator estimates. */
  method TileSamples(job: RenderJob, i: int, j: int) returns (pixel: Color)
    requires ValidJob(job)
    ensures pixel == PixelColor(job, i, j)
  {
    pixel := Black;
    var s := 0;
    while s < job.samplesPerPixel
      invariant 0 <= s
      invariant job.samplesPerPixel >= 0 ==> s <= job.samplesPerPixel
      invariant job.samplesPerPixel < 0 ==> s == 0
      invariant pixel == SampleSum(job, i, j, s)
    {
      var r := job.sampleRay(i, j, s);
      var estimate := RayColorA(r, job.background, job.world, job.maxDepth);
      assert SampleSum(job, i, j, s + 1) == Add(SampleSum(job, i, j, s), estimate);
      pixel := Add(pixel, estimate);
      s := s + 1;
    }
  }

  /** `render_tile`: every pixel of the rectangle gets its finished bytes,
      every other byte is untouched, and the counter drops by one. The ghost
      result is the order in which pixels were written. */
  method RenderTile(tilenum: int, x0: int, y0: int, x1: int, y1: int, job: RenderJob,
                    img: array<int>, per: ProgressCounter)
    returns (ghost visits: seq<Pixel>)
    requires ValidJob(job) && img.Length == 3 * job.width * job.height
    requires 0 <= x0 <= x1 <= job.width && 0 <= y0 <= y1 <= job.height
    modifies img, per
    ensures per.tilesLeft == old(per.tilesLeft) - 1
    ensures forall k :: 0 <= k < img.Length ==>
              img[k] == if InTile(Tile(x0, y0, x1, y1), job.width, k) then FrameByte(job, k) else old(img[k])
    ensures visits == RowMajor(x0, x1, y0, y1)
  {
    var width := job.width;
    visits := [];
    var j := y0;
    while j < y1
      modifies img
      invariant y0 <= j <= y1
      invariant visits == RowMajor(x0, x1, y0, j)
      invariant forall k :: 0 <= k < img.Length ==>
                  img[k] == if TileDone(width, k, x0, x1, y0, j, x0) then FrameByte(job, k) else old(img[k])
    {
      var i := x0;
      while i < x1
        modifies img
        invariant x0 <= i <= x1
        invariant visits == RowMajor(x0, x1, y0, j) + Row(j, x0, i)
        invariant forall k :: 0 <= k < img.Length ==>
                    img[k] == if TileDone(width, k, x0, x1, y0, j, i) then FrameByte(job, k) else old(img[k])
      {
        var pixel := TileSamples(job, i, j);
        OffsetInBounds(width, job.height, i, j);
        ghost var before := img[..];
        WriteColor(img, pixel, width, i, j, job.samplesPerPixel, job.sqrt);
        PixelWrite(job, before, img[..], i, j);
        forall k | 0 <= k < img.Length
          ensures TileDone(width, k, x0, x1, y0, j, i + 1) ==
                  (TileDone(width, k, x0, x1, y0, j, i) ||
                   (width > 0 && PixelCol(width, k) == i && PixelRow(width, k) == j))
        {
        }
        visits := visits + [Pixel(i, j)];
        i := i + 1;
      }
      forall k | 0 <= k < img.Length
        ensures TileDone(width, k, x0, x1, y0, j, x1) == TileDone(width, k, x0, x1, y0, j + 1, x0)
      {
      }
      j := j + 1;
    }
    forall k | 0 <= k < img.Length
      ensures TileDone(width, k, x0, x1, y0, y1, x0) == InTile(Tile(x0, y0, x1, y1), width, k)
    {
    }
    per.tilesLeft := per.tilesLeft - 1;
  }

  /** `render_multithreaded` with its threads run one after another: the
      tiles are exactly `Partition`, the tiles-left counter goes from
      `num_threads` to 0, and the framebuffer ends up holding the finished
      image. The ghost result is the order in which pixels were written,
      tile after tile (`TiledOnce`: each image pixel once). */
  method RenderMultithreaded(job: RenderJob, numThreads: int, img: array<int>)
    returns (tiles: seq<Tile>, tilesLeft: int, ghost visits: seq<Pixel>)
    requires ValidJob(job) && numThreads != 0 && img.Length == 3 * job.width * job.height
    modifies img
    ensures tiles == Partition(job.width, job.height, numThreads)
    ensures visits == TiledOrder(tiles)
    ensures tilesLeft == if numThreads > 0 then 0 else numThreads
    ensures numThreads > 0 ==> img[..] == RenderedImage(job)
    ensures numThreads < 0 ==> img[..] == old(img[..])
  {
    var width := job.width;
    tiles := [];
    visits := [];
    var tileWidth := width / numThreads;
    var percentages := new ProgressCounter(numThreads);
    ghost var done := 0;
    var i := 0;
    while i < numThreads
      invariant 0 <= i && (numThreads > 0 ==> i <= numThreads) && (numThreads < 0 ==> i == 0)
      invariant tiles == Partition(width, job.height, numThreads)[..i]
      invariant visits == TiledOrder(tiles)
      invariant done == if i == 0 then 0 else tiles[i - 1].x1
      invariant percentages.tilesLeft == numThreads - i
      invariant forall k :: 0 <= k < img.Length ==>
                  img[k] == if width > 0 && PixelCol(width, k) < done then FrameByte(job, k) else old(img[k])
    {
      var x0 := i * tileWidth;
      var x1 := (i + 1) * tileWidth;
      if i == numThreads - 1 {
        x1 := width;
      }
      assert Tile(x0, 0, x1, job.height) == Partition(width, job.height, numThreads)[i];
      PartitionInBounds(width, job.height, numThreads, i);
      ghost var before := img[..];
      ghost var order := RenderTile(i, x0, 0, x1, job.height, job, img, percentages);
      forall k | 0 <= k < img.Length
        ensures img[k] == if width > 0 && PixelCol(width, k) < x1 then FrameByte(job, k) else old(img[k])
      {
        ByteEncodes(width, k);
        ByteRowInRange(width, job.height, k);
        assert img[k] == if InTile(Tile(x0, 0, x1, job.height), width, k) then FrameByte(job, k) else before[k];
      }
      assert (tiles + [Tile(x0, 0, x1, job.height)])[..i] == tiles;
      tiles := tiles + [Tile(x0, 0, x1, job.height)];
      visits := visits + order;
      done := x1;
      i := i + 1;
    }
    tilesLeft := percentages.tilesLeft;
    if numThreads > 0 {
      PartitionEnds(width, job.height, numThreads);
      forall k | 0 <= k < img.Length
        ensures img[k] == RenderedImage(job)[k]
      {
        ByteEncodes(width, k);
      }
    }
  }
}
