/** The pixel quantiser and framebuffer layout of color.h: `write_color` turns
    a sum of samples into three 8-bit channels and stores them, red first, at
    byte offset `3 * (j * width + i)` of a flat, row-major buffer. */
module Framebuffer {
  import opened Base

  /** Upper clamp bound; `256 * 0.999` stays below 256. */
  const ClampMax: real := 0.999

  /** `clamp(x, min, max)`, which color.h calls. Its definition is in a
      utility header that is not part of this model; it is given the usual
      body here. */
  function Clamp(x: real, lo: real, hi: real): (r: real)
    requires lo <= hi
    ensures lo <= r <= hi
    ensures lo <= x <= hi ==> r == x
    ensures x < lo ==> r == lo
    ensures x > hi ==> r == hi
  {
    if x < lo then lo else if x > hi then hi else x
  }

  /** `static_cast<unsigned char>(256 * clamp(x, 0.0, 0.999))`: the cast
      truncates, which on a non-negative value is the floor. */
  function Quantize(x: real): (b: int)
    ensures 0 <= b <= 255
    ensures x >= ClampMax ==> b == 255
    ensures x < 1.0 / 256.0 ==> b == 0
  {
    (256.0 * Clamp(x, 0.0, ClampMax)).Floor
  }

  lemma QuantizeMonotone(x: real, y: real)
    requires x <= y
    ensures Quantize(x) <= Quantize(y)
  {
    var cx, cy := Clamp(x, 0.0, ClampMax), Clamp(y, 0.0, ClampMax);
    assert cx <= cy;
    assert 256.0 * cx <= 256.0 * cy;
  }

  /** Byte `c` of the pixel whose samples sum to `pixel`: divided by the sample
      count, gamma-corrected by `sqrt`, clamped and truncated. */
  function PixelByte(pixel: Color, c: int, samplesPerPixel: int, sqrt: real -> real): (b: int)
    requires 0 <= c < 3 && samplesPerPixel != 0
    ensures 0 <= b <= 255
    ensures sqrt(Channel(pixel, c) / samplesPerPixel as real) >= ClampMax ==> b == 255
  {
    Quantize(sqrt(Channel(pixel, c) / samplesPerPixel as real))
  }

  /** Offset of pixel `(i, j)`'s red byte. */
  function Offset(width: int, i: int, j: int): int {
    3 * (j * width + i)
  }

  /** `write_color(image_data, pixel_color, image_width, i, j, samples_per_pixel)` */
  method WriteColor(img: array<int>, pixel: Color, width: int, i: int, j: int,
                    samplesPerPixel: int, sqrt: real -> real)
    requires samplesPerPixel != 0
    requires 0 <= Offset(width, i, j) && Offset(width, i, j) + 2 < img.Length
    modifies img
    ensures img[Offset(width, i, j)] == PixelByte(pixel, 0, samplesPerPixel, sqrt)
    ensures img[Offset(width, i, j) + 1] == PixelByte(pixel, 1, samplesPerPixel, sqrt)
    ensures img[Offset(width, i, j) + 2] == PixelByte(pixel, 2, samplesPerPixel, sqrt)
    ensures forall k :: 0 <= k < img.Length && !(Offset(width, i, j) <= k < Offset(width, i, j) + 3) ==>
                          img[k] == old(img[k])
  {
    var r, g, b := pixel.x, pixel.y, pixel.z;
    var scale := 1.0 / samplesPerPixel as real;
    assert scale * r == Channel(pixel, 0) / samplesPerPixel as real;
    assert scale * g == Channel(pixel, 1) / samplesPerPixel as real;
    assert scale * b == Channel(pixel, 2) / samplesPerPixel as real;
    r := sqrt(scale * r);
    g := sqrt(scale * g);
    b := sqrt(scale * b);
    var index := 3 * (j * width + i);
    img[index] := Quantize(r);
    img[index + 1] := Quantize(g);
    img[index + 2] := Quantize(b);
  }

  /** Column and row of the pixel that byte `k` belongs to. */
  function PixelCol(width: int, k: int): int
    requires width > 0
  {
    (k / 3) % width
  }

  function PixelRow(width: int, k: int): int
    requires width > 0
  {
    (k / 3) / width
  }

  /** Every in-range pixel's three bytes lie inside the `3 * width * height`
      bytes main.cpp allocates. */
  lemma OffsetInBounds(width: int, height: int, i: int, j: int)
    requires 0 <= i < width && 0 <= j < height
    ensures 0 <= Offset(width, i, j) && Offset(width, i, j) + 2 < 3 * width * height
  {
    MulMonotone(j, height - 1, width);
    assert (height - 1) * width == height * width - width;
    assert 0 <= j * width;
  }

  /** The three bytes of pixel `(i, j)` decode back to `(i, j)` and to their channel. */
  lemma OffsetDecodes(width: int, i: int, j: int, c: int)
    requires 0 <= i < width && 0 <= j && 0 <= c < 3
    ensures Offset(width, i, j) + c >= 0
    ensures PixelCol(width, Offset(width, i, j) + c) == i
    ensures PixelRow(width, Offset(width, i, j) + c) == j
    ensures (Offset(width, i, j) + c) % 3 == c
  {
    var p := j * width + i;
    assert 0 <= j * width;
    DivModUnique(Offset(width, i, j) + c, 3, p, c);
    DivModUnique(p, width, j, i);
  }

  /** Every byte belongs to the pixel and channel it decodes to. */
  lemma ByteEncodes(width: int, k: int)
    requires width > 0 && k >= 0
    ensures 0 <= PixelCol(width, k) < width && 0 <= PixelRow(width, k)
    ensures 0 <= k % 3 < 3
    ensures k == Offset(width, PixelCol(width, k), PixelRow(width, k)) + k % 3
  {
    var p := k / 3;
    assert k == 3 * p + k % 3;
    assert p == width * (p / width) + p % width;
    assert p / width * width == width * (p / width);
  }

  /** A byte inside the buffer belongs to a row inside the image. */
  lemma ByteRowInRange(width: int, height: int, k: int)
    requires width > 0 && 0 <= k < 3 * width * height
    ensures PixelRow(width, k) < height
  {
    ByteEncodes(width, k);
    var j := PixelRow(width, k);
    if j >= height {
      MulMonotone(height, j, width);
    }
  }

  /** Distinct in-range pixels own disjoint byte triples. */
  lemma OffsetsDisjoint(width: int, i: int, j: int, i': int, j': int)
    requires 0 <= i < width && 0 <= j && 0 <= i' < width && 0 <= j'
    requires (i, j) != (i', j')
    ensures Offset(width, i, j) + 2 < Offset(width, i', j') || Offset(width, i', j') + 2 < Offset(width, i, j)
  {
    OffsetDecodes(width, i, j, 0);
    OffsetDecodes(width, i', j', 0);
    assert Offset(width, i, j) != Offset(width, i', j');
    assert Offset(width, i, j) % 3 == 0 && Offset(width, i', j') % 3 == 0;
  }
}
