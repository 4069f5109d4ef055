# Tiled path tracer: a Dafny model of its discrete core

The renderer is a path tracer in the style of *Ray Tracing in One Weekend*.
It adds a tiled multithreaded render, a Wavefront OBJ mesh loader and a
separate prototype tracer (`TilesRT`). Most of it is floating-point geometry.
This project models the exact, discrete parts underneath that geometry and
proves what they promise:

- **`ray_color`** (and its copy `ray_colora`): a path integrator whose recursion is bounded by the bounce depth. The scene's hit query and the materials' `emitted` and `scatter` calls are parameters (`Integrator.Scene`).
- **`write_color`**: the gamma, clamp and truncate quantiser, and the flat framebuffer layout. Pixel `(i, j)` sits at byte `3 * (j * width + i)`, red first.
- **The two render drivers:**
  - the single-threaded scanline loop of `main.cpp`;
  - the tile partition of `multithreading.h` with its per-tile loops, run one tile after another.

  For the same sample rays and the same scatter outcomes, both are proved to leave the same framebuffer, `Image.RenderedImage`. Both are also proved to visit every pixel exactly once: the scanline loop by `Image.ScanlinesOnce`, the tiles, taken together, by `Tiles.TiledOnce`.
- **`load_obj_file`**: the loader works over lines that are already split into tokens. It skips blank and comment lines, appends vertices, range-checks 1-based face indices and returns early on a bad one. Also modelled is the `triangle_mesh` constructor, which scales, then rotates, then translates every loaded triangle.
- **The prototype's `trace`**: an argmin over the objects' intersection results. Its output loop packs the image as RGBA bytes. It takes the grid rows in reverse order, so the top of the view comes first.

Modules follow the source files:

| module | file |
|---|---|
| `Base` | shared values |
| `Integrator` | `main.cpp` `ray_color` |
| `Framebuffer` | `color.h` |
| `Image` | the finished image both drivers must produce |
| `Tiles` | `multithreading.h` |
| `MainRender` | `main.cpp` render loop |
| `Mesh` | `mesh.h` |
| `Prototype` | `TilesRT/main.cpp` |

Imperative code stays imperative:
- `write_color` and both render drivers write an `array<int>`;
- the tiles-left counter is a class field;
- the loader, the mesh constructor, `trace` and the packing loop are `while`/`for` loops.

Each of these is proved against a specification function.

Things outside the model enter as function-typed parameters:
- the camera ray of a sample, which stands for `random_double` and `camera::get_ray`;
- `sqrt`;
- `rotate` and `unit_vector`;
- `glm::normalize`;
- the prototype's intersection tests.

`clamp`, which `write_color` calls, is defined in a utility header that is not part of this model. It is given the usual body (see `Framebuffer.Clamp` under "## Left out").

Numbers are mathematical reals. Integers are unbounded.

## Model

| member | source | states |
|---|---|---|
| Integrator.RayColor | main.cpp:23-42 | Terminates because `depth` falls by one per bounce. With non-negative emission, attenuation and background, the colour is non-negative. |
| Integrator.RayColorCutoff | main.cpp:27-28 | With `depth <= 0` the result is black, whatever the scene. |
| Integrator.RayColorMiss | main.cpp:31-32 | A ray that hits nothing in `[0.001, infinity]` gives exactly the background. |
| Integrator.RayColorAbsorbed | main.cpp:34-39 | A hit on a non-scattering material gives exactly its emitted colour, the same for every positive depth. |
| Integrator.RayColorBounce | main.cpp:41 | Otherwise the result is emitted plus attenuation times the colour of the scattered ray at `depth - 1`. |
| Integrator.Bounces | main.cpp:27-41 | The number of scatterings followed never exceeds the starting depth. |
| Integrator.RayColorSettles | main.cpp:27-41 | A path that ended before using its whole depth budget gives the same colour, and the same bounce count, with a larger budget. |
| Integrator.RayColorDepthMonotone | main.cpp:27-41 | In a non-negative scene, one more unit of depth never darkens a channel. |
| Tiles.RayColorA | multithreading.h:12-31 | `ray_colora` equals `ray_color` on every input. |
| Framebuffer.Clamp | color.h:21-23 | The clamp that color.h calls, with its usual body assumed: the result lies in `[lo, hi]`. It is `x` inside the range and the nearer bound outside it. |
| Framebuffer.Quantize | color.h:21-23 | `unsigned char(256 * clamp(x, 0, 0.999))` is always in `[0, 255]`. It is 255 from 0.999 up and 0 below 1/256. |
| Framebuffer.QuantizeMonotone | color.h:21-23 | Quantisation preserves order. |
| Framebuffer.PixelByte | color.h:14-23 | A channel byte is in `[0, 255]`. It is 255 when the gamma-corrected sample mean is at least 0.999. |
| Framebuffer.WriteColor | color.h:9-24 | Bytes `index`, `index+1` and `index+2` get red, green and blue, each quantised from `sqrt(channel / samples)`. Every other byte keeps its value. |
| Framebuffer.OffsetInBounds | color.h:20 | For an in-range pixel, `0 <= index` and `index + 2 < 3 * width * height`, the size main.cpp allocates. |
| Framebuffer.OffsetDecodes | color.h:20 | The three bytes of pixel `(i, j)` decode back to column `i`, row `j` and their channel. |
| Framebuffer.ByteEncodes | color.h:20 | Every byte offset is `3 * (row * width + col) + channel` for the pixel it decodes to. |
| Framebuffer.ByteRowInRange | color.h:20 | A byte inside the `3 * width * height` buffer belongs to a row inside the image. |
| Framebuffer.OffsetsDisjoint | color.h:20 | Distinct in-range pixels own disjoint byte triples. |
| Image.RenderedImage | main.cpp:418-433 | The finished buffer has `3 * width * height` bytes. |
| Image.RenderedPixel | color.h:20-23 | In the finished buffer, pixel `(i, j)`'s red, green and blue are at `3 * (j * width + i) + c`. Each is the byte quantised from that pixel's sample sum. |
| Image.RenderedBytesInRange | color.h:21-23 | Every byte of the finished buffer is in `[0, 255]`. |
| Image.SampleSumNonNegative | main.cpp:424-430 | In a non-negative scene every partial sample sum is non-negative. |
| Image.NoSamplesBlack | main.cpp:424-431 | With a negative sample count the sample loop does not run. Every pixel sums to black, and with `sqrt(0) = 0` every byte is 0. |
| Image.PixelWrite | color.h:20-23 | Writing one pixel's triple finishes exactly the bytes that decode to that pixel. Every other byte is left as it was. |
| Image.RowMajorOnce | multithreading.h:34-35 | `render_tile`'s order visits each pixel of its rectangle exactly once and no other pixel. |
| Image.ScanlinesOnce | main.cpp:421-423 | The scanline order visits each pixel of the image exactly once. |
| Image.ScanlinesDescend | main.cpp:421 | The scanline order never visits a lower row before a higher one: rows go from `height-1` down. |
| Tiles.Partition | multithreading.h:57-64 | `num_threads` tiles for a positive count. None for a negative count, where the loop does not run. |
| Tiles.PartitionEnds | multithreading.h:57-65 | The first tile starts at column 0 and the last ends at `width`. Every tile spans rows `0 .. height`. |
| Tiles.PartitionContiguous | multithreading.h:60-64 | Tile `t` ends where tile `t+1` begins. |
| Tiles.PartitionInBounds | multithreading.h:57-64 | Every tile satisfies `0 <= x0 <= x1 <= width`. |
| Tiles.PartitionOrdered | multithreading.h:60-64 | An earlier tile ends no later than a later one begins. |
| Tiles.PartitionCovers | multithreading.h:57-64 | Every column lies in some tile. |
| Tiles.PartitionColumnOnce | multithreading.h:57-64 | No column lies in two tiles. |
| Tiles.PartitionBytesDisjoint | multithreading.h:57-65 | Two distinct tiles never own the same framebuffer byte. |
| Tiles.PartitionNarrowImage | multithreading.h:57-64 | With more threads than columns, every tile but the last is empty and the last covers `[0, width)`. |
| Tiles.ProgressCounter.constructor | multithreading.h:58 | The tiles-left counter starts at `num_threads`. |
| Tiles.TileSamples | multithreading.h:36-42 | The sample loop returns the sum of `samples_per_pixel` integrator estimates. |
| Tiles.RenderTile | multithreading.h:33-47 | Every byte of a pixel in the tile gets its finished value and every other byte is unchanged. The counter drops by exactly one. Pixels are visited in row-major order over the rectangle. |
| Tiles.RenderMultithreaded | multithreading.h:55-66 | The tiles handed out are exactly `Partition`. For a positive count the counter goes from `num_threads` to 0 and the buffer ends up as the finished image. For a negative count nothing is rendered. The ghost visit order is each tile's row-major order, tile after tile (`TiledOrder`). |
| Tiles.TiledPrefixOnce | multithreading.h:57-65 | The first `t` tiles together visit each pixel left of tile `t`'s start once, and no other pixel. |
| Tiles.TiledOnce | multithreading.h:55-66 | All tiles together visit each pixel of the image exactly once, and no pixel outside it. |
| MainRender.ScanlineSamples | main.cpp:424-430 | The sample loop returns the sum of `samples_per_pixel` integrator estimates. |
| MainRender.RenderScanlines | main.cpp:421-433 | The buffer ends up as the finished image. Pixels are visited in scanline order, rows from `height-1` down, each row left to right. |
| MainRender.RenderFrame | main.cpp:418-436 | A fresh buffer of `3 * width * height` bytes. A thread count of 0 or more gives the finished image; a negative one leaves the buffer as allocated. |
| Mesh.Divvy | mesh.h:9-11 | Multiplying the quotient back by the divisor gives the dividend. |
| Mesh.DivvyMul | mesh.h:9-11 | Dividing out a factor undoes multiplying by it. |
| Mesh.MakeTriangle | mesh.h:16-19 | Keeps the vertices and material. The normal is `unit_vector(cross(v1 - v0, v2 - v0))`. The transform fields are zero. |
| Mesh.ScaleTriangle | mesh.h:72-78 | Multiplies the three vertices by `scal` and leaves every other field, the normal included, unchanged. |
| Mesh.ScaleCompose | mesh.h:72-78 | Scaling by `a` then by `b` is scaling by `a * b`. |
| Mesh.ScaleIdentity | mesh.h:72-78 | Scaling by `(1, 1, 1)` changes nothing. |
| Mesh.ScaleInverse | mesh.h:72-78 | Scaling by `s` is undone by scaling by `divvy((1,1,1), s)`. |
| Mesh.Step | mesh.h:92-119 | One line stops the parse exactly when it is a face line with a 0-based index outside the vertices read so far. |
| Mesh.ParseFrom | mesh.h:91-120 | The loop consumes at most all lines, and stops early exactly when it returned early. |
| Mesh.LoadObjFile | mesh.h:80-123 | The loader loop, early return included, yields `LoadObj`. A file that cannot be opened yields no triangles. |
| Mesh.ParseFromAppend | mesh.h:91-120 | Parsing `a + b` is parsing `a` and then, unless it stopped, parsing `b` from the resulting state. |
| Mesh.ParseCounts | mesh.h:99-119 | Each consumed `v` line appends exactly its vertex, in file order. Each consumed `f` line appends exactly one triangle after those already collected. |
| Mesh.ParseStops | mesh.h:110-115 | An early return happens at a face line whose index is out of range for the vertices read so far. It returns what the earlier lines produced, not an empty list. |
| Mesh.FaceSeesEarlierVertices | mesh.h:110-115 | A face line the loop reaches stops it exactly when one of its 0-based indices falls outside the `v` lines before it. |
| Mesh.ParseIgnoresIrrelevant | mesh.h:92-94 | Dropping blank, comment and other-type lines changes neither the result nor whether the parse stops. |
| Mesh.ParseGoodFace | mesh.h:106-118 | A face whose indices are in range appends the triangle over `vertices[a-1]`, `vertices[b-1]`, `vertices[c-1]` in that order, with the loader's Lambertian. |
| Mesh.ForwardReference | mesh.h:110-112 | An illustration of the general fact: the same four lines load nothing with the face first and one triangle with the face last. |
| Mesh.PlaceAllLength | mesh.h:131-154 | The mesh gets one triangle per loaded triangle. |
| Mesh.PlaceAllAt | mesh.h:131-153 | Placed triangle `n` has the loaded triangle `n`'s vertices scaled, then rotated, then translated. Its normal is recomputed from them, its material is the mesh's, and its transform fields are zero. |
| Mesh.TriangleMesh.constructor | mesh.h:127-155 | The mesh holds `PlaceAll` of the loaded triangles and the given material. |
| Prototype.MakePlane | TilesRT/main.cpp:68-69 | The plane stores its normal normalised, with its distance and colour. |
| Prototype.Nearest | TilesRT/main.cpp:99-105 | The selected index is one of the objects examined. |
| Prototype.NearestIsArgmin | TilesRT/main.cpp:96-105 | The selection is empty exactly when no object is hit. Otherwise the selected object is hit at the stored `t`, no hit is nearer, and every earlier hit is strictly farther, so ties go to the earlier object. |
| Prototype.ArgminUnique | TilesRT/main.cpp:99-105 | At most one selection meets that description. |
| Prototype.TraceMiss | TilesRT/main.cpp:107-114 | With no intersection the colour is black. |
| Prototype.TraceHit | TilesRT/main.cpp:107-111 | Otherwise the colour is the Lambert shade of the argmin object at its distance. |
| Prototype.ShadeNonNegative | TilesRT/main.cpp:108-110 | `color * max(0, dot(n, -d))` is non-negative for a non-negative colour. |
| Prototype.Trace | TilesRT/main.cpp:95-115 | The loop over `tClosest`/`closestObject` returns the shade of the argmin, or black. |
| Prototype.RenderGrid | TilesRT/main.cpp:125-138 | `image` has `width` columns of `height` cells. Each cell is the traced colour of its camera ray. |
| Prototype.ToByte | TilesRT/main.cpp:148-150 | The cast yields a byte in `[0, 256)`. |
| Prototype.ToByteUnit | TilesRT/main.cpp:148-150 | On `[0, 1]` the cast is `floor(255 x)`, and 1 maps to 255. |
| Prototype.PackedPixel | TilesRT/main.cpp:143-157 | Pixel `(i, j)`'s red, green, blue and alpha sit at `4 * ((height-1-j) * width + i) + c`, inside the buffer. Alpha is 255. |
| Prototype.PackedAlpha | TilesRT/main.cpp:156 | Every byte at a `4k + 3` offset is 255. |
| Prototype.PackRGBA | TilesRT/main.cpp:141-158 | The output has exactly `4 * width * height` bytes, each the packed byte of its offset. |
| Prototype.RenderPrototype | TilesRT/main.cpp:117-158 | For the two-object scene at 800 by 600: a traced grid, and `4 * 800 * 600` packed bytes. |

## Left out

- **Threads:** thread creation, `join` and the `flusher` busy-wait (multithreading.h:49-53, 65-69) are concurrency. The tiles run one after another. This is sound because they write disjoint bytes (`Tiles.PartitionBytesDisjoint`). The unsynchronised `per` counter is a data race; the model keeps only its sequential decrement.
- **Floating point:** all arithmetic is on mathematical reals. Rounding, NaN and infinities are not modelled. That includes `t < infinity` in `trace`, which is modelled as an explicit `Infinity` case.
- **The camera:** `random_double`, `camera::get_ray` and the `u`/`v` formulas (main.cpp:426-428, multithreading.h:38-40) are folded into one ray per pixel and sample. The division by `width - 1` is not modelled.
- **Opaque operations:** `sqrt`, `rotate`, `unit_vector` and `glm::normalize` are parameters. Their numerics are not modelled.
- **Framebuffer.WriteColor:** requires `samples_per_pixel != 0`. With 0 the source computes `1.0 / 0`, an infinity, which is not expressible on reals.
- **The sample count:** the render members require `samples_per_pixel != 0` for the same reason. A negative count is modelled, and the sample loop then does not run (`Image.NoSamplesBlack`). The sign of zero is not modelled: the source's `sqrt(-0.0)` appears as `sqrt(0)`.
- **Image.ValidJob:** requires `width >= 0` and `height >= 0`, which main.cpp does not check. With one negative size and the other positive, the product at main.cpp:418 is negative, and `new[]` throws. With one negative size and the other 0, an empty buffer is allocated and nothing is written. With both sizes negative, a buffer is allocated and no pixel is written, because the loops over the height do not run. None of these cases is modelled.
- **Randomness:** material randomness is folded into the deterministic `scatter` function, so two identical queries scatter identically, unlike the source's `scatter`. The random jitter of each sample is likewise folded into `sampleRay(i, j, s)`. In the source, the two drivers, and threads running concurrently, draw random numbers in different orders. So the source's two paths do not produce the same bytes; the model's equality holds for fixed sample rays and scatter outcomes.
- **Framebuffer.Clamp:** its body is taken to be the usual clamp of the renderer's utility header, which is not part of this model. The byte range of `Quantize`, its 255 and 0 cases and `Framebuffer.QuantizeMonotone` rest on that body.
- **Mesh.Divvy:** requires non-zero divisor components. IEEE division by zero is not modelled.
- **Triangle, sphere and plane geometry:** the ray/triangle intersection, the bounding box (mesh.h:21-61), and the sphere and plane intersection math (TilesRT/main.cpp:35-51, 71-84) are floating-point numerics. The prototype's intersections are a parameter. The triangles `triangle_mesh` builds keep zero `position`, `rotation` and `scale` (`Mesh.PlaceAllAt`), because the transformed triangle is made with the four-argument constructor. So `triangle::hit` would divide by a zero `scale`. This defect is stated, not verified further, since `hit` is not modelled.
- **Materials, scenes and the rest of the renderer:** materials, textures, the BVH, `hittable_list`, the scene builders and the JSON configuration (main.cpp:44-411) are external or configuration. The menu constants are not modelled.
- **I/O:**
  - File opening is modelled only as an absent file (`None`).
  - `getline` and `>>`/`stoi` tokenisation are not modelled. An exception from `stoi` on a malformed face is not modelled, and nor are missing or extra tokens.
  - The `Scanlines remaining` and `Tiles Left` progress output is not modelled.
  - `stbi_flip_vertically_on_write` and the PNG writes are not modelled.
- **Mesh.LoadObjFile:** the `float` precision of parsed vertex coordinates is not modelled. Coordinates arrive as already-parsed reals.
- **Integer width:**
  - The byte offsets and `width * height * 3` are unbounded here. The 32-bit overflow of `int` for huge images is not modelled.
  - Dafny's `/` is Euclidean, while C++ truncates toward zero. They agree on `width / num_threads` because `width >= 0`. With a negative thread count, no tile is started anyway.
- **The allocated buffer:** the bytes `new unsigned char[...]` leaves indeterminate are modelled as 0 (`MainRender.RenderFrame`).
- **Prototype.ToByte:** the C++ cast of a float outside `[0, 256)` to `unsigned char` is undefined behaviour. It is modelled as truncation toward zero followed by reduction modulo 256.
- **Prototype.RenderGrid:** requires non-negative sizes. The prototype always uses 800 by 600, and a negative size would make the `std::vector` constructor throw.
