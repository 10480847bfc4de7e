# Path tracer core: rectangles, boxes, camera, PPM to PNG

This project is a Dafny model of the core of a small path tracer in the style of "Ray Tracing in One Weekend", with proofs about it:

- **Rectangles.** The three axis-aligned rectangles `xy_rect`, `xz_rect` and `yz_rect` intersect a ray with their plane and check the bounds. On a hit, they fill the caller's hit record.
- **Boxes.** The `box` is six such rectangles kept in a list, and it answers hit queries through that list.
- **Camera.** The `camera` does the following:
  - derives the image height and the sample-averaging scale;
  - casts jittered rays from its centre or from its defocus disk;
  - traces each ray with `ray_color`, which bounces recursively under a depth budget, with the sky as the only light;
  - fills a row-major pixel buffer, which it then emits in PPM P3 form.
- **Converter.** The Python converter reads that PPM file (`read_ppm`) and writes a PNG (`save_as_png`).

Doubles are modelled as mathematical reals. Several helpers the core calls are not part of this model. Each one becomes a function the caller passes in, so every result holds for all of their behaviours, except where a lemma states a hypothesis about them: a non-amplifying `scatter`, a `unit_vector` whose y lies in [-1, 1], a list query that reports points on its members, or a `compress` with an inverse. The helpers are:

- `interval::contains`;
- `hit_record::set_face_normal`;
- `hittable_list::hit`;
- `material::scatter`;
- `unit_vector`;
- `zlib.crc32` and `zlib.compress`;
- the random draws.

The files are:

- `vectors.dfy`: vectors, axes and rays.
- `hittable.dfy`: the hit record, which a successful `hit` overwrites.
- `rect.dfy`: the rectangles. The intersection is a pure function, proved sound and complete against a reference definition of "on the rectangle". The `hit` method writes the record only on success.
- `box.dfy`: the six faces, the box class and its delegation. It proves that the faces cover exactly the box surface.
- `camera.dfy`: the integrator, `initialize`, `get_ray`, sample averaging, and both render loops. Both loops are proved to emit each pixel's averaged colour in row-major order.
- `ppm.dfy`: the Python string operations `read_ppm` relies on (`strip`, `split`, `startswith`, `int`), the reader with its loops and error order, the P3 text the renderer writes, and the round trip.
- `png.dfy`: the PNG writer, as a method appending byte strings, proved against a specification function. Lemmas prove that what it writes reads back as its three chunks and that the pixels come back out.

## Model

| member | source | states |
|---|---|---|
| Rect.IntersectXY | RTIOW/src/rect.h:17-42 | a reported crossing has t in the interval, lies at r(t) on the plane z = k inside both x and y bounds, has outward normal +z; a ray with zero z direction misses |
| Rect.IntersectXZ | RTIOW/src/rect.h:56-77 | the same for the plane y = k, bounds on x and z, normal +y |
| Rect.IntersectYZ | RTIOW/src/rect.h:91-112 | the same for the plane x = k, bounds on y and z, normal +x |
| Rect.Intersect | RTIOW/src/rect.h:17-112 | soundness for all three kinds: a reported crossing is in the interval, at r(t), on the rectangle, with the unit normal of its perpendicular axis |
| Rect.Solve | RTIOW/src/rect.h:22 | the computed t puts the ray on the plane along the perpendicular axis |
| Rect.SolveUnique | RTIOW/src/rect.h:22 | no other t puts the ray on the plane |
| Rect.XYComplete | RTIOW/src/rect.h:17-42 | if some t in the interval puts the ray on the xy rectangle, `hit` reports exactly that t, point and normal |
| Rect.XZComplete | RTIOW/src/rect.h:56-77 | the same for the xz rectangle |
| Rect.YZComplete | RTIOW/src/rect.h:91-112 | the same for the yz rectangle |
| Rect.IntersectComplete | RTIOW/src/rect.h:17-112 | completeness for every rectangle not parallel to the ray |
| Rect.IntersectIff | RTIOW/src/rect.h:17-112 | `hit` succeeds if and only if the ray is not parallel to the plane and meets the rectangle at a t in the interval |
| Rect.InvertedNeverHit | RTIOW/src/rect.h:27-31 | a rectangle whose lower bound exceeds its upper bound on either axis is never hit |
| Rect.Rect.Hit | RTIOW/src/rect.h:17-112 | the answer is true exactly when the intersection exists; then the record holds t, r(t), the rectangle's material and the face data `set_face_normal` derives from the outward normal; on a miss the record is unchanged |
| Box.Faces | CUDA_inOneWeekend/src/box.h:25-38 | six faces in the order front, back, top, bottom, right, left, all with the box material, perpendicular to z, z, y, y, x, x, at the second corner for even positions and the first corner for odd ones, spanning the corners on their in-plane axes |
| Box.Box.constructor | CUDA_inOneWeekend/src/box.h:25-38 | stores both corners as given and exactly the six faces, appended one by one |
| Box.Box.Hit | CUDA_inOneWeekend/src/box.h:15-17 | answer and record are exactly those of the list query on the sides |
| Box.FacesCoverSurface | CUDA_inOneWeekend/src/box.h:29-37 | for ordered corners, a point lies on one of the six faces if and only if it is on the surface of the box |
| Box.HitOnSurface | CUDA_inOneWeekend/src/box.h:15-17 | with ordered corners, any hit that a list reporting points on its members returns lies on the box surface |
| Box.UnorderedXLosesFaces | CUDA_inOneWeekend/src/box.h:25-37 | corners are not reordered: with the first x above the second, the front, back, top and bottom faces can never be hit |
| Camera.BlendFactor | RTIOW/src/camera.h:207 | the sky blend factor is in [0, 1] for a unit y, 0 straight down and 1 straight up |
| Camera.Background | RTIOW/src/camera.h:206-208 | the sky colour lies between sky blue and white, with blue channel 1 |
| Camera.BackgroundChannels | RTIOW/src/camera.h:206-208 | each sky channel is the stated linear function of the direction's y |
| Camera.BackgroundGradient | RTIOW/src/camera.h:206-208 | the sky is white looking down, sky blue looking up, and its red and green channels decrease as y grows |
| Camera.RayColor | RTIOW/src/camera.h:187-210 | no light once the depth budget is spent |
| Camera.RayColorCases | RTIOW/src/camera.h:189-208 | with bounces left: a miss gives the sky colour of the normalised direction, an absorbing hit black, and a scattering hit the attenuation times the colour of the scattered ray with one bounce less |
| Camera.MulInUnitCube | RTIOW/src/camera.h:198 | attenuating a colour in [0, 1] by one in [0, 1] stays in [0, 1] |
| Camera.RayColorInUnitCube | RTIOW/src/camera.h:187-210 | energy is never created: with attenuations in [0, 1] and a proper unit vector every returned colour has channels in [0, 1] |
| Camera.EnclosedSceneIsBlack | RTIOW/src/camera.h:187-210 | the sky is the only light: if every ray hits something, every colour is black |
| Camera.Trunc | RTIOW/src/camera.h:126 | `int(double)` truncates toward zero |
| Camera.ImageHeight | RTIOW/src/camera.h:126-127 | the height is the truncated width over aspect ratio when that is at least 1, and exactly 1 otherwise |
| Camera.ImageHeightExamples | RTIOW/src/camera.h:126-127 | 400 wide at 16:9 gives 225 rows; a width that truncates to 0 still gives 1 row |
| Camera.PixelIndexInRange | RTIOW/src/camera.h:86 | the slot `j * image_width + i` of every pixel is inside the buffer and gives back its column and row |
| Camera.PixelIndexInjective | RTIOW/src/camera.h:86 | distinct pixels have distinct slots |
| Camera.PixelIndexOnto | RTIOW/src/camera.h:105-107 | every buffer slot belongs to a pixel |
| Camera.RowInRange | RTIOW/src/camera.h:62 | every row's slots lie inside the `image_width * image_height` buffer |
| Camera.Lens.GetRay | RTIOW/src/camera.h:164-173 | the ray leaves from the centre when the defocus angle is at most 0 and from the defocus-disk sample otherwise, and reaches the jittered pixel sample at parameter 1 |
| Camera.PinholeRaysShareOrigin | RTIOW/src/camera.h:168 | without defocus all rays of all pixels share the camera centre as origin |
| Camera.Sum | RTIOW/src/camera.h:44-48 | the in-order `pixel_color +=` accumulation; no ensures of its own, its meaning is given by `Camera.SumOfEqual`, `Camera.SumBounded` and `Camera.Camera.AccumulateSamples` |
| Camera.SumOfEqual | RTIOW/src/camera.h:44-48 | accumulating n equal samples gives n times the sample |
| Camera.SumBounded | RTIOW/src/camera.h:44-48 | accumulating n samples in [0, 1] gives channels in [0, n] |
| Camera.AverageOfEqual | RTIOW/src/camera.h:129 | averaging is exact: scaling the sum of n equal samples by 1/n gives the sample back |
| Camera.AverageInUnitCube | RTIOW/src/camera.h:129 | the average of samples in [0, 1] is in [0, 1] |
| Camera.Camera.constructor | RTIOW/src/camera.h:16-27 | the public settings start at their declared defaults |
| Camera.Camera.Initialize | RTIOW/src/camera.h:125-161 | the height is the clamped truncation, the scale is 1/samples, the centre is lookfrom, and the viewport quantities are set; the settings are untouched |
| Camera.Camera.PixelColorInUnitCube | RTIOW/src/camera.h:81-86 | after `initialize`, with non-amplifying materials, every stored pixel colour has channels in [0, 1] |
| Camera.Camera.ShadePixel | RTIOW/src/camera.h:81-86 | the colour written for pixel (i, j) is exactly what its slot `j * image_width + i` must hold: the scaled sum of its samples |
| Camera.Camera.AccumulateSamples | RTIOW/src/camera.h:81-85 | the loop's colour is the in-order sum, over samples 0 to `samples_per_pixel - 1`, of `ray_color` at the full bounce budget of the ray `get_ray` casts with that sample's draws (the single-threaded loop at lines 43-47 is the same) |
| Camera.Camera.RenderRow | RTIOW/src/camera.h:80-87 | rendering row j writes that row's slots left to right, each with the pixel's scaled sum; the earlier rows keep their colours and the slots after the row are left untouched |
| Camera.Camera.RenderRows | RTIOW/src/camera.h:62-97 | a freshly allocated buffer of `image_width * image_height` slots, every slot holding its pixel's scaled sum, and slots written exactly once each, in increasing order |
| Camera.Camera.EmitBuffer | RTIOW/src/camera.h:105-109 | the emitted sequence is the buffer in row-major order |
| Camera.Camera.RenderMultithreaded | RTIOW/src/camera.h:56-112 | after `initialize`, exactly width times height colours are emitted, the k-th being the scaled sample sum of pixel (k mod width, k div width) |
| Camera.Camera.StreamPixels | RTIOW/src/camera.h:41-51 | the nested loops emit the same sequence, pixel by pixel |
| Camera.Camera.RenderSingleThreaded | RTIOW/src/camera.h:36-54 | after `initialize`, the single-threaded render emits the same row-major sequence of scaled pixel sums as the multithreaded one |
| Ppm.Strip | convert_and_view.py:7 | `str.strip()`; no ensures of its own, its meaning is given by `Ppm.StripSpec` and `Ppm.StripLine` |
| Ppm.Split | convert_and_view.py:14 | `str.split()`; no ensures of its own, its meaning is given by `Ppm.SplitTokens`, `Ppm.SplitBlank` and `Ppm.SplitUnwords` |
| Ppm.TrimStartSpec | convert_and_view.py:7 | `lstrip` removes exactly the leading run of whitespace |
| Ppm.TrimEndSpec | convert_and_view.py:7 | `rstrip` removes exactly the trailing run of whitespace |
| Ppm.StripSpec | convert_and_view.py:7 | `strip` returns the slice between whitespace-only ends; the result neither starts nor ends with whitespace |
| Ppm.StripLine | convert_and_view.py:7 | a line with a whitespace terminator strips back to its content |
| Ppm.TokenLengthSpec | convert_and_view.py:14 | a token is the maximal run of non-whitespace characters |
| Ppm.SplitTokens | convert_and_view.py:14 | `split` yields non-empty tokens without whitespace |
| Ppm.SplitBlank | convert_and_view.py:26 | a whitespace-only line splits into nothing |
| Ppm.SplitUnwords | convert_and_view.py:14 | splitting words joined by single spaces gives the words back |
| Ppm.ParseInt | convert_and_view.py:14 | Python's `int` on a stripped string; no ensures of its own, its meaning is given by `Ppm.ParseIntAccepts`, `Ppm.ParseIntRejects` and `Ppm.ParseShowInt` |
| Ppm.ParseIntAccepts | convert_and_view.py:14 | `int` accepts a sign, leading zeros and single underscores between digits |
| Ppm.ParseIntRejects | convert_and_view.py:14 | `int` refuses doubled, leading or trailing underscores, the empty string and a lone sign |
| Ppm.ShowInt | RTIOW/src/camera.h:39 | a printed integer is non-empty, free of whitespace and does not start with `#` |
| Ppm.ParseShowInt | convert_and_view.py:16 | `int(str(n)) == n` for every integer |
| Ppm.DimensionsLine | convert_and_view.py:11-13 | the dimensions are read from the first line at or after the second whose stripped form does not start with `#`: every line skipped before it is such a comment |
| Ppm.CommentLine | convert_and_view.py:12-13 | a stripped line starting with `#` is an actual line of the file, and skipping it leaves the dimensions line the same |
| Ppm.ParseDimensions | convert_and_view.py:14 | unpacking succeeds if and only if there are exactly two tokens and both are integers, giving their values; too few and too many tokens are reported as such |
| Ppm.ParseIntsSpec | convert_and_view.py:26 | a line converts if and only if every token is an integer, giving their values in order; otherwise it reports a token that is not |
| Ppm.ToBytes | convert_and_view.py:27 | `bytes` keeps every value, in order |
| Ppm.ParsePixels | convert_and_view.py:27 | a successful conversion carries the body's values as bytes and the dimensions |
| Ppm.ParseMaxValue | convert_and_view.py:16-30 | past the maximum value, P3 yields bytes and P6 text, with the dimensions read |
| Ppm.ParseDimensionsLine | convert_and_view.py:14-30 | past the dimensions line, P3 yields bytes and P6 text |
| Ppm.ParsePpm | convert_and_view.py:5-32 | `read_ppm` as one function; no ensures of its own, its meaning is given by `Ppm.ParsePpmFormat`, `Ppm.UnsupportedHeader`, `Ppm.UnsupportedMax`, `Ppm.ReadPpm` and `Ppm.ReadWritten` |
| Ppm.ParseBody | convert_and_view.py:23-26 | the P3 body loop as a function; no ensures of its own, its meaning is given by `Ppm.ReadBody` and `Ppm.ParsePixelLines` |
| Ppm.ParsePpmFormat | convert_and_view.py:7-30 | only a P3 or P6 tag reads successfully; P3 yields bytes and P6 text |
| Ppm.ReadPpm | convert_and_view.py:5-32 | the reader with its comment loop and body loop returns exactly the staged specification, errors included |
| Ppm.ReadBody | convert_and_view.py:23-26 | the body loop skips `#` lines, extends the list with each line's integers, and stops at the first bad token |
| Ppm.UnsupportedHeader | convert_and_view.py:7-9 | a tag other than P3 or P6 is refused with the stripped tag |
| Ppm.WrongMaxValue | convert_and_view.py:16-18 | at the maximum-value line, any integer other than 255 is refused with that value |
| Ppm.UnsupportedMax | convert_and_view.py:16-18 | a maximum value other than 255 is refused with that value |
| Ppm.PixelLines | RTIOW/src/camera.h:49 | one text line per pixel; `Ppm.ParsePixelLines` proves the lines read back as the channels in order |
| Ppm.PpmLines | RTIOW/src/camera.h:39 | the P3 file the renderer emits; no ensures of its own, its meaning is given by `Ppm.ReadWritten` |
| Ppm.WrittenWrongMax | convert_and_view.py:16-18 | a header like the renderer's but announcing any maximum other than 255 is refused with that value, so `Ppm.UnsupportedMax` applies to real files |
| Ppm.ParseShown | convert_and_view.py:26 | integers written in decimal convert back to themselves, in order |
| Ppm.PixelLineReads | convert_and_view.py:23-26 | one of the renderer's pixel lines is not skipped as a comment and converts to that pixel's three channel values |
| Ppm.ParsePixelLines | convert_and_view.py:23-27 | the renderer's pixel lines read back as the channel values in order |
| Ppm.DimensionsRoundTrip | convert_and_view.py:11-14 | the renderer's dimensions line reads back as width and height |
| Ppm.TagLineRoundTrip | convert_and_view.py:7-8 | the renderer's tag line is accepted as P3 |
| Ppm.MaxLineRoundTrip | convert_and_view.py:16-17 | the renderer's maximum-value line reads as 255 |
| Ppm.DimensionsLineNotComment | convert_and_view.py:12 | the renderer's dimensions line is not taken for a comment |
| Ppm.ReadWrittenHeader | convert_and_view.py:5-20 | the renderer's three header lines lead straight to the P3 body |
| Ppm.ReadWritten | convert_and_view.py:5-32 | reading what the renderer writes gives back its width, height and every channel byte in order |
| Png.U32BE | convert_and_view.py:44 | `struct.pack('>I', n)` is four bytes |
| Png.DecodeU32BEOfU32BE | convert_and_view.py:44 | unpacking a packed length or CRC gives the number back |
| Png.U32BEOfDecodeU32BE | convert_and_view.py:44 | every four bytes are the packing of exactly one number |
| Png.MaskedCrc | convert_and_view.py:47 | the masked CRC fits the unsigned 32-bit range |
| Png.Chunk | convert_and_view.py:44-47 | a chunk is twelve bytes longer than its data |
| Png.AppendChunkFields | convert_and_view.py:44-47 | the four writes of length, type, data and CRC append exactly one chunk |
| Png.ParseChunkOfChunk | convert_and_view.py:44-47 | a written chunk reads back as its type and data and leaves the bytes that follow |
| Png.ParseChunksOfChunk | convert_and_view.py:44-60 | a written chunk before readable chunks reads as that chunk followed by them |
| Png.IhdrData | convert_and_view.py:43 | the IHDR data is 13 bytes |
| Png.IhdrFields | convert_and_view.py:43 | the IHDR data gives back width and height and declares bit depth 8, colour type 2 and methods 0, 0, 0 |
| Png.Scanlines | convert_and_view.py:50 | filter byte 0 before every slice of `width * 3` bytes; no ensures of its own, its meaning is given by `Png.ScanlinesLength` and `Png.UnfilterScanlines` |
| Png.SliceCountCeiling | convert_and_view.py:50 | the number of slices is the pixel byte count over the stride, rounded up |
| Png.ScanlinesLength | convert_and_view.py:50 | the raw data is one filter byte longer per slice |
| Png.UnfilterScanlines | convert_and_view.py:50 | every slice is led by filter type 0, and removing the filter bytes gives back the pixel bytes |
| Png.Encode | convert_and_view.py:40-60 | the writer never reports a read failure |
| Png.SaveAsPng | convert_and_view.py:34-60 | a failed read writes nothing and reports the read error; otherwise the outcome is the specified byte stream or failure |
| Png.WritePng | convert_and_view.py:38-60 | the step-by-step writes produce exactly the specified bytes, or stop at the first failing pack, range or join with what was written so far |
| Png.SignatureFirst | convert_and_view.py:40 | once the read succeeds, whatever is written starts with the PNG signature |
| Png.ParseIdatIend | convert_and_view.py:52-60 | an IDAT chunk followed by the empty IEND chunk reads back as those two chunks |
| Png.ParsePngOfThreeChunks | convert_and_view.py:40-60 | the signature followed by IHDR, IDAT and IEND chunks reads back as exactly those three chunks |
| Png.SavedChunks | convert_and_view.py:40-60 | a saved file reads back as IHDR with the image header, IDAT with the compressed raw data, and an empty IEND |
| Png.SavedPixels | convert_and_view.py:43-55 | for P3 input, with a decompressor that inverts the compressor, a saved file gives back width, height and every pixel byte |
| Png.IendEmpty | convert_and_view.py:58-60 | the IEND chunk announces length 0 |
| Png.ZeroWidthAborts | convert_and_view.py:50 | a width of 0 stops the writer at the step-0 range, after signature and IHDR |
| Png.P6TextAborts | convert_and_view.py:30 | text read from a P6 body cannot be joined with bytes: a non-empty body with positive width always aborts after IHDR |
| Png.OutOfRangeDimensionsAbort | convert_and_view.py:43 | a width or height outside the unsigned 32-bit range aborts right after the signature |

## Left out

- Threads in `render_multithreaded`: rows are claimed in increasing order by a single worker. The model assumes `hardware_concurrency()` is at least 1; when it returns 0 the source starts no thread and emits the zero-initialised black buffer. The atomic counters, the progress counter and the joins are not modelled. Each row writes only its own slots. Given each sample's draws, the buffer contents therefore do not depend on the interleaving. In the source each thread's random state depends on which rows it claimed, so the draws themselves do.
- Output streams: the `std::clog` progress and "Done." messages are not modelled. `std::cout` output is the returned colour sequence. `write_color` (gamma and byte conversion) is not part of this model. The P3 text the renderer writes is modelled from byte channels (`Ppm.PpmLines`).
- `render`: it only calls `render_multithreaded`.
- `initialize`'s viewport math (tan, cross products, `unit_vector`) is not modelled. Its results are passed in as a `ViewGeometry` value. The basis vectors `u`, `v`, `w` are not stored.
- Randomness: `random_double` and `random_in_unit_disk` are not modelled. Each sample's draws come from a function of pixel and sample index. Randomness inside `material::scatter` is part of that function's behaviour.
- `hittable_list::hit`, `material::scatter`, `interval::contains`, `hit_record::set_face_normal` and `unit_vector` are not part of this model. They are function parameters.
- Rect.Intersect: a ray with direction component 0 along the plane's normal is modelled as a miss. In IEEE arithmetic t becomes an infinity or NaN, and +infinity passes `interval(0.001, infinity).contains`. Infinities and NaN are not modelled.
- Floating point rounding: doubles are mathematical reals. `Camera.Trunc` models the truncating `int(...)` conversion exactly for values in `int` range; out of that range the C++ conversion is undefined (see the 32-bit overflow line below).
- Camera.Camera.Initialize: requires a non-zero aspect ratio and sample count, because the C++ division by zero gives an infinity that the model does not represent.
- Camera.Camera.RenderMultithreaded: requires a positive image width. The same goes for `RenderSingleThreaded`, `RenderRows`, `RenderRow`, `EmitBuffer` and `StreamPixels`. A width of 0 is a degenerate empty image: the source gives it height 1, an empty buffer and only the header. A negative width gives a negative `std::vector` size, which the source does not handle. The row-major slot arithmetic (`k % image_width`, `k / image_width`) needs a positive width.
- The 32-bit `int` overflow of `image_width * image_height` and of the pixel index is not modelled. Integers are unbounded.
- Files: the PPM file is given as the sequence of lines `readline` yields. Universal-newline translation and file errors are not modelled. The PNG file is the returned byte sequence. `display_image` (`os.startfile`) and the `__main__` block are not modelled.
- `zlib.crc32` and `zlib.compress` are function parameters. `Png.SavedPixels` assumes a decompressor that inverts the compressor.
- P6 input: the text-mode `f.read()` is modelled as the text of the remaining lines. The byte meaning of a binary body is not modelled. The writer then fails on any non-empty P6 body (`Png.P6TextAborts`).
- Ppm.ParseInt: surrounding whitespace is not accepted, though Python's `int` ignores it. Every string `read_ppm` converts is already stripped or is a token from `split`, so this case never arises.
- Ppm.ParseInt: only ASCII digits are accepted. Python's `int` also accepts other Unicode decimal digits and limits conversions to 4300 digits.
- `RTIOW/src/rtweekend.h` is not part of this model beyond the constants and conversions it feeds.
