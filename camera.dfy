/**
  The camera: the recursive integrator `ray_color`, the exact part of
  `initialize` (image height clamp, sample scale, centre), the ray origin
  choice of `get_ray`, and the pixel buffer filled row by row and emitted in
  row-major order.

  The world's `hit`, the materials' `scatter` and `unit_vector` are not part
  of this model; they are functions carried by a `Scene`. The random draws of
  each sample are a function of (pixel column, pixel row, sample number). The
  viewport computation (tangents, cross products, normalisation) is taken as
  a given `ViewGeometry`. Worker threads are replaced by one sequential worker
  that claims rows in the order the shared counter hands them out.
 */
module Camera {
  import opened Vectors
  import opened Hittable

  /** The world's `hit` on a fresh record: the record it fills in, when it answers true. */
  type World<!M> = (Ray, Interval) -> Option<Record<M>>

  /** What a successful `scatter` yields: the attenuation colour and the scattered ray. */
  datatype Scattered = Scattered(attenuation: Vec3, scattered: Ray)

  /** `rec.mat->scatter(r, rec, attenuation, scattered)`, or None when it answers false. */
  type Scatter<!M> = (M, Ray, Record<M>) -> Option<Scattered>

  datatype Scene<!M> = Scene(world: World<M>, scatter: Scatter<M>, unitVector: Vec3 -> Vec3)

  /** The interval of every world query: from 0.001, which skips self-intersections, to infinity. */
  const WorldInterval := Interval(0.001, Infinity)

  const White := Vec3(1.0, 1.0, 1.0)
  const SkyBlue := Vec3(0.5, 0.7, 1.0)

  /** The blend factor of the sky: 0 looking straight down, 1 straight up. */
  function BlendFactor(y: real): (a: real)
    ensures -1.0 <= y <= 1.0 ==> 0.0 <= a <= 1.0
    ensures y == -1.0 ==> a == 0.0
    ensures y == 1.0 ==> a == 1.0
  {
    0.5 * (y + 1.0)
  }

  /** The colour of a ray that escapes: white blended towards sky blue by the blend factor. */
  function Background(unitDirection: Vec3): (c: Vec3)
    ensures -1.0 <= unitDirection.y <= 1.0 ==>
      && SkyBlue.x <= c.x <= White.x && SkyBlue.y <= c.y <= White.y && c.z == 1.0
  {
    var a := BlendFactor(unitDirection.y);
    Add(Scale(1.0 - a, White), Scale(a, SkyBlue))
  }

  /** The gradient runs from white at y = -1 to sky blue at y = 1 and gets bluer as y grows. */
  lemma BackgroundGradient(u: Vec3, v: Vec3)
    ensures u.y == -1.0 ==> Background(u) == White
    ensures u.y == 1.0 ==> Background(u) == SkyBlue
    ensures u.y <= v.y ==> Background(v).x <= Background(u).x && Background(v).y <= Background(u).y
  {
    BackgroundChannels(u);
    BackgroundChannels(v);
    var cu, cv := Background(u), Background(v);
    if u.y <= v.y {
      assert cv.x - cu.x == 0.25 * (u.y - v.y) <= 0.0;
      assert cv.y - cu.y == 0.15 * (u.y - v.y) <= 0.0;
    }
  }

  /** Each channel of the sky colour as a linear function of the direction's y. */
  lemma BackgroundChannels(u: Vec3)
    ensures Background(u) == Vec3(0.75 - 0.25 * u.y, 0.85 - 0.15 * u.y, 1.0)
  {
    var a := BlendFactor(u.y);
    assert Scale(1.0 - a, White) == Vec3(1.0 - a, 1.0 - a, 1.0 - a);
    assert Scale(a, SkyBlue) == Vec3(0.5 * a, 0.7 * a, a);
  }

  /**
    `ray_color`: black once the bounce budget is spent; otherwise query the
    world on WorldInterval; on a miss the sky; on a hit black when the
    material absorbs, else the attenuation times the colour of the scattered
    ray with one bounce less.
   */
  function RayColor<M>(r: Ray, depth: int, scene: Scene<M>): (c: Vec3)
    decreases depth
    ensures depth <= 0 ==> c == Black
  {
    if depth <= 0 then Black
    else
      match scene.world(r, WorldInterval)
      case Some(rec) =>
        (match scene.scatter(rec.mat, r, rec)
         case Some(s) => Mul(s.attenuation, RayColor(s.scattered, depth - 1, scene))
         case None => Black)
      case None => Background(scene.unitVector(r.direction))
  }

  /** The three outcomes of a query with bounces left. */
  lemma RayColorCases<M>(r: Ray, depth: int, scene: Scene<M>)
    requires depth > 0
    ensures scene.world(r, WorldInterval).None? ==>
      RayColor(r, depth, scene) == Background(scene.unitVector(r.direction))
    ensures scene.world(r, WorldInterval).Some? ==>
      var rec := scene.world(r, WorldInterval).value;
      match scene.scatter(rec.mat, r, rec)
      case None => RayColor(r, depth, scene) == Black
      case Some(s) => RayColor(r, depth, scene) == Mul(s.attenuation, RayColor(s.scattered, depth - 1, scene))
  {
  }

  /** Every attenuation a material yields has its channels in [0, 1]. */
  ghost predicate AttenuationsInUnitCube<M(!new)>(scatter: Scatter<M>)
  {
    forall m, r, rec :: scatter(m, r, rec).Some? ==> InUnitCube(scatter(m, r, rec).value.attenuation)
  }

  /** The normalisation yields a y component in [-1, 1]. */
  ghost predicate UnitY(unitVector: Vec3 -> Vec3)
  {
    forall v :: -1.0 <= unitVector(v).y <= 1.0
  }

  /** Scaling a value in [0, 1] by a factor in [0, 1] keeps it between 0 and the value. */
  lemma MulBounded(a: real, b: real)
    requires 0.0 <= a <= 1.0 && 0.0 <= b <= 1.0
    ensures 0.0 <= a * b <= b
  {
    assert b - a * b == (1.0 - a) * b;
    assert (1.0 - a) * b >= 0.0;
  }

  lemma MulInUnitCube(a: Vec3, b: Vec3)
    requires InUnitCube(a) && InUnitCube(b)
    ensures InUnitCube(Mul(a, b))
  {
    MulBounded(a.x, b.x);
    MulBounded(a.y, b.y);
    MulBounded(a.z, b.z);
  }

  /**
    Energy is never created: with attenuations in [0, 1] and a proper unit
    vector, every colour `ray_color` returns has its channels in [0, 1].
   */
  lemma {:induction false} RayColorInUnitCube<M(!new)>(r: Ray, depth: int, scene: Scene<M>)
    requires AttenuationsInUnitCube(scene.scatter) && UnitY(scene.unitVector)
    ensures InUnitCube(RayColor(r, depth, scene))
    decreases depth
  {
    if depth > 0 {
      match scene.world(r, WorldInterval) {
        case Some(rec) =>
          match scene.scatter(rec.mat, r, rec) {
            case Some(s) =>
              RayColorInUnitCube(s.scattered, depth - 1, scene);
              MulInUnitCube(s.attenuation, RayColor(s.scattered, depth - 1, scene));
            case None =>
          }
        case None =>
          assert -1.0 <= scene.unitVector(r.direction).y <= 1.0;
      }
    }
  }

  /**
    The sky is the only light: in a closed scene, where every ray hits
    something, every path ends absorbed or out of bounces, and the colour is
    black whatever the depth.
   */
  lemma {:induction false} EnclosedSceneIsBlack<M>(r: Ray, depth: int, scene: Scene<M>)
    requires forall q :: scene.world(q, WorldInterval).Some?
    ensures RayColor(r, depth, scene) == Black
    decreases depth
  {
    if depth > 0 {
      var rec := scene.world(r, WorldInterval).value;
      match scene.scatter(rec.mat, r, rec)
      case Some(s) => EnclosedSceneIsBlack(s.scattered, depth - 1, scene);
      case None =>
    }
  }

  /** Conversion of a double to int: truncation toward zero. */
  function Trunc(x: real): (n: int)
    ensures 0.0 <= x ==> n as real <= x < n as real + 1.0
    ensures x < 0.0 ==> n as real - 1.0 < x <= n as real
  {
    if 0.0 <= x then x.Floor else -((-x).Floor)
  }

  /** `image_height`: the width over the aspect ratio, truncated, and at least 1. */
  function ImageHeight(imageWidth: int, aspectRatio: real): (h: int)
    requires aspectRatio != 0.0
    ensures h >= 1
    ensures Trunc(imageWidth as real / aspectRatio) >= 1 ==> h == Trunc(imageWidth as real / aspectRatio)
    ensures Trunc(imageWidth as real / aspectRatio) < 1 ==> h == 1
  {
    var h := Trunc(imageWidth as real / aspectRatio);
    if h < 1 then 1 else h
  }

  /** A 400 pixel wide 16:9 image is 225 pixels high; a width that truncates to 0 still yields one row. */
  lemma ImageHeightExamples()
    ensures ImageHeight(400, 16.0 / 9.0) == 225
    ensures ImageHeight(1, 2.0) == 1
  {
  }

  /** The viewport quantities `initialize` derives with tan, cross products and normalisation. */
  datatype ViewGeometry = ViewGeometry(
    pixel00Loc: Vec3, pixelDeltaU: Vec3, pixelDeltaV: Vec3, defocusDiskU: Vec3, defocusDiskV: Vec3)

  /** The random draws of one sample: the jitter in the pixel square and a point of the unit disk. */
  datatype Draw = Draw(offsetX: real, offsetY: real, diskX: real, diskY: real)

  /** The draws of sample s of pixel (i, j). */
  type Draws = (int, int, int) -> Draw

  /** Row-major index of pixel (i, j) in a buffer `width` pixels wide. */
  function PixelIndex(width: int, i: int, j: int): int
  {
    j * width + i
  }

  lemma MulMonotone(a: int, b: int, c: int)
    requires a <= b && 0 <= c
    ensures a * c <= b * c
  {
    assert b * c - a * c == (b - a) * c;
  }

  /** Euclidean division has one quotient and one remainder. */
  lemma DivModUnique(k: int, w: int, q: int, r: int)
    requires 0 < w && 0 <= r < w && k == q * w + r
    ensures k / w == q && k % w == r
  {
    var q', r' := k / w, k % w;
    assert k == q' * w + r';
    if q - q' >= 1 {
      MulMonotone(1, q - q', w);
    } else if q - q' <= -1 {
      MulMonotone(q - q', -1, w);
    }
  }

  /**
    Every pixel of a width-by-height image has its own buffer slot: the index
    is in range and gives back its column and row.
   */
  lemma PixelIndexInRange(width: int, height: int, i: int, j: int)
    requires 0 <= i < width && 0 <= j < height
    ensures 0 <= PixelIndex(width, i, j) < width * height
    ensures PixelIndex(width, i, j) / width == j && PixelIndex(width, i, j) % width == i
  {
    MulMonotone(j, height - 1, width);
    MulMonotone(0, j, width);
    assert (height - 1) * width == width * height - width;
    DivModUnique(j * width + i, width, j, i);
  }

  /** Distinct pixels have distinct slots. */
  lemma PixelIndexInjective(width: int, height: int, i: int, j: int, i': int, j': int)
    requires 0 <= i < width && 0 <= j < height && 0 <= i' < width && 0 <= j' < height
    requires PixelIndex(width, i, j) == PixelIndex(width, i', j')
    ensures i == i' && j == j'
  {
    PixelIndexInRange(width, height, i, j);
    PixelIndexInRange(width, height, i', j');
  }

  /** Every row of a width-by-height image occupies slots inside the buffer. */
  lemma RowInRange(width: int, height: int, j: int)
    requires 0 <= width && 0 <= j < height
    ensures 0 <= j * width && j * width + width <= width * height
    ensures j * width + width == (j + 1) * width
  {
    MulMonotone(0, j, width);
    MulMonotone(j + 1, height, width);
  }

  /** Every slot belongs to a pixel. */
  lemma PixelIndexOnto(width: int, height: int, k: int)
    requires 0 < width && 0 <= k < width * height
    ensures 0 <= k % width < width && 0 <= k / width < height
    ensures PixelIndex(width, k % width, k / width) == k
  {
    if k / width >= height {
      MulMonotone(height, k / width, width);
    }
  }

  /**
    The camera state `get_ray` reads: the defocus angle, the centre, the
    upper-left pixel with the steps to the next pixel right and down, and the
    axes of the defocus disk.
   */
  datatype Lens = Lens(
    defocusAngle: real, center: Vec3, pixel00Loc: Vec3, pixelDeltaU: Vec3, pixelDeltaV: Vec3,
    defocusDiskU: Vec3, defocusDiskV: Vec3)
  {
    /** The jittered point on the viewport that a sample of pixel (i, j) aims at. */
    function PixelSample(i: int, j: int, d: Draw): Vec3
    {
      Add(Add(pixel00Loc, Scale(i as real + d.offsetX, pixelDeltaU)), Scale(j as real + d.offsetY, pixelDeltaV))
    }

    /** `defocus_disk_sample`: the unit-disk point mapped onto the defocus disk around the centre. */
    function DefocusDiskSample(d: Draw): Vec3
    {
      Add(Add(center, Scale(d.diskX, defocusDiskU)), Scale(d.diskY, defocusDiskV))
    }

    /**
      `get_ray`: from the camera centre when the defocus angle is at most 0,
      otherwise from the defocus disk, always through the sampled viewport
      point, which the ray reaches at parameter 1.
     */
    function GetRay(i: int, j: int, d: Draw): (r: Ray)
      ensures defocusAngle <= 0.0 ==> r.origin == center
      ensures defocusAngle > 0.0 ==> r.origin == DefocusDiskSample(d)
      ensures r.At(1.0) == PixelSample(i, j, d)
    {
      var pixelSample := PixelSample(i, j, d);
      var rayOrigin := if defocusAngle <= 0.0 then center else DefocusDiskSample(d);
      Ray(rayOrigin, Sub(pixelSample, rayOrigin))
    }
  }

  /** Without defocus every sample of every pixel leaves from the one centre. */
  lemma PinholeRaysShareOrigin(lens: Lens, i: int, j: int, d: Draw, i': int, j': int, d': Draw)
    requires lens.defocusAngle <= 0.0
    ensures lens.GetRay(i, j, d).origin == lens.GetRay(i', j', d').origin == lens.center
  {
  }

  /** The colours of the successive samples of pixel (i, j). */
  function SampleColors<M>(lens: Lens, maxDepth: int, scene: Scene<M>, draws: Draws, i: int, j: int): int -> Vec3
  {
    s => RayColor(lens.GetRay(i, j, draws(i, j, s)), maxDepth, scene)
  }

  /** The sum of the first n colours, accumulated in order as `pixel_color +=` does. */
  function Sum(colors: int -> Vec3, n: int): Vec3
    decreases n
  {
    if n <= 0 then Black else Add(Sum(colors, n - 1), colors(n - 1))
  }

  /** Adding n copies of one colour gives n times that colour. */
  lemma {:induction false} SumOfEqual(colors: int -> Vec3, n: int, c: Vec3)
    requires forall s :: 0 <= s < n ==> colors(s) == c
    ensures Sum(colors, n) == Scale(if n <= 0 then 0.0 else n as real, c)
    decreases n
  {
    if n > 0 {
      SumOfEqual(colors, n - 1, c);
      var m := n as real;
      assert (m - 1.0) * c.x + c.x == m * c.x;
      assert (m - 1.0) * c.y + c.y == m * c.y;
      assert (m - 1.0) * c.z + c.z == m * c.z;
    }
  }

  /** Each channel of a sum of n colours in [0, 1] lies in [0, n]. */
  lemma {:induction false} SumBounded(colors: int -> Vec3, n: int)
    requires forall s :: 0 <= s < n ==> InUnitCube(colors(s))
    ensures var sum := Sum(colors, n);
      var m := if n <= 0 then 0.0 else n as real;
      0.0 <= sum.x <= m && 0.0 <= sum.y <= m && 0.0 <= sum.z <= m
    decreases n
  {
    if n > 0 {
      SumBounded(colors, n - 1);
    }
  }

  /** Averaging is exact: when all n samples have one colour, 1/n times their sum is that colour. */
  lemma AverageOfEqual(colors: int -> Vec3, n: int, c: Vec3)
    requires n > 0
    requires forall s :: 0 <= s < n ==> colors(s) == c
    ensures Scale(1.0 / n as real, Sum(colors, n)) == c
  {
    SumOfEqual(colors, n, c);
    var m := n as real;
    assert (1.0 / m) * (m * c.x) == c.x;
    assert (1.0 / m) * (m * c.y) == c.y;
    assert (1.0 / m) * (m * c.z) == c.z;
  }

  /** A sum in [0, n] scaled by 1/n lies in [0, 1]. */
  lemma ScaledAverageBound(n: real, s: real)
    requires n > 0.0 && 0.0 <= s <= n
    ensures 0.0 <= (1.0 / n) * s <= 1.0
  {
    assert (1.0 / n) * s <= (1.0 / n) * n;
  }

  /** The average of n colours in [0, 1] is again in [0, 1]. */
  lemma AverageInUnitCube(colors: int -> Vec3, n: int)
    requires n > 0
    requires forall s :: 0 <= s < n ==> InUnitCube(colors(s))
    ensures InUnitCube(Scale(1.0 / n as real, Sum(colors, n)))
  {
    SumBounded(colors, n);
    var sum := Sum(colors, n);
    UnitCubeAverage(n as real, sum);
  }

  /** A colour with channels in [0, n] scaled by 1/n has channels in [0, 1]. */
  lemma UnitCubeAverage(n: real, sum: Vec3)
    requires n > 0.0 && 0.0 <= sum.x <= n && 0.0 <= sum.y <= n && 0.0 <= sum.z <= n
    ensures InUnitCube(Scale(1.0 / n, sum))
  {
    ScaledAverageBound(n, sum.x);
    ScaledAverageBound(n, sum.y);
    ScaledAverageBound(n, sum.z);
  }

  class Camera {
    var aspectRatio: real
    var imageWidth: int
    var samplesPerPixel: int
    var maxDepth: int
    var vfov: real
    var lookfrom: Vec3
    var lookat: Vec3
    var vup: Vec3
    var defocusAngle: real
    var focusDist: real

    var imageHeight: int
    var pixelSamplesScale: real
    var center: Vec3
    var pixel00Loc: Vec3
    var pixelDeltaU: Vec3
    var pixelDeltaV: Vec3
    var defocusDiskU: Vec3
    var defocusDiskV: Vec3

    /** The public settings start at their declared defaults. */
    constructor ()
      ensures aspectRatio == 1.0 && imageWidth == 1280 && samplesPerPixel == 10 && maxDepth == 10
      ensures vfov == 90.0 && lookfrom == Vec3(0.0, 0.0, 0.0) && lookat == Vec3(0.0, 0.0, -1.0)
      ensures vup == Vec3(0.0, 1.0, 0.0) && defocusAngle == 0.0 && focusDist == 10.0
    {
      aspectRatio, imageWidth, samplesPerPixel, maxDepth := 1.0, 1280, 10, 10;
      vfov, lookfrom, lookat, vup := 90.0, Vec3(0.0, 0.0, 0.0), Vec3(0.0, 0.0, -1.0), Vec3(0.0, 1.0, 0.0);
      defocusAngle, focusDist := 0.0, 10.0;
      imageHeight, pixelSamplesScale := 0, 0.0;
      center, pixel00Loc, pixelDeltaU, pixelDeltaV := Black, Black, Black, Black;
      defocusDiskU, defocusDiskV := Black, Black;
    }

    /**
      `initialize`: the clamped height, the averaging scale 1/samples, the
      centre at lookfrom, and the given viewport geometry. The public
      settings are not touched.
     */
    method Initialize(view: ViewGeometry)
      requires aspectRatio != 0.0 && samplesPerPixel != 0
      modifies this`imageHeight, this`pixelSamplesScale, this`center, this`pixel00Loc,
        this`pixelDeltaU, this`pixelDeltaV, this`defocusDiskU, this`defocusDiskV
      ensures imageHeight == ImageHeight(imageWidth, aspectRatio)
      ensures pixelSamplesScale == 1.0 / samplesPerPixel as real
      ensures center == lookfrom
      ensures pixel00Loc == view.pixel00Loc && pixelDeltaU == view.pixelDeltaU && pixelDeltaV == view.pixelDeltaV
      ensures defocusDiskU == view.defocusDiskU && defocusDiskV == view.defocusDiskV
    {
      imageHeight := Trunc(imageWidth as real / aspectRatio);
      imageHeight := if imageHeight < 1 then 1 else imageHeight;
      pixelSamplesScale := 1.0 / samplesPerPixel as real;
      center := lookfrom;
      pixel00Loc, pixelDeltaU, pixelDeltaV := view.pixel00Loc, view.pixelDeltaU, view.pixelDeltaV;
      defocusDiskU, defocusDiskV := view.defocusDiskU, view.defocusDiskV;
    }

    /** The fields `get_ray` reads, as they stand. */
    function CurrentLens(): Lens
      reads this
    {
      Lens(defocusAngle, center, pixel00Loc, pixelDeltaU, pixelDeltaV, defocusDiskU, defocusDiskV)
    }

    /** The stored colour of pixel (i, j): the scale times the sum of its samples. */
    function PixelColor<M>(scene: Scene<M>, draws: Draws, i: int, j: int): Vec3
      reads this
    {
      Scale(pixelSamplesScale, Sum(SampleColors(CurrentLens(), maxDepth, scene, draws, i, j), samplesPerPixel))
    }

    /** The colour belonging to buffer slot k. */
    function SlotColor<M>(scene: Scene<M>, draws: Draws, k: int): Vec3
      reads this
      requires imageWidth > 0
    {
      PixelColor(scene, draws, k % imageWidth, k / imageWidth)
    }

    /**
      After `initialize`, in a scene whose materials never amplify and whose
      normalisation is proper, every stored pixel colour has its channels in
      [0, 1].
     */
    lemma PixelColorInUnitCube<M(!new)>(scene: Scene<M>, draws: Draws, i: int, j: int)
      requires samplesPerPixel > 0 && pixelSamplesScale == 1.0 / samplesPerPixel as real
      requires AttenuationsInUnitCube(scene.scatter) && UnitY(scene.unitVector)
      ensures InUnitCube(PixelColor(scene, draws, i, j))
    {
      var colors := SampleColors(CurrentLens(), maxDepth, scene, draws, i, j);
      forall s | 0 <= s < samplesPerPixel
        ensures InUnitCube(colors(s))
      {
        RayColorInUnitCube(CurrentLens().GetRay(i, j, draws(i, j, s)), maxDepth, scene);
      }
      AverageInUnitCube(colors, samplesPerPixel);
    }

    /** The sum of the samples of pixel (i, j), traced one after another. */
    method AccumulateSamples<M>(scene: Scene<M>, draws: Draws, i: int, j: int) returns (pixelColor: Vec3)
      ensures pixelColor == Sum(SampleColors(CurrentLens(), maxDepth, scene, draws, i, j), samplesPerPixel)
    {
      var lens := CurrentLens();
      ghost var colors := SampleColors(lens, maxDepth, scene, draws, i, j);
      pixelColor := Black;
      var sample := 0;
      while sample < samplesPerPixel
        invariant 0 <= sample <= if samplesPerPixel < 0 then 0 else samplesPerPixel
        invariant pixelColor == Sum(colors, sample)
      {
        var c := TraceSample(lens, scene, draws, i, j, sample);
        pixelColor := Add(pixelColor, c);
        sample := sample + 1;
      }
      assert sample == samplesPerPixel || (sample == 0 && samplesPerPixel <= 0);
    }

    /** One sample of pixel (i, j): `get_ray`, then `ray_color` with the full bounce budget. */
    method TraceSample<M>(lens: Lens, scene: Scene<M>, draws: Draws, i: int, j: int, sample: int) returns (c: Vec3)
      ensures c == SampleColors(lens, maxDepth, scene, draws, i, j)(sample)
    {
      var r := lens.GetRay(i, j, draws(i, j, sample));
      c := RayColor(r, maxDepth, scene);
    }

    /** The colour a render loop stores or writes for pixel (i, j): its summed samples, scaled. */
    method ShadePixel<M>(scene: Scene<M>, draws: Draws, i: int, j: int) returns (c: Vec3)
      requires 0 <= i < imageWidth && 0 <= j
      ensures c == SlotColor(scene, draws, PixelIndex(imageWidth, i, j))
    {
      var pixelColor := AccumulateSamples(scene, draws, i, j);
      DivModUnique(PixelIndex(imageWidth, i, j), imageWidth, j, i);
      c := Scale(pixelSamplesScale, pixelColor);
    }

    /**
      The rows loop of `render_multithreaded`, run by one worker: rows are
      claimed from the counter in increasing order until it passes the
      height; each pixel accumulates its samples and its slot receives the
      scaled sum. The ghost log lists the slots in the order they are
      written: every slot exactly once.
     */
    method RenderRows<M>(scene: Scene<M>, draws: Draws) returns (pixelBuffer: array<Vec3>, ghost writes: seq<int>)
      requires imageWidth > 0 && imageHeight >= 1
      ensures fresh(pixelBuffer) && pixelBuffer.Length == imageWidth * imageHeight
      ensures forall k :: 0 <= k < pixelBuffer.Length ==> pixelBuffer[k] == SlotColor(scene, draws, k)
      ensures |writes| == pixelBuffer.Length && forall k :: 0 <= k < |writes| ==> writes[k] == k
    {
      var width, height := imageWidth, imageHeight;
      pixelBuffer := new Vec3[width * height](_ => Black);
      writes := [];
      var nextRow := 0;
      while nextRow < height
        invariant 0 <= nextRow <= height
        invariant |writes| == nextRow * width <= pixelBuffer.Length
        invariant forall k :: 0 <= k < |writes| ==> writes[k] == k
        invariant forall k :: 0 <= k < |writes| ==> pixelBuffer[k] == SlotColor(scene, draws, k)
      {
        var j := nextRow;
        nextRow := nextRow + 1;
        writes := RenderRow(scene, draws, pixelBuffer, j, writes);
      }
    }

    /** One pass of the row loop: renders row j into its slots, left to right. */
    method RenderRow<M>(scene: Scene<M>, draws: Draws, pixelBuffer: array<Vec3>, j: int, ghost writes0: seq<int>)
      returns (ghost writes: seq<int>)
      requires imageWidth > 0 && 0 <= j < imageHeight
      requires pixelBuffer.Length == imageWidth * imageHeight && |writes0| == j * imageWidth
      requires forall k :: 0 <= k < |writes0| ==> writes0[k] == k
      requires forall k :: 0 <= k < |writes0| ==> pixelBuffer[k] == SlotColor(scene, draws, k)
      modifies pixelBuffer
      ensures |writes| == (j + 1) * imageWidth <= pixelBuffer.Length
      ensures forall k :: 0 <= k < |writes| ==> writes[k] == k
      ensures forall k :: 0 <= k < |writes| ==> pixelBuffer[k] == SlotColor(scene, draws, k)
      ensures forall k :: |writes| <= k < pixelBuffer.Length ==> pixelBuffer[k] == old(pixelBuffer[k])
    {
      var width := imageWidth;
      RowInRange(width, imageHeight, j);
      var rowStart := j * width;
      writes := writes0;
      ghost var expected := seq(pixelBuffer.Length, k reads this requires imageWidth > 0 => SlotColor(scene, draws, k));
      ghost var before := pixelBuffer[..];
      var i := 0;
      while i < width
        invariant 0 <= i <= width
        invariant |writes| == rowStart + i <= pixelBuffer.Length
        invariant forall k :: 0 <= k < |writes| ==> writes[k] == k
        invariant forall k :: 0 <= k < |writes| ==> pixelBuffer[k] == expected[k]
        invariant forall k :: |writes| <= k < pixelBuffer.Length ==> pixelBuffer[k] == before[k]
      {
        var pixelColor := ShadePixel(scene, draws, i, j);
        pixelBuffer[rowStart + i] := pixelColor;
        writes := writes + [rowStart + i];
        i := i + 1;
      }
      assert forall k :: 0 <= k < |writes| ==> expected[k] == SlotColor(scene, draws, k);
    }

    /** Emits the buffer in row-major order, as the output loop of `render_multithreaded` does. */
    method EmitBuffer(pixelBuffer: array<Vec3>) returns (out: seq<Vec3>)
      requires imageWidth > 0 && imageHeight >= 1
      requires pixelBuffer.Length == imageWidth * imageHeight
      ensures out == pixelBuffer[..]
    {
      var width, height := imageWidth, imageHeight;
      out := [];
      var j := 0;
      while j < height
        invariant 0 <= j <= height
        invariant |out| == j * width <= pixelBuffer.Length
        invariant out == pixelBuffer[..|out|]
      {
        RowInRange(width, height, j);
        var rowStart := j * width;
        var i := 0;
        while i < width
          invariant 0 <= i <= width
          invariant |out| == rowStart + i <= pixelBuffer.Length
          invariant out == pixelBuffer[..|out|]
        {
          assert pixelBuffer[..rowStart + i + 1] == pixelBuffer[..rowStart + i] + [pixelBuffer[rowStart + i]];
          out := out + [pixelBuffer[rowStart + i]];
          i := i + 1;
        }
        j := j + 1;
      }
    }

    /**
      `render_multithreaded` without the threads: initialize, fill the buffer,
      emit it. The output is every pixel's colour in row-major order.
     */
    method RenderMultithreaded<M>(scene: Scene<M>, draws: Draws, view: ViewGeometry) returns (out: seq<Vec3>)
      requires aspectRatio != 0.0 && samplesPerPixel != 0 && imageWidth > 0
      modifies this`imageHeight, this`pixelSamplesScale, this`center, this`pixel00Loc,
        this`pixelDeltaU, this`pixelDeltaV, this`defocusDiskU, this`defocusDiskV
      ensures imageHeight == ImageHeight(imageWidth, aspectRatio) && center == lookfrom
      ensures pixelSamplesScale == 1.0 / samplesPerPixel as real
      ensures pixel00Loc == view.pixel00Loc && pixelDeltaU == view.pixelDeltaU && pixelDeltaV == view.pixelDeltaV
      ensures defocusDiskU == view.defocusDiskU && defocusDiskV == view.defocusDiskV
      ensures |out| == imageWidth * imageHeight
      ensures forall k :: 0 <= k < |out| ==> out[k] == SlotColor(scene, draws, k)
    {
      Initialize(view);
      var pixelBuffer, writes := RenderRows(scene, draws);
      out := EmitBuffer(pixelBuffer);
    }

    /**
      `render_single_threaded`: initialize, then stream the pixels. It emits
      the same sequence as `RenderMultithreaded`.
     */
    method RenderSingleThreaded<M>(scene: Scene<M>, draws: Draws, view: ViewGeometry) returns (out: seq<Vec3>)
      requires aspectRatio != 0.0 && samplesPerPixel != 0 && imageWidth > 0
      modifies this`imageHeight, this`pixelSamplesScale, this`center, this`pixel00Loc,
        this`pixelDeltaU, this`pixelDeltaV, this`defocusDiskU, this`defocusDiskV
      ensures imageHeight == ImageHeight(imageWidth, aspectRatio) && center == lookfrom
      ensures pixelSamplesScale == 1.0 / samplesPerPixel as real
      ensures pixel00Loc == view.pixel00Loc && pixelDeltaU == view.pixelDeltaU && pixelDeltaV == view.pixelDeltaV
      ensures defocusDiskU == view.defocusDiskU && defocusDiskV == view.defocusDiskV
      ensures |out| == imageWidth * imageHeight
      ensures forall k :: 0 <= k < |out| ==> out[k] == SlotColor(scene, draws, k)
    {
      Initialize(view);
      out := StreamPixels(scene, draws);
    }

    /**
      The loops of `render_single_threaded`: each pixel's scaled sum is
      emitted as soon as it is computed, rows top to bottom, columns left to
      right.
     */
    method StreamPixels<M>(scene: Scene<M>, draws: Draws) returns (out: seq<Vec3>)
      requires imageWidth > 0 && imageHeight >= 1
      ensures |out| == imageWidth * imageHeight
      ensures forall k :: 0 <= k < |out| ==> out[k] == SlotColor(scene, draws, k)
    {
      var width, height := imageWidth, imageHeight;
      out := [];
      var j := 0;
      while j < height
        invariant 0 <= j <= height
        invariant |out| == j * width
        invariant forall k :: 0 <= k < |out| ==> out[k] == SlotColor(scene, draws, k)
      {
        RowInRange(width, height, j);
        var rowStart := j * width;
        var i := 0;
        while i < width
          invariant 0 <= i <= width
          invariant |out| == rowStart + i
          invariant forall k :: 0 <= k < |out| ==> out[k] == SlotColor(scene, draws, k)
        {
          var pixelColor := ShadePixel(scene, draws, i, j);
          out := out + [pixelColor];
          i := i + 1;
        }
        j := j + 1;
      }
    }
  }
}
