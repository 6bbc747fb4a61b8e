/** The SUSAN-style edge detector: its parameters, its entry point `Run`, and the
    column-major scan `Process` with the mask extraction and the two sweeps that
    classify each interior pixel. */
module EdgeDetector {
  import opened SusanRule
  import opened ProgressReport

  /** Runtime classes the image processor handed to `Run` can have. */
  datatype ProcessorClass =
    | ColorProcessorClass
    | ColorProcessorSubclass
    | ByteProcessorClass
    | ShortProcessorClass
    | FloatProcessorClass

  /** Java's `c.isAssignableFrom(d)`: `d` is `c` itself or a subclass of `c`.  It is
      reflexive, and among these classes only the `ColorProcessor` subclass is
      assignable to a class other than its own. */
  predicate IsAssignableFrom(c: ProcessorClass, d: ProcessorClass)
    ensures c == d ==> IsAssignableFrom(c, d)
    ensures IsAssignableFrom(c, d) ==> c == d || d == ColorProcessorSubclass
  {
    c == d || (c == ColorProcessorClass && d == ColorProcessorSubclass)
  }

  /** The guard of `Run` asks whether the processor's class is assignable FROM
      `ColorProcessor`, so a processor passes exactly when its class is
      `ColorProcessor` itself; a subclass of `ColorProcessor` is rejected. */
  lemma GuardAcceptsOnlyColorProcessor(c: ProcessorClass)
    ensures IsAssignableFrom(c, ColorProcessorClass) <==> c == ColorProcessorClass
    ensures IsAssignableFrom(ColorProcessorClass, ColorProcessorSubclass)
  {
  }

  datatype Exception = IllegalArgument(message: string) | NegativeArraySize

  datatype Outcome = Completed | Threw(exception: Exception)

  /** The contents of a 2-D array as a column-major grid `g[x][y]`. */
  ghost function Grid(a: array2<int>): (g: seq<seq<int>>)
    reads a
    ensures |g| == a.Length0 && Rectangular(g) && (a.Length0 > 0 ==> Height(g) == a.Length1)
  {
    seq(a.Length0, x requires 0 <= x < a.Length0 reads a =>
      seq(a.Length1, y requires 0 <= y < a.Length1 reads a => a[x, y]))
  }

  /** A 2-D array that agrees with a grid cell by cell has that grid as contents. */
  lemma GridOf(a: array2<int>, g: seq<seq<int>>)
    requires |g| == a.Length0 && forall x :: 0 <= x < |g| ==> |g[x]| == a.Length1
    requires forall x, y :: 0 <= x < a.Length0 && 0 <= y < a.Length1 ==> a[x, y] == g[x][y]
    ensures Grid(a) == g
  {
    forall x | 0 <= x < a.Length0
      ensures Grid(a)[x] == g[x]
    {
    }
  }

  /** An ImageJ image processor: its runtime class and its pixels, indexed `[x, y]`. */
  class ImageProcessor {
    const cls: ProcessorClass
    const pixels: array2<int>

    constructor (cls: ProcessorClass, pixels: array2<int>)
      ensures this.cls == cls && this.pixels == pixels
    {
      this.cls := cls;
      this.pixels := pixels;
    }

    /** `getIntArray`: a fresh copy of the pixels. */
    method GetIntArray() returns (picture: array2<int>)
      ensures fresh(picture)
      ensures picture.Length0 == pixels.Length0 && picture.Length1 == pixels.Length1
      ensures Grid(picture) == Grid(pixels)
    {
      picture := new int[pixels.Length0, pixels.Length1]((x, y) reads pixels =>
        if 0 <= x < pixels.Length0 && 0 <= y < pixels.Length1 then pixels[x, y] else 0);
      GridOf(picture, Grid(pixels));
    }

    /** `insert(src, 0, 0)`: copies `src` over the pixels, clipped to both arrays. */
    method Insert(src: array2<int>)
      requires src != pixels
      modifies pixels
      ensures forall x, y :: 0 <= x < pixels.Length0 && 0 <= y < pixels.Length1 ==>
        pixels[x, y] == if x < src.Length0 && y < src.Length1 then src[x, y] else old(pixels[x, y])
    {
      forall x, y | 0 <= x < pixels.Length0 && 0 <= y < pixels.Length1 && x < src.Length0 && y < src.Length1 {
        pixels[x, y] := src[x, y];
      }
    }
  }

  /** Fills the mask with the luminance of the `(2r+1) x (2r+1)` neighbourhood of
      the interior pixel `(x, y)`; every picture index read is in bounds. */
  method FillMask(mask: array2<int>, picture: array2<int>, lum: int -> int, r: nat, x: int, y: int)
    requires mask.Length0 == 2 * r + 1 && mask.Length1 == 2 * r + 1 && mask != picture
    requires Interior(picture.Length0, picture.Length1, r, x, y)
    modifies mask
    ensures forall mx, my :: 0 <= mx <= 2 * r && 0 <= my <= 2 * r ==>
      mask[mx, my] == lum(picture[x - r + mx, y - r + my])
  {
    for mx := 0 to 2 * r + 1
      invariant forall a, b :: 0 <= a < mx && 0 <= b <= 2 * r ==>
        mask[a, b] == lum(picture[x - r + a, y - r + b])
    {
      for my := 0 to 2 * r + 1
        invariant forall a, b :: 0 <= a < mx && 0 <= b <= 2 * r ==>
          mask[a, b] == lum(picture[x - r + a, y - r + b])
        invariant forall b :: 0 <= b < my ==> mask[mx, b] == lum(picture[x - r + mx, y - r + b])
      {
        mask[mx, my] := lum(picture[x - r + mx, y - r + my]);
      }
    }
  }

  /** The horizontal sweep over the top half-window.  It rewrites the pixel after
      every column with the running conjunction `edge`, which only ever goes from
      true to false, so the pixel ends white exactly when H holds, whatever it held
      before.  (`result.set(x, y, ...)` touches only the cell of the pixel being
      classified, which the caller passes in as `current` and stores back.) */
  method HorizontalSweep(mask: array2<int>, r: nat, t: int, current: int) returns (pixel: int)
    requires mask.Length0 == 2 * r + 1 && mask.Length1 == 2 * r + 1
    ensures pixel == if HorizontalUniform(Grid(mask), r, t) then White else Black
  {
    ghost var m := Grid(mask);
    pixel := current;
    var edge := true;
    var mx := 0;
    while mx <= 2 * r
      invariant 0 <= mx <= 2 * r + 1
      invariant edge == HorizontalPrefix(m, r, t, mx)
      invariant mx > 0 ==> pixel == if edge then White else Black
    {
      var my := 0;
      while my <= r
        invariant 0 <= my <= r + 1
        invariant edge == (HorizontalPrefix(m, r, t, mx) &&
                           forall b :: 0 <= b < my ==> Similar(m[mx][b], m[r][r], t))
      {
        assert mask[mx, my] == m[mx][my] && mask[r, r] == m[r][r];
        if edge && Abs(mask[mx, my] - mask[r, r]) < t {
          edge := true;
        } else {
          edge := false;
        }
        my := my + 1;
      }
      if edge {
        pixel := White;
      } else {
        pixel := Black;
      }
      mx := mx + 1;
    }
  }

  /** The vertical sweep over the left half-window.  It writes white after every
      column whose running conjunction still holds, and otherwise writes black only
      if the pixel is not already white.  So a white pixel stays white, and the pixel
      ends white exactly when it was white or V0 (the first column) holds. */
  method VerticalSweep(mask: array2<int>, r: nat, t: int, current: int) returns (pixel: int)
    requires mask.Length0 == 2 * r + 1 && mask.Length1 == 2 * r + 1
    ensures pixel == if current == White || FirstColumnUniform(Grid(mask), r, t) then White else Black
  {
    ghost var m := Grid(mask);
    pixel := current;
    var edge := true;
    var mx := 0;
    while mx <= r
      invariant 0 <= mx <= r + 1
      invariant edge == VerticalPrefix(m, r, t, mx)
      invariant mx == 0 ==> pixel == current
      invariant mx > 0 ==> pixel == if current == White || FirstColumnUniform(m, r, t) then White else Black
    {
      var my := 0;
      while my <= 2 * r
        invariant 0 <= my <= 2 * r + 1
        invariant edge == (VerticalPrefix(m, r, t, mx) &&
                           forall b :: 0 <= b < my ==> Similar(m[mx][b], m[r][r], t))
      {
        assert mask[mx, my] == m[mx][my] && mask[r, r] == m[r][r];
        if edge && Abs(mask[mx, my] - mask[r, r]) < t {
          edge := true;
        } else {
          edge := false;
        }
        my := my + 1;
      }
      if edge {
        pixel := White;
      } else if pixel != White {
        pixel := Black;
      }
      mx := mx + 1;
    }
  }

  /** Extracts the mask of the interior pixel `(x, y)` and runs both sweeps over it,
      starting from the pixel's current value in the result buffer. */
  method ClassifyPixel(mask: array2<int>, picture: array2<int>, lum: int -> int, r: nat, t: int,
                       x: int, y: int, current: int) returns (pixel: int)
    requires mask.Length0 == 2 * r + 1 && mask.Length1 == 2 * r + 1 && mask != picture
    requires Interior(picture.Length0, picture.Length1, r, x, y)
    modifies mask
    ensures pixel == Classify(Mask(Grid(picture), lum, r, x, y), r, t)
  {
    FillMask(mask, picture, lum, r, x, y);
    GridOf(mask, Mask(Grid(picture), lum, r, x, y));
    pixel := HorizontalSweep(mask, r, t, current);
    pixel := VerticalSweep(mask, r, t, pixel);
  }

  /** The inner loop of the scan for column `x`: classifies each interior pixel of
      the column into the result buffer, skips border pixels, and counts every
      pixel visited. */
  method ScanColumn(result: array2<int>, mask: array2<int>, picture: array2<int>, lum: int -> int,
                    r: nat, t: int, x: int, visited: int) returns (i: int)
    requires result.Length0 == picture.Length0 && result.Length1 == picture.Length1 && 0 <= x < result.Length0
    requires mask.Length0 == 2 * r + 1 && mask.Length1 == 2 * r + 1
    requires mask != picture && result != picture && result != mask
    requires forall b :: 0 <= b < result.Length1 ==> result[x, b] == Unwritten
    modifies result, mask
    ensures i == visited + result.Length1
    ensures forall b :: 0 <= b < result.Length1 ==> result[x, b] == Pixel(Grid(picture), lum, r, t, x, b)
    ensures forall a, b :: 0 <= a < result.Length0 && 0 <= b < result.Length1 && a != x ==>
      result[a, b] == old(result[a, b])
  {
    ghost var p := Grid(picture);
    var width, height := result.Length0, result.Length1;
    i := visited;
    var y := 0;
    while y < height
      invariant 0 <= y <= height && i == visited + y
      invariant forall b :: 0 <= b < y ==> result[x, b] == Pixel(p, lum, r, t, x, b)
      invariant forall b :: y <= b < height ==> result[x, b] == Unwritten
      invariant forall a, b :: 0 <= a < width && 0 <= b < height && a != x ==> result[a, b] == old(result[a, b])
    {
      if x >= r && x < width - r && y >= r && y < height - r {
        var pixel := ClassifyPixel(mask, picture, lum, r, t, x, y, result[x, y]);
        result[x, y] := pixel;
      }
      i := i + 1;
      y := y + 1;
    }
  }

  /** The detector's parameters, the processor of its last run, and the progress
      events it has broadcast to its listeners, oldest first. */
  class Susan {
    var radius: int
    var threshold: int
    var image: ImageProcessor?
    var events: seq<Event>

    /** Radius 2 and threshold 15. */
    constructor ()
      ensures radius == 2 && threshold == 15 && image == null && events == []
    {
      radius := 2;
      threshold := 15;
      image := null;
      events := [];
    }

    /** Stores both parameters as given; neither is checked. */
    constructor WithParameters(radius: int, threshold: int)
      ensures this.radius == radius && this.threshold == threshold && image == null && events == []
    {
      this.radius := radius;
      this.threshold := threshold;
      image := null;
      events := [];
    }

    method GetRadius() returns (r: int)
      ensures r == radius
    {
      r := radius;
    }

    method SetRadius(radius: int)
      modifies this`radius
      ensures this.radius == radius
    {
      this.radius := radius;
    }

    method GetThreshold() returns (t: int)
      ensures t == threshold
    {
      t := threshold;
    }

    method SetThreshold(threshold: int)
      modifies this`threshold
      ensures this.threshold == threshold
    {
      this.threshold := threshold;
    }

    /** Rejects any processor whose class is not assignable from `ColorProcessor`
        before touching anything; otherwise brackets the scan between START and END. */
    method Run(ip: ImageProcessor, lum: int -> int) returns (outcome: Outcome)
      modifies this, ip.pixels
      ensures radius == old(radius) && threshold == old(threshold)
      ensures !IsAssignableFrom(ip.cls, ColorProcessorClass) ==>
        && outcome == Threw(IllegalArgument("incompatible processor"))
        && image == old(image) && events == old(events) && unchanged(ip.pixels)
      ensures IsAssignableFrom(ip.cls, ColorProcessorClass) && radius < 0 ==>
        && outcome == Threw(NegativeArraySize)
        && image == ip && events == old(events) + [Start] && unchanged(ip.pixels)
      ensures IsAssignableFrom(ip.cls, ColorProcessorClass) && radius >= 0 ==>
        && outcome == Completed && image == ip
        && events == old(events) + [Start] + ProgressTrace(ip.pixels.Length0, ip.pixels.Length1) + [End]
        && Grid(ip.pixels) == EdgeMap(old(Grid(ip.pixels)), lum, radius, threshold)
    {
      if !IsAssignableFrom(ip.cls, ColorProcessorClass) {
        return Threw(IllegalArgument("incompatible processor"));
      }
      events := events + [Start];
      image := ip;
      outcome := Process(lum);
      if outcome.Threw? {
        return;
      }
      events := events + [End];
    }

    /** The column-major scan: after each column, fires the update that reports the
        pixels visited so far. */
    method Scan(result: array2<int>, mask: array2<int>, picture: array2<int>, lum: int -> int, r: nat, t: int)
      requires result.Length0 == picture.Length0 && result.Length1 == picture.Length1
      requires mask.Length0 == 2 * r + 1 && mask.Length1 == 2 * r + 1
      requires mask != picture && result != picture && result != mask
      requires forall a, b :: 0 <= a < result.Length0 && 0 <= b < result.Length1 ==> result[a, b] == Unwritten
      modifies result, mask, this`events
      ensures events == old(events) + ProgressTrace(result.Length0, result.Length1)
      ensures forall a, b :: 0 <= a < result.Length0 && 0 <= b < result.Length1 ==>
        result[a, b] == Pixel(Grid(picture), lum, r, t, a, b)
    {
      ghost var p := Grid(picture);
      var width, height := result.Length0, result.Length1;
      var i := 0;
      var x := 0;
      while x < width
        invariant 0 <= x <= width && i == x * height
        invariant forall a, b :: 0 <= a < x && 0 <= b < height ==> result[a, b] == Pixel(p, lum, r, t, a, b)
        invariant forall a, b :: x <= a < width && 0 <= b < height ==> result[a, b] == Unwritten
        invariant events == old(events) + ProgressTrace(width, height)[..x]
      {
        i := ScanColumn(result, mask, picture, lum, r, t, x, i);
        TracePrefixStep(width, height, x, i);
        events := events + [ProgressEvent(i, width * height)];
        MulSucc(x, height);
        x := x + 1;
      }
    }

    /** Scans the image column by column, classifies every interior pixel into a
        fresh result buffer, fires one update per column, and finally copies the
        result over the image.  A negative radius fails allocating the mask. */
    method Process(lum: int -> int) returns (outcome: Outcome)
      requires image != null
      modifies image.pixels, this`events
      ensures radius < 0 ==> outcome == Threw(NegativeArraySize) && events == old(events) && unchanged(image.pixels)
      ensures radius >= 0 ==>
        && outcome == Completed
        && events == old(events) + ProgressTrace(image.pixels.Length0, image.pixels.Length1)
        && Grid(image.pixels) == EdgeMap(old(Grid(image.pixels)), lum, radius, threshold)
    {
      var width, height := image.pixels.Length0, image.pixels.Length1;
      var picture := image.GetIntArray();
      ghost var p := Grid(picture);
      var result := new int[width, height]((x, y) => Unwritten);
      if radius < 0 {
        return Threw(NegativeArraySize);
      }
      var r: nat, t := radius, threshold;
      var mask := new int[r * 2 + 1, r * 2 + 1];
      Scan(result, mask, picture, lum, r, t);
      image.Insert(result);
      GridOf(image.pixels, EdgeMap(p, lum, r, t));
      outcome := Completed;
    }
  }
}
