# SUSAN-style edge detector of JFeatureLib, in Dafny

This project models `Susan`, JFeatureLib's SUSAN-style edge detector. The detector
takes an RGB image and computes a binary edge map. For every pixel at least `radius`
away from each border, it builds the `(2r+1) x (2r+1)` mask of luminances around the
pixel. It then runs two sweeps that compare each cell against the nucleus (the centre
cell) with a strict `|cell - nucleus| < threshold`. Each interior pixel ends as opaque
white (`-1`) or opaque black (`-16777216`). Border pixels keep the value of the fresh
result buffer, which is `0`. The result buffer is copied over the input image.
Progress is broadcast as one START event, one update per image column, and one END event.

Modules:

- `SusanRule` (`rule.dfy`) holds the pure definitions.
  - The two predicates that decide a pixel:
    - H (`HorizontalUniform`): the top half-window (all columns, rows `0..r`) is uniform.
    - V0 (`FirstColumnUniform`): the first mask column is uniform.
  - `Classify`: the value a pixel gets from its mask. It is white iff H or V0 holds.
  - `EdgeMap`: the whole output image, as a function of the input picture, the
    luminance function, the radius and the threshold.
- `ProgressReport` (`progress.dfy`) holds the progress events, the rounded
  percentage, the message `"Step i of N"`, and the sequence of updates a scan fires.
- `EdgeDetector` (`susan.dfy`) holds the imperative part.
  - The class `Susan` has the fields `radius`, `threshold` and `image`. It also has an
    append-only event log that stands for the listener broadcast.
  - `Run` is the entry point. It checks the processor's type.
  - `Process` allocates the buffers. `Scan`, `ScanColumn` and `ClassifyPixel` hold the
    nested loops of the source's single `process()` method. `FillMask`,
    `HorizontalSweep` and `VerticalSweep` are the loops over the mask.
  - Each loop method is proved against the pure definitions. So `Run` ends with the
    image equal to `EdgeMap` of its old contents. Its event log grows by
    `[Start] + ProgressTrace(W, H) + [End]`.

What the code does, as opposed to a textbook SUSAN detector or a plain "horizontal or
vertical half-window is uniform" reading:

- The horizontal sweep rewrites the pixel after every column. Its running conjunction
  only ever goes from true to false, so the final value is decided by H.
- The vertical sweep also writes after every column, but it never turns a white pixel
  black. So the pixel turns white as soon as the first column passes, and later columns
  cannot undo that.
- The vertical test is therefore V0, not the whole left half-window. The model follows
  the code.
  - `LeftHalfImpliesFirstColumn`: a uniform left half implies V0.
  - `FirstColumnDecidesVertical`: a mask that is white although neither H nor the
    whole left half-window holds.
  - `SpotEdgeMap`: a 5 x 5 example. With radius 1 and threshold 10, the pixel (2, 3)
    is white although the bright pixel (2, 2) lies in both its top and its left
    half-windows.

External collaborators are parameters of the model:

- The colour-to-luminance conversion is the argument `lum: int -> int`.
- The processor's runtime class is a `ProcessorClass` value.
- The pixel arrays are `array2<int>` indexed `[x, y]`.

## Model

| member | source | states |
|---|---|---|
| `SusanRule.Abs` | src/main/java/de/lmu/ifi/dbs/jfeaturelib/edgeDetector/Susan.java:123 | `Math.abs` of the difference is non-negative and equals the difference or its negation |
| `SusanRule.Interior` | src/main/java/de/lmu/ifi/dbs/jfeaturelib/edgeDetector/Susan.java:113 | a pixel is interior iff it lies at least `radius` from each border; then, for radius >= 0, its whole `(2r+1) x (2r+1)` window lies inside the picture |
| `SusanRule.Mask` | src/main/java/de/lmu/ifi/dbs/jfeaturelib/edgeDetector/Susan.java:114-118 | the mask of an interior pixel is `(2r+1) x (2r+1)`, cell (mx, my) holds the luminance of picture pixel (x−r+mx, y−r+my), and its centre cell (the nucleus) is the luminance of the pixel itself |
| `SusanRule.Classify` | src/main/java/de/lmu/ifi/dbs/jfeaturelib/edgeDetector/Susan.java:120-152 | a mask gives white iff H or V0 holds, else black; no other value is possible, and white requires a positive threshold |
| `SusanRule.EdgeMap` | src/main/java/de/lmu/ifi/dbs/jfeaturelib/edgeDetector/Susan.java:107 | the result buffer has the width and the height of the input picture |
| `SusanRule.EdgeMapCell` | src/main/java/de/lmu/ifi/dbs/jfeaturelib/edgeDetector/Susan.java:113-152 | an interior pixel ends white iff H or V0 holds for its mask, and black iff neither holds; a pixel keeps the fresh buffer's value exactly when it is on the border |
| `SusanRule.LeftHalfImpliesFirstColumn` | src/main/java/de/lmu/ifi/dbs/jfeaturelib/edgeDetector/Susan.java:137-152 | a uniform full left half-window implies that the first column (V0) is uniform |
| `SusanRule.FirstColumnDecidesVertical` | src/main/java/de/lmu/ifi/dbs/jfeaturelib/edgeDetector/Susan.java:137-152 | some mask is classified white although neither H nor the full left half-window is uniform: the vertical result is V0 |
| `SusanRule.ThresholdMonotone` | src/main/java/de/lmu/ifi/dbs/jfeaturelib/edgeDetector/Susan.java:120-152 | raising the threshold with the same picture and radius never turns a white pixel black |
| `SusanRule.NonPositiveThresholdAllBlack` | src/main/java/de/lmu/ifi/dbs/jfeaturelib/edgeDetector/Susan.java:120-152 | with threshold <= 0 every interior pixel is black, because even the nucleus fails the strict comparison with itself |
| `SusanRule.UniformPictureAllWhite` | src/main/java/de/lmu/ifi/dbs/jfeaturelib/edgeDetector/Susan.java:113-152 | if every pixel has the same luminance and the threshold is positive, every interior pixel is white |
| `SusanRule.SpotEdgeMap` | src/main/java/de/lmu/ifi/dbs/jfeaturelib/edgeDetector/Susan.java:110-152 | on the 5 x 5 picture of 100s with 200 at (2, 2), with radius 1 and threshold 10, the interior is white except at (2, 2), (3, 2) and (3, 3) |
| `ProgressReport.Decimal` | src/main/java/de/lmu/ifi/dbs/jfeaturelib/edgeDetector/Susan.java:159 | a count is rendered as a non-empty string of digits, with a leading zero only for zero |
| `ProgressReport.DecimalRoundTrip` | src/main/java/de/lmu/ifi/dbs/jfeaturelib/edgeDetector/Susan.java:159 | reading the rendered digits back gives the count |
| `ProgressReport.MessageInjective` | src/main/java/de/lmu/ifi/dbs/jfeaturelib/edgeDetector/Susan.java:159 | a message "Step i of N" determines both i and N |
| `ProgressReport.Message` | src/main/java/de/lmu/ifi/dbs/jfeaturelib/edgeDetector/Susan.java:159 | the message is "Step ", the step count, " of ", the total; reading the two digit fields back gives exactly i and N |
| `ProgressReport.Percent` | src/main/java/de/lmu/ifi/dbs/jfeaturelib/edgeDetector/Susan.java:158 | the percentage is 100·i/N rounded half up; it lies in [0, 100] while i <= N, is 100 at i = N, and is 0 when N = 0 |
| `ProgressReport.PercentMonotone` | src/main/java/de/lmu/ifi/dbs/jfeaturelib/edgeDetector/Susan.java:158 | more visited pixels never give a smaller percentage |
| `ProgressReport.ProgressTrace` | src/main/java/de/lmu/ifi/dbs/jfeaturelib/edgeDetector/Susan.java:156-159 | a W x H scan fires one update per column, W in all, each carrying a percentage in [0, 100] |
| `ProgressReport.TraceEndsComplete` | src/main/java/de/lmu/ifi/dbs/jfeaturelib/edgeDetector/Susan.java:156-159 | a W x H scan fires exactly W updates, and the last one reports W·H of W·H pixels and 100 percent |
| `ProgressReport.TracePercentsNondecreasing` | src/main/java/de/lmu/ifi/dbs/jfeaturelib/edgeDetector/Susan.java:156-159 | the percentages of a scan's updates lie in [0, 100] and never decrease |
| `EdgeDetector.IsAssignableFrom` | src/main/java/de/lmu/ifi/dbs/jfeaturelib/edgeDetector/Susan.java:82 | `c.isAssignableFrom(d)` is reflexive, and holds between two different classes only when `d` is the `ColorProcessor` subclass |
| `EdgeDetector.GuardAcceptsOnlyColorProcessor` | src/main/java/de/lmu/ifi/dbs/jfeaturelib/edgeDetector/Susan.java:82-83 | the type guard passes exactly for class `ColorProcessor` itself; a subclass of `ColorProcessor` is rejected |
| `EdgeDetector.ImageProcessor.GetIntArray` | src/main/java/de/lmu/ifi/dbs/jfeaturelib/edgeDetector/Susan.java:105 | the picture is a fresh copy of the image's pixels, with the same dimensions |
| `EdgeDetector.ImageProcessor.Insert` | src/main/java/de/lmu/ifi/dbs/jfeaturelib/edgeDetector/Susan.java:163 | the result buffer is copied over the image at (0, 0), clipped to both sizes |
| `EdgeDetector.FillMask` | src/main/java/de/lmu/ifi/dbs/jfeaturelib/edgeDetector/Susan.java:114-118 | for an interior pixel every picture index read is in bounds, and mask cell (mx, my) holds the luminance of picture pixel (x−r+mx, y−r+my) |
| `EdgeDetector.HorizontalSweep` | src/main/java/de/lmu/ifi/dbs/jfeaturelib/edgeDetector/Susan.java:119-135 | after the per-column rewrites the pixel is white iff H holds, whatever it held before |
| `EdgeDetector.VerticalSweep` | src/main/java/de/lmu/ifi/dbs/jfeaturelib/edgeDetector/Susan.java:136-152 | a white pixel stays white; the pixel ends white iff it was white or V0 holds, and black otherwise |
| `EdgeDetector.ClassifyPixel` | src/main/java/de/lmu/ifi/dbs/jfeaturelib/edgeDetector/Susan.java:113-152 | an interior pixel ends with `Classify` of its mask (white iff H or V0) |
| `EdgeDetector.ScanColumn` | src/main/java/de/lmu/ifi/dbs/jfeaturelib/edgeDetector/Susan.java:111-157 | one column: every pixel gets its edge-map value, border pixels stay unwritten, other columns are untouched, and the counter grows by H |
| `EdgeDetector.Susan.Scan` | src/main/java/de/lmu/ifi/dbs/jfeaturelib/edgeDetector/Susan.java:109-160 | the result buffer becomes the edge map of the picture, and exactly the W column updates are appended to the log |
| `EdgeDetector.Susan.Process` | src/main/java/de/lmu/ifi/dbs/jfeaturelib/edgeDetector/Susan.java:102-164 | with radius >= 0 the image becomes `EdgeMap` of its old contents and the W updates are logged; a negative radius fails with `NegativeArraySize` and changes nothing |
| `EdgeDetector.Susan.Run` | src/main/java/de/lmu/ifi/dbs/jfeaturelib/edgeDetector/Susan.java:80-90 | an incompatible processor is rejected before any event or write; otherwise START, the scan's updates and END are logged, and the image becomes its edge map |
| `EdgeDetector.Susan.constructor` | src/main/java/de/lmu/ifi/dbs/jfeaturelib/edgeDetector/Susan.java:53-56 | the default detector has radius 2 and threshold 15 |
| `EdgeDetector.Susan.WithParameters` | src/main/java/de/lmu/ifi/dbs/jfeaturelib/edgeDetector/Susan.java:62-66 | the two-argument constructor stores radius and threshold unchanged |
| `EdgeDetector.Susan.GetRadius` | src/main/java/de/lmu/ifi/dbs/jfeaturelib/edgeDetector/Susan.java:175-177 | returns the stored radius |
| `EdgeDetector.Susan.SetRadius` | src/main/java/de/lmu/ifi/dbs/jfeaturelib/edgeDetector/Susan.java:183-185 | stores the radius and changes no other field |
| `EdgeDetector.Susan.GetThreshold` | src/main/java/de/lmu/ifi/dbs/jfeaturelib/edgeDetector/Susan.java:191-193 | returns the stored threshold |
| `EdgeDetector.Susan.SetThreshold` | src/main/java/de/lmu/ifi/dbs/jfeaturelib/edgeDetector/Susan.java:199-201 | stores the threshold and changes no other field |

## Left out

- Listener registration (`addPropertyChangeListener`) and the `PropertyChangeSupport` broadcast are not modelled. Events are appended to the `events` log of the detector instead.
- The values of the `Progress.START` and `Progress.END` constants and the property name are not part of this model. They are the `Start` and `End` events.
- `supports()` is not modelled. It only declares the RGB capability to the host.
- `RGBtoGray.ARGB_NTSC` is not part of this model. The luminance function is the parameter `lum`.
- `ProgressReport.Percent`: states exact rational round-half-up of `i * 100 / (W * H)`, not the result of Java's double arithmetic. On exact halves the integer percentage can be one higher than Java's. For example, i = 145 and N = 232 (the fifth update of an 8 x 29 image) give 63, where Java computes `145 * (100.0 / 232)` as 62.49999999999999 and rounds it to 62.
- Java's 32-bit `int` wrap-around is not modelled. This affects `W * H`, `radius * 2 + 1`, the counter, and `Math.abs` of `Integer.MIN_VALUE`. Dafny integers are unbounded.
- `EdgeDetector.HorizontalSweep` and `EdgeDetector.VerticalSweep` keep the cell `result(x, y)` in a local variable and do not write it in place.
  - `result.set(x, y, ...)` and `result.get(x, y)` in the sweeps only ever touch the cell of the pixel being classified.
  - `ClassifyPixel` reads that cell before the sweeps, and `ScanColumn` stores the final value back.
  - The intermediate values written after each column are not observable in the buffer.
- Only the ImageJ processor members the detector uses are modelled: the runtime class, the pixels, `getIntArray` and `insert` at (0, 0). The class hierarchy is reduced to the classes named in `ProcessorClass`.
- A negative radius is modelled as the `NegativeArraySize` failure that the mask allocation raises, after START has been fired. Allocation failures for huge radii are not modelled.
