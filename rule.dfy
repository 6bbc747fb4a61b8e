/** The per-pixel decision of the SUSAN-style edge detector, as pure definitions.

    A picture is a column-major grid `p[x][y]` of packed ARGB values; a mask is
    the `(2r+1) x (2r+1)` grid of luminances around a pixel, whose centre cell
    `m[r][r]` is the nucleus.  The scan in module EdgeDetector is proved to
    produce `EdgeMap` of its input; the lemmas here state what that map is. */
module SusanRule {

  /** Value written for a pixel whose half-window is uniform: opaque white (0xFFFFFFFF). */
  const White: int := -1
  /** Value written otherwise: opaque black (0xFF000000). */
  const Black: int := -16777216
  /** Value of every cell of a freshly allocated result buffer. */
  const Unwritten: int := 0

  /** `Math.abs` on unbounded integers. */
  function Abs(v: int): (a: int)
    ensures a >= 0 && (a == v || a == -v)
  {
    if v < 0 then -v else v
  }

  /** The comparison both sweeps make against the nucleus; it is strict. */
  predicate Similar(v: int, nucleus: int, threshold: int)
  {
    Abs(v - nucleus) < threshold
  }

  function Height(p: seq<seq<int>>): nat
  {
    if |p| == 0 then 0 else |p[0]|
  }

  predicate Rectangular(p: seq<seq<int>>)
  {
    forall x :: 0 <= x < |p| ==> |p[x]| == Height(p)
  }

  predicate IsMask(m: seq<seq<int>>, r: nat)
  {
    |m| == 2 * r + 1 && Rectangular(m) && Height(m) == 2 * r + 1
  }

  /** Every cell of the mask columns `[0, cols)` and rows `[0, r]` is similar to the nucleus:
      the horizontal sweep's running conjunction after `cols` columns. */
  predicate HorizontalPrefix(m: seq<seq<int>>, r: nat, t: int, cols: nat)
    requires IsMask(m, r) && cols <= 2 * r + 1
  {
    forall mx, my :: 0 <= mx < cols && 0 <= my <= r ==> Similar(m[mx][my], m[r][r], t)
  }

  /** Every cell of the mask columns `[0, cols)`, all rows, is similar to the nucleus:
      the vertical sweep's running conjunction after `cols` columns. */
  predicate VerticalPrefix(m: seq<seq<int>>, r: nat, t: int, cols: nat)
    requires IsMask(m, r) && cols <= r + 1
  {
    forall mx, my :: 0 <= mx < cols && 0 <= my <= 2 * r ==> Similar(m[mx][my], m[r][r], t)
  }

  /** H: the whole top half-window (all columns, rows up to the nucleus) is uniform. */
  predicate HorizontalUniform(m: seq<seq<int>>, r: nat, t: int)
    requires IsMask(m, r)
  {
    HorizontalPrefix(m, r, t, 2 * r + 1)
  }

  /** V0: the first mask column is uniform; this is what decides the vertical sweep. */
  predicate FirstColumnUniform(m: seq<seq<int>>, r: nat, t: int)
    requires IsMask(m, r)
  {
    VerticalPrefix(m, r, t, 1)
  }

  /** The whole left half-window (columns up to the nucleus, all rows) is uniform. */
  predicate LeftHalfUniform(m: seq<seq<int>>, r: nat, t: int)
    requires IsMask(m, r)
  {
    VerticalPrefix(m, r, t, r + 1)
  }

  /** The value an interior pixel ends with after both sweeps over its mask: white
      exactly when H or V0 holds, black otherwise, and never white unless the
      threshold is positive. */
  function Classify(m: seq<seq<int>>, r: nat, t: int): (v: int)
    requires IsMask(m, r)
    ensures v == White || v == Black
    ensures v == White <==> HorizontalUniform(m, r, t) || FirstColumnUniform(m, r, t)
    ensures v == White ==> t > 0
  {
    if HorizontalUniform(m, r, t) || FirstColumnUniform(m, r, t) then
      assert Similar(m[0][0], m[r][r], t);
      White
    else Black
  }

  /** Pixels at least `r` away from every border of a `w x h` picture: for a
      non-negative radius the whole `(2r+1) x (2r+1)` window around such a pixel
      lies inside the picture. */
  predicate Interior(w: int, h: int, r: int, x: int, y: int)
    ensures Interior(w, h, r, x, y) && r >= 0 ==>
      0 <= x - r && x + r < w && 0 <= y - r && y + r < h
  {
    x >= r && x < w - r && y >= r && y < h - r
  }

  /** The luminance mask around the interior pixel `(x, y)`: cell `(mx, my)` holds
      the luminance of picture pixel `(x - r + mx, y - r + my)`. */
  function Mask(p: seq<seq<int>>, lum: int -> int, r: nat, x: int, y: int): (m: seq<seq<int>>)
    requires Rectangular(p) && Interior(|p|, Height(p), r, x, y)
    ensures IsMask(m, r)
    ensures m[r][r] == lum(p[x][y])
  {
    seq(2 * r + 1, mx requires 0 <= mx < 2 * r + 1 =>
      seq(2 * r + 1, my requires 0 <= my < 2 * r + 1 => lum(p[x - r + mx][y - r + my])))
  }

  /** The value the scan leaves at `(x, y)`: border pixels keep the fresh buffer's value. */
  function Pixel(p: seq<seq<int>>, lum: int -> int, r: nat, t: int, x: int, y: int): int
    requires Rectangular(p) && 0 <= x < |p| && 0 <= y < Height(p)
  {
    if Interior(|p|, Height(p), r, x, y) then Classify(Mask(p, lum, r, x, y), r, t) else Unwritten
  }

  /** The edge map of a whole picture, same shape as the picture. */
  function EdgeMap(p: seq<seq<int>>, lum: int -> int, r: nat, t: int): (e: seq<seq<int>>)
    requires Rectangular(p)
    ensures |e| == |p| && Rectangular(e) && Height(e) == Height(p)
  {
    seq(|p|, x requires 0 <= x < |p| =>
      seq(Height(p), y requires 0 <= y < Height(p) => Pixel(p, lum, r, t, x, y)))
  }

  /** The closed form of one cell of the edge map: white exactly when the pixel is
      interior and H or V0 holds for its mask, black when it is interior and neither
      holds, and the fresh buffer's value exactly on the border. */
  lemma EdgeMapCell(p: seq<seq<int>>, lum: int -> int, r: nat, t: int, x: int, y: int)
    requires Rectangular(p) && 0 <= x < |p| && 0 <= y < Height(p)
    ensures Interior(|p|, Height(p), r, x, y) ==>
      var m := Mask(p, lum, r, x, y);
      && (EdgeMap(p, lum, r, t)[x][y] == White <==> HorizontalUniform(m, r, t) || FirstColumnUniform(m, r, t))
      && (EdgeMap(p, lum, r, t)[x][y] == Black <==> !HorizontalUniform(m, r, t) && !FirstColumnUniform(m, r, t))
    ensures !Interior(|p|, Height(p), r, x, y) <==> EdgeMap(p, lum, r, t)[x][y] == Unwritten
  {
  }

  /** The full left half-window being uniform implies V0, but not conversely. */
  lemma LeftHalfImpliesFirstColumn(m: seq<seq<int>>, r: nat, t: int)
    requires IsMask(m, r) && LeftHalfUniform(m, r, t)
    ensures FirstColumnUniform(m, r, t)
  {
  }

  /** A mask the code classifies white although neither H nor the full left
      half-window is uniform: only the first column of the vertical sweep decides. */
  lemma FirstColumnDecidesVertical()
    ensures exists m: seq<seq<int>> ::
              IsMask(m, 1) && Classify(m, 1, 10) == White &&
              !HorizontalUniform(m, 1, 10) && !LeftHalfUniform(m, 1, 10)
  {
    var m := [[0, 0, 0], [50, 0, 0], [0, 0, 0]];
    assert IsMask(m, 1);
    assert !Similar(m[1][0], m[1][1], 10);
    assert FirstColumnUniform(m, 1, 10);
  }

  /** Raising the threshold never turns a white pixel black. */
  lemma ThresholdMonotone(p: seq<seq<int>>, lum: int -> int, r: nat, t1: int, t2: int, x: int, y: int)
    requires Rectangular(p) && 0 <= x < |p| && 0 <= y < Height(p) && t1 <= t2
    requires EdgeMap(p, lum, r, t1)[x][y] == White
    ensures EdgeMap(p, lum, r, t2)[x][y] == White
  {
    var m := Mask(p, lum, r, x, y);
    assert Interior(|p|, Height(p), r, x, y);
    if HorizontalUniform(m, r, t1) {
      assert HorizontalUniform(m, r, t2);
    } else {
      assert FirstColumnUniform(m, r, t2);
    }
  }

  /** With a threshold of zero or less nothing is similar, not even the nucleus to
      itself, so every interior pixel is black. */
  lemma NonPositiveThresholdAllBlack(p: seq<seq<int>>, lum: int -> int, r: nat, t: int, x: int, y: int)
    requires Rectangular(p) && t <= 0 && Interior(|p|, Height(p), r, x, y)
    ensures 0 <= x < |p| && 0 <= y < Height(p)
    ensures EdgeMap(p, lum, r, t)[x][y] == Black
  {
    var m := Mask(p, lum, r, x, y);
    assert !Similar(m[r][r], m[r][r], t);
    assert !Similar(m[0][r], m[r][r], t);
  }

  /** A picture whose pixels all have the same luminance is white at every interior
      pixel as soon as the threshold is positive. */
  lemma UniformPictureAllWhite(p: seq<seq<int>>, lum: int -> int, r: nat, t: int, x: int, y: int)
    requires Rectangular(p) && t > 0
    requires forall a, b :: 0 <= a < |p| && 0 <= b < Height(p) ==> lum(p[a][b]) == lum(p[0][0])
    requires Interior(|p|, Height(p), r, x, y)
    ensures 0 <= x < |p| && 0 <= y < Height(p)
    ensures EdgeMap(p, lum, r, t)[x][y] == White
  {
    var m := Mask(p, lum, r, x, y);
    forall mx, my | 0 <= mx <= 2 * r && 0 <= my <= r
      ensures Similar(m[mx][my], m[r][r], t)
    {
      assert m[mx][my] == lum(p[x - r + mx][y - r + my]) == lum(p[0][0]);
    }
    assert HorizontalUniform(m, r, t);
  }

  /** The 5 x 5 picture of value 100 with a single 200 at (2, 2). */
  function Spot(): seq<seq<int>>
  {
    seq(5, x => seq(5, y => if x == 2 && y == 2 then 200 else 100))
  }

  function Identity(v: int): int
  {
    v
  }

  /** The masks of `Spot()` with radius 1 and luminance the identity. */
  lemma SpotMask(x: int, y: int)
    requires 1 <= x <= 3 && 1 <= y <= 3
    ensures Rectangular(Spot()) && Height(Spot()) == 5
    ensures forall mx, my :: 0 <= mx < 3 && 0 <= my < 3 ==>
      Mask(Spot(), Identity, 1, x, y)[mx][my] == if x - 1 + mx == 2 && y - 1 + my == 2 then 200 else 100
  {
    var p := Spot();
    assert Rectangular(p) && Height(p) == 5;
    forall mx, my | 0 <= mx < 3 && 0 <= my < 3
      ensures Mask(p, Identity, 1, x, y)[mx][my] == if x - 1 + mx == 2 && y - 1 + my == 2 then 200 else 100
    {
      assert Mask(p, Identity, 1, x, y)[mx][my] == Identity(p[x - 1 + mx][y - 1 + my]);
    }
  }

  /** With radius 1, threshold 10 and luminance the identity, the interior of `Spot()`
      is white except at (2, 2), (3, 2) and (3, 3); (2, 3) is white although both its
      top and its left half-windows contain the bright pixel. */
  lemma SpotEdgeMap(x: int, y: int)
    requires 1 <= x <= 3 && 1 <= y <= 3
    ensures Rectangular(Spot()) && Height(Spot()) == 5
    ensures EdgeMap(Spot(), Identity, 1, 10)[x][y] ==
      if (x, y) == (2, 2) || (x, y) == (3, 2) || (x, y) == (3, 3) then Black else White
  {
    SpotMask(x, y);
    var m := Mask(Spot(), Identity, 1, x, y);
    if x == 2 && y == 2 {
      assert !Similar(m[0][1], m[1][1], 10);
    } else if x == 3 && y >= 2 {
      assert !Similar(m[0][3 - y], m[1][1], 10);
    } else if y == 1 {
      assert HorizontalUniform(m, 1, 10);
    } else {
      assert FirstColumnUniform(m, 1, 10);
    }
  }
}
