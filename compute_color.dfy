/** computeColor.computeColor: a flow field becomes a BGR image whose hue encodes the
    flow direction and whose saturation its length. `np.sqrt` and
    `np.arctan2(y, x) / np.pi` are parameters: `sqrt` returns the non-negative square
    root and `angle` a value in [-1, 1]. */
module ComputeColor {
  import opened Colorwheel

  /** A float64 flow component: a number or NaN. */
  datatype Num = NaN | Val(x: real)

  /** a * b. Products of two variables are written with `Times`, so that the solver
      matches them as terms; the facts needed about them are the lemmas below, each
      proved where the product is in plain sight. */
  function Times(a: real, b: real): real
  {
    a * b
  }

  lemma Between(f: real, d: real)
    requires 0.0 <= f <= 1.0 && 0.0 <= d
    ensures 0.0 <= Times(f, d) <= d
  {
    assert Times(f, d) == f * d;
    assert 0.0 <= f * d <= d;
  }

  lemma TimesMonotone(r1: real, r2: real, d: real)
    requires r1 <= r2 && 0.0 <= d
    ensures Times(r1, d) <= Times(r2, d)
  {
    assert Times(r2, d) - Times(r1, d) == (r2 - r1) * d;
    assert 0.0 <= (r2 - r1) * d;
  }

  lemma TimesOne(a: real)
    ensures Times(1.0, a) == a
  {
  }

  lemma Square(x: real)
    ensures 0.0 <= Times(x, x)
  {
    assert Times(x, x) == x * x;
  }

  lemma PositiveTimes(a: real, b: real)
    requires 0.0 < a && 0.0 < b
    ensures 0.0 < Times(a, b)
  {
    assert Times(a, b) == a * b;
  }

  lemma ZeroSquare(r: real)
    requires 0.0 <= r && Times(r, r) == 0.0
    ensures r == 0.0
  {
    if r > 0.0 {
      PositiveTimes(r, r);
    }
  }

  ghost predicate IsSqrt(sqrt: real -> real)
  {
    forall x: real :: x >= 0.0 ==> sqrt(x) >= 0.0 && Times(sqrt(x), sqrt(x)) == x
  }

  /** `np.arctan2(y, x) / np.pi` lies in [-1, 1]. */
  ghost predicate IsNormalisedAngle(angle: (real, real) -> real)
  {
    forall y: real, x: real :: -1.0 <= angle(y, x) <= 1.0
  }

  // ---------------------------------------------------------------- one pixel

  /** `fk = (a + 1) / 2 * (ncols - 1)`: the angle mapped onto the palette rows. */
  function FracIndex(a: real): (fk: real)
    requires -1.0 <= a <= 1.0
    ensures 0.0 <= fk <= (NCols - 1) as real
  {
    (a + 1.0) / 2.0 * (NCols - 1) as real
  }

  /** `k0 = fk.astype(np.uint8)`: truncation, which is the floor for fk >= 0. */
  function K0(fk: real): (k0: nat)
    requires 0.0 <= fk <= (NCols - 1) as real
    ensures k0 < NCols
    ensures k0 as real <= fk < k0 as real + 1.0
  {
    fk.Floor
  }

  /** `k1 = k0 + 1; k1[k1 == ncols] = 0`: the next palette row, cyclically. */
  function K1(k0: nat): (k1: nat)
    requires k0 < NCols
    ensures k1 < NCols && k1 == (k0 + 1) % NCols
  {
    if k0 + 1 == NCols then 0 else k0 + 1
  }

  /** The blend lies between its two ends: measured from col0 when col0 <= col1, and
      from col1 otherwise. */
  lemma InterpBetween(col0: real, col1: real, f: real)
    requires 0.0 <= f <= 1.0
    ensures col0 <= col1 ==> col0 <= Times(1.0 - f, col0) + Times(f, col1) <= col1
    ensures col1 <= col0 ==> col1 <= Times(1.0 - f, col0) + Times(f, col1) <= col0
  {
    if col0 <= col1 {
      assert Times(1.0 - f, col0) + Times(f, col1) == col0 + Times(f, col1 - col0);
      Between(f, col1 - col0);
    } else {
      assert Times(1.0 - f, col0) + Times(f, col1) == col1 + Times(1.0 - f, col0 - col1);
      Between(1.0 - f, col0 - col1);
    }
  }

  /** `(1 - f) * col0 + f * col1`: a point on the segment between the two colours. */
  function Interp(col0: real, col1: real, f: real): (col: real)
    requires 0.0 <= f <= 1.0
    ensures col0 <= col1 ==> col0 <= col <= col1
    ensures col1 <= col0 ==> col1 <= col <= col0
  {
    InterpBetween(col0, col1, f);
    Times(1.0 - f, col0) + Times(f, col1)
  }

  /** Inside the unit circle the colour is blended towards white the nearer the pixel
      is to the centre; outside it is dimmed to three quarters. */
  function Saturate(radius: real, col: real): (s: real)
    requires 0.0 <= radius && 0.0 <= col <= 1.0
    ensures 0.0 <= s <= 1.0
    ensures radius <= 1.0 ==> col <= s
    ensures radius > 1.0 ==> s <= 0.75
  {
    if radius <= 1.0 then
      Between(radius, 1.0 - col);
      1.0 - Times(radius, 1.0 - col)
    else
      col * 0.75
  }

  /** `np.floor(255 * col).astype(np.uint8)`. */
  function ToByte(col: real): (b: int)
    requires 0.0 <= col <= 1.0
    ensures 0 <= b <= 255
    ensures b as real <= 255.0 * col < b as real + 1.0
  {
    (255.0 * col).Floor
  }

  /** Palette channel i at the normalised angle a, in [0, 1]: rows k0 and k1 of the
      palette (each divided by 255) blended with weight f = fk - k0. */
  function Blend(a: real, i: nat): (col: real)
    requires -1.0 <= a <= 1.0 && i < 3
    ensures 0.0 <= col <= 1.0
  {
    var fk := FracIndex(a);
    var k0 := K0(fk);
    var k1 := K1(k0);
    WheelRange(k0);
    WheelRange(k1);
    Interp(Wheel()[k0].Channel(i) as real / 255.0, Wheel()[k1].Channel(i) as real / 255.0, fk - k0 as real)
  }

  /** Palette channel i of a pixel at the given radius and normalised angle. */
  function PixelChannel(radius: real, a: real, i: nat): (b: int)
    requires 0.0 <= radius && -1.0 <= a <= 1.0 && i < 3
    ensures 0 <= b <= 255
  {
    ToByte(Saturate(radius, Blend(a, i)))
  }

  /** `np.sqrt(u ** 2 + v ** 2)`: the length of the flow vector. */
  function Radius(sqrt: real -> real, x: real, y: real): (r: real)
    requires IsSqrt(sqrt)
    ensures 0.0 <= r && Times(r, r) == Times(x, x) + Times(y, y)
  {
    Square(x);
    Square(y);
    sqrt(Times(x, x) + Times(y, y))
  }

  /** Palette channel i of the pixel with flow (x, y); the angle is taken of (-x, -y). */
  function ColorAt(sqrt: real -> real, angle: (real, real) -> real, x: real, y: real, i: nat): (b: int)
    requires IsSqrt(sqrt) && IsNormalisedAngle(angle) && i < 3
    ensures 0 <= b <= 255
  {
    PixelChannel(Radius(sqrt, x, y), angle(-y, -x), i)
  }

  /** The centre of the field is white: radius 0 gives 255 in every channel. */
  lemma PixelCentre(a: real, i: nat)
    requires -1.0 <= a <= 1.0 && i < 3
    ensures PixelChannel(0.0, a, i) == 255
  {
    assert Times(0.0, 1.0 - Blend(a, i)) == 0.0;
  }

  /** The flow (0, 0) is white. */
  lemma ZeroFlowIsWhite(sqrt: real -> real, angle: (real, real) -> real, i: nat)
    requires IsSqrt(sqrt) && IsNormalisedAngle(angle) && i < 3
    ensures ColorAt(sqrt, angle, 0.0, 0.0, i) == 255
  {
    var r := Radius(sqrt, 0.0, 0.0);
    assert Times(0.0, 0.0) == 0.0;
    ZeroSquare(r);
    var a := angle(-0.0, -0.0);
    PixelCentre(a, i);
    assert ColorAt(sqrt, angle, 0.0, 0.0, i) == PixelChannel(r, a, i);
  }

  /** On the unit circle, at the angle that maps exactly onto palette row k, a pixel
      shows that row's colour unchanged. */
  lemma PixelOnPalette(k: nat, i: nat)
    requires k < NCols && i < 3
    ensures var a := 2.0 * k as real / (NCols - 1) as real - 1.0;
      -1.0 <= a <= 1.0 && PixelChannel(1.0, a, i) == Wheel()[k].Channel(i)
  {
    var a := 2.0 * k as real / (NCols - 1) as real - 1.0;
    assert FracIndex(a) == k as real;
    WheelRange(k);
    var c := Wheel()[k].Channel(i) as real / 255.0;
    var c' := Wheel()[K1(k)].Channel(i) as real / 255.0;
    assert Times(1.0, c) == c && Times(0.0, c') == 0.0;
    assert Blend(a, i) == c;
    assert Times(1.0, 1.0 - c) == 1.0 - c;
    assert 255.0 * c == Wheel()[k].Channel(i) as real;
  }

  /** Inside the unit circle a pixel is at least as bright as its palette blend. */
  lemma PixelInside(radius: real, a: real, i: nat)
    requires 0.0 <= radius <= 1.0 && -1.0 <= a <= 1.0 && i < 3
    ensures ToByte(Blend(a, i)) <= PixelChannel(radius, a, i)
  {
  }

  /** Outside the unit circle every channel is dimmed: it is floor(255 * 0.75 * c) for
      the colour c the same angle has on the unit circle, so at most floor(0.75 * 255). */
  lemma PixelDimmed(radius: real, a: real, i: nat)
    requires 1.0 < radius && -1.0 <= a <= 1.0 && i < 3
    ensures PixelChannel(radius, a, i) == ToByte(0.75 * Saturate(1.0, Blend(a, i)))
    ensures PixelChannel(radius, a, i) <= 191
  {
    DimFactor(radius, Blend(a, i));
  }

  /** Past radius 1 the colour no longer depends on the radius: it is three quarters of
      the colour at radius 1. */
  lemma DimFactor(r: real, c: real)
    requires 1.0 < r && 0.0 <= c <= 1.0
    ensures Saturate(r, c) == 0.75 * Saturate(1.0, c)
  {
    TimesOne(1.0 - c);
  }

  /** Inside the unit circle, moving outwards never brightens a channel. */
  lemma SaturateMonotone(r1: real, r2: real, col: real)
    requires 0.0 <= r1 <= r2 <= 1.0 && 0.0 <= col <= 1.0
    ensures Saturate(r2, col) <= Saturate(r1, col)
  {
    TimesMonotone(r1, r2, 1.0 - col);
  }

  // ------------------------------------------------------------ the whole field

  /** Lines 87-95: a pixel whose u or v is NaN gets 0 in both. */
  function Cleaned(p: Num, q: Num): (r: Num)
    ensures r.Val?
    ensures p.Val? && q.Val? ==> r == p
    ensures p.NaN? || q.NaN? ==> r == Val(0.0)
  {
    if p.NaN? || q.NaN? then Val(0.0) else p
  }

  /** Zeroes u and v in place wherever either is NaN; other pixels are untouched. The
      postcondition also holds when u and v are the same array. */
  method ZeroNaNs(u: array2<Num>, v: array2<Num>)
    requires u.Length0 == v.Length0 && u.Length1 == v.Length1
    modifies u, v
    ensures forall i, j | 0 <= i < u.Length0 && 0 <= j < u.Length1 ::
      u[i, j] == Cleaned(old(u[i, j]), old(v[i, j])) && v[i, j] == Cleaned(old(v[i, j]), old(u[i, j]))
  {
    for i := 0 to u.Length0
      invariant forall i', j | 0 <= i' < u.Length0 && 0 <= j < u.Length1 ::
        if i' < i then u[i', j] == Cleaned(old(u[i', j]), old(v[i', j])) && v[i', j] == Cleaned(old(v[i', j]), old(u[i', j]))
        else u[i', j] == old(u[i', j]) && v[i', j] == old(v[i', j])
    {
      for j := 0 to u.Length1
        invariant forall i', j' | 0 <= i' < u.Length0 && 0 <= j' < u.Length1 ::
          if i' < i || (i' == i && j' < j)
          then u[i', j'] == Cleaned(old(u[i', j']), old(v[i', j'])) && v[i', j'] == Cleaned(old(v[i', j']), old(u[i', j']))
          else u[i', j'] == old(u[i', j']) && v[i', j'] == old(v[i', j'])
      {
        if u[i, j].NaN? || v[i, j].NaN? {
          u[i, j] := Val(0.0);
          v[i, j] := Val(0.0);
        }
      }
    }
  }

  /** The palette as the (ncols, 3) array `makeColorwheel` returns. */
  predicate IsPalette(colorwheel: array2<int>)
    reads colorwheel
  {
    && colorwheel.Length0 == NCols && colorwheel.Length1 == 3
    && forall k, c | 0 <= k < NCols && 0 <= c < 3 :: colorwheel[k, c] == Wheel()[k].Channel(c)
  }

  /** `computeColor(u, v)`: zeroes NaNs in u and v in place, then writes palette
      channel c of every pixel to image channel 2 - c. */
  method ComputeColor(u: array2<Num>, v: array2<Num>, sqrt: real -> real, angle: (real, real) -> real)
    returns (img: array3<int>)
    requires u.Length0 == v.Length0 && u.Length1 == v.Length1
    requires IsSqrt(sqrt) && IsNormalisedAngle(angle)
    modifies u, v
    ensures forall i, j | 0 <= i < u.Length0 && 0 <= j < u.Length1 ::
      u[i, j] == Cleaned(old(u[i, j]), old(v[i, j])) && v[i, j] == Cleaned(old(v[i, j]), old(u[i, j]))
    ensures fresh(img) && img.Length0 == u.Length0 && img.Length1 == u.Length1 && img.Length2 == 3
    ensures forall i, j, c | 0 <= i < u.Length0 && 0 <= j < u.Length1 && 0 <= c < 3 ::
      u[i, j].Val? && v[i, j].Val? && img[i, j, 2 - c] == ColorAt(sqrt, angle, u[i, j].x, v[i, j].x, c)
  {
    var colorwheel := MakeColorwheel();
    ZeroNaNs(u, v);
    img := new int[u.Length0, u.Length1, 3];
    var ncolors := colorwheel.Length1;
    for c := 0 to ncolors
      modifies img
      invariant forall i, j, c' | 0 <= i < u.Length0 && 0 <= j < u.Length1 && 0 <= c' < c ::
        img[i, j, 2 - c'] == ColorAt(sqrt, angle, u[i, j].x, v[i, j].x, c')
    {
      PaintChannel(img, u, v, colorwheel, sqrt, angle, c);
    }
  }

  /** `img[:, :, 2 - c] = ...`: image channel 2 - c receives palette channel c of every
      pixel; the other two image channels keep their values. */
  method PaintChannel(img: array3<int>, u: array2<Num>, v: array2<Num>, colorwheel: array2<int>,
                      sqrt: real -> real, angle: (real, real) -> real, c: nat)
    requires img.Length0 == u.Length0 == v.Length0 && img.Length1 == u.Length1 == v.Length1
    requires img.Length2 == 3 && c < 3
    requires forall i, j | 0 <= i < u.Length0 && 0 <= j < u.Length1 :: u[i, j].Val? && v[i, j].Val?
    requires IsPalette(colorwheel) && IsSqrt(sqrt) && IsNormalisedAngle(angle)
    modifies img
    ensures forall i, j | 0 <= i < img.Length0 && 0 <= j < img.Length1 ::
      img[i, j, 2 - c] == ColorAt(sqrt, angle, u[i, j].x, v[i, j].x, c)
    ensures forall i, j, c' | 0 <= i < img.Length0 && 0 <= j < img.Length1 && 0 <= c' < 3 && c' != 2 - c ::
      img[i, j, c'] == old(img[i, j, c'])
  {
    for i := 0 to u.Length0
      invariant forall i', j | 0 <= i' < i && 0 <= j < img.Length1 ::
        img[i', j, 2 - c] == ColorAt(sqrt, angle, u[i', j].x, v[i', j].x, c)
      invariant forall i', j, c' | 0 <= i' < img.Length0 && 0 <= j < img.Length1 && 0 <= c' < 3
        && (c' != 2 - c || i' >= i) :: img[i', j, c'] == old(img[i', j, c'])
    {
      PaintRow(img, u, v, colorwheel, sqrt, angle, c, i);
    }
  }

  /** Row i of image channel 2 - c receives palette channel c; every other cell keeps
      its value. */
  method PaintRow(img: array3<int>, u: array2<Num>, v: array2<Num>, colorwheel: array2<int>,
                  sqrt: real -> real, angle: (real, real) -> real, c: nat, i: nat)
    requires img.Length0 == u.Length0 == v.Length0 && img.Length1 == u.Length1 == v.Length1
    requires img.Length2 == 3 && c < 3 && i < img.Length0
    requires forall j | 0 <= j < u.Length1 :: u[i, j].Val? && v[i, j].Val?
    requires IsPalette(colorwheel) && IsSqrt(sqrt) && IsNormalisedAngle(angle)
    modifies img
    ensures forall j | 0 <= j < img.Length1 :: img[i, j, 2 - c] == ColorAt(sqrt, angle, u[i, j].x, v[i, j].x, c)
    ensures forall i', j, c' | 0 <= i' < img.Length0 && 0 <= j < img.Length1 && 0 <= c' < 3
      && (i' != i || c' != 2 - c) :: img[i', j, c'] == old(img[i', j, c'])
  {
    var row := RowColors(u, v, colorwheel, sqrt, angle, c, i);
    WriteRow(img, row, i, 2 - c);
  }

  /** `img[i, :, k] = row`: every other cell keeps its value. */
  method WriteRow(img: array3<int>, row: seq<int>, i: nat, k: nat)
    requires i < img.Length0 && |row| == img.Length1 && k < img.Length2
    modifies img
    ensures forall j | 0 <= j < img.Length1 :: img[i, j, k] == row[j]
    ensures forall i', j, k' | 0 <= i' < img.Length0 && 0 <= j < img.Length1 && 0 <= k' < img.Length2
      && (i' != i || k' != k) :: img[i', j, k'] == old(img[i', j, k'])
  {
    for j := 0 to |row|
      invariant forall j' | 0 <= j' < j :: img[i, j', k] == row[j']
      invariant forall i', j', k' | 0 <= i' < img.Length0 && 0 <= j' < img.Length1 && 0 <= k' < img.Length2
        && (i' != i || k' != k || j' >= j) :: img[i', j', k'] == old(img[i', j', k'])
    {
      img[i, j, k] := row[j];
    }
  }

  /** Palette channel c of every pixel of row i. */
  method RowColors(u: array2<Num>, v: array2<Num>, colorwheel: array2<int>,
                   sqrt: real -> real, angle: (real, real) -> real, c: nat, i: nat) returns (row: seq<int>)
    requires u.Length0 == v.Length0 && u.Length1 == v.Length1 && c < 3 && i < u.Length0
    requires forall j | 0 <= j < u.Length1 :: u[i, j].Val? && v[i, j].Val?
    requires IsPalette(colorwheel) && IsSqrt(sqrt) && IsNormalisedAngle(angle)
    ensures |row| == u.Length1
    ensures forall j | 0 <= j < u.Length1 :: row[j] == ColorAt(sqrt, angle, u[i, j].x, v[i, j].x, c)
  {
    row := [];
    for j := 0 to u.Length1
      invariant |row| == j
      invariant forall j' | 0 <= j' < j :: row[j'] == ColorAt(sqrt, angle, u[i, j'].x, v[i, j'].x, c)
    {
      var b := PixelColor(colorwheel, sqrt, angle, u[i, j].x, v[i, j].x, c);
      row := row + [b];
    }
  }

  /** Channel c of one pixel, read from the palette array. */
  method PixelColor(colorwheel: array2<int>, sqrt: real -> real, angle: (real, real) -> real,
                    x: real, y: real, c: nat) returns (b: int)
    requires IsPalette(colorwheel) && c < 3
    requires IsSqrt(sqrt) && IsNormalisedAngle(angle)
    ensures b == ColorAt(sqrt, angle, x, y, c)
  {
    var radius := Radius(sqrt, x, y);
    var a := angle(-y, -x);
    var fk := FracIndex(a);
    var k0 := K0(fk);
    var k1 := K1(k0);
    var f := fk - k0 as real;
    WheelRange(k0);
    WheelRange(k1);
    var col0 := colorwheel[k0, c] as real / 255.0;
    var col1 := colorwheel[k1, c] as real / 255.0;
    var col := Interp(col0, col1, f);
    col := Saturate(radius, col);
    b := ToByte(col);
  }
}
