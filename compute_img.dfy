/** computeColor.computeImg: unknown flow is zeroed in place, the field is divided by
    its largest vector length (plus machine epsilon) and handed to computeColor. */
module ComputeImg {
  import opened ComputeColor

  /** `UNKNOWN_FLOW_THRESH = 1e9`. */
  const UnknownFlowThresh: real := 1000000000.0

  /** `sys.float_info.epsilon`, 2^-52. */
  const Eps: real := 1.0 / 4503599627370496.0

  /** `u > UNKNOWN_FLOW_THRESH`: false for NaN, as every comparison with NaN is. */
  predicate Unknown(p: Num)
    ensures Unknown(p) ==> p.Val? && p.x > 0.0
    ensures !p.Val? ==> !Unknown(p)
  {
    p.Val? && p.x > UnknownFlowThresh
  }

  /** Lines 147-152: a component after the fix-up, given the other component of its
      pixel. Both components are zeroed when either is unknown. */
  function Fixed(p: Num, q: Num): (r: Num)
    ensures !Unknown(r)
    ensures Unknown(p) || Unknown(q) ==> r == Val(0.0)
    ensures !Unknown(p) && !Unknown(q) ==> r == p
  {
    if Unknown(p) || Unknown(q) then Val(0.0) else p
  }

  /** A second fix-up changes nothing. */
  lemma FixedIdempotent(p: Num, q: Num)
    ensures Fixed(Fixed(p, q), Fixed(q, p)) == Fixed(p, q)
  {
  }

  /** Zeroes both components of every pixel where u or v exceeds the threshold; bands
      beyond the second and all other pixels are untouched. */
  method FixUnknownFlow(flow: array3<Num>)
    requires flow.Length2 >= 2
    modifies flow
    ensures forall i, j, k | 0 <= i < flow.Length0 && 0 <= j < flow.Length1 && 0 <= k < flow.Length2 ::
      flow[i, j, k] == if k < 2 then Fixed(old(flow[i, j, k]), old(flow[i, j, 1 - k])) else old(flow[i, j, k])
  {
    for i := 0 to flow.Length0
      invariant forall i', j, k | 0 <= i' < flow.Length0 && 0 <= j < flow.Length1 && 0 <= k < flow.Length2 ::
        flow[i', j, k] == if k < 2 && i' < i then Fixed(old(flow[i', j, k]), old(flow[i', j, 1 - k]))
                          else old(flow[i', j, k])
    {
      for j := 0 to flow.Length1
        invariant forall i', j', k | 0 <= i' < flow.Length0 && 0 <= j' < flow.Length1 && 0 <= k < flow.Length2 ::
          flow[i', j', k] == if k < 2 && (i' < i || (i' == i && j' < j))
                             then Fixed(old(flow[i', j', k]), old(flow[i', j', 1 - k]))
                             else old(flow[i', j', k])
      {
        if Unknown(flow[i, j, 0]) || Unknown(flow[i, j, 1]) {
          flow[i, j, 0] := Val(0.0);
          flow[i, j, 1] := Val(0.0);
        }
      }
    }
  }

  /** `np.sqrt(u * u + v * v)` at one pixel: NaN when either component is. */
  function RadiusOf(sqrt: real -> real, p: Num, q: Num): (r: Num)
    requires IsSqrt(sqrt)
    ensures r.NaN? <==> p.NaN? || q.NaN?
    ensures r.Val? ==> 0.0 <= r.x
  {
    if p.NaN? || q.NaN? then NaN else Val(Radius(sqrt, p.x, q.x))
  }

  /** The radius of pixel (i, j) of the flow. */
  function RadiusAt(flow: array3<Num>, sqrt: real -> real, i: nat, j: nat): Num
    requires IsSqrt(sqrt) && i < flow.Length0 && j < flow.Length1 && 2 <= flow.Length2
    reads flow
  {
    RadiusOf(sqrt, flow[i, j, 0], flow[i, j, 1])
  }

  /** The larger of two values as `np.amax` combines them: NaN wins. */
  function NanMax(a: Num, b: Num): (m: Num)
    ensures m.NaN? <==> a.NaN? || b.NaN?
    ensures m.Val? ==> a.x <= m.x && b.x <= m.x && (m == a || m == b)
  {
    if a.NaN? || b.NaN? then NaN else if a.x >= b.x then a else b
  }

  /** `max([first, m])`: Python keeps the first item unless a later one compares
      greater, and NaN compares greater than nothing. */
  function PyMax(first: real, m: Num): (r: real)
    ensures m.Val? && m.x > first ==> r == m.x
    ensures m.NaN? || m.x <= first ==> r == first
  {
    if m.Val? && m.x > first then m.x else first
  }

  /** Pixel (i', j') comes before (i, j) in row-major order. */
  predicate Before(i': nat, j': nat, i: nat, j: nat)
  {
    i' < i || (i' == i && j' < j)
  }

  /** `np.amax(rad)`: NaN when some pixel's radius is NaN, otherwise the largest
      radius, which some pixel attains. */
  method MaxRadius(flow: array3<Num>, sqrt: real -> real) returns (amax: Num)
    requires IsSqrt(sqrt) && flow.Length2 >= 2 && flow.Length0 > 0 && flow.Length1 > 0
    ensures amax.NaN? <==>
      exists i, j | 0 <= i < flow.Length0 && 0 <= j < flow.Length1 :: RadiusAt(flow, sqrt, i, j).NaN?
    ensures amax.Val? ==> forall i, j | 0 <= i < flow.Length0 && 0 <= j < flow.Length1 ::
      RadiusAt(flow, sqrt, i, j).Val? && RadiusAt(flow, sqrt, i, j).x <= amax.x
    ensures amax.Val? ==>
      exists i, j | 0 <= i < flow.Length0 && 0 <= j < flow.Length1 :: RadiusAt(flow, sqrt, i, j) == amax
  {
    amax := RadiusAt(flow, sqrt, 0, 0);
    ghost var wi, wj := 0, 0;
    for i := 0 to flow.Length0
      invariant amax.NaN? <==> (RadiusAt(flow, sqrt, 0, 0).NaN? ||
        exists i', j' | 0 <= i' < i && 0 <= j' < flow.Length1 :: RadiusAt(flow, sqrt, i', j').NaN?)
      invariant amax.Val? ==> RadiusAt(flow, sqrt, 0, 0).x <= amax.x
      invariant amax.Val? ==> forall i', j' | 0 <= i' < i && 0 <= j' < flow.Length1 ::
        RadiusAt(flow, sqrt, i', j').Val? && RadiusAt(flow, sqrt, i', j').x <= amax.x
      invariant 0 <= wi < flow.Length0 && 0 <= wj < flow.Length1
      invariant amax.Val? ==> RadiusAt(flow, sqrt, wi, wj) == amax
    {
      for j := 0 to flow.Length1
        invariant amax.NaN? <==> (RadiusAt(flow, sqrt, 0, 0).NaN? ||
          exists i', j' | 0 <= i' < flow.Length0 && 0 <= j' < flow.Length1 && Before(i', j', i, j) ::
            RadiusAt(flow, sqrt, i', j').NaN?)
        invariant amax.Val? ==> RadiusAt(flow, sqrt, 0, 0).x <= amax.x
        invariant amax.Val? ==> forall i', j' | 0 <= i' < flow.Length0 && 0 <= j' < flow.Length1 && Before(i', j', i, j) ::
          RadiusAt(flow, sqrt, i', j').Val? && RadiusAt(flow, sqrt, i', j').x <= amax.x
        invariant 0 <= wi < flow.Length0 && 0 <= wj < flow.Length1
        invariant amax.Val? ==> RadiusAt(flow, sqrt, wi, wj) == amax
      {
        var rad := RadiusAt(flow, sqrt, i, j);
        var next := NanMax(amax, rad);
        if next.Val? && next == rad {
          wi, wj := i, j;
        }
        amax := next;
      }
    }
  }

  /** What `maxrad = max(-1, np.amax(rad))` holds: -1 exactly when some radius is NaN,
      otherwise the largest radius of the field, which some pixel attains. */
  ghost predicate IsMaxRadius(flow: array3<Num>, sqrt: real -> real, m: real)
    requires IsSqrt(sqrt) && flow.Length2 >= 2
    reads flow
  {
    && (m == -1.0 <==>
          exists i, j | 0 <= i < flow.Length0 && 0 <= j < flow.Length1 :: RadiusAt(flow, sqrt, i, j).NaN?)
    && (m != -1.0 ==>
          && 0.0 <= m
          && (forall i, j | 0 <= i < flow.Length0 && 0 <= j < flow.Length1 ::
                RadiusAt(flow, sqrt, i, j).Val? && RadiusAt(flow, sqrt, i, j).x <= m)
          && (exists i, j | 0 <= i < flow.Length0 && 0 <= j < flow.Length1 :: RadiusAt(flow, sqrt, i, j) == Val(m)))
  }

  /** `maxrad = max(-1, np.amax(rad))` on a non-empty field. */
  method MaxRadiusValue(flow: array3<Num>, sqrt: real -> real) returns (maxrad: real)
    requires IsSqrt(sqrt) && flow.Length2 >= 2 && flow.Length0 > 0 && flow.Length1 > 0
    ensures IsMaxRadius(flow, sqrt, maxrad)
  {
    var amax := MaxRadius(flow, sqrt);
    maxrad := PyMax(-1.0, amax);
    if amax.Val? {
      ghost var wi, wj :| 0 <= wi < flow.Length0 && 0 <= wj < flow.Length1 && RadiusAt(flow, sqrt, wi, wj) == amax;
      assert maxrad == amax.x >= 0.0;
    }
  }

  /** `u / (maxrad + eps)`: NaN stays NaN. */
  function Divide(p: Num, d: real): (r: Num)
    requires d != 0.0
    ensures r.NaN? <==> p.NaN?
    ensures p.Val? ==> Times(r.x, d) == p.x
  {
    if p.NaN? then NaN else QuotientTimes(p.x, d); Val(p.x / d)
  }

  lemma QuotientTimes(x: real, d: real)
    requires d != 0.0
    ensures Times(x / d, d) == x
  {
    assert Times(x / d, d) == (x / d) * d;
  }

  /** Band k of the flow divided by d, as a new array. */
  method Divided(flow: array3<Num>, k: nat, d: real) returns (out: array2<Num>)
    requires k < flow.Length2 && d != 0.0
    ensures fresh(out) && out.Length0 == flow.Length0 && out.Length1 == flow.Length1
    ensures forall i, j | 0 <= i < flow.Length0 && 0 <= j < flow.Length1 :: out[i, j] == Divide(flow[i, j, k], d)
  {
    out := new Num[flow.Length0, flow.Length1];
    for i := 0 to flow.Length0
      invariant forall i', j | 0 <= i' < i && 0 <= j < flow.Length1 :: out[i', j] == Divide(flow[i', j, k], d)
    {
      for j := 0 to flow.Length1
        invariant forall i', j' | 0 <= i' < flow.Length0 && 0 <= j' < flow.Length1 && Before(i', j', i, j) ::
          out[i', j'] == Divide(flow[i', j', k], d)
      {
        out[i, j] := Divide(flow[i, j, k], d);
      }
    }
  }

  /** Image channel 2 - c of a pixel whose flow components are p and q, once the field
      is divided by d: NaN components are zeroed first, as computeColor does. */
  function PixelOf(sqrt: real -> real, angle: (real, real) -> real, p: Num, q: Num, d: real, c: nat): (b: int)
    requires IsSqrt(sqrt) && IsNormalisedAngle(angle) && d != 0.0 && c < 3
    ensures 0 <= b <= 255
  {
    var u := Divide(p, d);
    var v := Divide(q, d);
    ColorAt(sqrt, angle, Cleaned(u, v).x, Cleaned(v, u).x, c)
  }

  /** `computeColor(u / (maxrad + eps), v / (maxrad + eps))` for the fixed-up field:
      both bands divided by d, then coloured. The flow itself is left as it is. */
  method Render(flow: array3<Num>, sqrt: real -> real, angle: (real, real) -> real, d: real)
    returns (img: array3<int>)
    requires flow.Length2 >= 2 && d != 0.0
    requires IsSqrt(sqrt) && IsNormalisedAngle(angle)
    ensures fresh(img) && img.Length0 == flow.Length0 && img.Length1 == flow.Length1 && img.Length2 == 3
    ensures forall i, j, k | 0 <= i < flow.Length0 && 0 <= j < flow.Length1 && 0 <= k < 3 ::
      img[i, j, k] == PixelOf(sqrt, angle, flow[i, j, 0], flow[i, j, 1], d, 2 - k)
  {
    var u := Divided(flow, 0, d);
    var v := Divided(flow, 1, d);
    label Divided:
    img := ComputeColor.ComputeColor(u, v, sqrt, angle);
    forall i, j, k | 0 <= i < flow.Length0 && 0 <= j < flow.Length1 && 0 <= k < 3
      ensures img[i, j, k] == PixelOf(sqrt, angle, flow[i, j, 0], flow[i, j, 1], d, 2 - k)
    {
      assert old@Divided(u[i, j]) == Divide(flow[i, j, 0], d);
      assert old@Divided(v[i, j]) == Divide(flow[i, j, 1], d);
      assert img[i, j, 2 - (2 - k)] == ColorAt(sqrt, angle, u[i, j].x, v[i, j].x, 2 - k);
    }
  }

  datatype ImgError = MissingBand | EmptyFlow

  /** The image `computeImg` returns together with the maximum radius it prints, or the
      exception it raises. */
  datatype Outcome = Image(pixels: array3<int>, maxRadius: real) | Failed(error: ImgError)

  /** `computeImg(flow)`. `flow[:, :, 1]` raises IndexError when the flow has fewer
      than two bands; `np.amax` raises ValueError on an empty field. */
  method ComputeImg(flow: array3<Num>, sqrt: real -> real, angle: (real, real) -> real) returns (r: Outcome)
    requires IsSqrt(sqrt) && IsNormalisedAngle(angle)
    modifies flow
    ensures flow.Length2 < 2 ==> r == Failed(MissingBand) && unchanged(flow)
    ensures flow.Length2 >= 2 ==>
      forall i, j, k | 0 <= i < flow.Length0 && 0 <= j < flow.Length1 && 0 <= k < flow.Length2 ::
        flow[i, j, k] == if k < 2 then Fixed(old(flow[i, j, k]), old(flow[i, j, 1 - k])) else old(flow[i, j, k])
    ensures flow.Length2 >= 2 && (flow.Length0 == 0 || flow.Length1 == 0) ==> r == Failed(EmptyFlow)
    ensures flow.Length2 >= 2 && flow.Length0 > 0 && flow.Length1 > 0 ==> r.Image?
    ensures r.Image? ==>
      && flow.Length2 >= 2 && fresh(r.pixels)
      && r.pixels.Length0 == flow.Length0 && r.pixels.Length1 == flow.Length1 && r.pixels.Length2 == 3
    ensures r.Image? ==> IsMaxRadius(flow, sqrt, r.maxRadius)
    ensures r.Image? ==> forall i, j, k | 0 <= i < flow.Length0 && 0 <= j < flow.Length1 && 0 <= k < 3 ::
      r.pixels[i, j, k] == PixelOf(sqrt, angle, flow[i, j, 0], flow[i, j, 1], r.maxRadius + Eps, 2 - k)
  {
    if flow.Length2 < 2 {
      return Failed(MissingBand);
    }
    FixUnknownFlow(flow);
    if flow.Length0 == 0 || flow.Length1 == 0 {
      return Failed(EmptyFlow);
    }
    var maxrad := MaxRadiusValue(flow, sqrt);
    var img := Render(flow, sqrt, angle, maxrad + Eps);
    return Image(img, maxrad);
  }

  // ------------------------------------------------------------------- properties

  lemma SquareOfProduct(a: real, b: real)
    ensures Times(Times(a, b), Times(a, b)) == Times(Times(a, a), Times(b, b))
  {
    assert Times(Times(a, b), Times(a, b)) == (a * b) * (a * b);
    assert Times(Times(a, a), Times(b, b)) == (a * a) * (b * b);
  }

  lemma TimesAddLeft(a: real, b: real, c: real)
    ensures Times(a + b, c) == Times(a, c) + Times(b, c)
  {
  }

  /** A value that multiplies a positive D to less than D is below 1. */
  lemma BelowOne(s: real, dd: real)
    requires 0.0 < dd && Times(s, dd) < dd
    ensures s < 1.0
  {
    if s >= 1.0 {
      TimesMonotone(1.0, s, dd);
      TimesOne(dd);
    }
  }

  lemma TimesComm(a: real, b: real)
    ensures Times(a, b) == Times(b, a)
  {
  }

  lemma TimesStrict(r1: real, r2: real, d: real)
    requires r1 < r2 && 0.0 < d
    ensures Times(r1, d) < Times(r2, d)
  {
    assert Times(r2, d) - Times(r1, d) == Times(r2 - r1, d);
    PositiveTimes(r2 - r1, d);
  }

  lemma SquareBelow(r: real, d: real)
    requires 0.0 <= r < d
    ensures Times(r, r) < Times(d, d)
  {
    TimesMonotone(r, d, r);
    TimesComm(d, r);
    TimesStrict(r, d, d);
  }

  lemma SquareAtLeastOne(q: real)
    requires 1.0 <= q
    ensures 1.0 <= Times(q, q)
  {
    TimesMonotone(1.0, q, q);
    TimesOne(q);
  }

  lemma RootBelowOne(q: real)
    requires 0.0 <= q && Times(q, q) < 1.0
    ensures q < 1.0
  {
    if q >= 1.0 {
      SquareAtLeastOne(q);
    }
  }

  /** Dividing by the largest radius plus epsilon puts every vector strictly inside the
      unit circle. */
  lemma NormalisedInside(sqrt: real -> real, x: real, y: real, m: real)
    requires IsSqrt(sqrt) && Radius(sqrt, x, y) <= m
    ensures var d := m + Eps; d > 0.0 && Radius(sqrt, x / d, y / d) < 1.0
  {
    var d := m + Eps;
    var r := Radius(sqrt, x, y);
    var qx, qy := x / d, y / d;
    QuotientTimes(x, d);
    QuotientTimes(y, d);
    SquareOfProduct(qx, d);
    SquareOfProduct(qy, d);
    TimesAddLeft(Times(qx, qx), Times(qy, qy), Times(d, d));
    SquareBelow(r, d);
    Square(r);
    PositiveTimes(d, d);
    var r' := Radius(sqrt, qx, qy);
    BelowOne(Times(r', r'), Times(d, d));
    RootBelowOne(r');
  }

  /** In a field without NaN, no pixel is dimmed: each is at least as bright as the
      palette blend at its angle. */
  lemma NormalisedPixelNotDimmed(sqrt: real -> real, angle: (real, real) -> real, x: real, y: real, m: real, c: nat)
    requires IsSqrt(sqrt) && IsNormalisedAngle(angle) && c < 3 && Radius(sqrt, x, y) <= m
    ensures var d := m + Eps;
      d != 0.0 && ToByte(Blend(angle(-(y / d), -(x / d)), c)) <= PixelOf(sqrt, angle, Val(x), Val(y), d, c)
  {
    var d := m + Eps;
    NormalisedInside(sqrt, x, y, m);
    PixelInside(Radius(sqrt, x / d, y / d), angle(-(y / d), -(x / d)), c);
  }

  /** A pixel with a NaN component is drawn white. */
  lemma NaNPixelIsWhite(sqrt: real -> real, angle: (real, real) -> real, p: Num, q: Num, d: real, c: nat)
    requires IsSqrt(sqrt) && IsNormalisedAngle(angle) && d != 0.0 && c < 3
    requires p.NaN? || q.NaN?
    ensures PixelOf(sqrt, angle, p, q, d, c) == 255
  {
    ZeroFlowIsWhite(sqrt, angle, c);
  }

  /** A pixel zeroed as unknown flow is drawn white. */
  lemma UnknownPixelIsWhite(sqrt: real -> real, angle: (real, real) -> real, p: Num, q: Num, d: real, c: nat)
    requires IsSqrt(sqrt) && IsNormalisedAngle(angle) && d != 0.0 && c < 3
    requires Unknown(p) || Unknown(q)
    ensures PixelOf(sqrt, angle, Fixed(p, q), Fixed(q, p), d, c) == 255
  {
    assert Divide(Val(0.0), d) == Val(0.0);
    ZeroFlowIsWhite(sqrt, angle, c);
  }

  /** When some radius is NaN the maximum radius stays at -1, so every vector is
      divided by eps - 1: reversed and slightly lengthened instead of normalised. */
  lemma NaNReversesFlow(x: real)
    ensures Divide(Val(x), -1.0 + Eps).x == -(x / (1.0 - Eps))
    ensures x > 0.0 ==> Divide(Val(x), -1.0 + Eps).x < -x
    ensures x < 0.0 ==> Divide(Val(x), -1.0 + Eps).x > -x
  {
  }
}
