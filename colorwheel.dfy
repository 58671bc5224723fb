/** computeColor.makeColorwheel: a 55 x 3 palette of hues around the colour circle,
    built from six arcs (red-yellow, yellow-green, green-cyan, cyan-blue, blue-magenta,
    magenta-red). In each arc one channel is held at 255 and one ramps with
    floor(255 * i / n). */
module Colorwheel {

  const RY: nat := 15
  const YG: nat := 6
  const GC: nat := 4
  const CB: nat := 11
  const BM: nat := 13
  const MR: nat := 6
  const NCols: nat := RY + YG + GC + CB + BM + MR

  datatype Rgb = Rgb(r: int, g: int, b: int)
  {
    /** Column `i` of a palette row: 0 is red, 1 green, 2 blue. */
    function Channel(i: nat): int
      requires i < 3
    {
      if i == 0 then r else if i == 1 then g else b
    }
  }

  /** `np.floor(255 * i / n)` for `i` in `np.arange(0, n)`. */
  function Ramp(i: nat, n: nat): int
    requires i < n
  {
    255 * i / n
  }

  /** Palette row k, arc by arc. */
  function Entry(k: nat): (e: Rgb)
    requires k < NCols
    ensures e.r == 255 || e.g == 255 || e.b == 255
    ensures e.r == 0 || e.g == 0 || e.b == 0
  {
    if k < RY then Rgb(255, Ramp(k, RY), 0)
    else if k < RY + YG then Rgb(255 - Ramp(k - RY, YG), 255, 0)
    else if k < RY + YG + GC then Rgb(0, 255, Ramp(k - (RY + YG), GC))
    else if k < RY + YG + GC + CB then Rgb(0, 255 - Ramp(k - (RY + YG + GC), CB), 255)
    else if k < RY + YG + GC + CB + BM then Rgb(Ramp(k - (RY + YG + GC + CB), BM), 0, 255)
    else Rgb(255, 0, 255 - Ramp(k - (RY + YG + GC + CB + BM), MR))
  }

  /** The palette `makeColorwheel` returns, as a sequence of rows. */
  function Wheel(): (w: seq<Rgb>)
    ensures |w| == NCols
  {
    seq(NCols, k requires 0 <= k < NCols => Entry(k))
  }

  /** `np.full(n, 255)`. */
  function Full(n: nat): (s: seq<int>)
    ensures |s| == n && forall i :: 0 <= i < n ==> s[i] == 255
  {
    seq(n, _ => 255)
  }

  /** `np.floor(255 * np.arange(0, n, 1) / n)`. */
  function Rising(n: nat): (s: seq<int>)
    ensures |s| == n && forall i :: 0 <= i < n ==> s[i] == Ramp(i, n)
  {
    seq(n, i requires 0 <= i < n => Ramp(i, n))
  }

  /** `255 - np.floor(255 * np.arange(0, n, 1) / n)`. */
  function Falling(n: nat): (s: seq<int>)
    ensures |s| == n && forall i :: 0 <= i < n ==> s[i] == 255 - Ramp(i, n)
  {
    seq(n, i requires 0 <= i < n => 255 - Ramp(i, n))
  }

  /** `wheel[lo:lo + |values|, ch] = values`: one column slice is overwritten, every
      other cell keeps its value. */
  method AssignSlice(wheel: array2<int>, lo: nat, ch: nat, values: seq<int>)
    requires lo + |values| <= wheel.Length0 && ch < wheel.Length1
    modifies wheel
    ensures forall k, c | 0 <= k < wheel.Length0 && 0 <= c < wheel.Length1 ::
      wheel[k, c] == if c == ch && lo <= k < lo + |values| then values[k - lo] else old(wheel[k, c])
  {
    var i := 0;
    while i < |values|
      invariant 0 <= i <= |values|
      invariant forall k, c | 0 <= k < wheel.Length0 && 0 <= c < wheel.Length1 ::
        wheel[k, c] == if c == ch && lo <= k < lo + i then values[k - lo] else old(wheel[k, c])
    {
      wheel[lo + i, ch] := values[i];
      i := i + 1;
    }
  }

  /** Rows before `col` hold their palette entries; the rest are still zero. */
  predicate Built(wheel: array2<int>, col: nat)
    requires wheel.Length0 == NCols && wheel.Length1 == 3
    reads wheel
  {
    forall k, c | 0 <= k < NCols && 0 <= c < 3 ::
      wheel[k, c] == if k < col then Entry(k).Channel(c) else 0
  }

  /** Builds the palette in a zeroed (ncols, 3) array, arc by arc, advancing `col`. */
  method MakeColorwheel() returns (wheel: array2<int>)
    ensures fresh(wheel) && wheel.Length0 == NCols && wheel.Length1 == 3
    ensures forall k, c | 0 <= k < NCols && 0 <= c < 3 :: wheel[k, c] == Wheel()[k].Channel(c)
  {
    var ncols := RY + YG + GC + CB + BM + MR;
    wheel := new int[ncols, 3]((_, _) => 0);
    assert Built(wheel, 0);

    var col := 0;
    FillArc(wheel, col, 0, Full(RY), 1, Rising(RY));
    col := col + RY;
    FillArc(wheel, col, 0, Falling(YG), 1, Full(YG));
    col := col + YG;
    FillArc(wheel, col, 1, Full(GC), 2, Rising(GC));
    col := col + GC;
    FillArc(wheel, col, 1, Falling(CB), 2, Full(CB));
    col := col + CB;
    FillArc(wheel, col, 2, Full(BM), 0, Rising(BM));
    col := col + BM;
    FillArc(wheel, col, 2, Falling(MR), 0, Full(MR));
  }

  /** One arc: `colorwheel[col:col + n, ch] = first` then `colorwheel[col:col + n, ch'] =
      second`, where the two slices are the arc's entries in those channels and the
      third channel of the arc is zero in the palette, as the zeroed array already is. */
  method FillArc(wheel: array2<int>, col: nat, ch: nat, first: seq<int>, ch': nat, second: seq<int>)
    requires wheel.Length0 == NCols && wheel.Length1 == 3 && Built(wheel, col)
    requires ch < 3 && ch' < 3 && ch != ch' && |first| == |second| && col + |first| <= NCols
    requires forall k | col <= k < col + |first| ::
      && Entry(k).Channel(ch) == first[k - col]
      && Entry(k).Channel(ch') == second[k - col]
      && Entry(k).Channel(3 - ch - ch') == 0
    modifies wheel
    ensures Built(wheel, col + |first|)
  {
    AssignSlice(wheel, col, ch, first);
    AssignSlice(wheel, col, ch', second);
  }

  /** First row and length of the arc holding row k. */
  function Arc(k: nat): (a: (nat, nat))
    requires k < NCols
    ensures a.0 <= k < a.0 + a.1 <= NCols
    ensures a.1 == RY || a.1 == YG || a.1 == GC || a.1 == CB || a.1 == BM || a.1 == MR
    ensures a in {(0, RY), (RY, YG), (RY + YG, GC), (RY + YG + GC, CB),
                  (RY + YG + GC + CB, BM), (RY + YG + GC + CB + BM, MR)}
  {
    if k < RY then (0, RY)
    else if k < RY + YG then (RY, YG)
    else if k < RY + YG + GC then (RY + YG, GC)
    else if k < RY + YG + GC + CB then (RY + YG + GC, CB)
    else if k < RY + YG + GC + CB + BM then (RY + YG + GC + CB, BM)
    else (RY + YG + GC + CB + BM, MR)
  }

  /** A ramp starts at 0, never decreases and stays below 255. */
  lemma RampProperties(i: nat, j: nat, n: nat)
    requires i <= j < n
    requires n == RY || n == YG || n == GC || n == CB || n == BM || n == MR
    ensures Ramp(0, n) == 0
    ensures 0 <= Ramp(i, n) <= Ramp(j, n) < 255
  {
    // each case divides by a numeral, which keeps the arithmetic linear
    if n == RY {
      assert 0 <= Ramp(i, RY) <= Ramp(j, RY) < 255;
    } else if n == YG {
      assert 0 <= Ramp(i, YG) <= Ramp(j, YG) < 255;
    } else if n == GC {
      assert 0 <= Ramp(i, GC) <= Ramp(j, GC) < 255;
    } else if n == CB {
      assert 0 <= Ramp(i, CB) <= Ramp(j, CB) < 255;
    } else {
      // MR == YG, so only BM is left
      assert 0 <= Ramp(i, BM) <= Ramp(j, BM) < 255;
    }
  }

  /** Consecutive ramp values differ by at most 64. */
  lemma RampStep(i: nat, n: nat)
    requires i + 1 < n
    requires n == RY || n == YG || n == GC || n == CB || n == BM || n == MR
    ensures Ramp(i + 1, n) - Ramp(i, n) <= 64
  {
    if n == RY {
      assert Ramp(i + 1, RY) - Ramp(i, RY) <= 64;
    } else if n == YG {
      assert Ramp(i + 1, YG) - Ramp(i, YG) <= 64;
    } else if n == GC {
      assert Ramp(i + 1, GC) - Ramp(i, GC) <= 64;
    } else if n == CB {
      assert Ramp(i + 1, CB) - Ramp(i, CB) <= 64;
    } else {
      assert Ramp(i + 1, BM) - Ramp(i, BM) <= 64;
    }
  }

  /** Every palette component lies in [0, 255]; each row is a fully saturated hue,
      with one channel at 255 and one at 0. */
  lemma WheelRange(k: nat)
    requires k < NCols
    ensures forall c | 0 <= c < 3 :: 0 <= Wheel()[k].Channel(c) <= 255
    ensures var e := Wheel()[k];
      && (e.r == 255 || e.g == 255 || e.b == 255)
      && (e.r == 0 || e.g == 0 || e.b == 0)
  {
    var (off, n) := Arc(k);
    RampProperties(k - off, k - off, n);
  }

  /** The palette's first rows: pure red, then red with green rising by 255/15 a row. */
  lemma WheelStart()
    ensures Wheel()[0] == Rgb(255, 0, 0)
    ensures Wheel()[1] == Rgb(255, 17, 0)
    ensures Wheel()[14] == Rgb(255, 238, 0)
    ensures Wheel()[15] == Rgb(255, 255, 0)
  {
  }

  /** Within each arc the ramping channel is monotone: rising for red-yellow,
      green-cyan and blue-magenta, falling for yellow-green, cyan-blue and
      magenta-red. */
  lemma WheelMonotone(k: nat, k': nat)
    requires k <= k' < NCols
    ensures k' < RY ==> Wheel()[k].g <= Wheel()[k'].g
    ensures RY <= k && k' < RY + YG ==> Wheel()[k].r >= Wheel()[k'].r
    ensures RY + YG <= k && k' < RY + YG + GC ==> Wheel()[k].b <= Wheel()[k'].b
    ensures RY + YG + GC <= k && k' < RY + YG + GC + CB ==> Wheel()[k].g >= Wheel()[k'].g
    ensures RY + YG + GC + CB <= k && k' < RY + YG + GC + CB + BM ==> Wheel()[k].r <= Wheel()[k'].r
    ensures RY + YG + GC + CB + BM <= k ==> Wheel()[k].b >= Wheel()[k'].b
  {
    var (off, n) := Arc(k);
    if k' < off + n {
      RampProperties(k - off, k' - off, n);
    }
  }

  /** Neighbouring rows, including the last and the first, differ by at most 64 in
      every channel: the palette closes into a circle without jumps. */
  lemma WheelSmooth(k: nat, c: nat)
    requires k < NCols && c < 3
    ensures -64 <= Wheel()[k].Channel(c) - Wheel()[(k + 1) % NCols].Channel(c) <= 64
  {
    var (off, n) := Arc(k);
    if k + 1 < off + n {
      assert (k + 1) % NCols == k + 1;
      EntryStepInArc(k, off, n);
      assert Wheel()[k] == Entry(k) && Wheel()[k + 1] == Entry(k + 1);
    } else {
      ArcBoundary(k);
    }
  }

  /** The last row of each arc and the first row of the next one, cyclically. */
  lemma ArcBoundary(k: nat)
    requires k == 14 || k == 20 || k == 24 || k == 35 || k == 48 || k == 54
    ensures forall c | 0 <= c < 3 ::
      -64 <= Wheel()[k].Channel(c) - Wheel()[(k + 1) % NCols].Channel(c) <= 64
  {
    if k == 14 {
      assert Wheel()[14] == Rgb(255, 238, 0) && Wheel()[15] == Rgb(255, 255, 0);
    } else if k == 20 {
      assert Wheel()[20] == Rgb(43, 255, 0) && Wheel()[21] == Rgb(0, 255, 0);
    } else if k == 24 {
      assert Wheel()[24] == Rgb(0, 255, 191) && Wheel()[25] == Rgb(0, 255, 255);
    } else if k == 35 {
      assert Wheel()[35] == Rgb(0, 24, 255) && Wheel()[36] == Rgb(0, 0, 255);
    } else if k == 48 {
      assert Wheel()[48] == Rgb(235, 0, 255) && Wheel()[49] == Rgb(255, 0, 255);
    } else {
      assert Wheel()[54] == Rgb(255, 0, 43) && Wheel()[0] == Rgb(255, 0, 0);
    }
  }

  /** Within an arc the two changing channels move by one ramp step. */
  lemma EntryStepInArc(k: nat, off: nat, n: nat)
    requires k < NCols && (off, n) == Arc(k) && k + 1 < off + n
    ensures forall c | 0 <= c < 3 :: -64 <= Entry(k).Channel(c) - Entry(k + 1).Channel(c) <= 64
  {
    RampStep(k - off, n);
    RampProperties(k - off, k + 1 - off, n);
  }
}
