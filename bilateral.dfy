/** The bilateral filter: its parameters, its two weight tables, the per-pixel kernel, the traversal of a
    channel and the replacement of the selected channels of a frame. */
module Bilateral {
  import opened Pixels
  import opened Interleaving
  import opened Lattice
  import opened Frames

  /** The filter's parameters: a window diameter hint and the widths of the two Gaussians. Single-precision
      values are modelled as reals. */
  datatype BilateralFilter = BilateralFilter(d: i32, sigmaColor: real, sigmaSpace: real)

  /** The floating-point routines the weights are built from, left uninterpreted: `exp`, and the value
      `-0.5 / (sigma * sigma)` takes in single precision when `sigma` is zero (negative infinity). */
  datatype FloatOps = FloatOps(exp: real -> real, coeffAtZero: real)

  const Name: string := "Bilateral Filter"

  /** The element kinds the filter accepts. */
  function SupportedTypes(): (ts: seq<BitType>)
    ensures |ts| == 2 && U8 in ts && U16 in ts && F32 !in ts
  {
    [U8, U16]
  }

  /** `-0.5 / (sigma * sigma)`, the exponent factor of a Gaussian of width `sigma`. */
  function GaussCoeff(ops: FloatOps, sigma: real): (g: real)
    ensures sigma != 0.0 ==> g < 0.0
  {
    if sigma == 0.0 then ops.coeffAtZero else -0.5 / (sigma * sigma)
  }

  /** A non-positive spatial width is replaced by 1. */
  function ClampSigma(s: real): (c: real)
    ensures c > 0.0
    ensures s > 0.0 ==> c == s
  {
    if s <= 0.0 then 1.0 else s
  }

  /** `f32::round`: the nearest integer; a tie goes up for positive values and down for negative ones. */
  function RoundHalfAway(x: real): (n: int)
    ensures x >= 0.0 ==> n as real - 0.5 <= x < n as real + 0.5
    ensures x < 0.0 ==> n as real - 0.5 < x <= n as real + 0.5
  {
    if x >= 0.0 then (x + 0.5).Floor else -((-x + 0.5).Floor)
  }

  /** A float-to-`i32` cast, which saturates: a value in range is kept, any other becomes the bound on its side. */
  function SaturateI32(x: int): (n: i32)
    ensures n == x <==> -0x8000_0000 <= x <= 0x7FFF_FFFF
    ensures x < n ==> n == -0x8000_0000
    ensures x > n ==> n == 0x7FFF_FFFF
  {
    if x < -0x8000_0000 then -0x8000_0000 else if x > 0x7FFF_FFFF then 0x7FFF_FFFF else x
  }

  /** The radius of the window: half the diameter hint, rounded down, or, without a positive hint, one and a
      half times the (clamped) spatial width, rounded. */
  function Radius(f: BilateralFilter): (r: nat)
    ensures f.d > 0 ==> 2 * r <= f.d <= 2 * r + 1
    ensures f.d <= 0 ==> r == SaturateI32(RoundHalfAway(ClampSigma(f.sigmaSpace) * 1.5))
  {
    if f.d <= 0 then SaturateI32(RoundHalfAway(ClampSigma(f.sigmaSpace) * 1.5)) else f.d / 2
  }

  /** Without a positive diameter hint and with a non-positive spatial width, the radius is two. */
  lemma DefaultRadius(f: BilateralFilter)
    requires f.d <= 0 && f.sigmaSpace <= 0.0
    ensures Radius(f) == 2
  {
  }

  /** The exponent of a Gaussian weight: a squared distance times the Gaussian's coefficient. */
  function Exponent(dist2: int, g: real): real
  {
    dist2 as real * g
  }

  /** Colour weight of an intensity difference `c`: `exp(c * c * gauss_color_coeff)`. */
  function ColorWeight(ops: FloatOps, f: BilateralFilter, c: nat): (wt: real)
    ensures wt == ops.exp(Exponent(c * c, GaussCoeff(ops, f.sigmaColor)))
  {
    SqIsProduct(c);
    ops.exp(Exponent(Sq(c), GaussCoeff(ops, f.sigmaColor)))
  }

  /** Space weight of an offset: `exp(r * r * gauss_space_coeff)` for its distance `r` from the centre. Its
      Gaussian uses the spatial width as given, not the clamped one. */
  function SpaceWeight(ops: FloatOps, f: BilateralFilter, p: Offset): (wt: real)
    ensures wt == ops.exp(Exponent(p.di * p.di + p.dj * p.dj, GaussCoeff(ops, f.sigmaSpace)))
  {
    Dist2IsSumOfSquares(p.di, p.dj);
    ops.exp(Exponent(Dist2(p.di, p.dj), GaussCoeff(ops, f.sigmaSpace)))
  }

  /** The colour table: one weight per intensity difference below `colorRange`. */
  function ColorTable(ops: FloatOps, f: BilateralFilter, colorRange: nat): (t: seq<real>)
    ensures |t| == colorRange
  {
    seq(colorRange, c requires 0 <= c < colorRange => ColorWeight(ops, f, c))
  }

  /** The space table of `slots` entries: the weights of the visited offsets, in visiting order, then zeros. */
  function SpaceTable(ops: FloatOps, f: BilateralFilter, r: nat, slots: nat): (t: seq<real>)
    requires |LatticePoints(r)| <= slots
    ensures |t| == slots
  {
    var pts := LatticePoints(r);
    seq(slots, k requires 0 <= k < slots => if k < |pts| then SpaceWeight(ops, f, pts[k]) else 0.0)
  }

  /** The precomputed weights: the colour table, the space table, the radius and the number of visited offsets. */
  datatype BilateralCoeffs = BilateralCoeffs(colorWeight: seq<real>, spaceWeight: seq<real>, radius: nat, makx: nat)

  /** Coefficients whose `makx` counts the offsets of their radius and whose space table holds them all. */
  predicate WellFormed(c: BilateralCoeffs)
  {
    c.makx == |LatticePoints(c.radius)| <= |c.spaceWeight|
  }

  /** The coefficients `init_bilateral` computes, for a space table of `slots` entries that fits every visited offset. */
  function CoeffsOf(ops: FloatOps, f: BilateralFilter, colorRange: nat, slots: nat): (c: BilateralCoeffs)
    requires |LatticePoints(Radius(f))| <= slots
    ensures WellFormed(c) && |c.colorWeight| == colorRange && |c.spaceWeight| == slots
  {
    var r := Radius(f);
    BilateralCoeffs(ColorTable(ops, f, colorRange), SpaceTable(ops, f, r, slots), r, |LatticePoints(r)|)
  }

  /** Number of space-table entries the source allocates, `d * d` in 32-bit arithmetic: a product past the
      `i32` range is an overflow panic. */
  function SpaceSlotsAsWritten(d: i32): (s: Result<nat, Panic>)
    ensures s.Ok? <==> d * d < 0x8000_0000
    ensures s.Ok? ==> s.value == d * d
  {
    SqOfAbs(d);
    if Sq(Abs(d)) < 0x8000_0000 then Ok(Sq(Abs(d))) else Err(Panic("attempt to multiply with overflow"))
  }

  /** Space-table entries of the corrected sizing: the whole square window. */
  function SpaceSlots(f: BilateralFilter): (s: nat)
    ensures |LatticePoints(Radius(f))| <= s
  {
    LatticeCount(Radius(f));
    WindowLen(Radius(f))
  }

  /** The colour loop of `init_bilateral`. */
  method FillColorWeights(ops: FloatOps, f: BilateralFilter, colorRange: nat) returns (t: seq<real>)
    ensures t == ColorTable(ops, f, colorRange)
  {
    var a := new real[colorRange](_ => 0.0);
    for i := 0 to colorRange
      invariant forall c :: 0 <= c < i ==> a[c] == ColorWeight(ops, f, c)
    {
      a[i] := ColorWeight(ops, f, i);
    }
    t := a[..];
  }

  /** The offsets visited before column `j` of row `i` form a prefix of all visited offsets. */
  lemma {:induction false} RowPrefix(r: nat, i: int, j: int)
    requires -(r as int) <= j <= r + 1
    ensures Row(r, i, j) <= Row(r, i, r + 1)
    decreases r + 1 - j
  {
    if j < r + 1 {
      RowPrefix(r, i, j + 1);
    }
  }

  lemma {:induction false} RowsPrefix(r: nat, i: int)
    requires -(r as int) <= i <= r + 1
    ensures Rows(r, i) <= LatticePoints(r)
    decreases r + 1 - i
  {
    if i < r + 1 {
      RowsPrefix(r, i + 1);
    }
  }

  lemma VisitedPrefix(r: nat, i: int, j: int)
    requires -(r as int) <= i <= r && -(r as int) <= j <= r + 1
    ensures Rows(r, i) + Row(r, i, j) <= LatticePoints(r)
  {
    RowPrefix(r, i, j);
    RowsPrefix(r, i + 1);
    assert Rows(r, i + 1) == Rows(r, i) + Row(r, i, r + 1);
  }

  /** Stores the weight of the next visited offset into entry `makx` of the space table. */
  method StoreSpaceWeight(a: array<real>, makx: nat, x: real, ghost visited: seq<real>)
    requires makx < a.Length && |visited| == makx
    requires forall k :: 0 <= k < makx ==> a[k] == visited[k]
    requires forall k :: makx <= k < a.Length ==> a[k] == 0.0
    modifies a
    ensures forall k :: 0 <= k <= makx ==> a[k] == (visited + [x])[k]
    ensures forall k :: makx < k < a.Length ==> a[k] == 0.0
  {
    a[makx] := x;
  }

  /** The weights of a sequence of offsets. */
  function Weights(ops: FloatOps, f: BilateralFilter, pts: seq<Offset>): (ws: seq<real>)
    ensures |ws| == |pts| && forall k :: 0 <= k < |pts| ==> ws[k] == SpaceWeight(ops, f, pts[k])
  {
    seq(|pts|, k requires 0 <= k < |pts| => SpaceWeight(ops, f, pts[k]))
  }

  /** One pass of the inner offset loop of `init_bilateral`: the in-disc offsets of row `i`, left to right,
      each stored at the next free entry; `full` reports the offset that found the table full. */
  method FillSpaceRow(ops: FloatOps, f: BilateralFilter, r: nat, i: int, a: array<real>, makx0: nat)
    returns (makx: nat, full: bool)
    requires -(r as int) <= i <= r
    requires makx0 == |Rows(r, i)| <= a.Length
    requires forall k :: 0 <= k < makx0 ==> a[k] == Weights(ops, f, Rows(r, i))[k]
    requires forall k :: makx0 <= k < a.Length ==> a[k] == 0.0
    modifies a
    ensures full ==> a.Length < |LatticePoints(r)|
    ensures !full ==> makx == |Rows(r, i + 1)| <= a.Length
    ensures !full ==> forall k :: 0 <= k < makx ==> a[k] == Weights(ops, f, Rows(r, i + 1))[k]
    ensures !full ==> forall k :: makx <= k < a.Length ==> a[k] == 0.0
  {
    ghost var done := Rows(r, i);
    makx := makx0;
    var j: int := -(r as int);
    while j <= r
      invariant -(r as int) <= j <= r + 1
      invariant makx == |done + Row(r, i, j)| <= a.Length
      invariant forall k :: 0 <= k < makx ==> a[k] == Weights(ops, f, done + Row(r, i, j))[k]
      invariant forall k :: makx <= k < a.Length ==> a[k] == 0.0
      decreases r + 1 - j
    {
      if InDisc(i, j, r) {
        if makx >= a.Length {
          VisitedPrefix(r, i, j + 1);
          return makx, true;
        }
        StoreSpaceWeight(a, makx, SpaceWeight(ops, f, Offset(i, j)), Weights(ops, f, done + Row(r, i, j)));
        assert done + Row(r, i, j + 1) == done + Row(r, i, j) + [Offset(i, j)];
        makx := makx + 1;
      }
      j := j + 1;
    }
    return makx, false;
  }

  /** The nested offset loops of `init_bilateral` filling a space table of `slots` entries: an offset outside
      the disc is skipped, and the first in-disc offset that finds the table full is an out-of-bounds panic. */
  method FillSpaceWeights(ops: FloatOps, f: BilateralFilter, r: nat, slots: nat)
    returns (res: Result<seq<real>, Panic>)
    ensures res.Ok? <==> |LatticePoints(r)| <= slots
    ensures res.Ok? ==> res.value == SpaceTable(ops, f, r, slots)
  {
    var a := new real[slots](_ => 0.0);
    var makx := 0;
    var i: int := -(r as int);
    while i <= r
      invariant -(r as int) <= i <= r + 1
      invariant makx == |Rows(r, i)| <= slots
      invariant forall k :: 0 <= k < makx ==> a[k] == Weights(ops, f, Rows(r, i))[k]
      invariant forall k :: makx <= k < slots ==> a[k] == 0.0
      decreases r + 1 - i
    {
      var full;
      makx, full := FillSpaceRow(ops, f, r, i, a, makx);
      if full {
        return Err(Panic("index out of bounds"));
      }
      i := i + 1;
    }
    assert forall k :: 0 <= k < slots ==> a[k] == SpaceTable(ops, f, r, slots)[k];
    return Ok(a[..]);
  }

  /** `init_bilateral` as written: the space table has `d * d` entries, which the visited offsets can outnumber. */
  method InitBilateralAsWritten(ops: FloatOps, f: BilateralFilter, colorRange: nat)
    returns (res: Result<BilateralCoeffs, Panic>)
    ensures res.Ok? <==> SpaceSlotsAsWritten(f.d).Ok? && |LatticePoints(Radius(f))| <= SpaceSlotsAsWritten(f.d).value
    ensures res.Ok? ==> res.value == CoeffsOf(ops, f, colorRange, SpaceSlotsAsWritten(f.d).value)
  {
    var r := Radius(f);
    var colors := FillColorWeights(ops, f, colorRange);
    var slots := SpaceSlotsAsWritten(f.d);
    if slots.Err? {
      return Err(slots.error);
    }
    var space := FillSpaceWeights(ops, f, r, slots.value);
    if space.Err? {
      return Err(space.error);
    }
    return Ok(BilateralCoeffs(colors, space.value, r, |LatticePoints(r)|));
  }

  /** A diameter hint of 2 gives radius 1, whose five offsets do not fit the four entries `d * d` allots; a
      hint of 0 allots no entry at all. */
  lemma SpaceTableTooSmall(f: BilateralFilter)
    requires f.d == 2 || f.d == 0
    ensures SpaceSlotsAsWritten(f.d).Ok? && SpaceSlotsAsWritten(f.d).value < |LatticePoints(Radius(f))|
  {
    LatticeCount(Radius(f));
    if f.d == 2 {
      LatticeCountRadiusOne();
    }
  }

  /** `init_bilateral` with a space table sized to the whole window: it always fits, so it never panics. */
  method InitBilateral(ops: FloatOps, f: BilateralFilter, colorRange: nat) returns (c: BilateralCoeffs)
    ensures c == CoeffsOf(ops, f, colorRange, SpaceSlots(f))
  {
    var r := Radius(f);
    var colors := FillColorWeights(ops, f, colorRange);
    var space := FillSpaceWeights(ops, f, r, SpaceSlots(f));
    c := BilateralCoeffs(colors, space.value, r, |LatticePoints(r)|);
  }

  /** Entries `l1` and `l2` of the space table hold the offset of entry `k` mirrored in either coordinate, with the
      same weight: the table is symmetric under negating either coordinate. */
  lemma SpaceTableSymmetric(ops: FloatOps, f: BilateralFilter, slots: nat, k: nat) returns (l1: nat, l2: nat)
    requires |LatticePoints(Radius(f))| <= slots && k < |LatticePoints(Radius(f))|
    ensures l1 < |LatticePoints(Radius(f))| && l2 < |LatticePoints(Radius(f))|
    ensures LatticePoints(Radius(f))[l1] == Offset(-LatticePoints(Radius(f))[k].di, LatticePoints(Radius(f))[k].dj)
    ensures LatticePoints(Radius(f))[l2] == Offset(LatticePoints(Radius(f))[k].di, -LatticePoints(Radius(f))[k].dj)
    ensures SpaceTable(ops, f, Radius(f), slots)[l1] == SpaceTable(ops, f, Radius(f), slots)[k]
    ensures SpaceTable(ops, f, Radius(f), slots)[l2] == SpaceTable(ops, f, Radius(f), slots)[k]
  {
    var r := Radius(f);
    var pts, t := LatticePoints(r), SpaceTable(ops, f, r, slots);
    l1, l2 := LatticeMirror(r, k);
    assert t[k] == SpaceWeight(ops, f, pts[k]);
    assert t[l1] == SpaceWeight(ops, f, pts[l1]);
    assert t[l2] == SpaceWeight(ops, f, pts[l2]);
  }

  lemma {:induction false} SqMono(a: nat, b: nat)
    requires a <= b
    ensures Sq(a) <= Sq(b)
    decreases b
  {
    if a < b {
      SqMono(a, b - 1);
    }
  }

  lemma ScaleByNegative(x: real, y: real, g: real)
    requires x <= y && g < 0.0
    ensures y * g <= x * g
  {
    assert (y - x) * g <= 0.0;
  }

  /** With a monotone `exp` and a non-zero colour width, a larger intensity difference never weighs more. */
  lemma ColorWeightNonIncreasing(ops: FloatOps, f: BilateralFilter, a: nat, b: nat)
    requires f.sigmaColor != 0.0 && a <= b
    requires forall x: real, y: real :: x <= y ==> ops.exp(x) <= ops.exp(y)
    ensures ColorWeight(ops, f, b) <= ColorWeight(ops, f, a)
  {
    var g := GaussCoeff(ops, f.sigmaColor);
    SqMono(a, b);
    ScaleByNegative(Sq(a) as real, Sq(b) as real, g);
    assert ops.exp(Exponent(Sq(b), g)) <= ops.exp(Exponent(Sq(a), g));
    assert ColorWeight(ops, f, a) == ops.exp(Exponent(Sq(a), g));
    assert ColorWeight(ops, f, b) == ops.exp(Exponent(Sq(b), g));
  }

  /** The running sums of one pixel: intensity times weight, and weight. */
  datatype Acc = Acc(sum: real, wsum: real)

  /** What the kernel reads stays in bounds: the centre and every paired position lie in the window, the first
      `n` pairs have a space weight, and every intensity, hence every difference of two, has a colour weight. */
  predicate KernelArgs(area: seq<nat>, c: BilateralCoeffs, ps: seq<nat>, centre: nat, n: nat)
  {
    centre < |area| && n <= |ps| && n <= |c.spaceWeight| && AllBelow(area, |c.colorWeight|) &&
    forall k :: 0 <= k < |ps| ==> ps[k] < |area|
  }

  /** The sums over the first `n` pairs: pair `k` takes the intensity at position `ps[k]` of the window, weighted by
      space weight `k` times the colour weight of its distance from `val0`. */
  function Sums(area: seq<nat>, c: BilateralCoeffs, val0: nat, ps: seq<nat>, n: nat): Acc
    requires KernelArgs(area, c, ps, 0, n) && val0 < |c.colorWeight|
  {
    if n == 0 then Acc(0.0, 0.0)
    else Add(Sums(area, c, val0, ps, n - 1), area[ps[n - 1]], PairWeight(area, c, val0, ps, n - 1))
  }

  /** Weight of pair `k`: its space weight times the colour weight of the distance of its intensity from `val0`. */
  function PairWeight(area: seq<nat>, c: BilateralCoeffs, val0: nat, ps: seq<nat>, k: nat): real
    requires KernelArgs(area, c, ps, 0, k + 1) && val0 < |c.colorWeight|
  {
    c.spaceWeight[k] * c.colorWeight[Abs(area[ps[k]] as int - val0 as int)]
  }

  /** One step of the accumulation: `sum += val * w; wsum += w`. */
  function Add(a: Acc, x: nat, wt: real): Acc
  {
    Acc(a.sum + x as real * wt, a.wsum + wt)
  }

  /** `T::from_f32((sum / wsum).round())`: rounded and saturated into `0..=maxv`; a zero weight sum gives an
      infinity or a NaN, which saturates to `maxv` or becomes 0. */
  function Narrow(a: Acc, maxv: nat): (v: nat)
    ensures v <= maxv
  {
    if a.wsum == 0.0 then (if a.sum > 0.0 then maxv else 0)
    else
      var q := RoundHalfAway(a.sum / a.wsum);
      if q < 0 then 0 else if q > maxv then maxv else q
  }

  /** A mean within range is rounded to the nearest value, with no saturation. */
  lemma NarrowRounds(a: Acc, maxv: nat)
    requires a.wsum != 0.0 && 0.0 <= a.sum / a.wsum <= maxv as real
    ensures Narrow(a, maxv) as real - 0.5 <= a.sum / a.wsum < Narrow(a, maxv) as real + 0.5
  {
  }

  /** The kernel over a window: the weighted mean of the paired intensities around the intensity at `centre`. */
  function KernelValue(area: seq<nat>, c: BilateralCoeffs, ps: seq<nat>, centre: nat, n: nat, maxv: nat): (v: nat)
    requires KernelArgs(area, c, ps, centre, n)
    ensures v <= maxv
  {
    Narrow(Sums(area, c, area[centre], ps, n), maxv)
  }

  /** The loop of the per-pixel closure of `bilateral_filter_int`. */
  method BilateralKernel(area: seq<nat>, c: BilateralCoeffs, ps: seq<nat>, centre: nat, n: nat, maxv: nat)
    returns (v: nat)
    requires KernelArgs(area, c, ps, centre, n)
    ensures v == KernelValue(area, c, ps, centre, n, maxv)
  {
    var val0 := area[centre];
    var sum, wsum := 0.0, 0.0;
    for k := 0 to n
      invariant Acc(sum, wsum) == Sums(area, c, val0, ps, k)
    {
      var next := Add(Acc(sum, wsum), area[ps[k]], PairWeight(area, c, val0, ps, k));
      sum, wsum := next.sum, next.wsum;
    }
    v := Narrow(Acc(sum, wsum), maxv);
  }

  /** The window position of each visited offset, in visiting order. */
  function DiscPositions(r: nat): (ps: seq<nat>)
    ensures |ps| == |LatticePoints(r)|
    ensures forall k :: 0 <= k < |ps| ==> InBox(LatticePoints(r)[k], r) && ps[k] == WindowIndex(r, LatticePoints(r)[k])
    ensures forall k :: 0 <= k < |ps| ==> ps[k] < WindowLen(r)
  {
    LatticeInBox(r);
    seq(|LatticePoints(r)|, k requires 0 <= k < |LatticePoints(r)| => WindowIndex(r, LatticePoints(r)[k]))
  }

  /** The corrected kernel: each space weight is paired with the intensity at its own offset, and differences are
      measured from the centre of the window. */
  function PixelAt(area: seq<nat>, c: BilateralCoeffs, maxv: nat): (v: nat)
    requires WellFormed(c) && |area| == WindowLen(c.radius) && AllBelow(area, |c.colorWeight|)
    ensures v <= maxv
  {
    KernelValue(area, c, DiscPositions(c.radius), Centre(c.radius), c.makx, maxv)
  }

  /** The index of the pixel under the filter as the source computes it. */
  function MidAsWritten(r: nat): (m: nat)
    ensures m < WindowLen(r)
  {
    (r + 1) / 2
  }

  /** Past radius 0 that index is not the centre of the window: it lies in the top row. */
  lemma MidMissesCentre(r: nat)
    requires r >= 1
    ensures MidAsWritten(r) < 2 * r + 1 && MidAsWritten(r) < Centre(r)
  {
  }

  /** The pairs the source iterates: window entry `k` with space weight `k`, for `k` below the window length,
      the table length and `makx` alike. */
  function AsWrittenCount(area: seq<nat>, c: BilateralCoeffs): (n: nat)
    ensures n <= |area| && n <= |c.spaceWeight| && n <= c.makx
    ensures n == |area| || n == |c.spaceWeight| || n == c.makx
  {
    if |area| <= |c.spaceWeight| && |area| <= c.makx then |area|
    else if |c.spaceWeight| <= c.makx then |c.spaceWeight|
    else c.makx
  }

  function Identity(n: nat): (ps: seq<nat>)
    ensures |ps| == n && forall k :: 0 <= k < n ==> ps[k] == k
  {
    seq(n, k => k)
  }

  /** The per-pixel closure as written: the first entries of the window in row-major order, paired with the
      space weights of the in-disc offsets, around window entry `(r + 1) / 2`. */
  function BilateralPixelAsWritten(area: seq<nat>, c: BilateralCoeffs, maxv: nat): (v: nat)
    requires |area| == WindowLen(c.radius) && AllBelow(area, |c.colorWeight|)
    ensures v <= maxv
  {
    KernelValue(area, c, Identity(|area|), MidAsWritten(c.radius), AsWrittenCount(area, c), maxv)
  }

  /** Which per-pixel closure the filter runs: the source's, or the corrected one. */
  datatype Kernel = AsWritten | Corrected

  /** The pixel the chosen closure computes over a window. */
  function Pixel(k: Kernel, area: seq<nat>, c: BilateralCoeffs, maxv: nat): (v: nat)
    requires WellFormed(c) && |area| == WindowLen(c.radius) && AllBelow(area, |c.colorWeight|)
    ensures v <= maxv
  {
    if k == AsWritten then BilateralPixelAsWritten(area, c, maxv) else PixelAt(area, c, maxv)
  }

  /** The per-pixel closure with the chosen kernel. */
  method PixelKernel(k: Kernel, area: seq<nat>, c: BilateralCoeffs, maxv: nat) returns (v: nat)
    requires WellFormed(c) && |area| == WindowLen(c.radius) && AllBelow(area, |c.colorWeight|)
    ensures v == Pixel(k, area, c, maxv)
  {
    if k == AsWritten {
      v := BilateralKernel(area, c, Identity(|area|), MidAsWritten(c.radius), AsWrittenCount(area, c), maxv);
    } else {
      v := BilateralKernel(area, c, DiscPositions(c.radius), Centre(c.radius), c.makx, maxv);
    }
  }

  /** The nearest coordinate inside `0..n`. */
  function Clamp(x: int, n: nat): (c: nat)
    requires n > 0
    ensures c < n
    ensures 0 <= x < n ==> c == x
  {
    if x < 0 then 0 else if x >= n then n - 1 else x
  }

  /** Where entry `t` of the window of pixel `(y, x)` is read from: the pixel at that entry's offset, each
      coordinate clamped into the `w` by `h` channel (replicate padding). */
  function Source(w: nat, h: nat, r: nat, y: nat, x: nat, t: nat): (q: nat)
    requires y < h && x < w
    ensures q < Slot(h, w, 0)
  {
    var n := 2 * r + 1;
    var cy, cx := Clamp(y + Group(t, n) - r, h), Clamp(x + Place(t, n) - r, w);
    SlotBelow(cy, h, w, cx);
    Slot(cy, w, cx)
  }

  /** The window of pixel `(y, x)` of a `w` by `h` channel stored row by row, as padding and the traversal hand
      it to the kernel: `(2r + 1)` rows of `(2r + 1)` entries. */
  function WindowAt(src: seq<nat>, w: nat, h: nat, r: nat, y: nat, x: nat): (area: seq<nat>)
    requires |src| == Slot(h, w, 0) && y < h && x < w
    ensures |area| == WindowLen(r)
  {
    seq(WindowLen(r), t requires 0 <= t < WindowLen(r) => src[Source(w, h, r, y, x, t)])
  }

  /** The entry of an offset is the pixel at that offset, or the nearest one inside the channel. */
  lemma WindowAtOffset(src: seq<nat>, w: nat, h: nat, r: nat, y: nat, x: nat, p: Offset)
    requires |src| == Slot(h, w, 0) && y < h && x < w && InBox(p, r)
    ensures Slot(Clamp(y + p.di, h), w, Clamp(x + p.dj, w)) < |src|
    ensures WindowAt(src, w, h, r, y, x)[WindowIndex(r, p)] == src[Slot(Clamp(y + p.di, h), w, Clamp(x + p.dj, w))]
  {
    var t := WindowIndex(r, p);
    SlotSplits(p.di + r, 2 * r + 1, p.dj + r);
    assert Source(w, h, r, y, x, t) == Slot(Clamp(y + p.di, h), w, Clamp(x + p.dj, w));
  }

  /** The centre of the window is the pixel itself. */
  lemma CentreIsPixel(src: seq<nat>, w: nat, h: nat, r: nat, y: nat, x: nat)
    requires |src| == Slot(h, w, 0) && y < h && x < w
    ensures Slot(y, w, x) < |src| && WindowAt(src, w, h, r, y, x)[Centre(r)] == src[Slot(y, w, x)]
  {
    var o := Offset(0, 0);
    WindowAtOffset(src, w, h, r, y, x, o);
    assert Clamp(y + o.di, h) == y && Clamp(x + o.dj, w) == x;
  }

  /** A bound on every sample bounds every window entry. */
  lemma WindowBelow(src: seq<nat>, w: nat, h: nat, r: nat, y: nat, x: nat, b: nat)
    requires |src| == Slot(h, w, 0) && y < h && x < w && AllBelow(src, b)
    ensures AllBelow(WindowAt(src, w, h, r, y, x), b)
  {
    var area := WindowAt(src, w, h, r, y, x);
    forall t | 0 <= t < |area| ensures area[t] < b {
      assert area[t] == src[Source(w, h, r, y, x, t)];
    }
  }

  /** The filtered channel: pixel `p`, in row `Group(p, w)` and column `Place(p, w)`, is the chosen kernel over
      its window. */
  function Filtered(k: Kernel, src: seq<nat>, w: nat, h: nat, c: BilateralCoeffs, maxv: nat): (out: seq<nat>)
    requires |src| == Slot(h, w, 0) && WellFormed(c) && AllBelow(src, |c.colorWeight|)
    ensures |out| == |src| && AllBelow(out, maxv + 1)
  {
    if w == 0 then SlotIsOffset(h, 0, 0); []
    else
      seq(|src|, p requires 0 <= p < |src| =>
        GroupBelow(p, w, h);
        WindowBelow(src, w, h, c.radius, Group(p, w), Place(p, w), |c.colorWeight|);
        Pixel(k, WindowAt(src, w, h, c.radius, Group(p, w), Place(p, w)), c, maxv))
  }

  /** Pixel `(y, x)` of the filtered channel. */
  lemma FilteredAt(k: Kernel, src: seq<nat>, w: nat, h: nat, c: BilateralCoeffs, maxv: nat, y: nat, x: nat)
    requires |src| == Slot(h, w, 0) && WellFormed(c) && AllBelow(src, |c.colorWeight|) && y < h && x < w
    ensures Slot(y, w, x) < |src| && AllBelow(WindowAt(src, w, h, c.radius, y, x), |c.colorWeight|)
    ensures Filtered(k, src, w, h, c, maxv)[Slot(y, w, x)] == Pixel(k, WindowAt(src, w, h, c.radius, y, x), c, maxv)
  {
    SlotBelow(y, h, w, x);
    SlotSplits(y, w, x);
    WindowBelow(src, w, h, c.radius, y, x, |c.colorWeight|);
  }

  /** Stores pixel `p` of the output, whose earlier pixels are already in place. */
  method StorePixel(dest: array<nat>, p: nat, v: nat, ghost expected: seq<nat>)
    requires p < dest.Length == |expected| && v == expected[p]
    requires forall q :: 0 <= q < p ==> dest[q] == expected[q]
    modifies dest
    ensures forall q :: 0 <= q <= p ==> dest[q] == expected[q]
  {
    dest[p] := v;
  }

  /** `bilateral_filter_int` with the chosen kernel: every pixel, row by row, replaced by the kernel over its
      window. The source's kernel pairs the window in row-major order with the space weights around entry
      `(r + 1) / 2`; the corrected one pairs each weight with its own offset around the centre. */
  method BilateralFilterInt(k: Kernel, src: seq<nat>, dest: array<nat>, w: nat, h: nat, c: BilateralCoeffs, maxv: nat)
    requires |src| == Slot(h, w, 0) == dest.Length && WellFormed(c) && AllBelow(src, |c.colorWeight|)
    modifies dest
    ensures dest[..] == Filtered(k, src, w, h, c, maxv)
  {
    ghost var expected := Filtered(k, src, w, h, c, maxv);
    var r := c.radius;
    for y := 0 to h
      invariant Slot(y, w, 0) <= |src|
      invariant forall q :: 0 <= q < Slot(y, w, 0) ==> dest[q] == expected[q]
    {
      for x := 0 to w
        invariant Slot(y, w, x) <= |src|
        invariant forall q :: 0 <= q < Slot(y, w, x) ==> dest[q] == expected[q]
      {
        var area := WindowAt(src, w, h, r, y, x);
        FilteredAt(k, src, w, h, c, maxv, y, x);
        var v := PixelKernel(k, area, c, maxv);
        StorePixel(dest, Slot(y, w, x), v, expected);
        SlotNext(y, w, x);
      }
      SlotNext(y, w, w);
      SlotMono(y + 1, h, w);
    }
  }

  /** Every channel among the first `n` holds one element per pixel of a `w` by `h` image. */
  predicate ChannelsFit(chs: seq<Channel>, n: nat, w: nat, h: nat)
  {
    n <= |chs| && forall i :: 0 <= i < n ==> |chs[i].samples| == Slot(h, w, 0)
  }

  /** Coefficients whose colour table covers every intensity of the bit depth. */
  predicate CoversDepth(c: BilateralCoeffs, depth: BitType)
  {
    WellFormed(c) && (depth != F32 ==> SampleBound(depth) <= |c.colorWeight|)
  }

  /** What filtering one channel with the chosen kernel yields: an F32 image is refused, a channel of another
      kind than the image is a type error, and otherwise a fresh channel of the same kind and length holds the
      filtered pixels. */
  function ChannelOutcome(k: Kernel, ch: Channel, depth: BitType, w: nat, h: nat, c: BilateralCoeffs)
    : (r: Result<Channel, ImageError>)
    requires |ch.samples| == Slot(h, w, 0) && CoversDepth(c, depth)
    ensures depth == F32 ==> r == Err(ImageOperationNotImplemented(Name, F32))
    ensures depth != F32 ==> (r.Err? <==> ch.kind != depth)
    ensures depth != F32 && r.Err? ==> r.error == WrongTypeId(ch.kind, depth)
    ensures r.Ok? ==> r.value.kind == ch.kind && |r.value.samples| == |ch.samples| && ByteLen(r.value) == ByteLen(ch)
    ensures r.Ok? ==> forall y, x :: 0 <= y < h && 0 <= x < w ==>
      FilteredPixel(k, ch.samples, r.value.samples, w, h, c, MaxValue(depth), y, x)
  {
    if depth == F32 then Err(ImageOperationNotImplemented(Name, F32))
    else if ch.kind != depth then Err(WrongTypeId(ch.kind, depth))
    else
      var out := Filtered(k, ch.samples, w, h, c, MaxValue(depth));
      assert forall y, x :: 0 <= y < h && 0 <= x < w ==> FilteredPixel(k, ch.samples, out, w, h, c, MaxValue(depth), y, x) by {
        forall y, x | 0 <= y < h && 0 <= x < w ensures FilteredPixel(k, ch.samples, out, w, h, c, MaxValue(depth), y, x) {
          FilteredAt(k, ch.samples, w, h, c, MaxValue(depth), y, x);
        }
      }
      Ok(RawChannel(depth, out))
  }

  /** Pixel `(y, x)` of `out` is the chosen kernel over the window of that pixel in `src`. */
  predicate FilteredPixel(k: Kernel, src: seq<nat>, out: seq<nat>, w: nat, h: nat, c: BilateralCoeffs, maxv: nat, y: nat, x: nat)
    requires |src| == Slot(h, w, 0) && y < h && x < w
  {
    SlotBelow(y, h, w, x);
    WellFormed(c) && |out| == |src| && AllBelow(WindowAt(src, w, h, c.radius, y, x), |c.colorWeight|) &&
    out[Slot(y, w, x)] == Pixel(k, WindowAt(src, w, h, c.radius, y, x), c, maxv)
  }

  /** One pass of the sequential channel loop of `execute_impl`: a zeroed channel of the same byte length, an
      F32 image refused, the source viewed as the image's kind, and the filter run into the fresh channel. */
  method FilterChannel(k: Kernel, ch: Channel, depth: BitType, w: nat, h: nat, c: BilateralCoeffs)
    returns (r: Result<Channel, ImageError>)
    requires |ch.samples| == Slot(h, w, 0) && CoversDepth(c, depth)
    ensures r == ChannelOutcome(k, ch, depth, w, h, c)
  {
    var zeroed := NewWithBitType(ByteLen(ch), depth);
    if depth == F32 {
      return Err(ImageOperationNotImplemented(Name, depth));
    }
    var view := ReinterpretAs(ch, depth);
    if view.Err? {
      return Err(view.error);
    }
    assert |zeroed.samples| == |ch.samples| by {
      if depth == U16 {
        assert ByteLen(ch) == |ch.samples| * 2;
      }
    }
    var dest := new nat[|zeroed.samples|](t requires 0 <= t < |zeroed.samples| => zeroed.samples[t]);
    var maxv := MaxValue(depth);
    BilateralFilterInt(k, view.value, dest, w, h, c, maxv);
    var filtered: Channel := RawChannel(depth, dest[..]);
    r := Ok(filtered);
  }

  /** The channel loop from channel `i` on: each of channels `i` to `n - 1` replaced in turn by its filtered
      version, stopping at the first refusal with that refusal and the channels replaced so far. */
  function Run(k: Kernel, chs: seq<Channel>, i: nat, n: nat, depth: BitType, w: nat, h: nat, c: BilateralCoeffs)
    : (res: (Result<(), ImageError>, seq<Channel>))
    requires i <= n && ChannelsFit(chs, n, w, h) && CoversDepth(c, depth)
    decreases n - i
  {
    if i == n then (Ok(()), chs)
    else
      match ChannelOutcome(k, chs[i], depth, w, h, c)
      case Err(e) => (Err(e), chs)
      case Ok(filtered) => Run(k, chs[i := filtered], i + 1, n, depth, w, h, c)
  }

  /** The loop stops at channel `j`: `n` when every channel was filtered, otherwise the first channel refused,
      whose refusal is the result. Channels `i` to `j - 1` are replaced by their filtered versions, and every
      other channel is left as it was. */
  lemma {:induction false} RunEffect(k: Kernel, chs: seq<Channel>, i: nat, n: nat, depth: BitType, w: nat, h: nat,
    c: BilateralCoeffs) returns (j: nat)
    requires i <= n && ChannelsFit(chs, n, w, h) && CoversDepth(c, depth)
    ensures i <= j <= n && |Run(k, chs, i, n, depth, w, h, c).1| == |chs|
    ensures Run(k, chs, i, n, depth, w, h, c).0.Ok? <==> j == n
    ensures j < n ==> ChannelOutcome(k, chs[j], depth, w, h, c).Err?
    ensures j < n ==> Run(k, chs, i, n, depth, w, h, c).0 == Err(ChannelOutcome(k, chs[j], depth, w, h, c).error)
    ensures forall l :: i <= l < j ==> ChannelOutcome(k, chs[l], depth, w, h, c) == Ok(Run(k, chs, i, n, depth, w, h, c).1[l])
    ensures forall l :: 0 <= l < |chs| && !(i <= l < j) ==> Run(k, chs, i, n, depth, w, h, c).1[l] == chs[l]
    decreases n - i
  {
    if i == n {
      j := n;
    } else {
      match ChannelOutcome(k, chs[i], depth, w, h, c)
      case Err(e) =>
        j := i;
      case Ok(filtered) =>
        j := RunEffect(k, chs[i := filtered], i + 1, n, depth, w, h, c);
    }
  }

  /** The sequential channel loop of `execute_impl` over every channel but alpha, with the coefficients already
      computed. */
  method FilterChannels(k: Kernel, c: BilateralCoeffs, frame: Frame, cs: ColorSpace, depth: BitType, w: nat, h: nat)
    returns (r: Result<(), ImageError>)
    requires |frame.channels| >= cs.components && ChannelsFit(frame.channels, SelectedCount(cs, true), w, h)
    requires CoversDepth(c, depth)
    modifies frame
    ensures (r, frame.channels) == Run(k, old(frame.channels), 0, SelectedCount(cs, true), depth, w, h, c)
    ensures frame.duration == old(frame.duration)
  {
    var n := SelectedCount(cs, true);
    ghost var start := frame.channels;
    for i := 0 to n
      invariant |frame.channels| == |start| && ChannelsFit(frame.channels, n, w, h)
      invariant frame.duration == old(frame.duration)
      invariant Run(k, frame.channels, i, n, depth, w, h, c) == Run(k, start, 0, n, depth, w, h, c)
    {
      var out := FilterChannel(k, frame.channels[i], depth, w, h, c);
      if out.Err? {
        return Err(out.error);
      }
      frame.SetSelected(cs, true, i, out.value);
    }
    r := Ok(());
  }

  /** `execute_impl` as written, without threads, on one frame of a `w` by `h` image of bit depth `depth`: the
      coefficients with the `d * d` space table, whose panic (the outer `Err`) comes before any channel is
      touched, then the channel loop with the source's kernel. */
  method ExecuteImplAsWritten(f: BilateralFilter, ops: FloatOps, frame: Frame, cs: ColorSpace, depth: BitType, w: nat, h: nat)
    returns (r: Result<Result<(), ImageError>, Panic>)
    requires |frame.channels| >= cs.components && ChannelsFit(frame.channels, SelectedCount(cs, true), w, h)
    modifies frame
    ensures r.Ok? <==> SpaceSlotsAsWritten(f.d).Ok? && |LatticePoints(Radius(f))| <= SpaceSlotsAsWritten(f.d).value
    ensures r.Err? ==> frame.channels == old(frame.channels)
    ensures r.Ok? ==> CoversDepth(CoeffsOf(ops, f, MaxValue(depth) + 1, SpaceSlotsAsWritten(f.d).value), depth)
    ensures r.Ok? ==> (r.value, frame.channels) == Run(AsWritten, old(frame.channels), 0, SelectedCount(cs, true), depth,
      w, h, CoeffsOf(ops, f, MaxValue(depth) + 1, SpaceSlotsAsWritten(f.d).value))
    ensures frame.duration == old(frame.duration)
  {
    var c := InitBilateralAsWritten(ops, f, MaxValue(depth) + 1);
    if c.Err? {
      return Err(c.error);
    }
    var out := FilterChannels(AsWritten, c.value, frame, cs, depth, w, h);
    r := Ok(out);
  }

  /** `execute_impl` corrected, without threads: the coefficients with a whole-window space table, which never
      panics, then the channel loop with the corrected kernel. */
  method ExecuteImpl(f: BilateralFilter, ops: FloatOps, frame: Frame, cs: ColorSpace, depth: BitType, w: nat, h: nat)
    returns (r: Result<(), ImageError>)
    requires |frame.channels| >= cs.components && ChannelsFit(frame.channels, SelectedCount(cs, true), w, h)
    modifies frame
    ensures CoversDepth(CoeffsOf(ops, f, MaxValue(depth) + 1, SpaceSlots(f)), depth)
    ensures (r, frame.channels) ==
      Run(Corrected, old(frame.channels), 0, SelectedCount(cs, true), depth, w, h, CoeffsOf(ops, f, MaxValue(depth) + 1, SpaceSlots(f)))
    ensures frame.duration == old(frame.duration)
  {
    var c := InitBilateral(ops, f, MaxValue(depth) + 1);
    r := FilterChannels(Corrected, c, frame, cs, depth, w, h);
  }

  /** Windows that agree on every paired position give the same sums. */
  lemma {:induction false} SumsAgree(a1: seq<nat>, a2: seq<nat>, c: BilateralCoeffs, val0: nat, ps: seq<nat>, n: nat)
    requires KernelArgs(a1, c, ps, 0, n) && KernelArgs(a2, c, ps, 0, n) && val0 < |c.colorWeight|
    requires forall k :: 0 <= k < n ==> a1[ps[k]] == a2[ps[k]]
    ensures Sums(a1, c, val0, ps, n) == Sums(a2, c, val0, ps, n)
  {
    if n > 0 {
      SumsAgree(a1, a2, c, val0, ps, n - 1);
      assert PairWeight(a1, c, val0, ps, n - 1) == PairWeight(a2, c, val0, ps, n - 1);
    }
  }

  /** Windows that agree within the disc agree at every paired position. */
  lemma PairedAgree(a1: seq<nat>, a2: seq<nat>, r: nat)
    requires |a1| == |a2| == WindowLen(r)
    requires forall p :: InBox(p, r) && InDisc(p.di, p.dj, r) ==> a1[WindowIndex(r, p)] == a2[WindowIndex(r, p)]
    ensures forall k :: 0 <= k < |DiscPositions(r)| ==> a1[DiscPositions(r)[k]] == a2[DiscPositions(r)[k]]
  {
    var ps := DiscPositions(r);
    forall k | 0 <= k < |ps| ensures a1[ps[k]] == a2[ps[k]] {
      var p := VisitedInDisc(r, k);
    }
  }

  /** Windows that agree within the disc agree at the centre. */
  lemma CentreAgree(a1: seq<nat>, a2: seq<nat>, r: nat)
    requires |a1| == |a2| == WindowLen(r)
    requires forall p :: InBox(p, r) && InDisc(p.di, p.dj, r) ==> a1[WindowIndex(r, p)] == a2[WindowIndex(r, p)]
    ensures a1[Centre(r)] == a2[Centre(r)]
  {
    CentreInDisc(r);
  }

  /** The `k`-th visited offset lies in the box and in the disc. */
  lemma VisitedInDisc(r: nat, k: nat) returns (p: Offset)
    requires k < |LatticePoints(r)|
    ensures p == LatticePoints(r)[k] && InBox(p, r) && InDisc(p.di, p.dj, r)
    ensures DiscPositions(r)[k] == WindowIndex(r, p)
  {
    p := LatticePoints(r)[k];
    LatticeMembers(r, p);
  }

  /** The corrected kernel reads nothing outside the disc: windows that agree on every offset within distance
      `r` of the centre give the same pixel. */
  lemma DiscOnly(a1: seq<nat>, a2: seq<nat>, c: BilateralCoeffs, maxv: nat)
    requires WellFormed(c) && |a1| == |a2| == WindowLen(c.radius)
    requires AllBelow(a1, |c.colorWeight|) && AllBelow(a2, |c.colorWeight|)
    requires forall p :: InBox(p, c.radius) && InDisc(p.di, p.dj, c.radius) ==> a1[WindowIndex(c.radius, p)] == a2[WindowIndex(c.radius, p)]
    ensures PixelAt(a1, c, maxv) == PixelAt(a2, c, maxv)
  {
    var r := c.radius;
    var ps := DiscPositions(r);
    PairedAgree(a1, a2, r);
    CentreAgree(a1, a2, r);
    SumsAgree(a1, a2, c, a1[Centre(r)], ps, c.makx);
  }

  /** Every visited space weight and the colour weight of a zero difference are positive. */
  predicate PositiveWeights(c: BilateralCoeffs)
  {
    c.makx <= |c.spaceWeight| && 0 < |c.colorWeight| && c.colorWeight[0] > 0.0 &&
    forall k :: 0 <= k < c.makx ==> c.spaceWeight[k] > 0.0
  }

  /** An `exp` that is positive everywhere gives positive weights. */
  lemma CoeffsPositive(ops: FloatOps, f: BilateralFilter, colorRange: nat, slots: nat)
    requires |LatticePoints(Radius(f))| <= slots && 0 < colorRange
    requires forall x: real :: ops.exp(x) > 0.0
    ensures PositiveWeights(CoeffsOf(ops, f, colorRange, slots))
  {
    var c := CoeffsOf(ops, f, colorRange, slots);
    assert c.colorWeight[0] == ColorWeight(ops, f, 0);
    forall k | 0 <= k < c.makx ensures c.spaceWeight[k] > 0.0 {
      assert c.spaceWeight[k] == SpaceWeight(ops, f, LatticePoints(c.radius)[k]);
    }
  }

  /** Over a window of one intensity `v`, the sum is `v` times the weight sum, and positive weights give a
      positive weight sum. */
  lemma {:induction false} FlatSums(area: seq<nat>, c: BilateralCoeffs, v: nat, ps: seq<nat>, n: nat)
    requires KernelArgs(area, c, ps, 0, n) && v < |c.colorWeight| && c.colorWeight[0] > 0.0
    requires forall k :: 0 <= k < n ==> area[ps[k]] == v && c.spaceWeight[k] > 0.0
    ensures Sums(area, c, v, ps, n).sum == v as real * Sums(area, c, v, ps, n).wsum
    ensures n > 0 ==> Sums(area, c, v, ps, n).wsum > 0.0
  {
    if n > 0 {
      FlatSums(area, c, v, ps, n - 1);
      var wt := PairWeight(area, c, v, ps, n - 1);
      assert wt == c.spaceWeight[n - 1] * c.colorWeight[0];
      assert wt > 0.0;
    }
  }

  /** The kernel over pairs that all read intensity `v`, with `v` at the entry differences are measured from,
      gives `v`. */
  lemma FlatKernel(area: seq<nat>, c: BilateralCoeffs, ps: seq<nat>, mid: nat, n: nat, maxv: nat, v: nat)
    requires KernelArgs(area, c, ps, mid, n) && 0 < n && v <= maxv && v < |c.colorWeight| && c.colorWeight[0] > 0.0
    requires area[mid] == v
    requires forall k :: 0 <= k < n ==> area[ps[k]] == v && c.spaceWeight[k] > 0.0
    ensures KernelValue(area, c, ps, mid, n, maxv) == v
  {
    FlatSums(area, c, v, ps, n);
    NarrowFlat(Sums(area, c, v, ps, n), v, maxv);
  }

  /** A window of one intensity `v` is left at `v` by the corrected kernel. */
  lemma FlatPixelCorrected(area: seq<nat>, c: BilateralCoeffs, maxv: nat, v: nat)
    requires WellFormed(c) && PositiveWeights(c) && |area| == WindowLen(c.radius) && v <= maxv && v < |c.colorWeight|
    requires forall t :: 0 <= t < |area| ==> area[t] == v
    ensures AllBelow(area, |c.colorWeight|) && PixelAt(area, c, maxv) == v
  {
    var r, ps := c.radius, DiscPositions(c.radius);
    assert 0 < c.makx by {
      LatticeCount(r);
    }
    forall k | 0 <= k < c.makx ensures ps[k] < |area| && area[ps[k]] == v && c.spaceWeight[k] > 0.0 {
      assert ps[k] < WindowLen(r);
    }
    FlatKernel(area, c, ps, Centre(r), c.makx, maxv, v);
  }

  /** A window of one intensity `v` is left at `v` by the kernel as written, which needs only one visited
      offset. */
  lemma FlatPixelAsWritten(area: seq<nat>, c: BilateralCoeffs, maxv: nat, v: nat)
    requires 0 < c.makx && PositiveWeights(c) && 0 < |area| && v <= maxv && v < |c.colorWeight|
    requires forall t :: 0 <= t < |area| ==> area[t] == v
    requires MidAsWritten(c.radius) < |area|
    ensures AllBelow(area, |c.colorWeight|)
    ensures KernelValue(area, c, Identity(|area|), MidAsWritten(c.radius), AsWrittenCount(area, c), maxv) == v
  {
    var ps, n := Identity(|area|), AsWrittenCount(area, c);
    forall k | 0 <= k < n ensures area[ps[k]] == v && c.spaceWeight[k] > 0.0 {
      assert ps[k] == k && k < c.makx;
    }
    FlatKernel(area, c, ps, MidAsWritten(c.radius), n, maxv, v);
  }

  /** A window of one intensity `v` is left at `v`, by either kernel. */
  lemma FlatPixel(k: Kernel, area: seq<nat>, c: BilateralCoeffs, maxv: nat, v: nat)
    requires WellFormed(c) && PositiveWeights(c) && |area| == WindowLen(c.radius) && v <= maxv && v < |c.colorWeight|
    requires forall t :: 0 <= t < |area| ==> area[t] == v
    ensures AllBelow(area, |c.colorWeight|) && Pixel(k, area, c, maxv) == v
  {
    if k == AsWritten {
      LatticeCount(c.radius);
      FlatPixelAsWritten(area, c, maxv, v);
    } else {
      FlatPixelCorrected(area, c, maxv, v);
    }
  }

  /** A positive weight sum and a sum that is `v` times it narrow to `v`. */
  lemma NarrowFlat(a: Acc, v: nat, maxv: nat)
    requires a.wsum > 0.0 && a.sum == v as real * a.wsum && v <= maxv
    ensures Narrow(a, maxv) == v
  {
    assert a.sum / a.wsum == v as real;
    assert RoundHalfAway(v as real) == v;
  }

  /** With positive weights, an image of one intensity is its own filtered image, with either kernel. */
  lemma FilterKeepsFlatImage(k: Kernel, src: seq<nat>, w: nat, h: nat, c: BilateralCoeffs, maxv: nat, v: nat)
    requires |src| == Slot(h, w, 0) && WellFormed(c) && PositiveWeights(c) && v <= maxv && v < |c.colorWeight|
    requires forall q :: 0 <= q < |src| ==> src[q] == v
    ensures AllBelow(src, |c.colorWeight|) && Filtered(k, src, w, h, c, maxv) == src
  {
    var out := Filtered(k, src, w, h, c, maxv);
    forall q | 0 <= q < |src| ensures out[q] == src[q] {
      GroupBelow(q, w, h);
      var area := WindowAt(src, w, h, c.radius, Group(q, w), Place(q, w));
      forall t | 0 <= t < |area| ensures area[t] == v {
        assert area[t] == src[Source(w, h, c.radius, Group(q, w), Place(q, w), t)];
      }
      FlatPixel(k, area, c, maxv, v);
    }
  }

  /** Past radius 0 the corrected kernel ignores window entry 0, the top-left corner: windows that differ only
      there give the same pixel. */
  lemma CornerIgnored(a1: seq<nat>, a2: seq<nat>, c: BilateralCoeffs, maxv: nat)
    requires WellFormed(c) && c.radius >= 1 && |a1| == |a2| == WindowLen(c.radius)
    requires AllBelow(a1, |c.colorWeight|) && AllBelow(a2, |c.colorWeight|)
    requires forall t :: 0 < t < |a1| ==> a1[t] == a2[t]
    ensures PixelAt(a1, c, maxv) == PixelAt(a2, c, maxv)
  {
    var r := c.radius;
    forall p | InBox(p, r) && InDisc(p.di, p.dj, r) ensures a1[WindowIndex(r, p)] == a2[WindowIndex(r, p)] {
      CornerOutsideDisc(r);
      if WindowIndex(r, p) == 0 {
        CornerIndex(r, p);
      }
    }
    DiscOnly(a1, a2, c, maxv);
  }

  /** Coefficients of radius 1 whose visited space weights and colour weights are all 1. */
  predicate UnitRadiusOne(c: BilateralCoeffs)
  {
    c.radius == 1 && c.makx == 5 && |c.spaceWeight| == 9 && |c.colorWeight| == 256 &&
    (forall k :: 0 <= k < 5 ==> c.spaceWeight[k] == 1.0) && (forall i :: 0 <= i < 256 ==> c.colorWeight[i] == 1.0)
  }

  /** A diameter hint of 3 and an `exp` that is constantly 1 give such coefficients. */
  lemma UnitCoeffs(ops: FloatOps, f: BilateralFilter)
    requires f.d == 3 && forall x :: ops.exp(x) == 1.0
    ensures WellFormed(CoeffsOf(ops, f, 256, SpaceSlots(f))) && UnitRadiusOne(CoeffsOf(ops, f, 256, SpaceSlots(f)))
  {
    LatticeCountRadiusOne();
    var c := CoeffsOf(ops, f, 256, SpaceSlots(f));
    assert Radius(f) == 1;
    forall k | 0 <= k < 5 ensures c.spaceWeight[k] == 1.0 {
      assert c.spaceWeight[k] == SpaceWeight(ops, f, LatticePoints(1)[k]);
    }
    forall i | 0 <= i < 256 ensures c.colorWeight[i] == 1.0 {
      assert c.colorWeight[i] == ColorWeight(ops, f, i);
    }
  }

  /** The sum of the intensities at the first `n` paired positions. */
  function Total(area: seq<nat>, ps: seq<nat>, n: nat): nat
    requires n <= |ps| && forall k :: 0 <= k < |ps| ==> ps[k] < |area|
  {
    if n == 0 then 0 else Total(area, ps, n - 1) + area[ps[n - 1]]
  }

  /** With unit weights the sums are the plain total and the pair count. */
  lemma {:induction false} UnitSums(area: seq<nat>, c: BilateralCoeffs, val0: nat, ps: seq<nat>, n: nat)
    requires KernelArgs(area, c, ps, 0, n) && val0 < |c.colorWeight|
    requires forall k :: 0 <= k < n ==> c.spaceWeight[k] == 1.0
    requires forall i :: 0 <= i < |c.colorWeight| ==> c.colorWeight[i] == 1.0
    ensures Sums(area, c, val0, ps, n) == Acc(Total(area, ps, n) as real, n as real)
  {
    if n > 0 {
      UnitSums(area, c, val0, ps, n - 1);
      assert PairWeight(area, c, val0, ps, n - 1) == 1.0;
    }
  }

  /** As written, the first five entries of the window are averaged, the top-left corner among them. */
  lemma AsWrittenOnUnit(c: BilateralCoeffs, a: seq<nat>)
    requires UnitRadiusOne(c) && |a| == 9 && AllBelow(a, 256) && a[1] == a[2] == a[3] == a[4] == 0
    ensures BilateralPixelAsWritten(a, c, 255) == Narrow(Acc(a[0] as real, 5.0), 255)
  {
    var ps := Identity(9);
    assert AsWrittenCount(a, c) == 5 && MidAsWritten(1) == 1;
    UnitSums(a, c, 0, ps, 5);
    assert Total(a, ps, 1) == a[0];
    assert Total(a, ps, 2) == a[0];
    assert Total(a, ps, 3) == a[0];
    assert Total(a, ps, 4) == a[0];
    assert Total(a, ps, 5) == a[0];
  }

  /** Unit weights are positive. */
  lemma UnitPositive(c: BilateralCoeffs)
    requires UnitRadiusOne(c)
    ensures PositiveWeights(c)
  {
    assert c.colorWeight[0] == 1.0;
  }

  /** A total of 9 over five unit weights rounds to 2, a total of 0 to 0. */
  lemma NarrowFifths(x: nat)
    requires x == 9 || x == 0
    ensures Narrow(Acc(x as real, 5.0), 255) == if x == 9 then 2 else 0
  {
    if x == 9 {
      assert 9.0 / 5.0 == 1.8;
      assert (1.8 + 0.5).Floor == 2;
    } else {
      NarrowFlat(Acc(x as real, 5.0), 0, 255);
    }
  }

  /** With unit weights of radius 1, a window that is zero except for a 9 in its top-left corner, an offset
      outside the disc, comes out as 2 from the kernel as written. */
  lemma UnitCornerAsWritten(c: BilateralCoeffs, a: seq<nat>)
    requires UnitRadiusOne(c) && |a| == 9 && a[0] == 9
    requires forall t :: 0 < t < 9 ==> a[t] == 0
    ensures |a| == WindowLen(c.radius) && AllBelow(a, 256)
    ensures BilateralPixelAsWritten(a, c, 255) == 2
  {
    assert AllBelow(a, 256);
    AsWrittenOnUnit(c, a);
    NarrowFifths(a[0]);
  }

  /** The all-zero window comes out as 0 from the kernel as written. */
  lemma UnitZeroAsWritten(c: BilateralCoeffs, z: seq<nat>)
    requires UnitRadiusOne(c) && |z| == 9
    requires forall t :: 0 <= t < 9 ==> z[t] == 0
    ensures |z| == WindowLen(c.radius) && AllBelow(z, 256)
    ensures BilateralPixelAsWritten(z, c, 255) == 0
  {
    assert AllBelow(z, 256);
    AsWrittenOnUnit(c, z);
    NarrowFifths(z[0]);
  }

  /** Past radius 0, with positive weights, the corrected kernel gives 0 for a window that is zero everywhere
      except, perhaps, in its top-left corner. */
  lemma CornerOnlyIsZero(a: seq<nat>, c: BilateralCoeffs, maxv: nat)
    requires WellFormed(c) && PositiveWeights(c) && c.radius >= 1
    requires |a| == WindowLen(c.radius) && AllBelow(a, |c.colorWeight|)
    requires forall t :: 0 < t < |a| ==> a[t] == 0
    ensures PixelAt(a, c, maxv) == 0
  {
    var z := seq(|a|, _ => 0);
    FlatPixelCorrected(z, c, maxv, 0);
    CornerIgnored(a, z, c, maxv);
  }

  /** Helper for AsWrittenReadsOutsideDisc: the entries of its two literal windows. Kept apart because
      unfolding the literal sequences inside the larger proof is too costly for the verifier. */
  lemma CornerWindows()
    ensures var a1, a2 := [9, 0, 0, 0, 0, 0, 0, 0, 0], [0, 0, 0, 0, 0, 0, 0, 0, 0];
      |a1| == |a2| == 9 && a1[0] == 9 && (forall t :: 0 < t < 9 ==> a1[t] == 0) && forall t :: 0 <= t < 9 ==> a2[t] == 0
  {
  }

  /** The counterexample: for a diameter hint of 3 and an `exp` that is constantly 1, the kernel as written
      tells apart two windows that differ only outside the disc, and the corrected kernel does not. */
  lemma AsWrittenReadsOutsideDisc(ops: FloatOps, f: BilateralFilter)
    requires f.d == 3 && forall x :: ops.exp(x) == 1.0
    ensures var c := CoeffsOf(ops, f, 256, SpaceSlots(f));
      var a1, a2 := [9, 0, 0, 0, 0, 0, 0, 0, 0], [0, 0, 0, 0, 0, 0, 0, 0, 0];
      |a1| == |a2| == WindowLen(c.radius) && AllBelow(a1, 256) && AllBelow(a2, 256) &&
      BilateralPixelAsWritten(a1, c, 255) == 2 && BilateralPixelAsWritten(a2, c, 255) == 0 &&
      PixelAt(a1, c, 255) == 0 && PixelAt(a2, c, 255) == 0
  {
    var c := CoeffsOf(ops, f, 256, SpaceSlots(f));
    UnitCoeffs(ops, f);
    UnitPositive(c);
    var a1, a2 := [9, 0, 0, 0, 0, 0, 0, 0, 0], [0, 0, 0, 0, 0, 0, 0, 0, 0];
    CornerWindows();
    UnitCornerAsWritten(c, a1);
    UnitZeroAsWritten(c, a2);
    CornerOnlyIsZero(a1, c, 255);
    CornerOnlyIsZero(a2, c, 255);
  }
}
