/** The local change-detection pipeline: NDVI from red and near-infrared
    bands, forest masks by a fixed or automatic threshold, optional
    morphological cleanup, hectare areas, percentages and the loss mask.
    Reading and writing rasters is left to the caller: bands arrive as
    grids with the two scale terms of their affine transform. */
module LocalPipeline {
  import opened Grids
  import opened Utils

  /** Floor of the NDVI denominator. */
  const Eps: real := 0.000001

  /** Square metres per hectare. */
  const SquareMetresPerHectare: real := 10000.0

  // ---------------------------------------------------------------------
  // NDVI

  /** nir + red clipped from below at Eps. */
  function Denominator(red: real, nir: real): (d: real)
    ensures d >= Eps && d >= nir + red
    ensures d == nir + red || d == Eps
  {
    if nir + red < Eps then Eps else nir + red
  }

  /** The NDVI of one pixel. */
  function NdviPixel(red: real, nir: real): (v: real)
    ensures v * Denominator(red, nir) == nir - red
  {
    (nir - red) / Denominator(red, nir)
  }

  /** The NDVI raster of a red and a near-infrared band of the same shape. */
  function ComputeNdvi(red: Grid<real>, nir: Grid<real>): (ndvi: Grid<real>)
    requires SameShape(red, nir)
    ensures SameShape(ndvi, red)
  {
    seq(|red|, i requires 0 <= i < |red| =>
      seq(|red[i]|, j requires 0 <= j < |red[i]| => NdviPixel(red[i][j], nir[i][j])))
  }

  /** Every NDVI pixel comes from the samples at its own position, and its
      denominator is at least Eps, so the division is always defined. */
  lemma NdviAt(red: Grid<real>, nir: Grid<real>, i: nat, j: nat)
    requires SameShape(red, nir) && i < |red| && j < |red[i]|
    ensures Denominator(red[i][j], nir[i][j]) >= Eps
    ensures ComputeNdvi(red, nir)[i][j] * Denominator(red[i][j], nir[i][j]) == nir[i][j] - red[i][j]
  {
  }

  /** Above the floor, NDVI is the textbook normalised difference. */
  lemma NdviUnclipped(red: real, nir: real)
    requires nir + red >= Eps
    ensures NdviPixel(red, nir) == (nir - red) / (nir + red)
  {
  }

  /** Equal bands give an NDVI of zero. */
  lemma NdviOfEqualBands(x: real)
    ensures NdviPixel(x, x) == 0.0
  {
  }

  /** NDVI is positive exactly when near-infrared exceeds red, negative
      exactly when it is below. */
  lemma NdviSign(red: real, nir: real)
    ensures NdviPixel(red, nir) > 0.0 <==> nir > red
    ensures NdviPixel(red, nir) < 0.0 <==> nir < red
  {
  }

  /** For non-negative reflectances NDVI lies in [-1, 1]. */
  lemma NdviRange(red: real, nir: real)
    requires red >= 0.0 && nir >= 0.0
    ensures -1.0 <= NdviPixel(red, nir) <= 1.0
  {
    var d := Denominator(red, nir);
    QuotientBounded(nir - red, d);
  }

  /** A quotient whose numerator is within the denominator's magnitude lies in [-1, 1]. */
  lemma QuotientBounded(x: real, d: real)
    requires d > 0.0 && -d <= x <= d
    ensures -1.0 <= x / d <= 1.0
  {
  }

  // ---------------------------------------------------------------------
  // Pixel geometry

  /** A band as read from its raster: the samples and the diagonal scale
      terms `a` and `e` of the affine transform. */
  datatype Band = Band(samples: Grid<real>, a: real, e: real)

  /** Python's `abs` on a real. */
  function Abs(x: real): (r: real)
    ensures r >= 0.0 && (r == x || r == -x)
  {
    if x < 0.0 then -x else x
  }

  /** Ground area of one pixel, |a * e|. */
  function PixelArea(b: Band): (area: real)
    ensures area >= 0.0
    ensures area == b.a * b.e || area == -(b.a * b.e)
  {
    Abs(b.a * b.e)
  }

  /** Flipping the row or the column direction does not change the pixel area. */
  lemma PixelAreaIgnoresOrientation(b: Band)
    ensures PixelArea(b.(a := -b.a)) == PixelArea(b)
    ensures PixelArea(b.(e := -b.e)) == PixelArea(b)
  {
  }

  // ---------------------------------------------------------------------
  // Segmentation and cleanup

  /** The library routines the pipeline calls and whose code is not part of
      this model: Otsu's threshold of a population of values, binary
      closing with a disk of the given radius, and removal of connected
      components smaller than the given size. */
  datatype Skimage = Skimage(
    thresholdOtsu: seq<real> -> real,
    binaryClosing: (Mask, nat) -> Mask,
    removeSmallObjects: (Mask, nat) -> Mask)

  /** Closing and small-object removal return a mask of their input's shape. */
  ghost predicate KeepsShape(lib: Skimage)
  {
    (forall m: Mask, r: nat :: SameShape(lib.binaryClosing(m, r), m)) &&
    (forall m: Mask, r: nat :: SameShape(lib.removeSmallObjects(m, r), m))
  }

  /** Forest where NDVI is strictly above t. */
  function Threshold(ndvi: Grid<real>, t: real): (m: Mask)
    ensures SameShape(m, ndvi)
  {
    seq(|ndvi|, i requires 0 <= i < |ndvi| =>
      seq(|ndvi[i]|, j requires 0 <= j < |ndvi[i]| => ndvi[i][j] > t))
  }

  /** The caller's threshold, or Otsu's threshold of the raster's values. */
  function ThresholdFor(ndvi: Grid<real>, ndviThresh: Option<real>, otsu: seq<real> -> real): (t: real)
    ensures ndviThresh == Some(t) || (ndviThresh == None && t == otsu(Flatten(ndvi)))
  {
    match ndviThresh
    case Some(t) => t
    case None => otsu(Flatten(ndvi))
  }

  /** The raw forest mask of one NDVI raster. */
  function Segment(ndvi: Grid<real>, ndviThresh: Option<real>, otsu: seq<real> -> real): (m: Mask)
    ensures SameShape(m, ndvi)
    ensures ndviThresh.Some? ==> m == Threshold(ndvi, ndviThresh.value)
    ensures ndviThresh.None? ==> m == Threshold(ndvi, otsu(Flatten(ndvi)))
  {
    Threshold(ndvi, ThresholdFor(ndvi, ndviThresh, otsu))
  }

  /** With an explicit threshold both masks are `ndvi > t` with that same t,
      pixel for pixel, and Otsu's method is never consulted. */
  lemma FixedThresholdSegment(ndvi0: Grid<real>, ndvi1: Grid<real>, t: real,
                              otsu: seq<real> -> real, otsu': seq<real> -> real)
    ensures Segment(ndvi0, Some(t), otsu) == Segment(ndvi0, Some(t), otsu')
    ensures forall i, j :: 0 <= i < |ndvi0| && 0 <= j < |ndvi0[i]| ==>
      (Segment(ndvi0, Some(t), otsu)[i][j] <==> ndvi0[i][j] > t)
    ensures forall i, j :: 0 <= i < |ndvi1| && 0 <= j < |ndvi1[i]| ==>
      (Segment(ndvi1, Some(t), otsu)[i][j] <==> ndvi1[i][j] > t)
  {
  }

  /** Closing when the radius is positive, then small-object removal when
      the minimum patch size is positive. */
  function Clean(m: Mask, morphRadius: int, minPatchPixels: int, lib: Skimage): (r: Mask)
    ensures morphRadius <= 0 && minPatchPixels <= 0 ==> r == m
  {
    var closed := if morphRadius > 0 then lib.binaryClosing(m, morphRadius) else m;
    if minPatchPixels > 0 then lib.removeSmallObjects(closed, minPatchPixels) else closed
  }

  /** Each cleanup step runs only when its parameter is positive, closing
      always before small-object removal; with both off the mask is unchanged. */
  lemma CleanGating(m: Mask, morphRadius: int, minPatchPixels: int, lib: Skimage)
    ensures morphRadius <= 0 && minPatchPixels <= 0 ==> Clean(m, morphRadius, minPatchPixels, lib) == m
    ensures morphRadius > 0 && minPatchPixels <= 0 ==>
      Clean(m, morphRadius, minPatchPixels, lib) == lib.binaryClosing(m, morphRadius)
    ensures morphRadius <= 0 && minPatchPixels > 0 ==>
      Clean(m, morphRadius, minPatchPixels, lib) == lib.removeSmallObjects(m, minPatchPixels)
    ensures morphRadius > 0 && minPatchPixels > 0 ==>
      Clean(m, morphRadius, minPatchPixels, lib)
        == lib.removeSmallObjects(lib.binaryClosing(m, morphRadius), minPatchPixels)
  {
  }

  /** Cleanup keeps the mask's shape when the library routines do. */
  lemma CleanKeepsShape(m: Mask, morphRadius: int, minPatchPixels: int, lib: Skimage)
    requires KeepsShape(lib)
    ensures SameShape(Clean(m, morphRadius, minPatchPixels, lib), m)
  {
  }

  // ---------------------------------------------------------------------
  // Loss mask

  /** Forest in the past and not in the present. */
  function ChangeRow(past: seq<bool>, present: seq<bool>): (c: seq<bool>)
    requires |past| == |present|
    ensures |c| == |past|
    ensures forall j :: 0 <= j < |c| ==> (c[j] <==> past[j] && !present[j])
  {
    seq(|past|, j requires 0 <= j < |past| => past[j] && !present[j])
  }

  /** The loss mask: pixels that were forest and no longer are. */
  function ChangeMask(past: Mask, present: Mask): (c: Mask)
    requires SameShape(past, present)
    ensures SameShape(c, past)
  {
    seq(|past|, i requires 0 <= i < |past| => ChangeRow(past[i], present[i]))
  }

  lemma {:induction false} ChangeRowCount(past: seq<bool>, present: seq<bool>)
    requires |past| == |present|
    ensures CountRow(ChangeRow(past, present)) <= CountRow(past)
    ensures CountRow(ChangeRow(past, present)) + CountRow(present) >= CountRow(past)
  {
    if past != [] {
      var n := |past|;
      assert ChangeRow(past, present)[..n - 1] == ChangeRow(past[..n - 1], present[..n - 1]);
      ChangeRowCount(past[..n - 1], present[..n - 1]);
    }
  }

  /** Lost pixels are at most the past forest pixels, and at least the past
      forest pixels minus the present ones. */
  lemma {:induction false} ChangeCountBounds(past: Mask, present: Mask)
    requires SameShape(past, present)
    ensures Count(ChangeMask(past, present)) <= Count(past)
    ensures Count(ChangeMask(past, present)) + Count(present) >= Count(past)
  {
    if past != [] {
      var n := |past|;
      assert ChangeMask(past, present)[..n - 1] == ChangeMask(past[..n - 1], present[..n - 1]);
      ChangeCountBounds(past[..n - 1], present[..n - 1]);
      ChangeRowCount(past[n - 1], present[n - 1]);
    }
  }

  /** Identical masks give an all-false loss mask. */
  lemma ChangeOfIdentical(m: Mask)
    ensures forall i, j :: 0 <= i < |m| && 0 <= j < |m[i]| ==> !ChangeMask(m, m)[i][j]
    ensures Count(ChangeMask(m, m)) == 0
  {
    CountAllFalse(ChangeMask(m, m));
  }

  /** With no present forest the loss mask is the past mask. */
  lemma ChangeOfEmptyPresent(past: Mask, present: Mask)
    requires SameShape(past, present)
    requires forall i, j :: 0 <= i < |present| && 0 <= j < |present[i]| ==> !present[i][j]
    ensures ChangeMask(past, present) == past
  {
    var c := ChangeMask(past, present);
    forall i | 0 <= i < |past|
      ensures c[i] == past[i]
    {
      assert forall j :: 0 <= j < |past[i]| ==> !present[i][j];
    }
  }

  // ---------------------------------------------------------------------
  // The whole run

  /** The threshold as the report records it. */
  datatype ThresholdUsed = Fixed(value: real) | Otsu

  /** The report of one local run (values before rounding). */
  datatype Report = Report(
    region: string,
    pastWindow: seq<string>,
    presentWindow: seq<string>,
    totalAreaHa: real,
    forestAreaPastHa: real,
    forestAreaPresentHa: real,
    remainingPercent: real,
    deforestationPercent: real,
    ndviThresholdUsed: ThresholdUsed)

  /** What a run produces: the report, the two cleaned masks, the loss mask,
      and whether the pixel-area warning was issued. */
  datatype Outcome = Outcome(
    report: Report,
    pastMask: Mask,
    presentMask: Mask,
    changeMask: Mask,
    pixelAreaWarning: bool)

  /** The four input bands and the run's parameters. */
  datatype Inputs = Inputs(
    redPast: Band, nirPast: Band, redPresent: Band, nirPresent: Band,
    ndviThresh: Option<real>, minPatchPixels: int, morphRadius: int)

  /** All four bands have the same shape. */
  predicate WellShaped(inp: Inputs)
  {
    SameShape(inp.redPast.samples, inp.nirPast.samples) &&
    SameShape(inp.redPast.samples, inp.redPresent.samples) &&
    SameShape(inp.redPresent.samples, inp.nirPresent.samples)
  }

  const LocalWindow: seq<string> := ["(local)", "(local)"]

  /** Hectares covered by count pixels of the given area in square metres. */
  function AreaHa(count: nat, pixelArea: real): (ha: real)
    ensures ha * SquareMetresPerHectare == count as real * pixelArea
    ensures pixelArea >= 0.0 ==> ha >= 0.0
  {
    (count as real * pixelArea) / SquareMetresPerHectare
  }

  function ThresholdUsedFor(ndviThresh: Option<real>): (used: ThresholdUsed)
    ensures used == Otsu <==> ndviThresh == None
    ensures ndviThresh.Some? ==> used == Fixed(ndviThresh.value)
  {
    match ndviThresh
    case Some(t) => Fixed(t)
    case None => Otsu
  }

  /** The cleaned past forest mask; without cleanup, the thresholded NDVI. */
  function PastMask(inp: Inputs, lib: Skimage): (m: Mask)
    requires WellShaped(inp)
    ensures var ndvi := ComputeNdvi(inp.redPast.samples, inp.nirPast.samples);
      inp.morphRadius <= 0 && inp.minPatchPixels <= 0 ==>
        m == Threshold(ndvi, ThresholdFor(ndvi, inp.ndviThresh, lib.thresholdOtsu))
  {
    var ndvi := ComputeNdvi(inp.redPast.samples, inp.nirPast.samples);
    Clean(Segment(ndvi, inp.ndviThresh, lib.thresholdOtsu), inp.morphRadius, inp.minPatchPixels, lib)
  }

  /** The cleaned present forest mask; without cleanup, the thresholded NDVI. */
  function PresentMask(inp: Inputs, lib: Skimage): (m: Mask)
    requires WellShaped(inp)
    ensures var ndvi := ComputeNdvi(inp.redPresent.samples, inp.nirPresent.samples);
      inp.morphRadius <= 0 && inp.minPatchPixels <= 0 ==>
        m == Threshold(ndvi, ThresholdFor(ndvi, inp.ndviThresh, lib.thresholdOtsu))
  {
    var ndvi := ComputeNdvi(inp.redPresent.samples, inp.nirPresent.samples);
    Clean(Segment(ndvi, inp.ndviThresh, lib.thresholdOtsu), inp.morphRadius, inp.minPatchPixels, lib)
  }

  lemma MasksShape(inp: Inputs, lib: Skimage)
    requires WellShaped(inp) && KeepsShape(lib)
    ensures SameShape(PastMask(inp, lib), inp.redPast.samples)
    ensures SameShape(PresentMask(inp, lib), inp.redPast.samples)
    ensures SameShape(PastMask(inp, lib), PresentMask(inp, lib))
  {
  }

  /** The outcome of a run, as a function of its inputs. */
  function Pipeline(inp: Inputs, lib: Skimage): (o: Outcome)
    requires WellShaped(inp) && KeepsShape(lib)
    ensures SameShape(o.pastMask, inp.redPast.samples) && SameShape(o.presentMask, inp.redPast.samples)
    ensures SameShape(o.changeMask, inp.redPast.samples)
    ensures o.pixelAreaWarning <==> Abs(PixelArea(inp.redPast) - PixelArea(inp.redPresent)) > Eps
    ensures o.report.ndviThresholdUsed == ThresholdUsedFor(inp.ndviThresh)
    ensures o.report.region == "AOI" && o.report.pastWindow == LocalWindow && o.report.presentWindow == LocalWindow
  {
    MasksShape(inp, lib);
    var pa0, pa1 := PixelArea(inp.redPast), PixelArea(inp.redPresent);
    var mask0, mask1 := PastMask(inp, lib), PresentMask(inp, lib);
    var pastHa, presHa := AreaHa(Count(mask0), pa0), AreaHa(Count(mask1), pa0);
    var pct := PercentFromAreas(pastHa, presHa);
    var report := Report("AOI", LocalWindow, LocalWindow, AreaHa(Size(mask0), pa0), pastHa, presHa,
                         pct.remaining, pct.loss, ThresholdUsedFor(inp.ndviThresh));
    Outcome(report, mask0, mask1, ChangeMask(mask0, mask1), Abs(pa0 - pa1) > Eps)
  }

  /** The number of forest pixels of a mask, row by row. */
  method SumMask(m: Mask) returns (n: nat)
    ensures n == Count(m)
  {
    n := 0;
    for i := 0 to |m|
      invariant n == Count(m[..i])
    {
      var row := m[i];
      var k: nat := 0;
      for j := 0 to |row|
        invariant k == CountRow(row[..j])
      {
        assert row[..j + 1][..j] == row[..j];
        if row[j] {
          k := k + 1;
        }
      }
      assert row[..|row|] == row;
      assert m[..i + 1][..i] == m[..i];
      n := n + k;
    }
    assert m[..|m|] == m;
  }

  /** One local run: NDVI, thresholding, the guarded cleanup steps, areas
      from the past raster's pixel area, percentages and the loss mask. */
  method Run(inp: Inputs, lib: Skimage) returns (out: Outcome)
    requires WellShaped(inp) && KeepsShape(lib)
    ensures out == Pipeline(inp, lib)
    ensures 0.0 <= out.report.forestAreaPastHa <= out.report.totalAreaHa
    ensures 0.0 <= out.report.forestAreaPresentHa <= out.report.totalAreaHa
    ensures Count(out.changeMask) <= Count(out.pastMask)
  {
    var pa0 := PixelArea(inp.redPast);
    var pa1 := PixelArea(inp.redPresent);
    var warned := Abs(pa0 - pa1) > Eps;
    var pixArea := pa0;

    var ndvi0 := ComputeNdvi(inp.redPast.samples, inp.nirPast.samples);
    var ndvi1 := ComputeNdvi(inp.redPresent.samples, inp.nirPresent.samples);

    var mask0 := Segment(ndvi0, inp.ndviThresh, lib.thresholdOtsu);
    var mask1 := Segment(ndvi1, inp.ndviThresh, lib.thresholdOtsu);

    if inp.morphRadius > 0 {
      mask0 := lib.binaryClosing(mask0, inp.morphRadius);
      mask1 := lib.binaryClosing(mask1, inp.morphRadius);
    }
    if inp.minPatchPixels > 0 {
      mask0 := lib.removeSmallObjects(mask0, inp.minPatchPixels);
      mask1 := lib.removeSmallObjects(mask1, inp.minPatchPixels);
    }
    assert mask0 == PastMask(inp, lib);
    assert mask1 == PresentMask(inp, lib);
    MasksShape(inp, lib);

    var count0 := SumMask(mask0);
    var count1 := SumMask(mask1);
    var pastHa := AreaHa(count0, pixArea);
    var presHa := AreaHa(count1, pixArea);
    var pct := PercentFromAreas(pastHa, presHa);

    var report := Report("AOI", LocalWindow, LocalWindow,
                         AreaHa(Size(mask0), pixArea),
                         pastHa, presHa, pct.remaining, pct.loss,
                         ThresholdUsedFor(inp.ndviThresh));
    var changeMask := ChangeMask(mask0, mask1);
    out := Outcome(report, mask0, mask1, changeMask, warned);
    assert out == Pipeline(inp, lib);
    PipelineAreas(inp, lib);
    PipelineLossMask(inp, lib);
  }

  // ---------------------------------------------------------------------
  // Properties of a run

  /** More pixels never cover less area. */
  lemma AreaMonotone(c0: nat, c1: nat, pixelArea: real)
    requires c0 <= c1 && pixelArea >= 0.0
    ensures 0.0 <= AreaHa(c0, pixelArea) <= AreaHa(c1, pixelArea)
  {
  }

  /** Each forest area is its mask's pixel count times the past raster's
      pixel area, in hectares, and lies between 0 and the total area, which
      is the raster's pixel count times that same pixel area. */
  lemma PipelineAreas(inp: Inputs, lib: Skimage)
    requires WellShaped(inp) && KeepsShape(lib)
    ensures Pipeline(inp, lib).report.totalAreaHa == AreaHa(Size(inp.redPast.samples), PixelArea(inp.redPast))
    ensures Pipeline(inp, lib).report.forestAreaPastHa == AreaHa(Count(Pipeline(inp, lib).pastMask), PixelArea(inp.redPast))
    ensures Pipeline(inp, lib).report.forestAreaPresentHa == AreaHa(Count(Pipeline(inp, lib).presentMask), PixelArea(inp.redPast))
    ensures 0.0 <= Pipeline(inp, lib).report.forestAreaPastHa <= Pipeline(inp, lib).report.totalAreaHa
    ensures 0.0 <= Pipeline(inp, lib).report.forestAreaPresentHa <= Pipeline(inp, lib).report.totalAreaHa
  {
    MasksShape(inp, lib);
    var mask0, mask1 := PastMask(inp, lib), PresentMask(inp, lib);
    SizeOfSameShape(mask0, inp.redPast.samples);
    SizeOfSameShape(mask1, inp.redPast.samples);
    AreaMonotone(Count(mask0), Size(mask0), PixelArea(inp.redPast));
    AreaMonotone(Count(mask1), Size(mask0), PixelArea(inp.redPast));
  }

  /** The report's percentages are those of its two forest areas: (0, 0)
      without past forest area, otherwise adding up to 100, and both in
      [0, 100] when the forest did not grow. */
  lemma PipelinePercentages(inp: Inputs, lib: Skimage)
    requires WellShaped(inp) && KeepsShape(lib)
    ensures var r := Pipeline(inp, lib).report;
      r.remainingPercent == PercentFromAreas(r.forestAreaPastHa, r.forestAreaPresentHa).remaining &&
      r.deforestationPercent == PercentFromAreas(r.forestAreaPastHa, r.forestAreaPresentHa).loss
    ensures var r := Pipeline(inp, lib).report;
      r.forestAreaPastHa <= 0.0 ==> r.remainingPercent == 0.0 && r.deforestationPercent == 0.0
    ensures var r := Pipeline(inp, lib).report;
      r.forestAreaPastHa > 0.0 ==> r.remainingPercent + r.deforestationPercent == 100.0
    ensures var r := Pipeline(inp, lib).report;
      r.forestAreaPastHa > 0.0 && r.forestAreaPresentHa <= r.forestAreaPastHa ==>
        0.0 <= r.remainingPercent <= 100.0 && 0.0 <= r.deforestationPercent <= 100.0
  {
    var r := Pipeline(inp, lib).report;
    PipelineAreas(inp, lib);
    if r.forestAreaPastHa > 0.0 {
      PercentagesSumTo100(r.forestAreaPastHa, r.forestAreaPresentHa);
      if r.forestAreaPresentHa <= r.forestAreaPastHa {
        PercentagesBounded(r.forestAreaPastHa, r.forestAreaPresentHa);
      }
    }
  }

  /** The report records the caller's threshold verbatim, or "Otsu". */
  lemma PipelineThresholdUsed(inp: Inputs, lib: Skimage)
    requires WellShaped(inp) && KeepsShape(lib)
    ensures inp.ndviThresh.None? <==> Pipeline(inp, lib).report.ndviThresholdUsed == Otsu
    ensures inp.ndviThresh.Some? ==>
      Pipeline(inp, lib).report.ndviThresholdUsed == Fixed(inp.ndviThresh.value)
  {
  }

  /** With an explicit threshold and cleanup switched off, the masks are
      exactly `ndvi > t` for both rasters, whatever Otsu's method would say. */
  lemma PipelineFixedThreshold(inp: Inputs, lib: Skimage, t: real)
    requires WellShaped(inp) && KeepsShape(lib)
    requires inp.ndviThresh == Some(t) && inp.morphRadius <= 0 && inp.minPatchPixels <= 0
    ensures Pipeline(inp, lib).pastMask == Threshold(ComputeNdvi(inp.redPast.samples, inp.nirPast.samples), t)
    ensures Pipeline(inp, lib).presentMask == Threshold(ComputeNdvi(inp.redPresent.samples, inp.nirPresent.samples), t)
  {
  }

  /** Without a threshold and with cleanup switched off, each mask is
      thresholded at Otsu's value of its own raster's pixels, so the past and
      the present may be cut at different values. */
  lemma PipelineOtsuThreshold(inp: Inputs, lib: Skimage)
    requires WellShaped(inp) && KeepsShape(lib)
    requires inp.ndviThresh == None && inp.morphRadius <= 0 && inp.minPatchPixels <= 0
    ensures var ndvi0 := ComputeNdvi(inp.redPast.samples, inp.nirPast.samples);
      Pipeline(inp, lib).pastMask == Threshold(ndvi0, lib.thresholdOtsu(Flatten(ndvi0)))
    ensures var ndvi1 := ComputeNdvi(inp.redPresent.samples, inp.nirPresent.samples);
      Pipeline(inp, lib).presentMask == Threshold(ndvi1, lib.thresholdOtsu(Flatten(ndvi1)))
  {
  }

  /** The warning fires exactly when the two pixel areas differ by more than
      Eps, and the present raster's transform has no other effect: only the
      past raster's pixel area enters the arithmetic. */
  lemma PipelineWarning(inp: Inputs, lib: Skimage, a': real, e': real)
    requires WellShaped(inp) && KeepsShape(lib)
    ensures Pipeline(inp, lib).pixelAreaWarning <==>
      Abs(PixelArea(inp.redPast) - PixelArea(inp.redPresent)) > Eps
    ensures var inp' := inp.(redPresent := inp.redPresent.(a := a', e := e'));
      WellShaped(inp') &&
      Pipeline(inp', lib) == Pipeline(inp, lib).(pixelAreaWarning := Pipeline(inp', lib).pixelAreaWarning)
  {
  }

  /** The loss mask has at most the past forest pixels and at least the past
      minus the present ones; unchanged masks lose nothing. */
  lemma PipelineLossMask(inp: Inputs, lib: Skimage)
    requires WellShaped(inp) && KeepsShape(lib)
    ensures var o := Pipeline(inp, lib);
      Count(o.changeMask) <= Count(o.pastMask) &&
      Count(o.changeMask) + Count(o.presentMask) >= Count(o.pastMask)
    ensures var o := Pipeline(inp, lib);
      o.pastMask == o.presentMask ==> Count(o.changeMask) == 0
  {
    var o := Pipeline(inp, lib);
    MasksShape(inp, lib);
    ChangeCountBounds(o.pastMask, o.presentMask);
    if o.pastMask == o.presentMask {
      ChangeOfIdentical(o.pastMask);
    }
  }

  /** A band of uniform samples thresholds to a uniform mask. */
  lemma UniformMask(h: nat, w: nat, red: real, nir: real, t: real)
    ensures SameShape(Filled(h, w, red), Filled(h, w, nir))
    ensures Threshold(ComputeNdvi(Filled(h, w, red), Filled(h, w, nir)), t) == Filled(h, w, NdviPixel(red, nir) > t)
  {
    var m := Threshold(ComputeNdvi(Filled(h, w, red), Filled(h, w, nir)), t);
    var expected := Filled(h, w, NdviPixel(red, nir) > t);
    forall i | 0 <= i < h
      ensures m[i] == expected[i]
    {
    }
  }

  /** Two 10 x 10 masks with 100 square-metre pixels. Both all forest:
      1 ha each (100 pixels of 100 square metres), 100% remaining, 0% lost,
      an empty loss mask. An all-forest past and a forest-free present: 1 ha
      and 0 ha, 0% remaining, 100% lost,
      and the loss mask is the past mask. */
  lemma EndToEndScenarios()
    ensures AreaHa(Size(Filled(10, 10, true)), 100.0) == 1.0
    ensures AreaHa(Count(Filled(10, 10, true)), 100.0) == 1.0
    ensures AreaHa(Count(Filled(10, 10, false)), 100.0) == 0.0
    ensures PercentFromAreas(1.0, 1.0) == Percentages(100.0, 0.0)
    ensures Count(ChangeMask(Filled(10, 10, true), Filled(10, 10, true))) == 0
    ensures PercentFromAreas(1.0, 0.0) == Percentages(0.0, 100.0)
    ensures ChangeMask(Filled(10, 10, true), Filled(10, 10, false)) == Filled(10, 10, true)
  {
    CountFilled(10, 10);
    assert (100 as real) * 100.0 == 10000.0;
    ChangeOfIdentical(Filled(10, 10, true));
    ChangeOfEmptyPresent(Filled(10, 10, true), Filled(10, 10, false));
  }

  /** A raster pair of uniform bands (red 0.1, near-infrared 0.5 in the past
      and 0.1 in the present) with the threshold 0.4 and no cleanup yields the
      all-forest past mask and the forest-free present mask of the scenario above. */
  lemma UniformScenarioMasks(lib: Skimage)
    requires KeepsShape(lib)
    ensures var red, forest, bare := Band(Filled(10, 10, 0.1), 10.0, -10.0),
                                     Band(Filled(10, 10, 0.5), 10.0, -10.0),
                                     Band(Filled(10, 10, 0.1), 10.0, -10.0);
      var inp := Inputs(red, forest, red, bare, Some(0.4), 0, 0);
      WellShaped(inp) && PixelArea(red) == 100.0 &&
      PastMask(inp, lib) == Filled(10, 10, true) &&
      PresentMask(inp, lib) == Filled(10, 10, false)
  {
    UniformMask(10, 10, 0.1, 0.5, 0.4);
    UniformMask(10, 10, 0.1, 0.1, 0.4);
    assert NdviPixel(0.1, 0.5) > 0.4;
    NdviOfEqualBands(0.1);
  }

  /** The uniform scenario run end to end: the report gives 1 ha of total
      and past forest, 0 ha of present forest, 0% remaining and 100% lost,
      and the loss mask is the all-forest past mask. */
  lemma UniformScenarioReport(lib: Skimage)
    requires KeepsShape(lib)
    ensures var red, forest, bare := Band(Filled(10, 10, 0.1), 10.0, -10.0),
                                     Band(Filled(10, 10, 0.5), 10.0, -10.0),
                                     Band(Filled(10, 10, 0.1), 10.0, -10.0);
      var inp := Inputs(red, forest, red, bare, Some(0.4), 0, 0);
      WellShaped(inp) &&
      Pipeline(inp, lib).report.totalAreaHa == 1.0 &&
      Pipeline(inp, lib).report.forestAreaPastHa == 1.0 &&
      Pipeline(inp, lib).report.forestAreaPresentHa == 0.0 &&
      Pipeline(inp, lib).report.remainingPercent == 0.0 &&
      Pipeline(inp, lib).report.deforestationPercent == 100.0 &&
      Pipeline(inp, lib).changeMask == Filled(10, 10, true)
  {
    var red, forest, bare := Band(Filled(10, 10, 0.1), 10.0, -10.0),
                             Band(Filled(10, 10, 0.5), 10.0, -10.0),
                             Band(Filled(10, 10, 0.1), 10.0, -10.0);
    var inp := Inputs(red, forest, red, bare, Some(0.4), 0, 0);
    UniformScenarioMasks(lib);
    PipelineAreas(inp, lib);
    PipelinePercentages(inp, lib);
    EndToEndScenarios();
    var r := Pipeline(inp, lib).report;
    assert r.totalAreaHa == 1.0;
    assert r.forestAreaPastHa == 1.0;
    assert r.forestAreaPresentHa == 0.0;
  }

}
