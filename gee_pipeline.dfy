/** The decision logic of the remote (Earth Engine) pipeline: which sensor
    supplies a window's NDVI, and how the two forest areas become a change
    percentage and a loss/gain label. The remote queries themselves are not
    modelled; their results (image counts, band names, the NDVI composite
    and the area reduction) are inputs. */
module GeePipeline {
  import opened Grids
  import opened Utils
  import LocalPipeline

  datatype DataSource = Sentinel2 | Modis

  /** The provenance label written to the report. */
  function Label(s: DataSource): (l: string)
    ensures l == "Sentinel-2" || l == "MODIS"
    ensures l == "MODIS" <==> s == Modis
  {
    match s
    case Sentinel2 => "Sentinel-2"
    case Modis => "MODIS"
  }

  /** The chosen source, whether the relaxed (no cloud filter) query was
      consulted, and whether the band names of a median were inspected. */
  datatype SourceChoice = SourceChoice(source: DataSource, relaxedQueried: bool, bandsInspected: bool)

  /** The fallback from Sentinel-2 to MODIS. strictCount is the number of
      Sentinel-2 images passing the cloud filter, relaxedCount the number
      without it, and bands the band names of the median of the collection
      that is used. */
  function ChooseSource(strictCount: nat, relaxedCount: nat, bands: seq<string>): (c: SourceChoice)
    ensures c.relaxedQueried <==> strictCount == 0
    ensures c.bandsInspected <==> strictCount > 0 || relaxedCount > 0
    ensures c.source == Sentinel2 <==> c.bandsInspected && "B8" in bands && "B4" in bands
  {
    var relaxed := strictCount == 0;
    var count := if relaxed then relaxedCount else strictCount;
    if count == 0 then SourceChoice(Modis, relaxed, false)
    else if !(forall b | b in ["B8", "B4"] :: b in bands) then SourceChoice(Modis, relaxed, true)
    else SourceChoice(Sentinel2, relaxed, true)
  }

  /** When the cloud-filtered query finds images, the relaxed count plays no part. */
  lemma RelaxedCountIgnored(strictCount: nat, relaxedCount: nat, relaxedCount': nat, bands: seq<string>)
    requires strictCount > 0
    ensures ChooseSource(strictCount, relaxedCount, bands) == ChooseSource(strictCount, relaxedCount', bands)
  {
  }

  /** Without any Sentinel-2 image the band list plays no part: MODIS is used. */
  lemma NoImagesMeansModis(bands: seq<string>, bands': seq<string>)
    ensures ChooseSource(0, 0, bands) == ChooseSource(0, 0, bands')
    ensures ChooseSource(0, 0, bands).source == Modis
  {
  }

  datatype ChangeType = Loss | Gain

  /** Signed change of forest area relative to the past, in percent; zero
      when there was no past forest area. */
  function ChangePercent(areaPast: real, areaPresent: real): (pct: real)
    ensures areaPast <= 0.0 ==> pct == 0.0
    ensures areaPast > 0.0 ==> pct * areaPast == (areaPresent - areaPast) * 100.0
  {
    if areaPast > 0.0 then ((areaPresent - areaPast) / areaPast) * 100.0 else 0.0
  }

  /** "Loss" for a negative change, otherwise "Gain". */
  function Classify(changePercent: real): (t: ChangeType)
    ensures t == Loss <==> changePercent < 0.0
  {
    if changePercent < 0.0 then Loss else Gain
  }

  /** The label is "Loss" exactly when there was past forest area and the
      present area is smaller; a zero baseline is labelled "Gain". */
  lemma LossIffShrank(areaPast: real, areaPresent: real)
    ensures Classify(ChangePercent(areaPast, areaPresent)) == Loss <==> areaPast > 0.0 && areaPresent < areaPast
    ensures areaPast <= 0.0 ==> Classify(ChangePercent(areaPast, areaPresent)) == Gain
  {
  }

  /** On the same two areas the remote pipeline's signed change is the
      negation of the local pipeline's deforestation percentage. */
  lemma ChangeIsNegatedLoss(areaPast: real, areaPresent: real)
    requires areaPast > 0.0
    ensures ChangePercent(areaPast, areaPresent) == -PercentFromAreas(areaPast, areaPresent).loss
  {
  }

  /** The report of one remote run (values before rounding). */
  datatype GeeReport = GeeReport(
    region: string,
    pastWindow: (string, string),
    presentWindow: (string, string),
    forestAreaPastHa: real,
    forestAreaPresentHa: real,
    changePercent: real,
    changeType: ChangeType,
    ndviThresholdUsed: real,
    dataSourcePast: string,
    dataSourcePresent: string)

  /** What the remote platform answered for one date window: the image
      counts of the strict and relaxed Sentinel-2 queries, the band names of
      the median, and the NDVI composite it finally supplied. */
  datatype WindowImagery = WindowImagery(strictCount: nat, relaxedCount: nat, bands: seq<string>, ndvi: Grid<real>)

  /** Forest where NDVI exceeds the threshold. */
  function ForestMask(ndvi: Grid<real>, threshold: real): (m: Mask)
    ensures SameShape(m, ndvi)
    ensures forall i, j :: 0 <= i < |m| && 0 <= j < |m[i]| ==> (m[i][j] <==> ndvi[i][j] > threshold)
  {
    LocalPipeline.Threshold(ndvi, threshold)
  }

  /** The remote run after the composites are fetched: both masks with the
      one threshold, both areas by the platform's reduction calcArea, the
      change percentage, its label, and the report. */
  function GeeRun(t0: (string, string), t1: (string, string), ndviThresh: real,
                  past: WindowImagery, present: WindowImagery, calcArea: Mask -> real): (r: GeeReport)
    ensures r.forestAreaPastHa == calcArea(ForestMask(past.ndvi, ndviThresh))
    ensures r.forestAreaPresentHa == calcArea(ForestMask(present.ndvi, ndviThresh))
    ensures r.region == "AOI" && r.pastWindow == t0 && r.presentWindow == t1
    ensures r.ndviThresholdUsed == ndviThresh
    ensures r.changePercent >= 0.0
    ensures r.forestAreaPastHa > 0.0 ==>
      r.changePercent * r.forestAreaPastHa == LocalPipeline.Abs(r.forestAreaPresentHa - r.forestAreaPastHa) * 100.0
    ensures r.forestAreaPastHa <= 0.0 ==> r.changePercent == 0.0 && r.changeType == Gain
    ensures r.changeType == Loss <==> r.forestAreaPastHa > 0.0 && r.forestAreaPresentHa < r.forestAreaPastHa
    ensures r.dataSourcePast == Label(ChooseSource(past.strictCount, past.relaxedCount, past.bands).source)
    ensures r.dataSourcePresent == Label(ChooseSource(present.strictCount, present.relaxedCount, present.bands).source)
  {
    var sourcePast := ChooseSource(past.strictCount, past.relaxedCount, past.bands).source;
    var sourceNow := ChooseSource(present.strictCount, present.relaxedCount, present.bands).source;
    var areaT0 := calcArea(ForestMask(past.ndvi, ndviThresh));
    var areaT1 := calcArea(ForestMask(present.ndvi, ndviThresh));
    var changePercent := ChangePercent(areaT0, areaT1);
    var changeType := Classify(changePercent);
    LossIffShrank(areaT0, areaT1);
    AbsScales(changePercent, areaT0);
    GeeReport("AOI", t0, t1, areaT0, areaT1, LocalPipeline.Abs(changePercent), changeType, ndviThresh,
              Label(sourcePast), Label(sourceNow))
  }

  /** Scaling by a non-negative factor commutes with the absolute value. */
  lemma AbsScales(x: real, k: real)
    ensures k >= 0.0 ==> LocalPipeline.Abs(x) * k == LocalPipeline.Abs(x * k)
  {
  }
}
