# Deforestation percentage: a Dafny model of the change-detection core

This project models the arithmetic core of the deforestation tool
(`deforestation_vscode_starter`). The tool compares vegetation cover over an
area of interest at two times, "past" and "present", in one of two ways.

- **Local pipeline.** It reads red and near-infrared bands for both times and
  computes NDVI = (nir − red) / max(nir + red, 1e-6). It thresholds NDVI into
  forest masks, using either a fixed threshold or Otsu's threshold. Closing and
  small-object removal optionally clean the masks. Mask pixels are counted into
  hectares using the past raster's pixel area |a·e|. The pipeline then derives
  remaining and deforestation percentages and a loss mask (past forest that is
  no longer forest).
- **Remote (Earth Engine) pipeline.** Its modelled part picks each window's data
  source: Sentinel-2 with a cloud filter, then without it, then MODIS. It also
  turns the two forest areas into a change percentage and a "Loss"/"Gain" label.

Modules:

- `Grids` (`grids.dfy`): rasters and masks as lists of rows. It defines
  `Size` (numpy's `size`), `Count` (numpy's `sum` on a boolean mask) and
  `Flatten` (row-major order), with lemmas about counting.
- `Utils` (`utils.dfy`): `percent_from_areas`.
- `LocalPipeline` (`local_pipeline.dfy`): NDVI, pixel area, thresholding,
  the guarded cleanup, the loss mask, and the whole run. The run is the pure
  specification `Pipeline`. The method `Run` is proved equal to it. `Run`
  reassigns the masks step by step under the two guards, as the source does,
  and counts mask pixels with nested loops.
- `GeePipeline` (`gee_pipeline.dfy`): the Sentinel-2→MODIS fallback decision
  and the change block of the remote run.

Library code that is not part of this model enters as function-valued
parameters: skimage's `threshold_otsu`, `binary_closing` with `disk(r)`, and
`remove_small_objects` are the fields of `LocalPipeline.Skimage`, and Earth
Engine's area reduction is `calcArea`. The only thing assumed about them is
that closing and small-object removal return a mask of their input's shape
(`KeepsShape`); nothing is assumed about Otsu's value or what closing does.
Floating point is modelled by `real`; the epsilon is the constant `Eps` = 1e-6.

Two facts about the code shape the model:

- `run` does not check that the four bands have the same shape, so equal
  shapes are the precondition `WellShaped`.
- Areas are `count × pixel area / 10000`, so a 10 × 10 mask of 100 m² pixels
  covers 1 ha (`EndToEndScenarios`).

## Model

| member | source | states |
|---|---|---|
| `Grids.Count` | deforestation_vscode_starter/src/local_pipeline.py:42-43 | the number of forest pixels never exceeds the raster's pixel count |
| `Grids.CountFilled` | deforestation_vscode_starter/src/local_pipeline.py:42-52 | an h×w raster has h·w pixels; all of them count when all are forest, none when none are |
| `Grids.SizeOfSameShape` | deforestation_vscode_starter/src/local_pipeline.py:52 | masks of the bands' shape have the bands' pixel count, so the total area is the AOI's |
| `Grids.CountAllFalse` | deforestation_vscode_starter/src/local_pipeline.py:42-43 | a mask with no forest pixel sums to zero |
| `LocalPipeline.Denominator` | deforestation_vscode_starter/src/local_pipeline.py:10 | the clipped denominator is at least 1e-6 and at least nir+red, and is one of the two |
| `LocalPipeline.ComputeNdvi` | deforestation_vscode_starter/src/local_pipeline.py:8-10 | the NDVI raster has the shape of its bands |
| `LocalPipeline.NdviAt` | deforestation_vscode_starter/src/local_pipeline.py:8-10 | each NDVI pixel times its denominator (≥ 1e-6) is nir−red at the same position, so the division is always defined |
| `LocalPipeline.NdviUnclipped` | deforestation_vscode_starter/src/local_pipeline.py:10 | where nir+red ≥ 1e-6, NDVI is (nir−red)/(nir+red) |
| `LocalPipeline.NdviOfEqualBands` | deforestation_vscode_starter/src/local_pipeline.py:10 | nir = red gives NDVI 0 |
| `LocalPipeline.NdviSign` | deforestation_vscode_starter/src/local_pipeline.py:10 | NDVI > 0 iff nir > red, and NDVI < 0 iff nir < red |
| `LocalPipeline.NdviRange` | deforestation_vscode_starter/src/local_pipeline.py:10 | for non-negative reflectances NDVI lies in [−1, 1], clipped or not |
| `LocalPipeline.PixelArea` | deforestation_vscode_starter/src/local_pipeline.py:16 | pixel area is non-negative and equals a·e or −(a·e), i.e. abs(a·e) |
| `LocalPipeline.PixelAreaIgnoresOrientation` | deforestation_vscode_starter/src/local_pipeline.py:16 | flipping the sign of a or of e leaves the pixel area unchanged |
| `LocalPipeline.Threshold` | deforestation_vscode_starter/src/local_pipeline.py:31-32 | the forest mask has the NDVI raster's shape |
| `LocalPipeline.FixedThresholdSegment` | deforestation_vscode_starter/src/local_pipeline.py:31-32 | with an explicit t both masks are `ndvi > t` pixel for pixel, and Otsu's method is not consulted |
| `LocalPipeline.CleanGating` | deforestation_vscode_starter/src/local_pipeline.py:35-40 | closing runs iff morph_radius > 0; removal runs iff min_patch_pixels > 0, always on the closed mask; with both off the mask is unchanged |
| `LocalPipeline.CleanKeepsShape` | deforestation_vscode_starter/src/local_pipeline.py:35-40 | cleanup keeps the mask's shape when the library routines do |
| `LocalPipeline.ChangeMask` | deforestation_vscode_starter/src/local_pipeline.py:62 | the loss mask has the past mask's shape |
| `LocalPipeline.ChangeCountBounds` | deforestation_vscode_starter/src/local_pipeline.py:62 | lost pixels ≤ past forest pixels and ≥ past minus present forest pixels |
| `LocalPipeline.ChangeOfIdentical` | deforestation_vscode_starter/src/local_pipeline.py:62 | identical masks give an all-false loss mask with count 0 |
| `LocalPipeline.ChangeOfEmptyPresent` | deforestation_vscode_starter/src/local_pipeline.py:62 | with no present forest the loss mask equals the past mask |
| `LocalPipeline.MasksShape` | deforestation_vscode_starter/src/local_pipeline.py:28-40 | both cleaned masks have the bands' shape, so the loss mask is defined |
| `LocalPipeline.SumMask` | deforestation_vscode_starter/src/local_pipeline.py:42-43 | the row-by-row loop returns the number of forest pixels |
| `LocalPipeline.Run` | deforestation_vscode_starter/src/local_pipeline.py:19-62 | the run's report, masks, loss mask and warning are those of `Pipeline`; both forest areas lie in [0, total]; lost pixels ≤ past forest pixels |
| `LocalPipeline.AreaMonotone` | deforestation_vscode_starter/src/local_pipeline.py:42-45 | with a non-negative pixel area, more pixels never give less area, and areas are ≥ 0 |
| `LocalPipeline.PipelineAreas` | deforestation_vscode_starter/src/local_pipeline.py:42-52 | each forest area is its mask's count × the past raster's pixel area / 10000, as is the total area with the raster's pixel count; 0 ≤ each forest area ≤ total |
| `LocalPipeline.PipelinePercentages` | deforestation_vscode_starter/src/local_pipeline.py:46-56 | the reported remaining and deforestation percentages are `PercentFromAreas` of the report's past and present forest areas; so no past forest area gives (0, 0), otherwise they add up to 100, both in [0, 100] when the forest did not grow |
| `LocalPipeline.PipelineThresholdUsed` | deforestation_vscode_starter/src/local_pipeline.py:57 | the report records t when a threshold is given, and "Otsu" exactly when none is |
| `LocalPipeline.PipelineFixedThreshold` | deforestation_vscode_starter/src/local_pipeline.py:31-40 | with threshold t and both cleanup steps off, both masks are exactly `ndvi > t` |
| `LocalPipeline.PipelineWarning` | deforestation_vscode_starter/src/local_pipeline.py:22-26 | the warning fires iff the pixel areas differ by more than 1e-6; the present raster's transform changes nothing else |
| `LocalPipeline.PipelineLossMask` | deforestation_vscode_starter/src/local_pipeline.py:62 | in a run, past − present ≤ lost pixels ≤ past forest pixels; equal masks lose nothing |
| `LocalPipeline.UniformMask` | deforestation_vscode_starter/src/local_pipeline.py:28-32 | uniform bands threshold to a uniform mask |
| `LocalPipeline.EndToEndScenarios` | deforestation_vscode_starter/src/local_pipeline.py:42-62 | 10×10 masks of 100 m² pixels: unchanged forest gives 1 ha each, 100% remaining, 0% lost, empty loss mask; total loss gives 1 ha → 0 ha, 0% / 100%, loss mask = past mask |
| `LocalPipeline.UniformScenarioMasks` | deforestation_vscode_starter/src/local_pipeline.py:19-40 | uniform bands with NDVI 2/3 and 0, threshold 0.4 and no cleanup give the all-forest and forest-free masks of that scenario |
| `LocalPipeline.NdviPixel` | deforestation_vscode_starter/src/local_pipeline.py:10 | one NDVI value times its clipped denominator is nir − red |
| `LocalPipeline.Abs` | deforestation_vscode_starter/src/local_pipeline.py:16 | abs is non-negative and is x or −x |
| `LocalPipeline.ThresholdFor` | deforestation_vscode_starter/src/local_pipeline.py:31-32 | the cut is the given threshold, or, when none is given, Otsu's value of that raster's pixels |
| `LocalPipeline.Segment` | deforestation_vscode_starter/src/local_pipeline.py:31-32 | the mask has the raster's shape; it is `ndvi > t` for a given t and `ndvi > otsu(pixels)` when no threshold is given |
| `LocalPipeline.PipelineOtsuThreshold` | deforestation_vscode_starter/src/local_pipeline.py:31-40 | with no threshold and no cleanup, each mask is its raster's NDVI cut at Otsu's value of that same raster |
| `LocalPipeline.Clean` | deforestation_vscode_starter/src/local_pipeline.py:35-40 | with both cleanup steps off the mask comes back unchanged (the other branches in `CleanGating`) |
| `LocalPipeline.ChangeRow` | deforestation_vscode_starter/src/local_pipeline.py:62 | a pixel is lost iff it is forest in the past and not in the present |
| `LocalPipeline.AreaHa` | deforestation_vscode_starter/src/local_pipeline.py:42-45 | area·10000 = pixel count × pixel area, and it is ≥ 0 for a non-negative pixel area |
| `LocalPipeline.ThresholdUsedFor` | deforestation_vscode_starter/src/local_pipeline.py:57 | "Otsu" iff no threshold was given; otherwise the given value |
| `LocalPipeline.PastMask` | deforestation_vscode_starter/src/local_pipeline.py:28-40 | the past mask; without cleanup it is the past NDVI cut at the run's threshold |
| `LocalPipeline.PresentMask` | deforestation_vscode_starter/src/local_pipeline.py:28-40 | the present mask; without cleanup it is the present NDVI cut at the run's threshold |
| `LocalPipeline.Pipeline` | deforestation_vscode_starter/src/local_pipeline.py:19-62 | all three masks have the bands' shape; the warning is set iff the pixel areas differ by more than 1e-6; the recorded threshold follows `ThresholdUsedFor`; the region is "AOI" and both windows are ("(local)", "(local)") |
| `LocalPipeline.UniformScenarioReport` | deforestation_vscode_starter/src/local_pipeline.py:19-62 | the uniform bands (past NDVI 2/3, present 0, threshold 0.4, 100 m² pixels, no cleanup) run end to end to a report of 1 ha total, 1 ha → 0 ha of forest, 0% remaining, 100% lost, and an all-forest loss mask |
| `Utils.PercentFromAreas` | deforestation_vscode_starter/src/utils.py:32-37 | past ≤ 0 gives (0, 0) whatever the present; otherwise remaining·past = present·100 and loss·past = (past−present)·100 |
| `Utils.PercentagesSumTo100` | deforestation_vscode_starter/src/utils.py:35-36 | with past > 0, remaining + loss = 100 |
| `Utils.PercentagesOfExtremes` | deforestation_vscode_starter/src/utils.py:35-36 | present = past > 0 gives (100, 0); present = 0 < past gives (0, 100) |
| `Utils.LossSign` | deforestation_vscode_starter/src/utils.py:36 | with past > 0, loss < 0 iff present > past (gains are not clamped), and loss = 0 iff present = past |
| `Utils.PercentagesBounded` | deforestation_vscode_starter/src/utils.py:35-36 | with past > 0 and 0 ≤ present ≤ past, both percentages lie in [0, 100] |
| `Utils.PercentagesExamples` | deforestation_vscode_starter/src/utils.py:32-37 | (0, 42) → (0, 0); (100, 100) → (100, 0); (100, 50) → (50, 50) |
| `GeePipeline.ChooseSource` | deforestation_vscode_starter/src/gee_pipeline.py:44-87 | the relaxed query is consulted iff the strict count is 0; bands are inspected iff some query found images; Sentinel-2 iff bands were inspected and include B8 and B4, else MODIS |
| `GeePipeline.RelaxedCountIgnored` | deforestation_vscode_starter/src/gee_pipeline.py:44-52 | when the strict query finds images, the relaxed count does not affect the decision |
| `GeePipeline.NoImagesMeansModis` | deforestation_vscode_starter/src/gee_pipeline.py:54-66 | with no image in either query the source is MODIS, whatever the band list |
| `GeePipeline.ChangePercent` | deforestation_vscode_starter/src/gee_pipeline.py:151-154 | past ≤ 0 gives 0; otherwise change·past = (present − past)·100 |
| `GeePipeline.Classify` | deforestation_vscode_starter/src/gee_pipeline.py:156-159 | "Loss" iff the change is negative, "Gain" otherwise (zero included) |
| `GeePipeline.Label` | deforestation_vscode_starter/src/gee_pipeline.py:35-74 | the label is "Sentinel-2" or "MODIS", and "MODIS" exactly for the MODIS fallback |
| `GeePipeline.ForestMask` | deforestation_vscode_starter/src/gee_pipeline.py:92-93 | the mask has the NDVI raster's shape and is true exactly where NDVI > threshold |
| `GeePipeline.LossIffShrank` | deforestation_vscode_starter/src/gee_pipeline.py:151-159 | the label is "Loss" iff past > 0 and present < past; a non-positive baseline is "Gain" |
| `GeePipeline.ChangeIsNegatedLoss` | deforestation_vscode_starter/src/gee_pipeline.py:152 | with past > 0 the signed change equals minus the local pipeline's deforestation percentage (utils.py line 36) |
| `GeePipeline.GeeRun` | deforestation_vscode_starter/src/gee_pipeline.py:140-172 | the region is "AOI" and the windows t0 and t1 are echoed; both areas come from masks with the one threshold, which is echoed unchanged; the reported change is ≥ 0 and is abs(present − past)·100/past; a zero baseline gives 0 and "Gain"; "Loss" iff the area shrank; the source labels follow `ChooseSource` |

## Left out

- File and screen I/O are not modelled: `rasterio` reads and writes, `ensure_dirs`, `save_report`, `save_preview_change`, and the GeoTIFF output of the three masks. The pixel-area warning `print` becomes the outcome's `pixelAreaWarning` flag.
- skimage's `threshold_otsu`, `binary_closing`, `disk` and `remove_small_objects` are not modelled. They are parameters, and only their shape preservation is assumed. Otsu's range and the idempotence of cleanup are not claimed.
- Otsu's input is all NDVI values in row-major order. Reals have no NaN or Inf, so numpy's `isfinite` filter keeps everything.
- float32 rounding and casting, NaN/Inf propagation and `round(..., 2)` in both reports are not modelled. Report values are the unrounded reals.
- Output masks are boolean grids; their `uint8` 0/1 encoding is not modelled.
- Grids are lists of rows. Numpy arrays are rectangular, but every theorem here holds for rows of any length.
- In the remote pipeline, `_init_ee`, `load_aoi`, `export_image_local`, `save_report` and the Earth Engine query chains are not modelled. The image counts, the median's band names, the NDVI composite and the area reduction `calc_area` are inputs. The construction of the Sentinel-2 or MODIS image is not modelled. `forest_mask`'s `selfMask` is modelled as the boolean mask that the reduction receives.
- The dashboard (`app.py`), the command-line glue (`cli.py`), the mock NDVI generators and `my-express-https-app` are not part of this model.
