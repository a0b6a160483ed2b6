# yolo-labeller: a verified model of the image viewer and the label file

`label.py` is a tkinter tool for drawing labelled boxes on images and saving
them as text. It has two parts. The first is a zoomable image viewer,
`CanvasImage`. It decides when an image is "huge" and must be read from the raw
file band by band. It builds an image pyramid of halved sizes and picks a
pyramid level for the current zoom. On every redraw it computes the scroll region
and the visible tile. The second part is the labelling application, `App` and
`BinsFrame`. It reads and writes the label file of the current image and
empties the bin of discarded labels.

This project models both parts in Dafny and proves properties of them:

- `Numeric`: Python's `int()` on a float (truncation), `round()` (ties to even),
  `math.pow(2, n)` and `int(math.log(k, 2))`, over exact reals.
- `Geometry`: the scroll region, the visible tile, the `outside` test, the
  canvas-to-image transform and `canvas.scale`.
- `ImageSource`: the huge-image gate, the row bands of `smaller()` and the
  tile rewriting that decodes them.
- `Pyramid`: the sizes of the pyramid levels, the level and sampling scale
  chosen for a zoom, and the zoom limits of `__wheel`.
- `Viewer`: the class `CanvasImage`. Its constructor, `smaller()`,
  `__show_image`, `__wheel`, `crop`, `__move_from` and `__move_to` are methods
  that update its fields. The redraw is the pure function `Render`.
- `LabelFile`: the text format of a label file and the name of the label
  file. The format covers `readlines`, `strip`, `split(" ")`, `float()`, the
  formatting of a float and the f-string of a line.
- `Labeller`: the classes `Label` and `App`, with `read_labels` and `export`.
- `Bins`: the class `BinsFrame`, with `add_label` and `empty_bin`.
- `Wrappers`: `Option` and `Result`.

The toolkit is replaced by parameters and results:

- The canvas's visible box, the canvas size, the cursor position and the wheel
  event are inputs.
- A redraw returns what it would hand to the canvas: the scroll region, and the
  source, size and position of the image item.
- The file system is a map from file names to contents. `os.path.exists` is
  membership in the map, and a write is an update of the map.
- A label's numbers are exact decimals, `Decimal(units, places)`, whose value
  is `units / 10^places`.

Two facts about the code shape the pyramid part of the model:

- The pyramid loop runs only while both sides exceed 512, so it stops as soon as
  either side is at most 512. A 2000 x 2000 image gets the levels 2000, 1000
  and 500.
- The level is `min(-int(log2 k), levels - 1)`. It truncates toward zero and has
  no lower clamp. A negative level crops level 0 of an image that is not huge,
  and reads raw full-resolution bands of a huge image at `imscale`.

Two lines of the source do something other than what their authors evidently
meant. See "## Findings". The application's operations (`App.ReadLabels`,
`App.Export` and the `App` constructor) use the label-file name as the source
computes it, with `replace`. The corrected name is modelled beside it.

## Model

| member | source | states |
|---|---|---|
| Numeric.Trunc | label.py:180-191 | `int(r)` is the integer next to r toward zero: within 1 below a non-negative r and within 1 above a negative one |
| Numeric.RoundHalfEven | label.py:255 | `round(r)` is within 1/2 of r, and an exact tie goes to the even neighbour |
| Numeric.RoundBelowThirty | label.py:255 | the zoom-out guard `round(x) < 30` holds exactly when x < 29.5 |
| Numeric.Log2Trunc | label.py:265 | `int(log2 k)` is e with 2^e <= k < 2^(e+1) when k >= 1, and 2^(e-1) < k <= 2^e, e <= 0, when k < 1 |
| Numeric.Log2TruncMonotone | label.py:265 | a larger k never has a smaller `int(log2 k)` |
| Numeric.Log2TruncPositive | label.py:265 | `int(log2 k) >= 1` exactly when k >= 2 |
| Numeric.TruncQuotient | label.py:81-83 | `int(a / b)` of naturals is integer division, so `int(w)` after halving w d times is W div 2^d |
| Geometry.ScrollBoxContains | label.py:160-171 | the scroll region contains the integer image box on both axes; on an axis where the visible area is not inside the image it also contains the visible area; it equals the image box on an axis exactly when one of the two boxes holds the other |
| Geometry.TileRectIsVisiblePart | label.py:174-178 | the tile (x1, y1, x2, y2) lies in [0, image size]; an image-relative point is in the tile exactly when it is in both the image and the visible box; the image is drawn exactly when both tile sides truncate to at least 1 |
| Geometry.TransformRoundTrip | label.py:206-208 | mapping a canvas point to image coordinates with the x/y scales of `__move_from` and back gives the same point, in both orders |
| Geometry.TransformCorners | label.py:206-208 | the container's corners map to (0, 0) and (width, height) |
| Geometry.InsideMapsIntoImage | label.py:239-245 | a point that `outside` accepts maps strictly inside (0, width) x (0, height) |
| Geometry.OutsideIffOffImage | label.py:239-245 | for a container with x0 < x1 and y0 < y1, `outside` holds exactly when the point does not map strictly inside (0, width) x (0, height) |
| Geometry.ScaleAboutSizes | label.py:268 | `canvas.scale` by s about (x, y) multiplies the container's sides by s and keeps a positive scale's box non-empty |
| Geometry.ScaleKeepsImageCoordinates | label.py:268 | after `canvas.scale`, the scaled cursor maps to the same image coordinates as before |
| ImageSource.HugeGate | label.py:63-65 | huge implies raw encoding with a side over 14000; a non-raw image is never huge; enlarging a huge image keeps it huge |
| ImageSource.BandWithinData | label.py:294-296 | a band's bytes lie within the raw pixel data exactly when its rows are rows of the image |
| ImageSource.BandsFromShape | label.py:113-123 | the bands of `smaller()`: each is min(1024, height - top) rows, each starts where the previous ended, the first starts at row 0 and the last ends at the height, and each offset is offset + width * top * 3 |
| ImageSource.BandsFromCoverOnce | label.py:113-123 | every row of the image is in exactly one band |
| ImageSource.BandsFromCount | label.py:113-123 | there are ceil(height / 1024) bands |
| ImageSource.BandsReadDataContiguously | label.py:116-118 | the bands read the raw data front to back without gap or overlap: from the data offset to offset + stride * height |
| ImageSource.ProgressTotalOverCounts | label.py:113 | the announced total `round(0.5 + 1024 / 1024)` is 2 while a 1024-row image has one band |
| Pyramid.PyramidLevelSize | label.py:79-83 | level j of the pyramid is (W div 2^j, H div 2^j) |
| Pyramid.PyramidHalves | label.py:79-83 | each level is the previous one halved, rounding down |
| Pyramid.PyramidStops | label.py:79-83 | the loop stops exactly at the first level with a side of at most 512; every earlier level has both sides at least 512 |
| Pyramid.PyramidOf1025 | label.py:79-83 | a 1025 x 1025 base gives the levels 1025, 512 and 256: a level that is not the last can be exactly 512 |
| Pyramid.PyramidOf14000By7000 | label.py:79-83 | a 14000 x 7000 base gives the levels 14000x7000 down to 875x437 |
| Pyramid.SelectLevelBounds | label.py:264-266 | the level is at most the pyramid length minus 1 and is negative exactly when k >= 2; the scale is positive and equals k * 2^level, or k for a negative level; an unclamped level is sampled within a factor of two of 1 |
| Pyramid.SelectLevelMonotone | label.py:264-265 | zooming in never selects a coarser level |
| Pyramid.ZoomOutLimit | label.py:254-257 | zooming out is refused exactly when min side * imscale < 29.5; otherwise imscale and the canvas factor are divided by 1.3 |
| Pyramid.ZoomInLimit | label.py:258-262 | zooming in is refused exactly when min(canvas width, height) >> 1 < imscale; otherwise both are multiplied by 1.3 |
| Pyramid.ZoomFactorConsistent | label.py:252-262 | the new imscale stays positive, and after a zoom it is the old one times the canvas factor |
| Viewer.ZoomKeepsScaledImage | label.py:268 | scaling the canvas by f turns the image drawn at scale s into the image drawn at s * f |
| Viewer.RenderDrawsVisiblePart | label.py:174-198 | a redraw places an image exactly when the tile truncates to at least 1 x 1; the image is at most the tile's size and anchored at a point inside the visible area; the tile is rewritten only on the raw path |
| Viewer.RenderRawBandInsideImage | label.py:179-187 | on the raw path of a huge image, the decoded band and its columns lie inside the image's raw data |
| Viewer.RenderLevelCropInsideLevel | label.py:188-191 | when a pyramid level is cropped, for a huge image as for any other, sampled at the scale `__wheel` selects and with a base at least the image divided by the ratio, the crop box lies inside level max(0, level), which has base div 2^level pixels a side |
| Viewer.ReducedSizeMatchesRatio | label.py:97-112 | the reduced image of `smaller()` is the image divided by the ratio max(width, height) / 14000, side by side, truncated |
| Viewer.AspectAgainstOne | label.py:101-109 | the aspect-ratio tests of `smaller()` are the comparisons of width and height: equal to 1 exactly when the sides are equal, above 1 exactly when wider than high |
| Viewer.BaseFitsRatio | label.py:73-75 | the pyramid base and the ratio `__init__` sets, huge or not, meet the condition of RenderLevelCropInsideLevel, with equality |
| Viewer.CanvasImage.constructor | label.py:62-84 | the gate, ratio, scale and container of `__init__`; a huge image gets the reduced base of `smaller()` and its tile is that of the last band read; the pyramid is the halving pyramid of the base; the object is valid and consistent |
| Viewer.CanvasImage.BuildPyramid | label.py:79-83 | the float-halving loop builds exactly `PyramidSizes(base)` |
| Viewer.CanvasImage.Smaller | label.py:113-125 | the loop reads exactly the bands of the image, in order, and leaves the tile at the last one |
| Viewer.CanvasImage.ShowImage | label.py:153-198 | the frame is the scroll region plus the rendered image, and the tile is the one the render leaves |
| Viewer.CanvasImage.Wheel | label.py:247-272 | nothing changes outside the image or when a zoom limit refuses; otherwise imscale follows the zoom step, the level and scale are selected for the new imscale, the container is scaled about the cursor, and the frame and the tile are those of the redraw; for a one-direction event the container stays the image at scale imscale |
| Viewer.CanvasImage.ApplyZoom | label.py:263-271 | level selection, `canvas.scale` and redraw after a zoom, keeping the container the image at the new scale |
| Viewer.CanvasImage.Crop | label.py:291-303 | a huge image re-points the tile at the box's rows and returns that band's columns, whose bytes lie in the raw data exactly when the rows are in the image; otherwise the box is cropped from level 0 |
| Viewer.CanvasImage.MoveFrom | label.py:200-210 | in label mode the stroke restarts at the cursor, stored in canvas and image coordinates that map back to each other, inside the image when the cursor is; otherwise nothing changes |
| Viewer.CanvasImage.MoveTo | label.py:212-222 | in label mode the cursor is appended in both coordinate systems; otherwise the frame and the tile are those of a redraw of the view |
| LabelFile.SplitJoin | label.py:403 | `split(" ")` of fields joined by single spaces, none holding a space, gives back the fields |
| LabelFile.LinesAfter | label.py:399-400 | `readlines` cuts a text after each line break |
| LabelFile.UnsignedRoundTrip | label.py:404 | `float()` of the digits written for a non-negative decimal reads the same decimal |
| LabelFile.FormatDecimalRoundTrip | label.py:404 | `float()` reads the text written for any decimal, sign included, as that decimal |
| LabelFile.LineRoundTrip | label.py:403-404 | a line written for a label with a valid type reads back as the same label |
| LabelFile.ExportRoundTrip | label.py:415-420 | the file written for labels with valid types reads back as the same labels, in order, without error |
| LabelFile.SpaceInKind | label.py:403-404 | a type with a space shifts the fields, and the line fails with a bad number when the second word is not one |
| LabelFile.LabelOptionsAreValid | label.py:331 | every type the application offers is valid for the line format |
| LabelFile.ExtensionAfterPoint | label.py:396 | `split(".")[-1]` of stem.ext is ext |
| LabelFile.TextFileNameOf | label.py:396-397 | the corrected label-file name of stem.ext is stem.txt, and naming is idempotent |
| LabelFile.TextFileNameWithoutPoint | label.py:396-397 | a name without a point is left unchanged as written, and gets .txt appended when corrected |
| LabelFile.AsWrittenWithOnePoint | label.py:396-397 | with a single point, the name as written equals the corrected one |
| LabelFile.AsWrittenReplacesEveryOccurrence | label.py:396-397 | as written, stem.ext.ext becomes stem.txt.txt instead of stem.ext.txt |
| LabelFile.AsWrittenSharesLabelFile | label.py:396-397 | as written, `stem.ext.ext` and `stem.txt.ext` (a three-letter extension other than `txt`) are given the same label file `stem.txt.txt` |
| Labeller.Label.constructor | label.py:315-322 | a label stores its type and corners |
| Labeller.App.constructor | label.py:325-342 | the application keeps the image name and, through `__create_widgets`, holds the labels read from the image's label file, or none when there is no label file |
| Labeller.App.ReadLabels | label.py:395-407 | the label file is named by `replace` as the source does; without it there are no labels; otherwise the labels are those of the lines up to the first bad line, in order, and the error is that line's |
| Labeller.App.Export | label.py:413-421 | the label file, named by `replace` as the source does, is overwritten with one line per label, in order, and no other file changes |
| Labeller.ExportThenRead | label.py:415-420 | reading the file that `export` wrote gives back the labels, in order, without error |
| Bins.RemoveFirstFails | label.py:506 | `list.remove` fails exactly when the element is absent |
| Bins.RemoveFirstAt | label.py:506 | `list.remove` drops the first occurrence and keeps the rest in order |
| Bins.RemoveFirstCounts | label.py:506 | after `list.remove` the multiset of the list has lost one copy of the element |
| Bins.RemoveEachCounts | label.py:503-506 | all removals succeed exactly when each binned label occurs in the labels at least as often as in the bin; then the remaining labels are the old ones less the binned ones, counted with multiplicity |
| Bins.BinnedTwice | label.py:503-506 | a label binned twice but created once makes emptying the bin fail |
| Bins.BinsFrame.constructor | label.py:479-484 | the bin starts empty |
| Bins.BinsFrame.AddLabel | label.py:490-491 | the label joins the end of the bin |
| Bins.BinsFrame.EmptyBin | label.py:499-507 | the application's labels become what removing each binned label in turn leaves; the bin is emptied exactly when every removal succeeds |

## Left out

- Drawing, events and widgets are not modelled: tkinter, the scrollbars, `__keystroke`, `__scroll_x`/`__scroll_y`, `redraw_figures`, `destroy`, `change_img`, `create_label`, `highlight` and the label list frame. The canvas is reduced to the container box, the visible box and the scroll region.
- PIL is not modelled: opening, decoding, `resize` and `paste`. `smaller()`'s per-band scale `k` and band length `w` are not modelled. Its reduced image size is computed over exact reals; the float computation can differ from it by one pixel.
- Floating point is replaced by exact reals. `math.log` and `math.pow` are exact here, so a level chosen at a power of two may differ from the float result.
- `print` is not modelled, and neither is the progress line of `smaller()` beyond its total.
- The canvas items of a label (`rectangle_drawn`, `text_drawn`) are not modelled, and neither is the `canvas.scale` of items other than the container.
- `__on_release` is not modelled. It creates a label from the stroke that `MoveFrom` and `MoveTo` record.
- `send_label_to_bin` and `retrieve_label_from_bin` are not modelled beyond `BinsFrame.AddLabel`. Retrieving a label does not remove it from the bin, so emptying the bin later still removes it from the application's labels.
- Viewer.CanvasImage.constructor: the drawing of existing labels (label.py:87-90) and the final `__show_image` call (label.py:92) are not modelled. That first redraw leaves the state unchanged because the level is 0 and the tile is rewritten only on the raw path.
- Labeller.App.constructor: when a line of the label file does not read, `App()` raises and no application exists. The model still builds the object, holding the labels read before that line. The widgets that `__create_widgets` builds are not modelled.
- Viewer.CanvasImage.Wheel: `Consistent()` is promised only after an event asking for a single direction. An event matching both zoom-out and zoom-in can shrink `imscale` and then return at the zoom-in limit without scaling the canvas. Real wheel events never match both.
- Viewer.CanvasImage.ShowImage: the redraw is not followed into the pixels it shows. The bounds proved are on the band, columns and crop handed to PIL.
- Python's float formatting is not modelled: shortest round-trip digits and exponent form such as `1e-05`. A label's numbers are exact decimals written in positional notation.
- `float()` input forms other than an optional sign, digits and an optional fraction are not modelled: exponents, `inf`, `nan` and underscores. The source writes very small and very large floats in exponent form (`1e-05`, `1e+16`), and `float()` reads them back. The model always writes decimals positionally, so its round trip does not cover exponent form.
- `readlines` splits only at `\n`. Universal-newline translation of `\r\n` and `\r` is left out.
- `strip` covers the ASCII and Latin-1 whitespace characters, not the other Unicode spaces.
- File-system errors are left out: an unreadable or unwritable label file, and an image list without images.
- The model handles one image at a time and has no concurrency.

## Findings

| source | as written | input that shows it | evidently intended | confidence | as-written member | corrected member |
|---|---|---|---|---|---|---|
| label.py:396-397 | `replace(f".{extension}", ".txt")` replaces every occurrence of `.ext`; a name without a point is its own label-file name | `a.png.png` gives `a.txt.txt`, which is also the label file of `a.txt.png`. As a property of the expression, `photo` gives `photo`; the application never holds such a name, since it lists only `.png`, `.jpg` and `.tif` files | replace only the final extension: `stem.ext` gives `stem.txt` | not executed | LabelFile.AsWrittenReplacesEveryOccurrence | LabelFile.TextFileNameOf |
| label.py:113 | the progress total is `round(0.5 + height / 1024)`, and `round` sends halves to even | height 1024 announces 2 bands and reads 1 (likewise 3072: 4 for 3) | ceil(height / 1024), the number of bands read | not executed | ImageSource.ProgressTotalOverCounts | ImageSource.BandsFromCount |
