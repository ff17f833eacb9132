# GIF-to-spritesheet chroma-key removal, modelled in Dafny

This project models the core of `colorcorrectandspritify.py`. The script turns an
animated image with a flat red, green or blue background into one RGBA
spritesheet. The background becomes transparent. Pixels next to the background
("edge" pixels) get a graded correction of the key channel and of alpha.

The model follows the script's structure, one module per component:

- `Wrappers` (`wrappers.dfy`): `Option` and `Result`.
- `Arith` (`arith.dfy`): division truncating toward zero (Python's `int()` of a quotient), and the few multiplication facts the proofs need.
- `Raster` (`raster.dfy`): colours, the key channel, `w` x `h` grids indexed `g[x][y]` like the script's numpy matrices, frames (palette plus index raster) and the palette lookup `get_rgb_pixel`.
- `Classify` (`classify.dfy`): `is_within_threshold` and pass 1, which marks background cells.
- `Scan` (`scan.dfy`): `neighbor_matches_mask`, the 5x5 neighbourhood scanner. It is written as the two nested loops of the script. It comes in a corrected version with symmetric bounds, and in a version whose bound tests are exactly as the script writes them (see Findings).
- `Edges` (`edges.dfy`): pass 2, which turns unmarked cells near the background into edge cells and records their distance. It is given twice: once over a snapshot of pass 1, and once as the script's single traversal that rewrites the live matrix. The two are proved equal.
- `Correct` (`correct.dfy`): `process_boundary_pixel`, the edge corrector, in both modes (B2N and IM).
- `Layout` (`layout.dfy`): the grid side, chosen from the breakpoint table; where frame `i` goes; and which frame owns each sheet cell.
- `Sheet` (`sheet.dfy`): `process_image`. It computes the per-frame output, writes it into the frame's block, and runs the frame loop. It reports a palette index past the palette, and a frame that falls below the 16 x 16 grid, as errors.

Distances are kept squared (`dx^2 + dy^2`, from 1 to 8). The script takes a square
root and then only compares it or squares it again. The edge corrector's mean
`(a + b) / 2.0` is a half-integer, so its numerators are doubled to stay in
integers. The result is truncated toward zero, as `int()` does.

The script loops `for y in range(width): for x in range(height)`. That is only
right for square frames. The model loops `x < w`, `y < h`.

The breakpoint comparison `numsprites < thresholdarr[i]`
(colorcorrectandspritify.py:102) is strict. So a frame count that is a perfect
square gets one extra row and column: 1 frame gives a 2 x 2 sheet, 4 frames
give 3 x 3, and 16 frames give 5 x 5 (`Layout.SheetSideExamples`).

From 256 frames on the sheet stays 16 x 16. Frame 256 and later get a row
offset `i // 16 * height` of at least `16 * height`, below the sheet, so the
first `putpixel` for such a frame raises an IndexError in Pillow. The model
returns `Failure(OutsideSheet(i))` in that case. It happens exactly when such
a frame has a pixel that is not background, since only those are written.

## Model

| member | source | states |
|---|---|---|
| Raster.Resolve | colorcorrectandspritify.py:34-36 | a palette lookup yields a colour exactly when the palette holds all three entries of the index; otherwise the slice is short and the script's later channel read raises, modelled as `None` |
| Raster.ResolveFlatten | colorcorrectandspritify.py:34-36 | looking up index `i` in a palette built from a colour list gives colour `i` back, and an index past the list fails |
| Raster.Decode | colorcorrectandspritify.py:34-36 | a frame decodes exactly when every palette index resolves, and each decoded pixel is its index's palette colour |
| Classify.IsWithinThreshold | colorcorrectandspritify.py:39-46 | a pixel is background iff (255 − key channel) + the other two channels ≤ threshold: the Manhattan distance to the pure key colour that the script sums has this closed form because channels lie in 0..255 |
| Classify.ThresholdZeroExact | colorcorrectandspritify.py:39-46 | at threshold 0 exactly the pure primary colour of the key channel is background |
| Classify.ThresholdMonotone | colorcorrectandspritify.py:43-46 | raising the threshold never turns a background pixel into a non-background one |
| Classify.ThresholdFull | colorcorrectandspritify.py:8-12 | at threshold 765 (255 x 3) every colour is background |
| Classify.MarkBackground | colorcorrectandspritify.py:124-128 | after pass 1 a cell is marked 2 exactly when its pixel is within threshold, and no cell is marked 1 |
| Scan.Nearest | colorcorrectandspritify.py:53-69 | the scanner returns none (−1) exactly when no background cell lies in the 5x5 window clipped to the grid; otherwise it returns the squared distance of some background cell in the window, and no background cell in the window is closer |
| Scan.NearestRange | colorcorrectandspritify.py:53-69 | for a centre that is not background, a found distance is between 1 and 8 (1 to √8) |
| Scan.NearestOrthogonal | colorcorrectandspritify.py:63-66 | a background cell directly beside, above or below a non-background centre gives distance 1 |
| Scan.NearestDiagonal | colorcorrectandspritify.py:63-66 | with no orthogonal background neighbour, a diagonal one gives squared distance 2 (√2) |
| Scan.NearestDependsOnBackground | colorcorrectandspritify.py:51-63 | the scanner reads only which cells are background: grids that agree on that give the same result |
| Scan.NearestAsWritten | colorcorrectandspritify.py:53-69 | with the bound tests as written, a failing scan always names a cell of the 5x5 window just past the matrix: column `width` or row `height`, never beyond |
| Scan.AsWrittenFailsNearBorder | colorcorrectandspritify.py:55-63 | with the bound tests as written (`> width`, `> height`) the scan raises an index error exactly when the centre is within two cells of the right or bottom border, and agrees with the corrected scanner elsewhere |
| Scan.LeftEdgeCentreFails | colorcorrectandspritify.py:55-63 | for a centre in column 0 whose window reaches row `height`, the as-written scan first reads out of range at `matrix[0][height]` |
| Scan.AsWrittenCrashesOnSinglePixel | colorcorrectandspritify.py:55-63 | a 1 x 1 frame whose pixel is not background raises at `matrix[0][1]` |
| Edges.MarkEdges | colorcorrectandspritify.py:129-138 | pass 2 keeps exactly the background cells of pass 1; an unmarked cell becomes an edge iff its window holds background; the intensity is non-zero exactly at new edge cells, where it holds the nearest distance, in [1, 8] |
| Edges.MarkEdgesInPlace | colorcorrectandspritify.py:130-138 | the script's traversal, which mutates the matrix the scanner is reading, produces exactly the snapshot result, so the traversal order does not matter |
| Correct.CorrectPixel | colorcorrectandspritify.py:82-92 | the two non-key channels are unchanged; 255 − alpha is the truncated (key − mean of the others) / scale; the new key channel is the truncated key − that quotient |
| Correct.CorrectPixelDetermined | colorcorrectandspritify.py:88-92 | the three properties of `CorrectPixel`'s contract pin its result down: any RGBA value that keeps the two other channels and truncates both quotients toward zero is exactly the corrected pixel |
| Correct.B2NKeyIsMean | colorcorrectandspritify.py:83-91 | in B2N mode the key channel becomes the truncated mean of the other two |
| Correct.IMAtDistanceOneIsB2N | colorcorrectandspritify.py:83-85 | in IM mode an orthogonal neighbour of the background (distance 1) is corrected exactly as in B2N |
| Correct.NeutralUnchanged | colorcorrectandspritify.py:77 | a pixel whose key channel equals the mean of the others comes out unchanged with alpha 255, in either mode |
| Correct.PureKeyVanishes | colorcorrectandspritify.py:75 | the pure key colour becomes (0, 0, 0, 0) in B2N mode |
| Correct.GreenExamples | colorcorrectandspritify.py:75-78 | the four worked green examples: (0,255,0)→(0,0,0,0), (0,240,0)→(0,0,0,15), (128,128,128)→(128,128,128,255), (128,192,128)→(128,128,128,191) |
| Correct.CorrectionInRange | colorcorrectandspritify.py:88-92 | when the key channel is at least the mean of the others, alpha stays in [0, 255] and the key channel lands between the truncated mean and its old value |
| Correct.IMFadesWithDistance | colorcorrectandspritify.py:84-92 | in IM mode, when the key channel is at least the mean of the other two, a pixel farther from the background is corrected less: alpha and key channel never decrease as the distance grows |
| Arith.TruncDiv | colorcorrectandspritify.py:91-92 | the quotient is truncated toward zero (not floored), as `int()` truncates |
| Arith.TruncDivOdd | colorcorrectandspritify.py:91-92 | truncation is symmetric: negating the numerator negates the quotient |
| Layout.SheetSide | colorcorrectandspritify.py:99-104 | the side is between 1 and 16; below 256 frames it is the smallest i with n < i²; from 256 frames on it is 16 |
| Layout.SheetSideExamples | colorcorrectandspritify.py:99-104 | 0→1, 1→2, 3→2, 4→3, 5→3, 16→5, 17→5, 255→16, 256→16, 300→16 |
| Layout.OriginRoundTrip | colorcorrectandspritify.py:115-116 | a pixel (x, y) of frame i, placed at ((i mod side)·w + x, (i div side)·h + y), maps back to frame i and to (x, y) |
| Layout.BlocksDisjoint | colorcorrectandspritify.py:115-116 | blocks of different frames share no sheet cell |
| Layout.BlockInSheet | colorcorrectandspritify.py:108-116 | the blocks of frames below side² lie inside the side·w x side·h sheet |
| Layout.OwnerCoversSheet | colorcorrectandspritify.py:108-116 | every sheet cell belongs to the block of exactly one frame index below side² |
| Sheet.FrameOutput | colorcorrectandspritify.py:139-147 | a frame writes nothing at background pixels; it writes foreground pixels unchanged with alpha 255, and edge pixels corrected with their nearest-background distance |
| Sheet.AllForegroundCopied | colorcorrectandspritify.py:134-147 | a frame with no background pixel has no edge cells and is copied unchanged and opaque |
| Sheet.AllBackgroundWritesNothing | colorcorrectandspritify.py:140-147 | a frame that is all background writes nothing |
| Sheet.ComposeSheet | colorcorrectandspritify.py:95-147 | an error names a frame of the run, and a frame falls outside the sheet only in a run of more than 256 frames |
| Sheet.ComposeSheetCorrect | colorcorrectandspritify.py:95-147 | with the symmetric-bounds scanner (see Findings), the run succeeds iff every frame's palette indices resolve and no frame beyond side² has a pixel to write; then every sheet cell holds what its owner frame writes there, or stays transparent |
| Sheet.FrameBlockContents | colorcorrectandspritify.py:141-147 | in a successful sheet, frame i's block holds frame i's output pixel for pixel |
| Sheet.FrameCellMeaning | colorcorrectandspritify.py:143-147 | a frame's contribution at a pixel is transparent for background, the opaque pixel when no background is near, and the corrected pixel otherwise |
| Sheet.UnusedBlocksTransparent | colorcorrectandspritify.py:108 | blocks with no frame stay fully transparent |
| Sheet.NoOverflowUpTo256 | colorcorrectandspritify.py:99-116 | with at most 256 frames whose indices resolve, the run succeeds |
| Sheet.FrameWritesIffForeground | colorcorrectandspritify.py:140-147 | a frame has something to write exactly when one of its pixels is not background |

## Left out

- Command-line parsing and the globals `inputpath`, `outputpath`, `channel`, `threshold` and `mode`: they become the `Settings` parameter. Any mode string other than `IM` behaves as B2N; the model's `Mode` has just the two values.
- The threshold is read as a float. The model takes an integer: an integer sum is ≤ t exactly when it is ≤ ⌊t⌋.
- Image decoding, frame seeking, `getpalette`, `Image.new`, `putpixel` and `save` are foreign library calls. A frame is given as a palette and an index raster, and the sheet is a pure RGBA grid. A palette that `getpalette` cannot supply is not modelled.
- Progress messages are I/O.
- Correct.CorrectPixel: in IM mode the scale is the exact squared distance. The script computes `sqrt(d2) ** 2` in floating point, which can differ from `d2` in the last bit and shift a truncation. In B2N mode the script's float arithmetic is exact on these half-integers, so nothing diverges there.
- Correct.CorrectPixel: when the key channel is below the mean of the others, alpha comes out above 255. The model returns that raw value, as it is handed to `putpixel`; how Pillow stores it is not modelled.
- Edges.MarkEdges, Edges.MarkEdgesInPlace, Sheet.ComposeSheet and Sheet.ComposeSheetCorrect use the symmetric-bounds scanner `Scan.Nearest`. So pass 2 and the whole run succeed where the script raises an IndexError: whenever a non-background pixel lies within two cells of the right or bottom border (see Findings; `Scan.AsWrittenFailsNearBorder` models the script's behaviour).
- The script's loop headers swap `width` and `height`, which only works for square frames. The model loops over the real frame bounds.
- Sheet.ComposeSheetCorrect, Sheet.FrameBlockContents and the other whole-sheet lemmas assume frames at least 1 x 1. They also assume every frame has the image's size, as frames of one animated image do.
- When several frames fail, the model reports the first one in frame order, as the script raises there. Pixels written before the failure are lost, because the sheet is never saved.

## Findings

| source | as written | input that shows it | evidently intended | confidence | as-written member | corrected member |
|---|---|---|---|---|---|---|
| colorcorrectandspritify.py:56-63 | the scanner skips only `dx > width` and `dy > height`, so index `width` (or `height`) reaches `matrix[dx][dy]` and numpy raises an IndexError | a 1 x 1 frame whose pixel is not background: scanning (0, 0) skips `dx = -2, -1`, reads `matrix[0][0]`, and then reads `matrix[0][1]`. In general, any non-background pixel with x ≥ width − 2 or y ≥ height − 2 aborts the run in pass 2 | clip the window to `0 <= dx < width`, `0 <= dy < height` | high; not executed | Scan.AsWrittenFailsNearBorder | Scan.Nearest |
