# card-recognizer, modelled in Dafny

card-recognizer reads screenshots of a hand of up to five cards (636 x 1166 pixels) and names the value
and the suit of each card. There are up to five card slots, 72 pixels apart. A slot holds a
card when its anchor pixel has the card's paper colour: white `(255,255,255)` or grey
`(120,120,120)`. For each card, the program cuts out the value region (30 x 27 at
`(147 + 72i, 590)`) and the suit region (25 x 20 at `(147 + 72i, 617)`). It crops each region
to the bounding box of its non-paper pixels and fingerprints the crop with a difference hash
(dHash). It then looks the fingerprint up in a library of labelled template hashes. A lookup
that finds nothing counts as one unrecognized glyph.

The model has five modules:

- `Wrappers` holds `Option` and `Result`.
- `Raster` holds pixel grids (column-major `g[x][y]`, as `getRGB(x, y)` reads them), rectangles
  and sub-grids.
- `DHash` models `DHashProcessor.java`.
- `Cropper` models `isCard` and `cropImage`.
- `Recognizer` models the template search of `recognizeImage` and the slot loop of `execute`.

Operations that loop in the source are methods with loop invariants. Each is proved equal to a
specification function, and the properties the program relies on are lemmas about those
functions.

Three behaviours of the code that the model keeps as written:

- The fingerprint's bits come in column-pair-major order. The outer loop runs over `x`, the
  inner over `y`.
- The similarity divides the distance by `hashSize * hashSize`, whatever the length of the hashes.
- Cropping a region with no content calls `getSubimage` with the `Integer.MAX_VALUE` sentinel
  and throws. Cropping a region whose only content row is any row but row 0 also throws: `maxY`
  stays 0, so the height `1 - minY` is not positive. The exception aborts `execute`; it is not
  treated as "no match". The model returns `Failure(EmptyContent)` or
  `Failure(NonPositiveHeight(h))` and the scan of the hand stops with that failure.

The threshold `0.845f` is the float `3544187 / 2^22`. The model uses this exact rational, so
for `hashSize` 16 two 240-bit hashes are similar iff they differ in at most 39 bits.

## Model

| member | source | states |
|---|---|---|
| DHash.GetMatrix | src/main/java/com/wetcoding/cardrecognizer/perceptual/DHashProcessor.java:33-46 | the matrix is width x height and holds `getRGB(x, y)` at `[x, y]` |
| DHash.GetHorizontalDifferences | src/main/java/com/wetcoding/cardrecognizer/perceptual/DHashProcessor.java:48-60 | the string built equals the fingerprint of the matrix: for each column pair, a bit per row, `'1'` iff the left pixel is greater; it has `(width - 1) * height` characters |
| DHash.CalculateHash | src/main/java/com/wetcoding/cardrecognizer/perceptual/DHashProcessor.java:19-23 | the hash of a resized `n x n` picture has `n(n-1)` binary characters, and character `x*n + y` is the difference bit of pixel `(x, y)` |
| DHash.FingerprintLength | src/main/java/com/wetcoding/cardrecognizer/perceptual/DHashProcessor.java:53-56 | a square fingerprint has `n(n-1)` characters, all `'0'` or `'1'` |
| DHash.FingerprintBit | src/main/java/com/wetcoding/cardrecognizer/perceptual/DHashProcessor.java:53-56 | position `x*n + y` of the fingerprint is the comparison of pixel `(x, y)` with its right neighbour |
| DHash.DefaultFingerprintLength | src/main/java/com/wetcoding/cardrecognizer/CardRecognizer.java:28 | the recognizer's 16 x 16 hashes have 240 bits |
| DHash.DifferencesAt | src/main/java/com/wetcoding/cardrecognizer/perceptual/DHashProcessor.java:53-56 | after the first `n` column pairs, the bit of pair `x`, row `y` sits at `x*height + y` |
| DHash.GetDistance | src/main/java/com/wetcoding/cardrecognizer/perceptual/DHashProcessor.java:71-85 | the loop returns `Integer.MAX_VALUE` for unequal lengths and otherwise the Hamming distance |
| DHash.HammingCountsDifferences | src/main/java/com/wetcoding/cardrecognizer/perceptual/DHashProcessor.java:76-84 | the distance is the number of positions where the hashes differ |
| DHash.HammingAtMostLength | src/main/java/com/wetcoding/cardrecognizer/perceptual/DHashProcessor.java:76-84 | the distance never exceeds the hash length |
| DHash.HammingZeroIffEqual | src/main/java/com/wetcoding/cardrecognizer/perceptual/DHashProcessor.java:76-84 | the distance is 0 iff the hashes are equal |
| DHash.HammingSymmetric | src/main/java/com/wetcoding/cardrecognizer/perceptual/DHashProcessor.java:71-85 | the distance does not depend on the order of the hashes |
| DHash.AreSimilar | src/main/java/com/wetcoding/cardrecognizer/perceptual/DHashProcessor.java:26-31 | the integer test behind `areSimilar`: a similar pair needs a threshold below 1, and with a non-negative threshold a distance below `hashSize^2` |
| DHash.SimilarityFormula | src/main/java/com/wetcoding/cardrecognizer/perceptual/DHashProcessor.java:26-31 | similar iff `1 - distance / hashSize^2 > threshold`, computed exactly |
| DHash.SimilarToItself | src/main/java/com/wetcoding/cardrecognizer/perceptual/DHashProcessor.java:26-31 | with a threshold below 1, every hash is similar to itself |
| DHash.SimilarSymmetric | src/main/java/com/wetcoding/cardrecognizer/perceptual/DHashProcessor.java:26-31 | similarity is symmetric |
| DHash.UnequalLengthsNeverSimilar | src/main/java/com/wetcoding/cardrecognizer/perceptual/DHashProcessor.java:26-31 | for a non-negative threshold, hashes of different lengths are never similar (the distance is `Integer.MAX_VALUE`) |
| DHash.DefaultSimilarIffAtMost39 | src/main/java/com/wetcoding/cardrecognizer/CardRecognizer.java:28 | for `DHashProcessor(16, 0.845f)`, similar iff equal lengths and at most 39 differing bits, the same verdict as the decimal 0.845 |
| Cropper.ColorOf | src/main/java/com/wetcoding/cardrecognizer/CardRecognizer.java:109 | `new Color(rgb)` takes three bytes that recompose the low 24 bits of the pixel and drops the alpha byte |
| Cropper.IsCard | src/main/java/com/wetcoding/cardrecognizer/CardRecognizer.java:108-111 | a pixel is in `backgroundColors` iff its low 24 bits are `FFFFFF` or `787878`, whatever its alpha |
| Cropper.FirstContentRow | src/main/java/com/wetcoding/cardrecognizer/CardRecognizer.java:141-158 | the first row at or after `y` that is not blank; every row before it is blank |
| Cropper.LastContentRow | src/main/java/com/wetcoding/cardrecognizer/CardRecognizer.java:141-158 | the last row before `y` that is not blank, or -1; every row after it is blank |
| Cropper.FirstContentColumn | src/main/java/com/wetcoding/cardrecognizer/CardRecognizer.java:144-150 | the first column holding content; every column before it is blank |
| Cropper.LastContentColumn | src/main/java/com/wetcoding/cardrecognizer/CardRecognizer.java:144-150 | the last column holding content, or -1; every column after it is blank |
| Cropper.CropImage | src/main/java/com/wetcoding/cardrecognizer/CardRecognizer.java:139-162 | the nested scan returns the crop of the region, including the exceptions `getSubimage` throws |
| Cropper.ColumnScanBounds | src/main/java/com/wetcoding/cardrecognizer/CardRecognizer.java:144-150 | after any prefix of the scan, `minX` and `maxX` are the least and greatest columns of the content visited so far, or still the sentinels `MAX_VALUE` and 0 |
| Cropper.RowScanBounds | src/main/java/com/wetcoding/cardrecognizer/CardRecognizer.java:152-157 | after any prefix of the rows, `minY` is the first content row (or the sentinel) and `maxY` the last content row after it, or 0 when there is none |
| Cropper.ScanIsCrop | src/main/java/com/wetcoding/cardrecognizer/CardRecognizer.java:139-162 | the bounds the scan ends with give the crop specification |
| Cropper.CropEmptyIff | src/main/java/com/wetcoding/cardrecognizer/CardRecognizer.java:140-161 | cropping fails with the empty-content error iff every pixel has the paper colour |
| Cropper.CropIsTight | src/main/java/com/wetcoding/cardrecognizer/CardRecognizer.java:140-161 | a successful crop is a non-empty part of the image, contains every content pixel, and its border rows and columns each hold content |
| Cropper.CropTwoRows | src/main/java/com/wetcoding/cardrecognizer/CardRecognizer.java:152-157 | with two or more content rows the crop succeeds and spans the first to the last content row |
| Cropper.CropSingleRow | src/main/java/com/wetcoding/cardrecognizer/CardRecognizer.java:152-161 | with one content row `y0`: at row 0 the crop is that row, below it the height `1 - y0` is not positive and cropping fails |
| Cropper.CropIdempotent | src/main/java/com/wetcoding/cardrecognizer/CardRecognizer.java:139-162 | cropping a crop again gives the whole of it |
| Recognizer.FirstMatch | src/main/java/com/wetcoding/cardrecognizer/CardRecognizer.java:120-125 | a label found belongs to an entry with a template similar to the hash |
| Recognizer.FirstMatchNone | src/main/java/com/wetcoding/cardrecognizer/CardRecognizer.java:120-128 | the search finds nothing iff no template of any entry is similar to the hash |
| Recognizer.FirstMatchAt | src/main/java/com/wetcoding/cardrecognizer/CardRecognizer.java:120-125 | the label found is that of the first entry, in iteration order, with a similar template |
| Recognizer.MatchTemplates | src/main/java/com/wetcoding/cardrecognizer/CardRecognizer.java:120-128 | the nested loop with early return gives the first-match search |
| Recognizer.Glyph | src/main/java/com/wetcoding/cardrecognizer/CardRecognizer.java:117 | the glyph cropped from a region is a non-empty part of that region |
| Recognizer.GlyphEmptyIff | src/main/java/com/wetcoding/cardrecognizer/CardRecognizer.java:117 | cropping a region fails with the empty-content error iff all its pixels have the paper colour |
| Recognizer.GlyphOfTwoRows | src/main/java/com/wetcoding/cardrecognizer/CardRecognizer.java:117 | a region with two content rows always crops |
| Recognizer.UnrecognizedGlyph | src/main/java/com/wetcoding/cardrecognizer/CardRecognizer.java:126-128 | the glyph written out as unrecognized lies inside the region, is non-empty, and no template matches its hash |
| Recognizer.CropGlyph | src/main/java/com/wetcoding/cardrecognizer/CardRecognizer.java:117 | cropping the sub-image of a region gives the glyph in image coordinates |
| Recognizer.HashGlyph | src/main/java/com/wetcoding/cardrecognizer/CardRecognizer.java:119 | the hash of the cropped image is the fingerprint of its resampled pixels |
| Recognizer.RecognizeImage | src/main/java/com/wetcoding/cardrecognizer/CardRecognizer.java:116-129 | crop, hash and search give the first matching label, or the unrecognized glyph, or the crop's exception |
| Recognizer.SlotInHand | src/main/java/com/wetcoding/cardrecognizer/CardRecognizer.java:19-24 | the anchor pixel and both glyph regions of all five slots lie inside a 636 x 1166 image |
| Recognizer.HoldsCard | src/main/java/com/wetcoding/cardrecognizer/CardRecognizer.java:75 | slot `i` holds a card iff the pixel at `(147 + 72i, 590)` is white or grey paper, whatever its alpha |
| Recognizer.SlotFailsIff | src/main/java/com/wetcoding/cardrecognizer/CardRecognizer.java:78-81 | a slot fails iff its value or its suit region fails to crop; the value is cropped first, so its error wins |
| Recognizer.IsCardAt | src/main/java/com/wetcoding/cardrecognizer/CardRecognizer.java:108-111 | the pixel at `(x, y)` has the paper colour |
| Recognizer.RecognizeSlot | src/main/java/com/wetcoding/cardrecognizer/CardRecognizer.java:78-81 | recognizing the value then the suit of slot `i` adds one to the counter per empty result |
| Recognizer.ScanSlots | src/main/java/com/wetcoding/cardrecognizer/CardRecognizer.java:74-82 | a successful scan from slot `i` returns no more slots than remain |
| Recognizer.ScanSlotsSuccess | src/main/java/com/wetcoding/cardrecognizer/CardRecognizer.java:74-82 | the slots reported are consecutive slots from the first, each holding a card and recognized in order; the scan stops at slot 5 or at the first slot without a card |
| Recognizer.ScanSlotsFailure | src/main/java/com/wetcoding/cardrecognizer/CardRecognizer.java:74-82 | an aborted scan failed on a slot holding a card, and every slot before it held a card and was recognized |
| Recognizer.Misses | src/main/java/com/wetcoding/cardrecognizer/CardRecognizer.java:79-81 | the number of empty results is at most two per slot |
| Recognizer.SlotLoop | src/main/java/com/wetcoding/cardrecognizer/CardRecognizer.java:74-82 | the `for`/`break` loop gives the slot scan, and on success the counter grows by the number of empty results |
| Recognizer.ScanHand | src/main/java/com/wetcoding/cardrecognizer/CardRecognizer.java:67-82 | one screenshot's pass gives the slots found in the hand and the new unrecognized count |

## Left out

- `resizeImage` (AWT smooth scaling to a grey `hashSize x hashSize` image) is a `Resampler` parameter, because its pixel arithmetic belongs to the Java library; the model fixes only its output size.
- The float and double arithmetic of `areSimilar` is taken as exact rational arithmetic. For `hashSize` 16 and `0.845f` the two agree on every distance from 0 to 240.
- `hashSize * hashSize` is required to fit in an `int` (`DHash.Valid`); the overflow for larger sizes is not modelled.
- File I/O is not modelled: the directory listing and `readImage` (whose size check becomes the `IsHand` precondition), `loadTemplates` (the library is a parameter), and the console output of `main` and `execute`.
- `writeUnrecognizedImage` is not modelled. Its call site shows up as the `Unrecognized(glyph)` result, which names the cropped region it would write.
- The iteration order of the template `HashMap` is unspecified in Java. The model takes the library as an explicit sequence and searches it in that order.
- The `AtomicInteger` counter is an unbounded `int`, without 32-bit wrap-around.
- `PerceptualHashProcessor.java` is only an interface; `DHash` models its one implementation.
- The loop over the files of the directory in `execute` repeats `Recognizer.ScanHand` once per screenshot, threading the counter through. That outer loop is not modelled.
- Recognizer.ScanHand: the counter is stated only when the scan succeeds. After a crop exception the program ends, and the count it had is never printed.
- Aliasing between the screenshot and other arrays is not modelled: every method only reads the image.
