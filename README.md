# Mosaic generator: colour quantisation and disc-tile rendering

This project models in Dafny the image pipeline of the mosaic generator. The pipeline has these steps:

- An uploaded picture is decoded to a flat RGB buffer.
- The buffer is sampled on a 64 × 96 grid.
- Each sample is matched to the nearest colour of a palette. There are two palettes, `colors` (29 distinct keys) and `grayscales` (8 keys). There are two metrics: Euclidean and CIEDE2000.
- The scan runs once plainly and once with Floyd–Steinberg error diffusion over the grid, which gives eight mosaics.
- A list of mosaic colours is rendered as an RGBA image of 32 × 32 tiles. Each tile is a coloured disc on black, and the image has a 32-pixel black border.

There is one model, parametrised by grid size, block size and border width. It covers both `processing.js` and its near-identical copy `Processing.js`:

- The helper functions sit at the same lines in both files (11-100).
- The scan loops are at `processing.js:160-242` and `Processing.js:216-298`.
- The renderer is at `processing.js:260-319` and `Processing.js:344-403`.

The modules are:

- `Arith`: small facts about integer division and row-major indices.
- `Rgb`: bytes, colours, `hexToRgb` and its inverse, and the squared Euclidean distance.
- `Palettes`: the two object literals of `colors.js`, with JavaScript's key semantics (a repeated key keeps its first position).
- `Matcher`: the first-strict-minimum scan of `findClosestColor*`, over any metric. It has a functional specification and an imperative loop.
- `Sampler`: the `Math.floor(x * scale + scale / 2)` sample coordinates and the flat 3-channel sample index.
- `Dither`: one `floydSteinbergDither` call. It is a function on buffers, and also a method that updates an array in place.
- `Scan`: the plain and dithering scans as functions of the buffer, and what they produce.
- `Process`: the nested loops of `processMosaic` over arrays. Each dithering variant runs on its own copy of the buffer. The loops are proved to produce the `Scan` specification.
- `Render`: `createMosaicImage` up to the PNG encoding. The tile loops fill one array and the border loops fill another, and each is proved against a functional image specification.

Numbers are exact:

- Scale factors and error shares are real numbers.
- A `Uint8` store is modelled as clamping followed by truncation.
- `Math.sqrt` is dropped where only comparisons matter. `Matcher.RootMetricMatches` shows that any non-negative metric whose square is the squared Euclidean distance, as `euclideanDistance` is, picks the same colour as the squared distance. `Scan.QuantizedRoot` and `Scan.DitheredRoot` lift this to the whole plain and dithering scans. `Render.RootDisc` shows that `Math.sqrt(dx² + dy²) < blockSize / 2` is the integer disc test.

Mid-grey (128,128,128) might be expected to tie between white and black, but it does not: white is 127 away per channel and black 128. So white is strictly closer whatever the key order (`Matcher.MidGreyMatchesWhite`).

The dithering scan never changes the sample of a visited cell, but only when the source image is at least as large as the grid (64 × 96 for processMosaic). Then distinct cells read distinct source pixels. A smaller image makes some cells share a sample pixel, and a step can then write into a sample already matched. `Dither.SmallImageSharedSample` shows this on a 1 × 1 image under a 2 × 1 grid: the 7/16 share for the right neighbour of cell (0, 0) lands on cell (0, 0)'s own sample and raises it from 100 to 143. The lemmas that rely on distinct samples say so in their requires, and their rows below carry the same condition.

## Model

| member | source | states |
|---|---|---|
| Rgb.HexDigitValue | processing.js:12-14 | a hex digit, in either case, has a value below 16 |
| Rgb.HexDigit | processing.js:12-14 | the lower-case digit of a value below 16 is a hex digit with that value |
| Rgb.HexToRgb | processing.js:11-16 | parsing succeeds exactly when characters 1..6 are six hex digits |
| Rgb.RgbToHex | processing.js:11-16 | the key of a colour is `#` and six hex digits (the inverse of hexToRgb) |
| Rgb.HexRoundTrip | processing.js:11-16 | hexToRgb of the key of a colour gives that colour back |
| Rgb.HexRoundTripKey | processing.js:11-16 | a well-formed key parses, and its colour's key is the lower-cased key |
| Rgb.PairDigits | processing.js:12-14 | each channel is the value of its two-digit pair: high digit times 16 plus low digit |
| Rgb.DigitCanonical | processing.js:12-14 | a digit's value names the lower-case digit back |
| Rgb.HexCaseInsensitive | processing.js:11-16 | upper- and lower-case keys parse to the same colour |
| Rgb.SquaredDistance | processing.js:19-25 | the squared Euclidean distance is zero exactly on equal colours |
| Rgb.SquaredDistanceSymmetric | processing.js:19-25 | the distance is symmetric |
| Rgb.SquaredEuclidean | processing.js:19-25 | the real squared distance is non-negative and zero exactly on equal colours |
| Palettes.KeysFrom | processing.js:32 | definition: Object.keys of a literal folded left to right; KeysFromSpec and KeysFromFirstOccurrences state what it lists |
| Palettes.ObjectKeys | processing.js:32 | definition: Object.keys from no keys; ObjectKeysFirstOccurrences states its order |
| Palettes.ColorEntries | colors.js:2-33 | the colors literal as written: 30 key-label pairs in source order |
| Palettes.GrayscaleEntries | colors.js:36-45 | the grayscales literal as written: 8 pairs |
| Palettes.KeysFromSpec | colors.js:2-33 | Object.keys lists each key once, after the keys already collected, and exactly the keys of the literal |
| Palettes.FirstOccurrences | colors.js:2-33 | definition: the elements not seen earlier in the list, in order; the independent reference for Object.keys |
| Palettes.FirstOccurrencesDistinct | colors.js:36-45 | a list without repetitions is its own first occurrences |
| Palettes.KeysFromFirstOccurrences | colors.js:2-33 | the fold, after distinct collected keys, equals the first occurrences of the collected keys followed by the literal's keys |
| Palettes.ObjectKeysFirstOccurrences | colors.js:2-33 | Object.keys of a literal is the list of its keys with every later repetition removed, so each key keeps its first position |
| Palettes.KeysFromAppend | colors.js:2-33 | the keys of two entry lists in a row are the second's keys added after the first's |
| Palettes.KeysFromDistinct | colors.js:2-33 | with no repeated key, Object.keys is the list of entry keys |
| Palettes.ObjectKeysDistinct | colors.js:36-45 | a literal without repeated keys iterates its keys in source order |
| Palettes.ObjectKeysRepeatedLast | colors.js:26-32 | a repeated last key adds no new key |
| Palettes.ObjectKeysOfRepeat | colors.js:26-32 | a literal of distinct keys followed by a repeat of one of them lists exactly those keys |
| Palettes.EntryKeysCons | colors.js:2-33 | the key list of a literal is its first key and the keys of the rest |
| Palettes.ColorEntriesShape | colors.js:3-32 | the colour literal is 29 distinct keys and then a repeat of the 24th key |
| Palettes.ColorEntriesSplit | colors.js:3-32 | the colour literal is its first 29 entries and then the last one |
| Palettes.FirstColorKeys | colors.js:3-31 | the first 29 colour keys are the expected list |
| Palettes.ExpectedKeysDistinct | colors.js:3-31 | the 29 expected colour keys are pairwise distinct |
| Palettes.DistinctRow | colors.js:3-31 | expected key i differs from every later key |
| Palettes.ColorKeysDeduplicated | colors.js:2-33 | `colors` iterates 29 keys, with "#D35400" kept at its first position, index 23 |
| Palettes.DuplicateLabel | colors.js:32 | the repeated key keeps the last label, "30" |
| Palettes.GrayscalesArePrefix | colors.js:36-45 | the grayscale keys are exactly the first eight colour keys, in order |
| Palettes.GrayscaleEntriesKeys | colors.js:37-44 | the grayscale keys are distinct and equal the first eight expected keys |
| Palettes.PaletteKeysWellFormed | colors.js:2-45 | both palettes are non-empty and every key is `#` and six hex digits |
| Palettes.ExpectedKeyWellFormed | colors.js:3-31 | each expected colour key is well formed |
| Matcher.Decode | processing.js:32-33 | one decoded colour per pool key |
| Matcher.DecodeAt | processing.js:32-33 | position i of the decoded pool is hexToRgb of key i |
| Matcher.FirstMinIndex | processing.js:32-40 | the chosen position lies in the pool |
| Matcher.FirstMinIndexIsFirstMin | processing.js:32-40 | no pool colour is closer than the chosen one, and every earlier one is strictly farther |
| Matcher.FirstMinIndexUnique | processing.js:36-39 | those two properties determine the chosen position, so the earliest key wins a tie |
| Matcher.Closest | processing.js:28-43 | the result is null exactly for an empty pool, and otherwise a pool colour |
| Matcher.FindClosestColor | processing.js:28-43 | the forEach loop with its running minimum returns the specified closest colour |
| Matcher.ScanStep | processing.js:36-39 | the next key replaces the best so far only when it is strictly closer |
| Matcher.FirstMinIndexRankInvariant | processing.js:19-25 | two metrics that rank colours alike choose the same position |
| Matcher.ClosestRankInvariant | processing.js:19-25 | two metrics that rank colours alike give the same match |
| Arith.SquareMonotone | processing.js:20-24 | on non-negative reals a < b exactly when a² < b², so a square root keeps every comparison |
| Matcher.RootRanksAlike | processing.js:19-25 | a non-negative root of a metric ranks colours as the metric does |
| Matcher.RootMetricMatches | processing.js:19-43 | any non-negative metric whose square is the squared Euclidean distance, as `euclideanDistance` is, matches the same colour as the squared distance |
| Matcher.ClosestOfPoolColor | processing.js:28-43 | under a separating distance a pool colour matches itself |
| Matcher.SquaredEuclideanSeparates | processing.js:19-25 | the Euclidean distance is non-negative and zero only on equal colours |
| Matcher.MidGreyMatchesWhite | processing.js:28-43 | mid-grey matches white against white and black, in either order |
| Matcher.NumberScan | processing.js:30-40 | the forEach under JavaScript's `<` with a distance that may be Infinity or NaN: a chosen colour is a pool colour with a finite distance, and closestColor is null exactly while minDistance is Infinity |
| Matcher.Comparable | processing.js:34-36 | a colour is compared exactly when it is in the pool and its distance is a finite number |
| Matcher.ClosestWithDistance | processing.js:28-43 | the real-valued scan's result and the minDistance it ends on: Infinity for an empty pool, else the match's distance |
| Matcher.ClosestWithDistanceSnoc | processing.js:36-39 | one more key becomes the match exactly when its distance is strictly below minDistance |
| Matcher.NumberScanIsClosest | processing.js:28-43 | the scan under JavaScript comparison is the real-valued scan over the colours with finite distance |
| Matcher.NonNumberGivesNull | processing.js:29-42 | if no pool colour has a finite distance, the result is null |
| Matcher.AllComparable | processing.js:34-36 | when every distance is finite, every pool colour is compared |
| Matcher.ComparableWhole | processing.js:34-36 | when every distance is a number, the compared colours are the whole pool, in order |
| Matcher.NumberScanAgrees | processing.js:28-43 | a metric finite on the whole pool gives the match of the real-valued model |
| Sampler.SampleCoord | processing.js:162-163 | definition: Math.floor(i·scale + scale/2) in exact reals, scale = src/grid; its integer form and bounds are the next two rows |
| Sampler.SampleCoordIsQuotient | processing.js:162-163 | the sample coordinate is floor((2i+1)·src / (2·grid)) |
| Sampler.SampleCoordInBounds | processing.js:162-163 | for 0 <= i < grid the sample coordinate lies in [0, src) |
| Sampler.CentreInBounds | processing.js:162-163 | the integer centre (2i+1)·src / (2·grid) of cell i lies in [0, src) |
| Sampler.SampleCoordStrictlyIncreasing | processing.js:162-163 | when the source is at least the grid, distinct cells sample distinct columns, in order |
| Sampler.CentreIncreasing | processing.js:162-163 | when src >= grid, the integer centres of cells i < j are strictly increasing |
| Sampler.SampleIndex | processing.js:165 | the sample index is a multiple of 3, and index + 2 lies inside the W·H·3 buffer |
| Sampler.SamplePixel | processing.js:165-170 | definition: the { r, g, b } read at the cell's sample index; the index bounds are SampleIndex's |
| Sampler.SampleIndicesDisjoint | processing.js:165-170 | distinct cells read disjoint 3-byte pixels when the source is at least as large as the grid |
| Sampler.ReferenceSample | processing.js:131-132 | a 640 × 960 image has scale 10 and first sample at (5, 5) |
| Dither.QuantError | processing.js:70-74 | the error is zero exactly when the match is the pixel |
| Dither.StoreClamped | processing.js:89-91 | a negative value stores 0, a value of 255 or more stores 255, and any value in [0, 256) stores its integer floor |
| Dither.Diffuse | processing.js:89-91 | definition: v + e·k/16 stored through the clamp; its integer form and direction are the next rows |
| Dither.DiffuseInIntegers | processing.js:89-91 | a stored channel is clamp(floor((16v + e·k) / 16)) |
| Dither.DiffuseNoError | processing.js:89-91 | a zero error leaves a channel alone |
| Dither.DiffuseDirection | processing.js:89-91 | a channel moves in the direction of the error's sign, and never past v + e·k/16 |
| Dither.DitherIndex | processing.js:86 | definition: (centerY·mosaicWidth·scaleX + centerX)·3 in exact reals, related to SampleIndex by the next row |
| Dither.DitherIndexIsSampleIndex | processing.js:83-86 | the index the ditherer writes is the index the scan reads for that cell, because mosaicWidth·scaleX = originalWidth |
| Dither.DistributeError | processing.js:76-93 | a distributeError call keeps the buffer length |
| Dither.DistributeErrorEffect | processing.js:76-93 | an in-grid neighbour's three channels get their share of the error; no other byte changes, and an off-grid neighbour is skipped |
| Dither.FloydSteinberg | processing.js:69-100 | a dithering step keeps the buffer length |
| Dither.FloydSteinbergShares | processing.js:95-99 | with distinct samples, an in-grid neighbour's sample receives exactly its weight of the error: 7/16 right, 3/16 lower left, 5/16 below, 1/16 lower right (when the source is at least as large as the grid) |
| Dither.Share | processing.js:89-91 | definition: a sample pixel with k/16 of the error diffused into each channel |
| Dither.ShareHere | processing.js:76-93 | the call aimed at a cell gives its sample the share |
| Dither.ShareElsewhere | processing.js:76-93 | a call aimed at another cell leaves its sample alone, when the source is at least as large as the grid |
| Dither.ShareRight | processing.js:95 | the right neighbour's sample gains 7/16 of the error |
| Dither.ShareLowerLeft | processing.js:96 | the lower-left neighbour's sample gains 3/16 |
| Dither.ShareBelow | processing.js:97 | the neighbour below gains 5/16 |
| Dither.ShareLowerRight | processing.js:98 | the lower-right neighbour gains 1/16 |
| Dither.SmallImageSharedSample | processing.js:95 | on a 1 × 1 image under a 2 × 1 grid, cells (0, 0) and (1, 0) share a sample, and the step at (0, 0) raises it from 100 to 143 |
| Dither.SmallImageStep | processing.js:95-98 | on that grid the step at (0, 0) is its right share alone |
| Dither.OnlyRightNeighbour | processing.js:95-98 | when only the right neighbour is in the grid the step is that one share |
| Dither.SmallImageIndices | processing.js:165 | both cells of that grid read source pixel 0 |
| Dither.SmallImageRightShare | processing.js:89-91 | 100 plus 7/16 of an error of 100 stores 143 |
| Dither.FloydSteinbergFrame | processing.js:95-99 | a step writes only the sample pixels of the four neighbours (1,0), (-1,1), (0,1), (1,1) |
| Dither.DistributeErrorKeeps | processing.js:76-93 | one neighbour update leaves every byte outside that neighbour's sample pixel unchanged |
| Dither.FloydSteinbergExact | processing.js:69-100 | an exact match leaves the buffer unchanged |
| Dither.DistributeNoError | processing.js:76-93 | a zero error leaves the buffer unchanged |
| Dither.NeighbourLater | processing.js:95-99 | every neighbour comes strictly later in row-major order |
| Dither.NotHitBefore | processing.js:81-86 | no neighbour's sample pixel overlaps the sample pixel of an already visited cell when the source is at least as large as the grid |
| Dither.VisitedNotTouched | processing.js:95-99 | a step touches no byte of a visited cell's sample pixel when the source is at least as large as the grid |
| Dither.UntouchedSample | processing.js:69-100 | a sample pixel with no touched byte is unchanged by the step |
| Dither.VisitedSamplesUnchanged | processing.js:69-100 | a step leaves the samples of all visited cells unchanged when the source is at least as large as the grid |
| Dither.DistributeErrorAt | processing.js:76-93 | the in-place array update equals the functional distributeError |
| Dither.FloydSteinbergDither | processing.js:69-100 | the in-place dithering step equals the functional step |
| Scan.QuantizedRun | processing.js:160-190 | after n cells the plain scan has pushed n entries |
| Scan.QuantizedRunInPool | processing.js:174-188 | with a non-empty pool every pushed entry is a pool colour, never null |
| Scan.Quantized | processing.js:160-190 | the plain scan pushes W·H entries |
| Scan.QuantizedRunCell | processing.js:160-175 | entry k is the closest colour to cell k's sample |
| Scan.QuantizedCell | processing.js:160-175 | entry y·W+x is the closest colour to the sample of cell (x, y), and it is a pool colour |
| Scan.CellStep | processing.js:199-224 | one dithering cell pushes the match of its current sample |
| Scan.DitherStep | processing.js:199-224 | the same step by cell number |
| Scan.DitherRun | processing.js:193-242 | after n cells there are n colours, and the buffer keeps its length |
| Scan.DitherRunInPool | processing.js:222-224 | every dithered colour is a pool colour |
| Scan.Dithered | processing.js:193-242 | the dithering scan pushes W·H colours |
| Scan.DitherRunPrefix | processing.js:224 | later steps never change colours already pushed |
| Scan.DitherRunPrefixStep | processing.js:224 | the inductive step of that prefix property |
| Scan.DitherRunExtends | processing.js:224 | each step appends exactly one colour |
| Scan.DitheredCell | processing.js:199-224 | colour k is the match of cell k's sample as earlier diffusion left it |
| Scan.FirstCellsAgree | processing.js:174-224 | the plain and dithering scans agree on the first cell |
| Scan.DitherRunFreezesVisited | processing.js:193-242 | once a cell is visited, no later step changes its sample when the source is at least as large as the grid |
| Scan.DitherRunFreezesVisitedStep | processing.js:193-242 | the inductive step of that freezing property when the source is at least as large as the grid |
| Scan.DitheredMatchesFinalBuffer | processing.js:193-242 | every dithered colour is the match of its cell's sample in the final working buffer when the source is at least as large as the grid |
| Scan.DitherRunUnfold | processing.js:193-242 | the run of n cells is the run of n-1 cells followed by one step |
| Scan.DitherStepKeepsVisited | processing.js:222-223 | one step leaves the samples of visited cells alone when the source is at least as large as the grid |
| Scan.SamplesSnoc | processing.js:165-170 | the first n samples are the first n-1 samples and then sample n-1 |
| Scan.DitherRunExact | processing.js:193-242 | on an image whose samples are all pool colours, dithering changes nothing and pushes the samples |
| Scan.DitherRunExactStep | processing.js:193-242 | on such an image, if the first k cells left the buffer as is and pushed their samples, so do the first k + 1 |
| Scan.DitherStepExact | processing.js:222-224 | a step on a pool-coloured sample pushes it and leaves the buffer alone |
| Scan.DitherAgreesOnPaletteImages | processing.js:160-242 | on such images the plain and dithering scans give the same mosaic |
| Scan.EuclideanDitherAgreesOnPaletteImages | processing.js:174-224 | the same for the Euclidean metric |
| Scan.QuantizedRunRoot | processing.js:160-190 | with any non-negative metric whose square is the squared Euclidean distance, the first n plain cells are those of SquaredEuclidean |
| Scan.QuantizedRoot | processing.js:160-190 | then the whole plain scan is that of SquaredEuclidean |
| Scan.DitherStepRoot | processing.js:199-224 | then one dithering step matches and diffuses as under SquaredEuclidean |
| Scan.DitherRunRoot | processing.js:193-242 | then the first n dithering steps leave the same buffer and colours |
| Scan.DitherRunRootStep | processing.js:193-242 | the inductive step of DitherRunRoot |
| Scan.DitheredRoot | processing.js:193-242 | then the whole dithering scan gives the colours of SquaredEuclidean |
| Scan.CellNumber | processing.js:160-161 | loop cell (x, y) is cell number y·W+x |
| Scan.PlainScan | processing.js:160-190 | the nested plain loops by position (y, x) have pushed y·W + x entries |
| Scan.PlainScanIsQuantizedRun | processing.js:160-190 | the nested loops push the same list as the cell-number scan |
| Scan.PlainScanStep | processing.js:161-189 | the inner-loop step of that equality |
| Scan.PlainScanComplete | processing.js:160-190 | after the last row the loops have pushed the whole plain scan |
| Scan.DitherScan | processing.js:193-242 | the loop-position form of the dithering scan keeps the buffer length |
| Scan.DitherRunAt | processing.js:194-240 | the step from cell number y·W+x works on cell (x, y) |
| Scan.DitherScanNext | processing.js:194-240 | one inner-loop step is CellStep at (x, y) |
| Scan.DitherScanNextRow | processing.js:193-194 | the end of row y is the start of row y+1 |
| Scan.DitherScanComplete | processing.js:193-242 | after the last row the loops have produced the whole dithering scan |
| Scan.DitherReachedIff | processing.js:193-242 | the loop-invariant predicate holds exactly of the scan state at that position |
| Scan.DitherReachedStart | processing.js:152-157 | the scan starts on the buffer copy with no colours |
| Scan.DitherReachedNextRow | processing.js:193-194 | the predicate carries from the end of one row to the next |
| Scan.DitherReachedComplete | processing.js:193-242 | at the end of the grid the state holds the dithered mosaic |
| Scan.QuantizedRunSnoc | processing.js:174-175 | one more cell appends the match of its sample |
| Scan.CellPixelOf | processing.js:165-170 | cell number n reads the sample of cell (x, y) |
| Scan.DitherStepOf | processing.js:222-224 | the step by cell number is the step at (x, y) |
| Scan.Expected | processing.js:174-240 | definition: the eight mosaics, each palette with each metric, plain and dithered; Process.Scans is proved against it |
| Process.CopyBuffer | processing.js:152-157 | Buffer.from gives a fresh array with the same bytes |
| Process.ReadSample | processing.js:165-170 | the three bytes read form the sample pixel of the cell |
| Process.PlainCell | processing.js:174-175 | one push extends the plain list to the next loop position |
| Process.DitherCell | processing.js:222-224 | match, dither and push keep the invariant at the next position |
| Process.PlainCells | processing.js:161-189 | the body of the plain loop extends all four lists |
| Process.PlainRow | processing.js:161-189 | one row of the plain loop |
| Process.PlainNextRow | processing.js:160-161 | the four lists at a row end are the lists at the next row's start |
| Process.DitherCells | processing.js:195-240 | the body of the dithering loop advances all four variants, each on its own buffer |
| Process.DitherRow | processing.js:194-241 | one row of the dithering loop |
| Process.DitherNextRow | processing.js:193-194 | the dithering states at a row end are the states at the next row's start |
| Process.ScansComplete | processing.js:160-242 | at the end of both loops the eight lists are the specified mosaics |
| Process.PlainScans | processing.js:160-190 | the plain loops over the whole grid |
| Process.DitherScans | processing.js:193-242 | the dithering loops over the whole grid |
| Process.Scans | processing.js:141-242 | both scans produce the eight specified mosaics and leave the decoded image unwritten |
| Process.ProcessMosaic | processing.js:130-244 | with the two palettes of colors.js (both non-empty and well formed), processMosaic produces the eight mosaics |
| Render.ImageLengthIsArea | processing.js:261 | the tile buffer holds width × height × 4 bytes |
| Render.ReferenceDimensions | processing.js:294-297 | the 64 × 96 grid of 32-pixel blocks is 2048 × 3072 pixels, or 2112 × 3136 with the border |
| Render.InDiscExact | processing.js:272-275 | the squared test dx² + dy² < (blockSize/2)² is the integer test (2tx−b)² + (2ty−b)² < b² |
| Render.RootDisc | processing.js:272-275 | for r the non-negative root of dx² + dy², as Math.sqrt gives, `r < blockSize / 2` is that integer test |
| Render.TileColor | processing.js:272-288 | definition: the cell colour, opaque, strictly inside the disc and opaque black elsewhere; TileColorIsDisc states it |
| Render.TileColorIsDisc | processing.js:275-288 | a tile pixel is the cell colour inside the disc and black outside, always opaque |
| Render.DiscExamples | processing.js:272-288 | with b = 32, local (16,16) and (1,16) are coloured; (0,0), (31,31), (0,16) and (16,0) are black |
| Render.SourceOffset | processing.js:276 | the source's byte offset is 4 × the row-major pixel index |
| Render.TileXSplit | processing.js:265 | tile i's column lies in the image, with local x tx and tile column i mod W |
| Render.TileYSplit | processing.js:266 | tile i's row lies in the image exactly when i is a cell of the grid, with local y ty |
| Render.TilePixelLands | processing.js:265-276 | a tile pixel's coordinates, cell and local position are those of tile i |
| Render.CellOfSplit | processing.js:265-266 | a pixel whose block coordinates are those of cell i lies in cell i |
| Render.PixelOfOwnTile | processing.js:264-291 | every image pixel belongs to exactly one tile, at its local position |
| Render.TilesDisjoint | processing.js:264-291 | different tiles, or different local positions, write different pixels |
| Render.MosaicPixel | processing.js:264-291 | definition: pixel q of the drawn tile image, the tile colour of its cell or the zero fill; MosaicImageTile states it |
| Render.MosaicImage | processing.js:261-291 | the drawn tile image has W·H·b·b·4 bytes |
| Render.MosaicImageTile | processing.js:264-291 | at local (tx, ty) of tile i the image shows the disc colour of mosaic colour i |
| Render.Stored | processing.js:277-287 | an out-of-range store is dropped, as a Buffer drops it; the length is kept |
| Render.PutPixel | processing.js:277-287 | four stores keep the length |
| Render.PutPixelInside | processing.js:277-287 | an in-range pixel store sets exactly that pixel's four channels |
| Render.PutPixelOutside | processing.js:277-287 | a pixel store past the end changes nothing |
| Render.Store | processing.js:277 | an array store is the functional store |
| Render.StorePixel | processing.js:277-280 | four array stores are the functional pixel store |
| Render.PaintedStart | processing.js:261 | the zero-filled buffer is the painted state before tile 0 |
| Render.WrittenStep | processing.js:269-270 | one inner step adds exactly the current pixel to the written set |
| Render.PaintedStep | processing.js:272-288 | painting one pixel advances the painted state by one position |
| Render.PaintedStepInside | processing.js:272-288 | a write inside the tile buffer advances the painted state by one position |
| Render.PaintedStepOutside | processing.js:272-288 | a write past the end of the tile buffer is dropped and still advances the painted state |
| Render.PaintedSkip | processing.js:276 | a position past the end of the tile buffer adds nothing to what has been written |
| Render.PaintedNextRow | processing.js:269 | a row end is the start of the next row |
| Render.PaintedNextTile | processing.js:264 | the end of a tile is the start of the next tile |
| Render.PaintedComplete | processing.js:264-291 | after the last colour the buffer is the specified tile image |
| Render.PaintPixel | processing.js:272-288 | one pixel of the disc loop advances the painted state |
| Render.TileOffset | processing.js:265-276 | the source's offset from blockX, blockY, bx, by is 4 × the tile pixel index |
| Render.DiscColor | processing.js:272-288 | the colour the source writes for a disc position is the specified tile colour |
| Render.PaintTile | processing.js:265-290 | one forEach callback paints its whole tile |
| Render.PaintTiles | processing.js:261-291 | the forEach fills a fresh buffer with the specified tile image |
| Render.FramedImage | processing.js:294-319 | the framed image has (W·b+2bw)·(H·b+2bw)·4 bytes |
| Render.FrameIsBlack | processing.js:303-307 | every pixel within bw of an edge is opaque black |
| Render.InteriorIsCopy | processing.js:309-316 | for an interior pixel the `%` never wraps, and it is the tile pixel at (x−bw, y−bw) |
| Render.MosaicImagePixel | processing.js:310-316 | the four bytes of a tile-image pixel are its specified colour |
| Render.MosaicByteOfPixel | processing.js:277-286 | byte 4q + c of the tile image is channel c of tile-image pixel q |
| Render.PixelOfChannels | processing.js:310-316 | four bytes equal to the channels of a colour read back as that colour |
| Render.FramedPixel | processing.js:302-316 | definition: black on the frame, else the tile-image pixel at ((x−bw) mod w, (y−bw) mod h); FrameIsBlack and InteriorIsCopy state it |
| Render.FramedStart | processing.js:297 | the zero-filled buffer is the framed state before pixel 0 |
| Render.FramedStep | processing.js:302-316 | one pixel store advances the framed state by one pixel |
| Render.FramePixel | processing.js:302-316 | one pixel of the border loop advances the framed state |
| Render.ReadFramedPixel | processing.js:304-316 | the value the border loop stores at (x, y) is the specified framed pixel: black on the border, the copied tile-image pixel inside |
| Render.FrameRow | processing.js:301-317 | one row of the border loop |
| Render.FrameRows | processing.js:300-319 | the outer border loop, from an empty framed state, covers every framed pixel |
| Render.AddBorder | processing.js:294-319 | the border loops fill a fresh buffer with the specified framed image |
| Render.FramedComplete | processing.js:300-318 | after the last row the buffer is the specified framed image |
| Render.CreateMosaicImage | processing.js:260-319 | createMosaicImage's final buffer is the framed image of the drawn tiles |
| Render.InteriorShowsTile | processing.js:260-319 | for a full colour list, an interior output pixel is the disc colour of its cell at its local position |
| Render.MosaicPixelAt | processing.js:260-288 | for a full colour list, tile-image pixel (mx, my) is the disc colour of its cell at its local position |

## Left out

- Image decoding and encoding go through the sharp library (metadata, `raw().toBuffer()`, PNG output at processing.js:322-331). The decoded image is an input array of width · height · 3 bytes, and the framed RGBA buffer is the output. An image with an alpha channel would give 4 bytes per pixel, and the code does not handle that case; neither does the model.
- Base64 decoding of the upload (processing.js:121), `run()` and the background compositing, the HTTP servers, product.js, logging and file-name constants are all I/O or foreign library calls.
- The Express route glue of Processing.js (an undefined `app`, a `try` without `catch`, and file output) cannot run as written. Only its helpers, scan loops and renderer are modelled, through the same model as processing.js.
- ciede2000Distance is a call into the color-diff library, which is not part of this model. The CIEDE2000 metric is a function parameter (`Matcher.Metric`), and no CIE property is asserted of it.
- Rgb.HexToRgb: parseInt's leniency on malformed keys (a partial parse such as "1g") is not modelled; such a key gives None. Every palette key is well formed (`Palettes.PaletteKeysWellFormed`), so the pipeline never meets that case.
- Floating point: scale factors, error shares and the disc distance are exact reals. IEEE rounding, for instance in a non-integral `scaleY`, is not modelled.
- Matcher.FindClosestColor and Render.InDiscExact: `Math.sqrt` is left out. The matcher compares squared distances; `Matcher.RootMetricMatches` shows that any exact square root of them matches the same colour, and `Scan.QuantizedRoot` and `Scan.DitheredRoot` show the same for whole scans. The disc test compares squares; `Render.RootDisc` shows that the root's test agrees. IEEE rounding of the root is not modelled.
- Matcher.Metric: a distance is a real number, so `FindClosestColor` assumes the metric takes a finite value on every pool colour. Infinity and NaN, which JavaScript's `<` never lets below minDistance, are modelled separately by `Matcher.NumberScan`. It shows that when no pool colour has a finite distance the result is null (`NonNumberGivesNull`), and with finite distances it agrees with the real-valued scan (`NumberScanAgrees`). A null match would make the dithering variant fail at processing.js:71 (`newPixel.r`). Whether color-diff returns a finite number for these `{ r, g, b }` objects is not visible here, and negative infinity is not modelled.
- Process.ProcessMosaic returns all eight mosaics (`Scan.Variants`). The source returns only the plain Euclidean list. The other seven lists are computed and then dropped.
- The dithering scans require a non-empty palette. With an empty pool the source would read `newPixel.r` of null and throw, and that crash is not modelled. The plain scan handles the empty pool: it pushes null (None).
- Render.CreateMosaicImage takes a list of colours. A null entry, which the source would dereference and crash on, cannot be expressed. A list longer than the grid writes past the buffer, and the model drops those writes as a Buffer does.
- Render.AddBorder reads the tile image as a value, not as the array the tile loops filled. Aliasing between the two buffers is not modelled; the source allocates them separately.
- Dither.FloydSteinberg: each neighbour's share is stated by `Dither.FloydSteinbergShares`. That the four weights 7, 3, 5 and 1 add up to 16 is plain constant arithmetic, and no lemma states it.
- Render.FramedPixel writes the mosaic offset as `my·w + mx`, where the source writes `mosaicY·mosaicWidth·blockSize + mosaicX`. These are equal, since w = mosaicWidth·blockSize.
