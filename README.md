# Texture synthesis by non-parametric sampling, modelled in Dafny

The program grows a texture from a small exemplar image:

- It allocates an output canvas and fills it with an unset background.
- It copies the exemplar into the canvas's top-left corner.
- It repeatedly picks the unset pixel with the most set neighbours, the
  "to-be-synthesized" (TBS) pixel.
- It compares the square window around that pixel with the window around
  every exemplar position that covers the window's set pixels, scoring
  each with a Gaussian-weighted sum of squared colour differences.
- It copies the colour of a random exemplar position whose score is
  within 10% of the best.

Images travel as binary PPM ("P6") files.

The Dafny project models the engine (`texture_synthesis.c`), the image
helpers (`image.c`) and the P6 codec (`ppm.c`), module by module:

| module | file | what it holds |
|---|---|---|
| `Wrappers` | wrappers.dfy | `Option` |
| `Images` | image.dfy | `Pixel`, `PixelIndex`, the `Image` class (width, height, pixel array), the colour distance, bounds checks and pointer arithmetic |
| `SynthesisTypes` | synthesis_types.dfy | the `TBSPixel` and `EXPPixel` records |
| `Shuffle` | shuffle.dfy | the random permutation of `SortTBSPixels` |
| `Ranking` | ranking.dfy | `CompareTBSPixels`, the sort order it defines, and `SortTBSPixels` |
| `Frontiers` | frontier.dfy | `checkIndexInBound`, `findNumNeigbhors` and `findTBSPixel` |
| `Windows` | windows.dfy | `createPixelWindow`, the compatibility test and `findGaussScore` |
| `Selection` | selection.dfy | `findBestExemplarPix` |
| `Scans` | scan.dfy | the row-major exemplar scan, for any entry function |
| `Seeding` | seeding.dfy | `setPixel`, and the background and copy loops of `SynthesizeFromExemplar` |
| `Matching` | matching.dfy | `synthesizePixel` |
| `Texture` | texture.dfy | `synthesizeTexture`, `SynthesizeFromExemplar`, and what a whole run guarantees |
| `Ppm` | ppm.dfy | `ppm_read_whitespace`, `ppm_read_num`, `ReadPPM`, `WritePPM` |

## How the model is built

Each loop of the C code is a Dafny method over arrays. The `Image` class's
pixel buffer is an `array<Pixel>`; a pixel window is an
`array2<Option<nat>>`, whose cells are pixel offsets, with `None` where
the C code stores NULL. Each method is proved equal to a specification
function on sequences, and the properties are lemmas about those
functions:

- `FindTBSPixel` against `Frontier`;
- `SynthesizePixel` against `Paint`;
- `SynthesizeTexture` against `Run`;
- `ReadPPM` against `ParsePPM`;
- `WritePPM` against `Encode`.

For example, `Run` fills the canvas, keeps every set pixel, and stops
only on an empty frontier or where the C code would divide by zero.
Reading back what `WritePPM` writes gives the image back.

Randomness is one stream, `rand: nat -> nat`, with a cursor `t` that
counts the values drawn so far. Each round of `synthesizeTexture` on a
frontier of n pixels draws 3n + 1 values, in the order the C code calls
`rand()`:

- n tags in `findTBSPixel`;
- 2n indices in the shuffle of `SortTBSPixels`;
- one in `findBestExemplarPix`.

The exponential weights of `findGaussScore` are a parameter,
`weight: (int, int) -> real`. Each lemma that needs them positive, as
`exp` is, says so.

Where the model follows the code rather than its comments:

- `findNumNeigbhors` guards its right-hand probes (Right, NE and SE)
  against the end of a row, but not its left-hand ones. A pixel in
  column 0 therefore also counts the last pixel of the previous row, of
  the row above that and of its own row as neighbours.
  `Frontiers.NeighborCountExact` states the count, wrap included, and the
  engine uses it as written.
- The compatibility test of `synthesizePixel` is one-way. An exemplar
  window must have a pixel wherever the target window has one. Pixels
  present only in the exemplar window are ignored, and score nothing.
- Exemplar windows are clipped to the exemplar's footprint. Target
  windows are clipped to the whole canvas.
- When no exemplar position is compatible, `findBestExemplarPix` computes
  `rand() % 0`. The model stops the run there with the outcome
  `NoMatchCandidate` and leaves the canvas unchanged.
- `ReadPPM` tests its tag with `strncmp(tag, "P6", 20)`, which stops
  comparing at the first 0 byte. `%19s` keeps a 0 byte in the token, so a
  first token "P6" followed by a 0 byte is accepted as the tag.
  `Ppm.CString` is the part of a token that `strncmp` compares.

## Model

| member | source | states |
|---|---|---|
| Images.Image.constructor | image.c:41-59 | AllocateImage stores the dimensions as given and allocates a fresh buffer of exactly width * height pixels |
| Images.PixelSquaredDifference | image.c:6-13 | the squared RGB distance lies in [0, 3 * 255^2] and is 0 exactly when the red, green and blue channels agree |
| Images.PixelSquaredDifferenceSymmetric | image.c:6-13 | the distance does not depend on the order of the two pixels |
| Images.PixelSquaredDifferenceIgnoresAlpha | image.c:6-13 | the alpha channel does not enter the distance |
| Images.InBounds | image.c:15-18 | holds exactly when x < width and y < height; an in-bounds position then has a row-major offset inside the buffer |
| Images.GetPixel | image.c:20-28 | NULL (None) exactly when the position is outside [0, width) x [0, height); otherwise the offset y * width + x, which lies in the buffer |
| Images.GetConstPixel | image.c:30-38 | the read-only accessor returns the same offset, or NULL, as GetPixel |
| Images.GetPixelInjective | image.c:20-28 | distinct in-bounds positions address distinct pixels |
| Images.GetPixelOnto | image.c:20-28 | every pixel of the buffer is addressed by some in-bounds position |
| Ranking.CompareTBSPixels | texture_synthesis.c:12-23 | negative exactly when the first pixel sorts first (more set neighbours, then lower row, then lower column, then the larger tag); positive exactly when the second does; 0 exactly when they are equal |
| Ranking.CompareAntisymmetric | texture_synthesis.c:12-23 | swapping the arguments flips the sign of the comparison |
| Ranking.LeIsCompareAtMostZero | texture_synthesis.c:12-23 | the order the sort produces is "the comparator returns at most 0" |
| Ranking.SortedHeadIsBest | texture_synthesis.c:48 | after a sort of any retagging of the frontier, the head has the position and count of the best frontier pixel (most set neighbours, then first in row-major order) |
| Ranking.BestSameKeys | texture_synthesis.c:44-48 | retagging does not change which position is best, because tags only break ties between equal positions |
| Ranking.SortedTagsArePermutation | texture_synthesis.c:35-45 | after SortTBSPixels the tags are a permutation of 0 .. sz - 1 |
| Ranking.SortTBSPixels | texture_synthesis.c:26-51 | returns 0; the first sz entries are tagged by the shuffled permutation and sorted by CompareTBSPixels, a permutation of their retagged selves; the rest of the array is untouched |
| Ranking.Qsort | texture_synthesis.c:48 | sorts a[..n] in place by the comparator, as a permutation, and leaves a[n..] alone |
| Shuffle.ShuffledIsPermutation | texture_synthesis.c:35-43 | the identity followed by any sequence of random swaps is a permutation of 0 .. n - 1 |
| Shuffle.ShufflePermutation | texture_synthesis.c:35-43 | the permutation array holds the identity after sz swaps of the entries picked by rand() % sz, drawn two per swap |
| Shuffle.Identity | texture_synthesis.c:35 | permutation[i] = i for every i |
| Shuffle.SwapEntries | texture_synthesis.c:39-42 | the two picked entries are exchanged and no other changes |
| Frontiers.CheckIndexInBound | texture_synthesis.c:173-180 | 1 exactly when 0 <= index < w * h, 0 otherwise |
| Frontiers.Probe | texture_synthesis.c:189-193 | a probe counts 1 exactly when its flat index is in bounds and that pixel is set |
| Frontiers.FindNumNeighbors | texture_synthesis.c:185-246 | the eight probes, the right-hand ones guarded by (index + 1) % w != 0, count at most 8 |
| Frontiers.NeighborCountExact | texture_synthesis.c:185-246 | the count equals the number of set true neighbours, plus, in column 0 only, the set pixels of the last column in the rows y - 2, y - 1 and y that the unguarded left probes reach |
| Frontiers.NeighborCountAtLeastTrue | texture_synthesis.c:185-246 | the count is never below the number of set true neighbours |
| Frontiers.CountsOnFrontier | texture_synthesis.c:142-158 | a position is recorded exactly when it is unset and its neighbour count is not 0, and then with that count |
| Frontiers.FrontierCharacterized | texture_synthesis.c:129-170 | the frontier holds exactly the records of the unset pixels with a non-zero count, each once, in row-major order, at most w * h of them |
| Frontiers.FindTBSPixel | texture_synthesis.c:129-170 | the first size entries of the fresh w * h array are the frontier, with tags drawn from rand in order |
| Frontiers.VisitRow | texture_synthesis.c:140-162 | one row of the scan appends that row's frontier records, tagged in order |
| Frontiers.VisitPixel | texture_synthesis.c:142-160 | one position appends its record when it is on the frontier, with the next tag, and nothing otherwise |
| Windows.Window | texture_synthesis.c:351-382 | the window is (2r + 1) x (2r + 1), and each present cell refers to a pixel of the buffer |
| Windows.WindowCell | texture_synthesis.c:357-377 | a cell is present exactly when its position lies inside the given bounds and that pixel's alpha is not 0; it then refers to the position's row-major offset |
| Windows.CreatePixelWindow | texture_synthesis.c:351-382 | after the loops, the window array holds the Window of the centre, cell for cell |
| Windows.CountMissing | texture_synthesis.c:317-325 | the count of target cells missing from the exemplar window is 0 exactly when the exemplar window covers every present target cell |
| Windows.FindGaussScore | texture_synthesis.c:390-426 | the nested loop returns GaussScore: the weighted sum, over the cells present in both windows, of the squared colour distance |
| Windows.AccumulateRow | texture_synthesis.c:402-422 | one pass of the inner loop adds the terms of row h, those of the cells present in both windows, to the running sum |
| Windows.GaussScoreSign | texture_synthesis.c:390-426 | with positive weights the score is never negative, and it is 0 exactly when the windows agree in colour wherever both have a pixel |
| Windows.GaussScoreZeroWhenAgree | texture_synthesis.c:390-426 | whatever the weights, windows that agree wherever both have a pixel score 0 |
| Selection.MinUpToIsMinimum | texture_synthesis.c:435-442 | the running minimum, started from the first score, is the score of a candidate and no candidate seen scores lower |
| Selection.Band | texture_synthesis.c:445-455 | the band lists, in increasing order, positions whose scores are at most the bound |
| Selection.BandComplete | texture_synthesis.c:445-455 | every candidate whose score is within the bound is in the band |
| Selection.BandIncreasing | texture_synthesis.c:445-455 | the band's positions strictly increase |
| Selection.Select | texture_synthesis.c:432-461 | no choice without candidates; a choice is always one of the candidates |
| Selection.SelectSpec | texture_synthesis.c:432-461 | with non-negative scores a candidate is chosen exactly when there is one, and its score is at most 1.1 times the minimum, which no candidate undercuts |
| Selection.SelectReachesBand | texture_synthesis.c:445-458 | every candidate within 10% of the minimum is chosen for some value of rand() |
| Selection.FindBestExemplarPix | texture_synthesis.c:432-461 | the two loops and the final draw return Select of the first size candidates |
| Scans.GridScanSound | texture_synthesis.c:307-334 | each record of the exemplar scan was made at its own position inside the scanned rows |
| Scans.GridScanComplete | texture_synthesis.c:307-334 | each record made at a scanned position is in the scan |
| Scans.GridScanSize | texture_synthesis.c:303-334 | a scan recording at most one entry per position holds at most rows * width records, which fits the exHeight * exWidth array |
| Seeding.Painted | texture_synthesis.c:113-124 | the written pixel has the new colour and is marked set |
| Seeding.SetPixel | texture_synthesis.c:113-124 | on a pixel that is not yet set (the C assert), only that pixel changes, to the new colour, set |
| Seeding.FillBackground | texture_synthesis.c:63-82 | every pixel becomes the unset background, grey (50, 50, 50) when verbose and black otherwise |
| Seeding.CopyRow | texture_synthesis.c:86-103 | one pass of the copy loop paints row i of the exemplar into the canvas, set |
| Seeding.Seed | texture_synthesis.c:54-103 | a fresh outW x outH canvas holding Seeded: the exemplar, set, in the top-left corner and the unset background elsewhere |
| Seeding.SeededAt | texture_synthesis.c:63-103 | after seeding, a position inside the exemplar's footprint holds the exemplar pixel, set, and every other position holds the unset background |
| Matching.MatchCandidatesCharacterized | texture_synthesis.c:307-334 | the candidates are exactly the records of the exemplar positions whose window covers every present cell of the target window, each scored by GaussScore; with positive weights no score is negative |
| Matching.CandidatesInFootprint | texture_synthesis.c:307-334 | every candidate is a position of the exemplar footprint |
| Matching.ExemplarEntry | texture_synthesis.c:311-332 | builds the exemplar window at (j, i) and finds a record exactly when the window is compatible; the record is that position's scored match |
| Matching.VisitExemplarPixel | texture_synthesis.c:309-333 | one position of the scan appends its record when it is compatible, and nothing otherwise |
| Matching.VisitExemplarRow | texture_synthesis.c:308-334 | one exemplar row appends its records, left to right |
| Matching.CollectCandidates | texture_synthesis.c:303-334 | the first counter entries of the fresh array are exactly the match candidates, in row-major order |
| Matching.PaintSpec | texture_synthesis.c:281-346 | a successful step paints the target with the colour of a compatible exemplar position, set; with positive weights it fails exactly when no exemplar position is compatible |
| Matching.PaintChangesOnlyTarget | texture_synthesis.c:337-344 | a successful step sets the target and leaves every other pixel as it was |
| Matching.SynthesizePixel | texture_synthesis.c:281-346 | the canvas becomes Paint of the old canvas for the head of the sorted array and the drawn value; without a candidate the method reports failure and changes nothing |
| Texture.Target | texture_synthesis.c:261-264 | the pixel synthesized next is an unset frontier pixel of the canvas |
| Texture.TargetIsBest | texture_synthesis.c:261-264 | no frontier pixel has more set neighbours than the target, and among those with as many the target comes first in row-major order |
| Texture.HeadIsTarget | texture_synthesis.c:261-264 | after SortTBSPixels the head of the frontier array is the target |
| Texture.UnsetShrinks | texture_synthesis.c:340-344 | setting one unset pixel and nothing else leaves one unset pixel fewer |
| Texture.StepChanges | texture_synthesis.c:261-272 | a successful round sets the target, which was unset, and changes no other pixel |
| Texture.StepPaints | texture_synthesis.c:255-272 | a round on a frontier of n pixels paints with the value drawn after the 3n values of findTBSPixel and SortTBSPixels |
| Texture.Round | texture_synthesis.c:261-266 | sorting the frontier and synthesizing its head leaves the canvas Step describes, or leaves it unchanged when there is no candidate |
| Texture.SortFrontier | texture_synthesis.c:263 | after the sort the head of the array is the target |
| Texture.SynthesizeTexture | texture_synthesis.c:252-276 | the loop's outcome and final canvas are those of Run from the initial canvas |
| Texture.Advance | texture_synthesis.c:261-272 | a run either stops at the current canvas (Completed on an empty frontier, NoMatchCandidate otherwise), or paints one unset pixel, keeps every set one and continues |
| Texture.RunStopsAtFrontier | texture_synthesis.c:261 | a run ends Completed exactly when the canvas it leaves has no frontier pixel |
| Texture.RunKeepsSet | texture_synthesis.c:252-276 | a run never changes a pixel that is already set |
| Texture.RunFillsCanvas | texture_synthesis.c:252-276 | a run that starts with a set pixel and ends Completed leaves every pixel set |
| Texture.SeededLayout | texture_synthesis.c:54-103 | the seeded canvas has the layout the engine needs |
| Texture.ExemplarKept | texture_synthesis.c:86-106 | the synthesized texture keeps the exemplar, pixel for pixel, in its top-left corner |
| Texture.SynthesisFillsOutput | texture_synthesis.c:54-109 | with a non-empty exemplar, a run that ends Completed leaves no pixel of the output unset |
| Texture.SynthesizeFromExemplar | texture_synthesis.c:54-109 | a fresh outW x outH image whose pixels and outcome are those of Run from the seeded canvas |
| Ppm.At | ppm.c:20 | fgetc yields EOF exactly past the end of the data, and a byte value otherwise |
| Ppm.SpaceRun | ppm.c:14-27 | the number of whitespace bytes consumed stays inside the data and within the limit, unless the limit is -1 |
| Ppm.SpaceRunSpec | ppm.c:14-27 | every consumed byte is whitespace, and unless the limit was reached the next byte is not |
| Ppm.LineEnd | ppm.c:39-42 | the comment skip stops just after a '\n', or at the end of the data |
| Ppm.LineEndSpec | ppm.c:39-42 | no '\n' comes before the one the skip stops after |
| Ppm.AfterComments | ppm.c:37-44 | after skipping the comment lines the next byte is not '#' |
| Ppm.DigitRunSpec | ppm.c:47 | every byte of the digit run "%d" consumes is a digit |
| Ppm.ScanInt | ppm.c:47 | "%d" stops after its last digit when it matches and never stops before a digit |
| Ppm.ReadNumberSkipsComment | ppm.c:37-43 | ppm_read_num at a '#' reads on from the start of the next line |
| Ppm.ReadNumberFails | ppm.c:47-55 | without a digit after the comments, whitespace and sign, ppm_read_num returns -1 |
| Ppm.CString | ppm.c:70-73 | the part of the tag buffer strncmp compares: a prefix of the token with no 0 byte, ended by the first 0 byte or by the end of the token |
| Ppm.TagAccepted | ppm.c:70-77 | the tag is accepted exactly when, after leading whitespace, the data holds "P6" followed by whitespace, by a 0 byte (where `strncmp` stops comparing) or by the end of the data |
| Ppm.NulEndsTag | ppm.c:70-77 | the data "P6\0 1" passes the tag test, because `%19s` keeps the 0 byte in the token and `strncmp` stops at it |
| Ppm.ParseHeader | ppm.c:70-116 | a header whose tag does not read "P6" up to its first 0 byte is refused; an accepted header has positive dimensions and a body position inside the data |
| Ppm.Maxval | ppm.c:104-116 | the maximal colour value is accepted only when the number read is 255 and a whitespace byte follows it; the body starts after that byte |
| Ppm.ParseBody | ppm.c:118-129 | the body is read exactly when at least 3 * width * height bytes remain (any bytes after them are ignored), giving width * height pixels, every one marked set |
| Ppm.ParsePPM | ppm.c:61-133 | a file whose tag does not read "P6" up to its first 0 byte is refused, and an accepted image has positive dimensions |
| Ppm.DecimalTextSpec | ppm.c:148 | the "%d" text of n is all digits, has no leading zero and reads back as n |
| Ppm.HeaderAppend | ppm.c:148-156 | printing the header and then the pixel bytes yields the header followed by them |
| Ppm.BodyAt | ppm.c:153-156 | bytes 3i, 3i + 1 and 3i + 2 of the body are pixel i's red, green and blue |
| Ppm.EncodeLayout | ppm.c:148-156 | a written file is "P6\n ", the width's digits, a space, the height's digits, "\n 255\n", then the body |
| Ppm.BodyDecodes | ppm.c:120-129 | a body written by WritePPM is read back as its pixels, each marked set |
| Ppm.EncodeHeader | ppm.c:70-116 | the header WritePPM writes for positive dimensions is accepted, with those dimensions and the body right after it |
| Ppm.EncodeHeaderZero | ppm.c:88-93 | the header WritePPM writes for a zero dimension is refused |
| Ppm.RoundTrip | ppm.c:61-159 | reading what WritePPM writes gives back the width, the height and every pixel's colour, marked set; an image with a zero dimension is written but not read back |
| Ppm.ReadPPMAsWritten | ppm.c:61-133 | ReadPPM as written returns an image exactly when ParsePPM accepts the file; it returns a released pointer exactly when the file fails after the tag and the dimensions were accepted |
| Ppm.ShortBodyReleased | ppm.c:118-127 | a well-formed header with too few pixel bytes makes ReadPPM as written return a released, non-null pointer |
| Ppm.EmptyBodyReleased | ppm.c:118-127 | "P6\n 1 1\n 255\n" with no pixel bytes is such a file |
| Ppm.InFile.Getc | ppm.c:20 | fgetc returns the byte at the read position and moves on, or returns EOF at the end and stays |
| Ppm.InFile.Ungetc | ppm.c:22 | ungetc moves the read position back by one, except after EOF |
| Ppm.ReadWhitespace | ppm.c:14-27 | ppm_read_whitespace consumes and returns SpaceRun: all the whitespace when the limit is -1, at most the limit otherwise |
| Ppm.DiscardLine | ppm.c:39-42 | the inner comment loop stops just after the next '\n', or at the end |
| Ppm.FscanfInt | ppm.c:47 | "%d" returns 1 and the value exactly when ScanInt matches, and leaves the position where ScanInt stops |
| Ppm.ReadNum | ppm.c:32-56 | ppm_read_num returns the value and position of ReadNumber: the integer after the comment lines, or -1 |
| Ppm.FscanfTag | ppm.c:72 | "%19s\n" reads the token of at most 19 bytes and the whitespace after it |
| Ppm.Fread3 | ppm.c:122 | fread reads 3 bytes exactly when 3 remain, in red, green, blue order |
| Ppm.ReadDimensions | ppm.c:83-86 | the width, the height and the position after them are those of Size |
| Ppm.ReadMaxval | ppm.c:104-116 | succeeds exactly when Maxval accepts, leaving the position at the body |
| Ppm.ReadPixels | ppm.c:120-129 | succeeds exactly when ParseBody does, and the image then holds its pixels |
| Ppm.ReadPPM | ppm.c:61-133 | null exactly when ParsePPM refuses the data; otherwise a fresh image with ParsePPM's width, height and pixels |
| Ppm.WritePPM | ppm.c:140-159 | -1 without a file; otherwise appends Encode of the image to the file and returns width * height |

## Findings

| source | as written | input that shows it | evidently intended | confidence | as-written member | corrected member |
|---|---|---|---|---|---|---|
| ppm.c:108-126 | after a failure past the allocation, ReadPPM calls `FreeImage(&img)` and returns `img`; `FreeImage` (image.c:63-67) releases the image but does not set the pointer to NULL, so the caller receives a dangling, non-null pointer | the file "P6\n 1 1\n 255\n" with no pixel bytes (or a maximal colour value other than 255) | return NULL on every failure, as for a bad tag or bad dimensions | high, not executed | Ppm.ReadPPMAsWritten, Ppm.ShortBodyReleased, Ppm.EmptyBodyReleased | Ppm.ReadPPM, Ppm.RoundTrip |

## Left out

- The random number generator: `rand()` is the stream parameter `rand`. Seeding it and `time` are not modelled.
- Floating point: `PixelSquaredDifference` is an exact integer, and Gaussian scores, weights and the 1.1 factor are exact reals. Rounding in `double` is not modelled.
- The weights `exp(-(dx^2 + dy^2) / (2 sigma^2))` with sigma = (2r + 1) / 6.4 are not computed. They are the parameter `weight`, assumed positive where a lemma needs it.
- `qsort` is modelled by an in-place insertion sort, which has the same contract: sorted by the comparator, and a permutation. The order in which C's `qsort` compares is not modelled.
- Memory management: `malloc` never fails in the model. `SortTBSPixels` therefore always returns 0, `AllocateImage` always returns an image, and a `NULL` from either is not modelled. `free` and `FreeImage` (image.c:63-67) are not modelled, except as the released pointer of `Ppm.ReadPPMAsWritten`.
- `AllocateImage` leaves the pixel buffer uninitialised. The model's buffer has unspecified contents, and is filled before it is read.
- Integer widths: dimensions, indices and counts are unbounded naturals. The overflow of `width * height` and of `%d`, and `int` casts of large `unsigned` values, are not modelled. The unsigned subtraction in `CompareTBSPixels` is read as the signed difference, which it equals for counts of at most 8 and tags below the array size.
- Texture.SynthesizeFromExemplar: requires the exemplar to fit in the output (`exemplar.width <= outW` and `exemplar.height <= outH`), which the C code does not check; project.c:58 turns away only an exemplar that is both wider and taller. The copy writes exemplar pixel (j, i) at `i*outW + j` (texture_synthesis.c:97). A wider exemplar therefore wraps into the next canvas row. With more than one exemplar row, the copy of the next row then meets a pixel that is already set, and the assert of `setPixel` (texture_synthesis.c:116) fails. A taller exemplar writes past the end of the buffer.
- Texture.SynthesizeTexture: on a round where no exemplar position is compatible, the C code computes `rand() % 0`, which is undefined behaviour. The model returns `NoMatchCandidate` there instead of continuing.
- Selection.FindBestExemplarPix: with no candidate, the C code reads the uninitialised first entry and then takes `rand() % 0`. The model returns `None` instead.
- Ppm.ScanTag: at the end of the data, the tag buffer of `ReadPPM` is left uninitialised. The model reads it as the empty token, which is refused.
- Files are byte sequences: `FILE*` for reading is the class `InFile` (the bytes and a position), and for writing it is `OutFile` (the bytes written). I/O errors, and `fwrite` writing fewer bytes than asked, are not modelled.
- Logging to `stderr` and `stdout`, and the `verbose` logging, are not modelled. `verbose` only selects the background colour.
- The command-line driver `project.c` is not part of this model.
