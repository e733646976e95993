# image_augmenter in Dafny

A model of the decision logic of the `imgaug` image augmentation package,
with its properties proved:

- **Labeller** (`imgaug/image.py`): it derives a grouping label from an
  image path. The basename must hold exactly one dot. The stem is tokenized
  on `-`, then on `_`, and whole tokens are joined until the label reaches
  `digits` characters. If no separator works, the label is the stem cut to
  `digits` characters.
- **Normalizer** (`imgaug/image.py`): the integer offset that centres a
  resized image on the square canvas, and the choice of canvas colour. That
  colour may be a hexadecimal string, which must decode to exactly three
  bytes.
- **Augmenter** (`imgaug/image.py`): the cutoff truncation of every
  parameter range, the advertised `count`, and the shape of the lazy variant
  sequence. The sequence is the input image first, then one image per
  (transformer, value) pair. Transformers come in sorted-name order, which
  matches the order of `RANGES`. The transformers themselves are function
  parameters.
- **Filter catalogue** (`imgaug/filters.py`): the integer `VALUES` ranges,
  Flip as row or column reversal, the centred crop after Rescale, the Rotate
  background value, the Shift axis, vector and size guard, and the Pixel
  kernel lookup. Images are rows of opaque pixels plus a channel count. The
  pixel arithmetic is a function parameter.
- **Zipper and Persister** (`imgaug/computer.py`):
  - the case-insensitive extension filter over a folder listing;
  - the names of variants and archives;
  - the run over all files, which batches the stream of
    `(tmpname, archive)` entries into archives of `x_zip` entries with one
    global counter and flushes the remainder;
  - the per-image pipeline of `Persister`.

  The batching is a generic state machine (`Chunking.Batcher`). It is proved
  equal to a reference chunking function (`Chunking.Chunks`), and the
  imperative loop `Computer.Iterate` is proved to produce exactly the
  reference batches of the entry stream.

Modules: `Wrappers` (Option/Result), `Seqs`, `Text` (the Python `str`
behaviour used: `count`, `split`/`join`, `rfind`, slicing, ASCII `lower`,
zero-padded formatting), `Labeller`, `LabellerExamples`, `Normalizer`,
`Augmenter`, `Filters`, `Chunking`, `Computer` and `ComputerExamples`.

The labeller that `Zipper` and `Persister` call is a parameter, as it is in
the source. By default it is `Labeller.Label(Labeller.Default, _)`.
Randomness, the clock, image decoding and encoding, and the file system are
also parameters or left out:

- the 13-character basenames are a sequence of inputs;
- the number of variants per image (`perImage`) is an input, and
  `Augmenter.VariantSequence` shows it is the augmenter's `count`;
- the temporary directory is an input;
- the listing `Computer.Iterate` and `Computer.Collect` walk is an input. `Zipper.__init__` builds it with `_files`, which `Computer.Files` models, keeping the accepted paths in listing order (`Computer.FilesAppend`).

## Model

| member | source | states |
|---|---|---|
| Labeller.Basename | imgaug/image.py:36 | the basename has no '/', is a suffix of the path, and is preceded by a '/' whenever it is shorter than the path |
| Labeller.BasenameAfterSlash | imgaug/image.py:36 | a path whose last '/' precedes a slash-free name has that name as its basename |
| Labeller.Stem | imgaug/image.py:36 | unpacking `split('.')` into two fails exactly when the basename does not hold one dot; otherwise the name is the dot-free text before that dot |
| Labeller.Tokenize | imgaug/image.py:43-49 | a label exists iff the separator occurs and the non-separator characters number at least `digits`; it is the concatenation of the fewest leading tokens reaching `digits`, so every shorter prefix of tokens falls short |
| Labeller.Accumulate | imgaug/image.py:45-49 | a returned label reaches `digits` characters and starts with the text already joined |
| Labeller.AccumulateFallsShort | imgaug/image.py:45-49 | the token loop returns nothing exactly when there are no tokens or all of them together stay below `digits` |
| Labeller.AccumulateStopsAtFirstReach | imgaug/image.py:45-49 | when the loop returns, it returns the least number of whole tokens whose joined length reaches `digits` |
| Labeller.FirstYielding | imgaug/image.py:37-40 | the index of the first separator whose tokenization is truthy; every earlier separator is not truthy |
| Labeller.FirstTokenization | imgaug/image.py:37-40 | the separator loop returns nothing iff no separator yields, and otherwise the tokenization of the first that does |
| Labeller.Label | imgaug/image.py:35-41 | fails iff the basename does not hold exactly one dot; otherwise it is the first yielding separator's tokenization, or `name[:digits]` when none yields |
| LabellerExamples.StemOf | imgaug/image.py:36 | `dir/name.ext` with dot-free, slash-free name and extension has stem `name` |
| LabellerExamples.LabelFromTokens | imgaug/image.py:37-40 | a stem on which a separator yields is labelled by the first tokenization |
| LabellerExamples.LabelFallsBackToStem | imgaug/image.py:41 | a stem no separator tokenizes and not longer than `digits` is its own label |
| LabellerExamples.TokenizeJoined | imgaug/image.py:44-49 | tokenizing dash-joined pieces runs the accumulation over exactly those pieces |
| LabellerExamples.TaggedExample | imgaug/image.py:35-49 | a file whose stem is dash-joined pieces is labelled by accumulating those pieces, when dashes are tried first and that accumulation yields |
| LabellerExamples.TaggedThree | imgaug/image.py:45-49 | when the third token first reaches `digits`, the label is the first three tokens |
| LabellerExamples.TaggedFour | imgaug/image.py:45-49 | when the fourth token first reaches `digits`, the label is the first four tokens |
| LabellerExamples.DocstringExample | imgaug/image.py:23-25 | `Labeller(digits=10)` labels `resources/109-602-3906-001-c-suit-veletta-albino.jpg` as `1096023906` |
| LabellerExamples.ThirteenDigitsExample | imgaug/image.py:28 | with the default 13 digits, `scans/109-602-3906-001-c.jpg` is labelled `1096023906001` |
| LabellerExamples.NoSeparatorExample | imgaug/tests/computer_test.py:7-8 | `resources/bag.png` is labelled `bag` by the default labeller |
| ComputerExamples.PersisterExample | imgaug/computer.py:26-28 | `Persister('resources/bag.png')` is labelled `bag`, and a four-channel image is saved as `png` |
| Text.Split | imgaug/image.py:46 | `split` on a one-character separator gives one more piece than there are separators, and no piece holds the separator |
| Text.JoinSplit | imgaug/image.py:36 | joining the pieces of a split on the same separator gives back the text |
| Text.SplitJoin | imgaug/image.py:46 | splitting separator-free pieces joined by the separator gives back the pieces |
| Text.Count | imgaug/image.py:44 | `name.count(sep)` is zero exactly when the separator is absent |
| Text.RFind | imgaug/computer.py:138 | the last index of the character, with nothing equal after it, or -1 exactly when it is absent |
| Text.Slice | imgaug/image.py:41 | Python slicing agrees with the plain subsequence whenever the bounds lie inside; for non-negative bounds a bound past the end is clamped to the length, so `name[:digits]` of a short name is the whole name |
| Text.ZeroPad | imgaug/computer.py:109 | `f'{i:03}'` is digits only, has width `max(3, digits of i)` and reads back as `i` |
| Text.ZeroPadInjective | imgaug/computer.py:109 | distinct indices get distinct padded forms |
| Normalizer.Offset | imgaug/image.py:119-121 | for an image no larger than the canvas, the offsets are non-negative and the pasted image fits |
| Normalizer.OffsetCentres | imgaug/image.py:119-121 | on each axis the leading margin is at most the trailing one, which is at most one more |
| Normalizer.OffsetExample | imgaug/image.py:119-121 | a 64 x 42 image on a 64-pixel canvas is pasted at (0, 11) |
| Normalizer.FromHex | imgaug/image.py:117 | `bytes.fromhex` decodes at most one byte per two characters |
| Normalizer.FromHexPair | imgaug/image.py:117 | two hexadecimal digits in front decode to the byte they spell in front of the rest, and an error in the rest is an error of the whole |
| Normalizer.FromHexToHex | imgaug/image.py:117 | decoding two hexadecimal digits per byte gives back the bytes |
| Normalizer.Colour | imgaug/image.py:112-117 | RGBA images get (255, 0, 0, 0) whatever the option; otherwise `True` gives white, and a string succeeds iff it decodes to exactly three bytes, which are the colour |
| Normalizer.ColourRoundTrip | imgaug/image.py:117 | every colour written as six hexadecimal digits is decoded to its three bytes |
| Normalizer.RedExample | imgaug/image.py:117 | `FF0000` is (255, 0, 0) |
| Normalizer.ShortColourExample | imgaug/image.py:113-117 | a two-byte colour is rejected for an RGB image but never looked at for an RGBA one |
| Augmenter.TransformerOrder | imgaug/image.py:167-170 | the `_tr_*` names are strictly sorted, so `sorted` keeps the listed order, and there is one per range |
| Augmenter.TransformersServeRanges | imgaug/image.py:160-225 | in that order the `i`-th transformer serves the `i`-th entry of `RANGES`: its name ends with the constant lower-cased (`_tr_blur` for `BLUR`, …, `_tr_rescale` for `SCALE`, …, `_tr_skew` for `SKEW`) |
| Augmenter.ServesByEnding | imgaug/image.py:160-225 | a name ending in the lower-cased constant serves it |
| Augmenter.PrefixLess | imgaug/image.py:169 | names sharing the `_tr_` prefix sort as their suffixes do |
| Augmenter.Cut | imgaug/image.py:187-191 | the result is a prefix of the range: all of it at cutoff >= 1, otherwise `floor(len * cutoff)` values or one value when that floor is 0; never empty for a non-empty range, and strictly shorter below cutoff 1 for ranges longer than one |
| Augmenter.Count | imgaug/image.py:193-197 | the count is at least 1: exactly 1 at cutoff 0, otherwise one more than the number of values across all truncated ranges |
| Augmenter.New | imgaug/image.py:162-165 | the constructor truncates every declared range and sets `count` from the truncated ranges |
| Augmenter.CutTotalLength | imgaug/image.py:187-191 | truncation never adds values, keeps at least one per non-empty range, and changes nothing at cutoff >= 1 |
| Augmenter.CountBounds | imgaug/image.py:193-197 | `count` lies between 1 and one plus all declared values; it is exactly that at full cutoff and 1 at cutoff 0 |
| Augmenter.DocstringCount | imgaug/image.py:145-147 | at cutoff 0.5 with the declared range lengths the count is 498 |
| Augmenter.Call | imgaug/image.py:172-180 | the first variant is the input image, and at cutoff 0 it is the only one |
| Augmenter.ApplyLength | imgaug/image.py:177-180 | one image per value of every range |
| Augmenter.ApplyAt | imgaug/image.py:177-180 | the variant of value `k` of range `j` follows the variants of all earlier ranges and is transformer `j` applied to that value |
| Augmenter.CallShape | imgaug/image.py:172-180 | the sequence holds `count` images, with each (range, value) variant at its slot |
| Augmenter.VariantSequence | imgaug/image.py:172-180 | for a constructed augmenter the sequence has `count` images: the input, then transformer `j` applied to value `k` of its truncated range at position `1 + (earlier values) + k` |
| Augmenter.SkipAugmentation | imgaug/image.py:172-197 | at cutoff 0 the count is 1 and only the input image is yielded |
| Filters.Range | imgaug/filters.py:11 | `range(start, stop, step)` holds `start + i * step` below `stop`, as many as fit, and is empty when `start >= stop` |
| Filters.IntegerValues | imgaug/filters.py:11-124 | the Blur, Rotate, Shift, Pixel and Unsharp ranges have 8, 156, 511, 7 and 50 values with the stated ends |
| Filters.Reverse | imgaug/filters.py:18 | `[::-1]` keeps the length and mirrors every position |
| Filters.Flip | imgaug/filters.py:20-21 | a flip keeps the channels and the height, and the width of a rectangular image |
| Filters.FlipMirrors | imgaug/filters.py:17-21 | a flip keeps channels, height and (for a rectangular image) width, and moves every pixel to the mirrored row or column |
| Filters.FlipTwice | imgaug/filters.py:17-21 | flipping twice on the same axis restores the image |
| Filters.CropWindowInside | imgaug/filters.py:55-56 | when the rescaled image covers the original, the crop corner keeps the window inside it, centred to within one pixel |
| Filters.Crop | imgaug/filters.py:57 | the crop keeps the channels and never adds rows; a row window inside the image keeps exactly `y` rows |
| Filters.CropWindow | imgaug/filters.py:57 | a window inside a rectangular image keeps exactly the pixels under it |
| Filters.Rescale | imgaug/filters.py:51-57 | when the rescaled image covers the original, the result has the original height and width and holds the central pixels |
| Filters.Background | imgaug/filters.py:64-68 | the fill is 1.0 iff the last axis has three channels, and 0 otherwise |
| Filters.Rotate | imgaug/filters.py:63-65 | the rotation is always applied, with fill 1.0 for three channels and 0 otherwise |
| Filters.NewShift | imgaug/filters.py:76-78 | mode `v` is vertical, mode `h` horizontal, and never both |
| Filters.Vector | imgaug/filters.py:86-91 | each component of the translation is `v` or 0, at least one is `v`; a vertical shift does not move along x, a horizontal one not along y |
| Filters.Valid | imgaug/filters.py:93-99 | for a positive shift the guard holds iff the shift is smaller than the width when the vector moves along x and smaller than the height when it moves along y |
| Filters.VectorByMode | imgaug/filters.py:86-91 | the vector is `(v, v)` by default, `(v, 0)` for `h` and `(0, v)` for `v` |
| Filters.ValidMeansInside | imgaug/filters.py:93-99 | for a positive shift the guard holds iff every non-zero component of the vector is below the dimension it moves along |
| Filters.ShiftImage | imgaug/filters.py:80-84 | nothing exactly when the guard fails, otherwise the warp by the mode's vector |
| Filters.ShiftDeclines | imgaug/filters.py:80-99 | a horizontal shift of 150 on an image 100 pixels wide declines |
| Filters.KernelFor | imgaug/filters.py:112-115 | `max`, `median` and `mode` select their kernels and every other name selects the Min filter |
| Filters.PixelFilter | imgaug/filters.py:117-120 | each of the four named kernels (min, max, median, mode) gets its own rank filter, and an unknown name gets the Min filter |
| Chunking.Chunks | imgaug/computer.py:114-118 | the reference batching: the batches concatenate to the stream, none is empty, none exceeds `k`, and all but the last hold exactly `k` |
| Chunking.ChunkCount | imgaug/computer.py:114-118 | there are `ceil(M / k)` batches for `M` entries |
| Chunking.ModNegative | imgaug/computer.py:114 | a negative `x_zip` seals on the same counts as its magnitude |
| Chunking.Push | imgaug/computer.py:108-116 | one entry raises the count by one, only appends to the yielded batches, at most one of them, and loses no entry: the yielded batches and the open one hold the earlier stream plus the entry |
| Chunking.Feed | imgaug/computer.py:107-116 | feeding entries raises the count by their number, keeps every batch already yielded, and the yielded batches and the open one hold the earlier stream plus exactly those entries |
| Chunking.Flush | imgaug/computer.py:117-118 | the final flush keeps the yielded batches, adds the open batch only when it is non-empty, and the result holds the whole stream |
| Chunking.Step | imgaug/computer.py:108-116 | one pass of the inner loop body is one push of the batching state machine |
| Chunking.FeedSnoc | imgaug/computer.py:107-116 | feeding one more entry is one more push |
| Chunking.FeedAppend | imgaug/computer.py:101-116 | the counter is global: feeding one file's entries after another's is feeding their concatenation |
| Chunking.FeedEach | imgaug/computer.py:107-116 | the inner loop over generated entries feeds exactly those entries |
| Chunking.PushTracks | imgaug/computer.py:108-116 | the running count seals the open batch exactly when it becomes full, keeping every sealed batch full and the stream equal to sealed plus open entries |
| Chunking.FeedTracks | imgaug/computer.py:107-116 | that invariant holds after any number of entries |
| Chunking.ChunksOfBatches | imgaug/computer.py:114-118 | full batches followed by a short remainder are what the reference cuts from their concatenation |
| Chunking.FullBatchesLength | imgaug/computer.py:114-116 | `n` full batches hold `n * k` entries |
| Chunking.BatchingIsChunking | imgaug/computer.py:99-118 | the state machine with its final flush yields exactly the reference batches of the stream |
| Chunking.YieldedIsSealed | imgaug/computer.py:114-116 | before the flush only the full batches have been yielded |
| Chunking.SealedAreFull | imgaug/computer.py:114-116 | the sealed batches are full and hold the stream up to fewer than `k` trailing entries |
| Computer.Ext | imgaug/computer.py:137-138 | the lower-cased dot-free text after the last dot, or the whole lower-cased path when there is no dot |
| Computer.RFindDotLower | imgaug/computer.py:138 | lower-casing does not move the last dot |
| Computer.ExtIgnoresCase | imgaug/computer.py:133-138 | the extension and the filter do not change when the path is lower-cased first |
| Computer.ExtAfterDot | imgaug/computer.py:138 | `front.ext` has extension `ext` lower-cased |
| Computer.SuffixGivesExt | imgaug/computer.py:137-138 | a path ending in a dot followed, up to case, by a dot-free word has that word as its extension |
| Computer.ExtBySuffix | imgaug/computer.py:137-138 | a path has a dot-free extension as `Ext` iff it ends, up to case, in a dot and that extension, or is the extension itself |
| Computer.AcceptedBySuffix | imgaug/computer.py:133-138 | the extension is accepted iff the path ends, up to case, in `.png`, `.jpg` or `.jpeg`, or is one of those words |
| Computer.Valid | imgaug/computer.py:133-135 | a path passes iff it ends, up to case, in `.png`, `.jpg` or `.jpeg`, or is one of those words |
| Computer.ValidByExtension | imgaug/computer.py:133-135 | a dotted path passes iff its lower-cased extension is png, jpg or jpeg |
| Computer.ValidExamples | imgaug/computer.py:75 | `resources/bag.PNG` passes |
| Computer.RejectedExample | imgaug/computer.py:75 | `resources/notes.txt` does not pass |
| Computer.UndottedExamples | imgaug/computer.py:138 | an undotted path is its own extension: `png` passes, `resources/png` does not |
| Computer.UndottedExt | imgaug/computer.py:138 | `rsplit('.', 1)[-1]` of a path without a dot is the whole path, lower-cased |
| Computer.Files | imgaug/computer.py:126-128 | the listing keeps exactly the paths with an accepted extension |
| Computer.FilesOne | imgaug/computer.py:128 | a one-path listing keeps its path exactly when it is accepted |
| Computer.FilesAppend | imgaug/computer.py:128 | filtering works path by path: the filter of a concatenation is the concatenation of the filters, so kept paths keep their order and multiplicity |
| Computer.FilesIdempotent | imgaug/computer.py:128 | filtering a filtered listing changes nothing |
| Computer.PathJoin | imgaug/computer.py:110 | `path.join` ends with the name, and an absolute name replaces the folder |
| Computer.BasenameOfJoin | imgaug/computer.py:112 | the basename of a folder joined with a slash-free name is that name |
| Computer.PaddedIndexInjective | imgaug/computer.py:109 | a zero-padded index between a fixed prefix and suffix can be read back |
| Computer.FramedPad | imgaug/computer.py:109 | a prefix, a zero-padded index and a suffix read back as that prefix, index and suffix |
| Computer.EntryName | imgaug/computer.py:109 | a variant name starts with the basename, ends with `.ext`, and between them holds at least three digits denoting the index |
| Computer.EntryNamesDistinct | imgaug/computer.py:109 | the variants of one file get distinct names |
| Computer.EntryNameShape | imgaug/computer.py:109 | a variant name of a 13-character alphanumeric basename has no '/' and keeps the source extension |
| Computer.ZipName | imgaug/computer.py:92 | an archive name starts with the prefix, ends with `.zip`, and between them holds at least two digits denoting the index |
| Computer.ZipNamesDistinct | imgaug/computer.py:92 | distinct archive indices give distinct archive names |
| Computer.FileEntries | imgaug/computer.py:107-113 | one entry per variant, the `i`-th naming variant `i` in the temporary folder and in the label folder |
| Computer.FileEntriesDistinct | imgaug/computer.py:109-112 | inside the label folder the variants of one file have distinct archive paths, each ending in its variant name |
| Computer.Collect | imgaug/computer.py:101-113 | a reported failure names a file the labeller rejects, with the labeller's own error |
| Computer.CollectSucceeds | imgaug/computer.py:101-104 | a run fails exactly when the labeller rejects some file |
| Computer.CollectLength | imgaug/computer.py:101-113 | a run over labelled files produces `perImage` entries per file |
| Computer.CollectStopsAtFirstFailure | imgaug/computer.py:101-104 | a failed run reports the first rejected file with its error, after the entries of exactly the files before it |
| Computer.CollectGrows | imgaug/computer.py:101-113 | one more file only appends entries, and changes nothing once the run has failed |
| Computer.CollectExtends | imgaug/computer.py:101-113 | the entries of a prefix of the listing start the entries of the whole listing |
| Computer.CollectStep | imgaug/computer.py:101-113 | one more file adds its rejection, or its variants' entries after those of the earlier files |
| Computer.CollectNextFile | imgaug/computer.py:107-113 | a labelled file's entries directly follow those of the files before it |
| Computer.CollectPrefixSucceeds | imgaug/computer.py:101-104 | a prefix of labelled files runs without failure |
| Computer.CollectLabelledPrefix | imgaug/computer.py:101-113 | a prefix of `f` labelled files yields `f * perImage` entries |
| Computer.CollectEntryAt | imgaug/computer.py:107-113 | the `i`-th variant of a labelled file sits right after the entries of all files before it, named by the per-file index `i` |
| Computer.PrefixAt | imgaug/computer.py:113 | an entry appended after a prefix sits at the prefix length plus its index |
| Computer.Batches | imgaug/computer.py:114-118 | the yielded batches are a prefix of the stream of at most `x_zip` entries each; all of it when the run finishes; full batches only and fewer than `x_zip` entries lost when it fails; `x_zip == 0` raises at the first entry |
| Computer.FeedVariants | imgaug/computer.py:107-116 | the inner loop over one file's variants feeds exactly that file's entries |
| Computer.VisitFile | imgaug/computer.py:101-116 | one pass of the outer loop either stops with the run's outcome or keeps the loop invariant for one more file |
| Computer.Iterate | imgaug/computer.py:97-118 | `Zipper.__iter__` yields exactly the batches of the collected entry stream, and stops at the first rejected file |
| Computer.StopsAtFailure | imgaug/computer.py:104 | a rejected file ends the run with the batches sealed so far and the rejection |
| Computer.StopsAtZeroBatchSize | imgaug/computer.py:114 | with `x_zip == 0` the first entry of a labelled file raises |
| Computer.FeedsNextFile | imgaug/computer.py:107-116 | feeding the next labelled file's variants feeds the stream collected up to and including it |
| Computer.RunCompletes | imgaug/computer.py:117-118 | a run that labels every file flushes the open batch and yields the reference batches |
| Computer.ArchiveCount | imgaug/computer.py:99-118 | a run over labelled files yields `ceil(files * perImage / x_zip)` archives, all full except possibly the last |
| Computer.Archives | imgaug/computer.py:90-92 | the `i`-th batch goes into its own archive name, one archive per batch |
| Computer.PersisterExt | imgaug/computer.py:49-51 | `png` iff the image has four channels, else `jpg`; both are accepted extensions |
| Computer.PersisterLabel | imgaug/computer.py:36 | a given non-empty label is used as is; a missing or empty one is replaced by the labeller's verdict on the file name |
| Computer.PersistName | imgaug/computer.py:43 | a persisted name starts with the label and `_`, ends with `.ext`, and between them holds at least three digits denoting the index |
| Computer.PersistNamesDistinct | imgaug/computer.py:43 | the variants of one image get distinct names |
| Computer.PersistNameShape | imgaug/computer.py:43 | every name starts with the label and `_` and carries the chosen extension |
| Computer.Persist | imgaug/computer.py:34-47 | fails iff no label is given and the labeller rejects the file; otherwise one pair per variant, the label with the action's result on `label_iii.ext` |
| Computer.PersistDefaultActionDistinct | imgaug/computer.py:34-46 | with the default action the results of one image are pairwise distinct |

## Left out

- Pixel arithmetic: blur, gamma, Gaussian, noise, rescale, rotate, warp, the PIL rank filters and UnsharpMask are library calls. They enter as function parameters.
- `Normalizer._resize` and `Normalizer.__call__` rest on image decoding and float division.
- The choice between a background file and a plain canvas (`path.isfile`) depends on the file system. `Normalizer.Colour` covers the plain canvas.
- Normalizer.Colour: `bytes.fromhex` errors are returned by `_color`. In the source they surface when `_canvas` draws the canvas.
- I/O is left out: `Image.open`, `plt.imread`/`imsave`, `BytesIO`, `glob`, `path.expanduser`, `mkdtemp`, `ZipFile` writing and logging.
- `Zipper.__call__` runs each archive in a `multiprocessing.Process`. `Computer.Archives` models only which batch goes to which archive name.
- `Zipper._basename` draws random characters. The basenames are an input, and `Computer.IsBasename` states their contract.
- `Zipper.timestamp` reads the clock. The archive prefix is an input.
- The normalizer that runs in `Zipper.__iter__` and `Persister` is left out. The variant count per image is an input.
- Augmenter.DocstringCount: the lengths of the float `np.arange` ranges depend on float rounding. They are taken as given (5, 2, 155, 49, 255, 517, 16).
- Augmenter.Cut: `cutoff` is an exact real with `cutoff >= 0`. Negative cutoffs, which make `rng[:cut]` drop values from the end, are excluded.
- Augmenter.TransformerOrder: `dir(self)` is the constant list of the seven `_tr_*` names. Python's attribute lookup is not modelled.
- `Augmenter._img` reads an image from a path unless it gets an array.
- Filters.Range: only a positive step is modelled. Every integer range of the catalogue counts upwards.
- Filters.Rescale: the crop is stated for a rescaled image that covers the original. Smaller results get Python's clamped slicing, which `Text.Slice` models, with no further contract.
- Text.Slice: negative bounds count from the end in its definition, but its contract speaks only of non-negative bounds. The negative corners a too-small rescale gives `Filters.Crop` are covered by the definition alone.
- Labeller.Basename: paths follow POSIX `os.path.basename`, where only '/' separates folders. Windows paths, which also split on a backslash, are not modelled.
- Computer.PathJoin: `path.join` follows POSIX `os.path`, with '/' as the only separator and a leading '/' marking an absolute name.
- Computer.Ext: `lower()` is ASCII-only. Python lower-cases every Unicode letter.
- Labeller.Label: separators are single characters. `int(digits)` is taken as an integer already.
- Computer.Iterate: `int(x_zip)` is taken as an integer already. A negative `x_zip` seals on multiples of its magnitude, as Python's `%` does.
- Computer.CollectEntryAt: it places a variant after the entries of the earlier files. That those number `f * perImage` is `Computer.CollectLabelledPrefix`.
- The stale test expectations that the current code contradicts are not followed:
  - Shift rejecting half-size shifts;
  - Pixel declining oversized kernels;
  - the Normalizer returning PIL images;
  - the count of 1029 with six transformers;
  - the `_0011` name suffix.
