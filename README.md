# Image compression script — verified model of its decision logic

`main.py` compresses the images of a folder for a website. Each `.jpg`, `.jpeg` or
`.png` image is shrunk to fit an optional width and height and saved in an output
folder, under its name with the lower-cased extension replaced by `jpg`. The script also writes `list.txt`, which
lists the folder's `.jpg` names in sorted order, and it prints byte sizes with
binary units. Most of the script calls PIL and `os`. This project models the
decisions and string logic among those calls as Dafny functions, methods and
lemmas:

- `common.dfy` (`Common`): the `Option` and `Result` wrappers.
- `seqs.dfy` (`Seqs`): an order-preserving `Filter`. It models a `for` loop that
  keeps the list elements an `if` accepts.
- `text.dfy` (`Text`): `str.lower` (ASCII only), `str.endswith`, the substring
  test `in`, `str.split` with a one-character separator, and `str.replace` with
  its left-to-right, non-overlapping scan.
- `size_format.dfy` (`SizeFormat`): `get_size_format`. The loop that divides by
  1024 becomes a method proved against `UnitIndex`, the least unit whose range
  contains the byte count.
- `resize.dfy` (`Resize`): how `compress_img` chooses the resize ratio from the
  optional `width` and `height`, and when it requests a thumbnail.
- `batch.dfy` (`Batch`): `iterate_through_folder`. It decides which files are
  images and the name each one is saved under. Each of the script's two loops is
  a method: `CountEligible` counts the eligible names, and `DispatchCalls` records
  each `compress_img` call it makes. `IterateThroughFolder` runs one after the
  other.
- `manifest.dfy` (`Manifest`): `print_filenames`. It is a method that collects the
  `.jpg` names, sorts them and builds the text written to `list.txt`.

Two behaviours of the code are easy to misread:

- With neither `width` nor `height` given, `compress_img` does not keep the image
  at scale 1. Line 36 divides `None` by an integer and raises. The model returns
  `Err(NoneOperand)` (`Resize.SizeRatio`, `Resize.ResizeDecision`). The exception
  also ends `iterate_through_folder` at its first eligible name
  (`Batch.DispatchCalls`).
- The output name does not always end in `.jpg`. `str.replace` replaces the
  lower-cased extension wherever it occurs in the name as written. So an
  upper-case extension such as `A.PNG` stays as it is
  (`Batch.RenameKeepsNonLowerExtension`, `Batch.RenameKeepsUpperCaseName`,
  `Batch.RenameExampleUpperCase`). Every other
  occurrence of a lower-case extension is rewritten as well
  (`Batch.RenameEveryOccurrence`). A file that keeps an upper-case `.PNG` name is
  then saved in the format that extension names, not as a JPEG.

## Model

| member | source | states |
|---|---|---|
| SizeFormat.UnitName | main.py:17-21 | The unit for index `k`: the `k`-th entry of `["", "K", "M", "G", "T", "P", "E", "Z"]`, and "Y" past the list. |
| SizeFormat.UnitIndex | main.py:17-21 | The unit index is at most 8. It is the least index `k` whose range `b < 1024^(k+1)` holds, and 8 ("Y") when no unit up to "Z" holds. |
| SizeFormat.UnitIndexUnique | main.py:17-20 | Any index meeting the least-index conditions is the one chosen, so the unit is determined. |
| SizeFormat.UnitYExactly | main.py:21 | The result falls through to "Y" exactly when `b >= 1024^8`. |
| SizeFormat.DocstringExamples | main.py:14-15 | 1253656 bytes get unit "M" and 1253656678 bytes get "G", as the docstring shows. |
| SizeFormat.Scaled | main.py:20 | The value of `b` after `b /= factor` has run `i` times, as an exact real. |
| SizeFormat.Mantissa | main.py:19-21 | The number printed before the unit: `b` divided down to the unit `UnitIndex` picks. |
| SizeFormat.ScaledExact | main.py:18-20 | Each `b /= factor` is exact: the value after `i` divisions times `1024^i` is the byte count. |
| SizeFormat.StopTest | main.py:18-19 | The loop's test `b < factor` after `i` divisions holds exactly when the byte count is below `1024^(i+1)`, the range of the `i`-th unit. |
| SizeFormat.MantissaRange | main.py:17-21 | The mantissa printed is below 1024 unless the unit is "Y", and at least 1 unless the unit is the plain byte. |
| SizeFormat.GetSizeFormat | main.py:10-21 | The loop returns the unit `UnitIndex(b)` names and the byte count divided down to that unit. The lemmas above give that value's range and exactness. |
| Resize.Min | main.py:40 | Python's `min` of two numbers. |
| Resize.SizeRatio | main.py:35-40 | It fails exactly when both `width` and `height` are `None`, following the three branches of the code. |
| Resize.RatioIsLargestFit | main.py:35-40 | A ratio that is produced scales the image to fit every given bound, and every scale that fits is at most that ratio. So it is `width/w0`, `height/h0`, or the smaller of the two. |
| Resize.ThumbnailRequest | main.py:43-44 | A thumbnail is requested exactly when the ratio is below 1. The box is then strictly smaller than the image on both axes and keeps its aspect ratio. |
| Resize.NoUpscale | main.py:43-44 | The ratio is at least 1 exactly when the image already fits every given bound. |
| Resize.ResizeDecision | main.py:35-44 | The result is an error exactly when no bound is given. The image is left unchanged exactly when it already fits. Otherwise the box requested is smaller than the image, within every given bound, keeps the image's aspect ratio, and is at least as large as the image scaled by any scale that fits. So it is the largest such box. |
| Resize.ThumbnailFits | main.py:35-44 | For the ratio produced, no thumbnail is requested exactly when the image fits. Otherwise the box lies within every given bound and is the largest fitting box with the image's aspect ratio. |
| Resize.LargestBox | main.py:40-44 | Scaling by a ratio that no fitting scale exceeds gives a box at least as large as any fitting scaling, with the image's aspect ratio. |
| Resize.ResizeExample | main.py:35-44 | A 2000 x 1000 image with width bound 1000 and no height bound is reduced to 1000 x 500. |
| Text.Lower | main.py:73 | `str.lower`: same length, each character ASCII lower-cased and every other character kept. |
| Text.EndsWith | main.py:73 | `str.endswith`: the suffix is the end of the string, character for character. |
| Text.LastSegment | main.py:79 | `split(sep)[-1]`: the last part `Split` returns, which never contains the separator. |
| Text.Replace | main.py:79 | `str.replace`: scanning from the left, every non-overlapping occurrence of a non-empty pattern is replaced; an empty pattern inserts the replacement before every character and at the end. |
| Text.Split | main.py:79 | `str.split` returns at least one part, and joining the parts with the separator gives back the input. No part contains the separator, and there is more than one part exactly when the separator occurs. |
| Text.SplitJoin | main.py:79 | Splitting undoes joining when no part contains the separator. |
| Text.LastSegmentShape | main.py:79 | `split(".")[-1]` is a dot-free suffix. Unless it is the whole name, a dot comes just before it, and it is the whole name exactly when there is no dot. |
| Text.LastSegmentCons | main.py:79 | Dropping the first character keeps the last segment, unless that character is not a separator and the rest has no separator. |
| Text.SepSuffix | main.py:73 | A name ends with "." plus a dot-free `e` exactly when it has a dot and `e` is its last segment. |
| Text.LowerLastSegment | main.py:79 | Lower-casing commutes with taking the part after the last dot. |
| Text.ReplaceAbsent | main.py:79 | `str.replace` of a pattern that does not occur leaves the string unchanged. |
| Text.ReplaceAcross | main.py:79 | An occurrence of a dot-free pattern cannot span a dot, so the replacement works on the two sides of a dot independently. |
| Text.ReplaceSameLength | main.py:79 | A string is left unchanged by replacing a different pattern of its own length. |
| Batch.IsEligible | main.py:73 | The test at main.py:73 and 78: the lower-cased name ends with ".jpg", ".jpeg" or ".png". |
| Batch.LowerExtension | main.py:79 | `file.lower().split(".")[-1]`: the lower-cased name's part after its last dot, or the whole lower-cased name without a dot. |
| Batch.OutputName | main.py:79 | `file.replace(file.lower().split(".")[-1], "jpg")`, with `Replace` the left-to-right, non-overlapping scan. |
| Batch.EligibleIffExtension | main.py:73 | A name passes the case-insensitive suffix test exactly when it has a dot and its lower-cased last segment is "jpg", "jpeg" or "png". |
| Batch.RenameLowercaseExtension | main.py:79 | For an eligible name whose extension is lower case, the output name is the stem with every occurrence of the extension replaced, followed by ".jpg". So the output name ends with ".jpg". |
| Batch.RenameKeepsNonLowerExtension | main.py:79 | For an eligible name whose extension is not lower case, the extension is kept as written. Only occurrences of its lower-cased form before the last dot are replaced, so "png.PNG" becomes "jpg.PNG". |
| Batch.RenameUnchangedWhenAbsent | main.py:79 | When the lower-cased extension does not occur in the name as written, the output name is the input name. |
| Batch.RenameKeepsUpperCaseName | main.py:79 | An eligible name with no lower-case letters is saved under its own name. |
| Batch.RenameExampleUpperCase | main.py:79 | "A.PNG" is saved as "A.PNG". |
| Batch.RenamePlainPng | main.py:79 | "name.png" is saved as "name.jpg" whenever "png" does not occur in "name", whatever else "name" contains. |
| Batch.RenameEveryOccurrence | main.py:79 | "png" + rest + ".png" is saved as "jpg" + rest + ".jpg" whenever "png" does not occur in rest: the replacement is not confined to the extension. |
| Batch.CallFor | main.py:80 | The call made for one eligible file: source `join(folder, file)`, destination `join(output_folder, OutputName(file))`, and the quality and bounds passed through. |
| Batch.CallsFor | main.py:76-80 | The calls for a sequence of files, one per file and in their order. |
| Batch.CountEligible | main.py:71-74 | The first loop's counter is the number of eligible names in the listing. |
| Batch.DispatchCalls | main.py:76-80 | With a bound given, the second loop makes exactly the calls `CallsFor` gives for the eligible names, in listing order. With neither bound given, it stops with `Err(NoneOperand)` exactly when there is an eligible name, after the call for the first one. |
| Batch.CallsForAt | main.py:79-80 | The `k`-th call has source `join(folder, name)` and destination `join(output_folder, new_name)` for the `k`-th name, with the same quality and bounds. |
| Batch.CallsStep | main.py:76-80 | One more listed name adds its call when it is eligible, and nothing otherwise. |
| Batch.CallsMatchEligible | main.py:76-80 | Every call reads a name that is in the listing and eligible, and every eligible listed name is read by a call. |
| Batch.IterateThroughFolder | main.py:70-80 | `counter` is the number of eligible names. With a bound given, the calls are one per eligible name, in listing order, so there are exactly `counter` of them. With neither bound given, the batch fails exactly when `counter` is positive, after one call. |
| Seqs.Filter | main.py:72-74 | The elements a `for` loop with an `if` keeps, in their order; never more than the input. |
| Seqs.FilterMembers | main.py:72-74 | The kept elements all pass the test, and an element is kept exactly when it is in the input and passes the test. |
| Seqs.FilterPrefixStep | main.py:72-74 | Looking at one more element appends it when it passes the test, and nothing otherwise. |
| Seqs.FilterPrefix | main.py:76-80 | The names kept from the start of the listing are the start of the names kept from the whole listing. |
| Seqs.FirstAccepted | main.py:76-80 | When the name at `i` is the first accepted, the names kept up to it are exactly the first name kept from the whole listing. |
| Seqs.FilterAppend | main.py:76-80 | Filtering is element by element, so the order of the listing is kept. |
| Seqs.FilterCount | main.py:85-87 | Each accepted name is kept as often as it is listed, and a rejected name is never kept. |
| Manifest.IsJpg | main.py:86 | `name.endswith(".jpg")`, case-sensitive. |
| Manifest.Le | main.py:89 | Python's `<=` on `str`: lexicographic by code point, with a proper prefix first. |
| Manifest.LeTotal | main.py:89 | Python's string order is total. |
| Manifest.LeAntisymmetric | main.py:89 | Python's string order is antisymmetric. |
| Manifest.LeTransitive | main.py:89 | Python's string order is transitive. |
| Manifest.Insert | main.py:89 | Inserting into the sorted list adds exactly that element. |
| Manifest.InsertSorted | main.py:89 | Inserting into a sorted list keeps it sorted. |
| Manifest.Sort | main.py:89 | `list.sort` permutes the list. |
| Manifest.SortSorted | main.py:89 | `list.sort` leaves the list in ascending order. |
| Manifest.SortedUnique | main.py:89 | Two sorted lists with the same elements are equal. So the manifest does not depend on the order in which the folder is listed. |
| Manifest.SameHead | main.py:89 | Two non-empty sorted lists with the same elements start with the same name. |
| Manifest.Lines | main.py:90-91 | The text the loop writes: each name followed by "\n", in order. |
| Manifest.LinesJoin | main.py:90-91 | The text is the names joined by newlines, followed by a final newline. |
| Manifest.ManifestReadsBack | main.py:90-91 | Splitting the text at newlines gives back the names, then the empty text after the final newline, provided no name contains a newline. |
| Manifest.PrintFilenames | main.py:82-91 | The names written are sorted ascending, and they are a permutation of the listing's names that end with ".jpg" (case-sensitive). The text is each of them followed by "\n". |

## Left out

- The PIL calls `Image.open`, `img.thumbnail`, `img.save` and `img.convert` (main.py:28, 44, 51, 54, 56) are a foreign library. `Resize.ThumbnailRequest` gives the box passed to `thumbnail`, not the pixel size `thumbnail` rounds it to.
- The fallback that saves, converts to RGB on `OSError` and saves again (main.py:49-56) is not modelled. It is control flow around those foreign calls.
- Filesystem access is not modelled. The folder listing is an input sequence. `os.path.join` is kept opaque as `Batch.Path`. The text for `list.txt` is returned, not written. `os.path.getsize` and `os.makedirs` are not modelled.
- Batch.IterateThroughFolder: both `os.listdir` calls are taken to return the same listing. A folder that changes between the two calls is not modelled.
- Batch.DispatchCalls: an exception raised inside PIL or `os` during a `compress_img` call (main.py:28, 32, 51-56, 59) also ends the batch. The model assumes those calls return, and models only the exception raised at main.py:36.
- Batch.IterateThroughFolder: the "processing file" line printed for every name, with its index and the counter (main.py:77), is not modelled.
- SizeFormat.GetSizeFormat: rendering the mantissa with two decimals and the "B" suffix is not modelled. The unit and the exact mantissa are returned instead.
- SizeFormat.GetSizeFormat: the `factor` parameter is fixed at 1024. No caller passes another value.
- The size comparison printed at the end of `compress_img` (main.py:59-66) is log output and is not modelled. That covers the percentage change and the `%15s` shape.
- Python float arithmetic is not modelled. The resize ratio and the mantissa are exact `real` values. For the ratio this is an abstraction. For the mantissa it is exact for byte counts below 2^53: such a count converts to a float exactly, and dividing it by 1024 loses nothing.
- SizeFormat.GetSizeFormat: byte counts of 2^53 and more are not modelled as Python computes them. The first `b /= factor` rounds the quotient to a float, which can carry the value into the next unit. For 2^60 - 1 bytes, Python prints "1.00EB", while the model picks "P" with a mantissa just below 1024.
- Text.Lower: lower-casing is ASCII only. Unicode case mappings of `str.lower` are not modelled.
- The default arguments of `compress_img` and `iterate_through_folder` are not modelled. Every caller in the script passes all of them.
- The command line is not modelled: `argparse`, the `print` calls and the `__main__` block (main.py:93-130).
