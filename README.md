# Photo watermarker, modelled in Dafny

The program (`App.java`) asks for an input directory and watermark settings, then for
every `.jpg`/`.jpeg` file in that directory reads the photo's capture date from its
Exif `DateTime` tag (TIFF tag 306, `YYYY:MM:DD HH:MM:SS`), draws the date part as
`YYYY-MM-DD` onto a copy of the photo at a position chosen by a placement policy
(`left-top`, `center`, `right-bottom`, anything else meaning `left-top`), and writes
the copy under the same file name into the sibling directory `<input>_watermark`.

This project models the deterministic logic between the library calls:

- `int32.dfy` (module `Int32`): Java `int` arithmetic, with 32-bit wrap-around and
  division that truncates toward zero (Dafny's `/` is Euclidean: `-3 / 2` is `-2`
  in Dafny but `-1` in Java).
- `javastrings.dfy` (module `JavaStrings`): `toLowerCase`, `endsWith`, `indexOf`,
  `split(" ")` with Java's rules (a string without the separator comes back whole;
  otherwise trailing empty fields are dropped, so a non-empty all-space string
  splits into nothing) and one-character `replace`.
- `watermark.dfy` (module `Watermark`): the settings value, the case-insensitive
  policy `switch`, the anchor formulas of `addWatermark`, and the drawn image as a
  record (`Stamp`).
- `exifdate.dfy` (module `ExifDate`): `extractExifDate`, with the metadata lookup
  taken as an input, and the normalisation `split(" ")[0].replace(":", "-")`.
- `fileselection.dfy` (module `FileSelection`): the `listFiles` filter and the
  output directory's name.
- `batch.dfy` (module `Batch`): `processImage` as a function from the file's
  library answers to one outcome (`Written`, `SkippedNoDate`, `Failed`), and
  `main` as the method `RunBatch`, whose loop gives every candidate its outcome and
  collects the files written.

Two consequences of the code's order of operations:

- The output directory is made before the listing is checked for images
  (App.java:43-52), so a run that finds no images still leaves the output
  directory behind. An invalid input path, checked first (App.java:38-41), leaves
  no output directory.
- Not every metadata problem skips the file. A read error caught at App.java:105
  does. But a failing cast to `JpegImageMetadata` (App.java:97) escapes that
  catch and is caught at App.java:90, so the file is Failed. So is a `DateTime`
  value made only of spaces, whose `split(" ")` is empty, so that `[0]` throws
  (App.java:102).

## Model

| member | source | states |
|---|---|---|
| Int32.Wrap | App.java:133-138 | the value a Java `int` holds after an operation: the exact result when it is in range, and always congruent to it modulo 2^32 |
| Int32.Sub | App.java:133-138 | Java `int` subtraction equals the exact difference whenever that difference fits in 32 bits |
| Int32.Add | App.java:134 | Java `int` addition equals the exact sum whenever that sum fits in 32 bits |
| Int32.Half | App.java:133-134 | Java `/ 2` truncates toward zero: twice the quotient is within one of the dividend and on the same side of zero, so an odd negative dividend rounds up |
| JavaStrings.ToLower | App.java:48 | the model's ASCII lower-casing keeps the length (its character-by-character meaning is ToLowerAt) |
| JavaStrings.ToLowerAt | App.java:48 | the model's lower-casing maps each character by LowerChar (ASCII `A`-`Z` to `a`-`z`, all else unchanged) at the same position |
| JavaStrings.ToLowerIdempotent | App.java:127 | lower-casing an already lower-cased string changes nothing |
| JavaStrings.IndexOf | App.java:102 | the index of the first occurrence of a character (or the length when there is none): the character is there and does not occur earlier |
| JavaStrings.Fields | App.java:102 | the pieces between separators, empty ones included, whose first piece is the text before the first separator; that they are all empty exactly for an all-separator string is FieldsAllEmpty |
| JavaStrings.Split | App.java:102 | `split(" ")` built from Fields and DropTrailingEmpty; its meaning is stated by SplitHead |
| JavaStrings.SplitHead | App.java:102 | `split(" ")` yields no pieces exactly when the string is non-empty and all spaces; otherwise its first piece is the text before the first space |
| JavaStrings.FieldsAllEmpty | App.java:102 | every field between separators is empty exactly when the string consists only of separators |
| JavaStrings.DropTrailingEmpty | App.java:102 | dropping trailing empty fields leaves a prefix of the fields whose last field is non-empty, every dropped field is empty, and the result is empty exactly when all fields were empty |
| JavaStrings.Replace | App.java:102 | `replace(":", "-")` keeps the length, turns every `:` into `-` and leaves every other character unchanged |
| JavaStrings.ReplaceAbsent | App.java:102 | replacing a character that does not occur leaves the string unchanged |
| Watermark.ParsePosition | App.java:127 | the `switch` on the lower-cased position; stated by PositionIgnoresCase, LeftTopAnyCase, RightBottomAnyCase and MisspeltPolicyUnrecognised |
| Watermark.Place | App.java:126-144 | the anchor for each policy in Java `int` arithmetic; stated by PlaceLeftTop, PlaceCenter, PlaceCenterTruncates and PlaceRightBottom |
| Watermark.PositionIgnoresCase | App.java:127 | policy matching ignores letter case: a position and its lower-cased form select the same policy and the same anchor |
| Watermark.LeftTopAnyCase | App.java:127-131 | `LEFT-TOP` selects the left-top policy |
| Watermark.RightBottomAnyCase | App.java:127-139 | `Right-Bottom` selects the right-bottom policy |
| Watermark.MisspeltPolicyUnrecognised | App.java:127-144 | a misspelt policy (`Centre`) falls to the default branch |
| Watermark.PlaceLeftTop | App.java:127-144 | `left-top` and every unrecognised position anchor at (10, textHeight), the same as `left-top` |
| Watermark.PlaceCenter | App.java:132-135 | `center` halves the free width and height with truncation toward zero: 2x <= width - textWidth <= 2x + 1 when the text fits, 2x - 1 <= width - textWidth <= 2x when it is wider, and likewise for y - textHeight, whenever width - textWidth and height - textHeight fit in an `int` |
| Watermark.PlaceCenterTruncates | App.java:133-134 | a 13-pixel-wide text on a 10-pixel-wide image under `CENTER` is anchored at x = -1, as Java's truncating division gives, at y = 7 |
| Watermark.PlaceRightBottom | App.java:136-139 | `right-bottom` keeps the text's right edge and the baseline 10 pixels in from the image's edges, without clamping: x is negative exactly when the text plus margin is wider than the image, whenever the subtractions fit in an `int` |
| Watermark.Render | App.java:111-149 | the watermarked image has the input's width and height and carries the given text at the placed anchor in the configured font size and colour |
| ExifDate.ExtractExifDate | App.java:95-109 | a date is produced only from a present `DateTime` value that normalises; read errors, missing metadata and a missing tag give no date; a failed cast and an all-space value throw out of the method |
| ExifDate.NormalizeDateTime | App.java:102 | `split(" ")[0].replace(":", "-")`, None where `[0]` is out of bounds; stated by NormalizeDateTimeSpec, NormalizeIdempotent and NormalizeStandardLayout |
| ExifDate.NormalizeDateTimeSpec | App.java:102 | the date is the part before the first space, of that length, with each `:` replaced by `-`, so it holds no space and no colon; only a non-empty all-space value has none |
| ExifDate.NormalizeIdempotent | App.java:102 | normalising a normalised date gives it back unchanged |
| ExifDate.NormalizeStandardLayout | App.java:102 | every value in the `YYYY:MM:DD HH:MM:SS` layout becomes `YYYY-MM-DD` |
| ExifDate.NormalizeExample | App.java:102 | `2023:07:15 14:30:00` becomes `2023-07-15` |
| ExifDate.NormalizeLeadingSpace | App.java:102 | a value starting with a space gives the empty date |
| ExifDate.NormalizeOnlySpaces | App.java:102 | a value of only spaces gives no date (the `[0]` index is out of bounds) |
| JavaStrings.EndsWith | App.java:48 | `endsWith`; its use on the lower-cased name is characterised by EndsWithLower |
| FileSelection.IsCandidate | App.java:48 | the `listFiles` filter; stated by CandidateIgnoresCase, CandidateAccepts and CandidateRejects |
| FileSelection.CandidateIgnoresCase | App.java:48 | a file is selected exactly when its name ends in `.jpg` or `.jpeg` in any letter case |
| FileSelection.EndsWithLower | App.java:48 | the lower-cased name ends with a lower-case suffix exactly when the name's last characters spell that suffix up to letter case |
| FileSelection.CandidateAccepts | App.java:48 | `A.JPG` and `b.JpEg` are selected |
| FileSelection.CandidateRejects | App.java:48 | `a.png`, `jpg` and `a.jpg.png` are not selected |
| FileSelection.OutputDirName | App.java:43 | the output directory's name is the input directory's name followed by `_watermark` |
| FileSelection.OutputDirNameInjective | App.java:43 | distinct input directories get distinct output directories, and the output directory is never the input directory itself |
| Batch.ProcessImage | App.java:75-93 | the checks run in order: no date gives SkippedNoDate whatever the image; a date with an undecodable image gives Failed; only a dated, decoded file whose write succeeds into an existing output directory is Written, carrying the rendered image; the outcome keeps the file's name |
| Batch.Candidates | App.java:48 | the listing is filtered to exactly the candidate files, none added |
| Batch.CandidatesAppend | App.java:48 | filtering keeps the listing's order and multiplicity: the candidates of two listings put together are the first one's candidates followed by the second one's |
| Batch.CandidatesDistinct | App.java:48 | the candidates of a listing with distinct names have distinct names |
| Batch.WrittenBy | App.java:86-87 | the files written under the outcomes' names; stated by WrittenByKeys and WrittenByDistinct |
| Batch.WrittenByKeys | App.java:86-87 | a name is in the output directory exactly when some outcome wrote it |
| Batch.WrittenByDistinct | App.java:86-87 | with distinct names, a Written file's output holds its stamp and a skipped or failed file has no output |
| Batch.RunWrites | App.java:54-56 | over a run, a candidate's output exists exactly when it was dated, decoded and written into an existing output directory, and then holds its rendered image; a file without a date is skipped and nothing is written for it |
| Batch.TwoPhotoScenario | App.java:37-58 | a dated `a.jpg` and an undated `b.jpg` under `center`: `a.jpg` is written with `2023-07-15` at the centre anchor, `b.jpg` is skipped, and only `a.jpg` is in the output directory |
| Batch.ProcessAll | App.java:54-56 | the loop gives one outcome per file, in order, each the `processImage` outcome of that file alone, so a failing file does not stop the later ones; the written files are exactly those of the Written outcomes |
| Batch.RunBatch | App.java:37-58 | an invalid input path ends the run with the output directory exactly as it was before; otherwise the output directory (named from the input) is made if missing before the listing is checked; an empty listing ends the run; otherwise every candidate gets exactly one outcome, in listing order, that depends only on that file, so a failing file never stops the ones after it, and the written files are exactly those of the Written outcomes |

## Left out

- Reading the input path, font size, colour and position from standard input
  (App.java:28-35, 61-73): the settings are a `WatermarkConfig` value and the input
  directory an `InputDir` value; a non-numeric font size aborts the Java program and
  is not modelled.
- `Color.decode` (App.java:72): the colour is taken as an already decoded `Rgb`.
- `Imaging.getMetadata` and `findEXIFValueWithExactMatch` (App.java:97-101): their
  result is the input `MetadataRead`.
- `ImageIO.read`, `ImageIO.write` and all `Graphics2D` drawing (App.java:83, 87,
  115-120, 146-147): a decoded image is its width and height (`Raster`), a
  successful write is a flag, and the drawn image is the record `Stamp` of its size
  and of the text, anchor, font size and colour; pixels are not modelled.
- `ImageIO.write` returning false when no JPEG writer is installed (App.java:87):
  the return value is ignored by the program, and the model treats every write
  that does not throw as having written the file.
- `FontMetrics.stringWidth` and `getHeight` (App.java:122-124): they depend on the
  font engine and are the input `TextMetrics`.
- The file system (App.java:38, 44-45, 48): existence, `isDirectory`, `mkdir` and
  `listFiles` are inputs; only the output directory's name is modelled, not its
  parent path from `getParent`, and the listing order is whatever the listing gives.
  Files left in the output directory by earlier runs are not modelled; `written`
  holds this run's files.
- Console messages (every `System.out.println`): output text only.
- JavaStrings.ToLower: lower-cases only ASCII `A`-`Z` and keeps the length; Java's
  `toLowerCase` also maps other letters, can change the length (`İ`, U+0130, becomes
  `i` followed by U+0307) and follows the default locale (in a Turkish locale `I`
  becomes a dotless `ı`, so `RIGHT-BOTTOM` would not be recognised).
- Batch.ProcessAll: JVM `Error`s (an `OutOfMemoryError` from `ImageIO.read` or
  `new BufferedImage` on a very large photo, App.java:83, 115) are not caught by
  the `catch (Exception e)` at App.java:90; they would end the run and leave the
  later files without an outcome. The model covers exceptions only, so every
  candidate gets an outcome.
- Batch.ProcessImage: a write is all or nothing. `ImageIO.write` (App.java:87)
  replaces the output file before encoding, so an I/O error while encoding (a
  full disk) can leave a truncated file under that name while the file counts as
  Failed; the model records no output for a Failed file.
