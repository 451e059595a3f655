# PDF Toolkit core, modelled in Dafny

This project models the logic of a browser PDF and image toolkit that runs on
the client. The model covers:

- the Windows icon (ICO) container writer and reader;
- the page-list parser and guards of the delete-pages tool;
- the file validators, filename sanitiser and hourly rate limiter;
- the page bookkeeping of merge, split, delete and rotate;
- the range construction, clamping and output naming of the split tool;
- the batch validation of the upload widget;
- the reorderable list of the merge tool;
- the size selection of the image-to-icon tool.

A PDF document is a sequence of abstract `Page`s, each with its content and
its rotation. A file's bytes are a sequence of `byte` (0..255). The browser's
`localStorage`, `Date.now` and the PDF library are parameters of the model.

Modules, one per source file, plus shared helpers:

| module | source |
|---|---|
| `ImageUtils` (image_utils.dfy) | lib/image-utils.ts |
| `Utils` (utils.dfy) | lib/utils.ts |
| `PdfUtils` (pdf_utils.dfy) | lib/pdf-utils.ts |
| `DeletePages` (delete_pages.dfy) | app/tools/delete-pages/page.tsx |
| `SplitPdfTool` (split_pdf.dfy) | app/tools/split-pdf/page.tsx |
| `FileUpload` (file_upload.dfy) | components/FileUpload.tsx |
| `MergePdfTool` (merge_pdf.dfy) | app/tools/merge-pdf/page.tsx |
| `ImageToIcoTool` (image_to_ico.dfy) | app/tools/image-to-ico/page.tsx |
| `JsText` (js_text.dfy) | the JavaScript string built-ins these files call |
| `Seqs`, `Wrappers` | generic sequence lemmas, `Option` and `Result` |

Each piece of code that works step by step is an imperative Dafny method, and
is proved equal to a specification function:

- the ICO writer fills an `array<byte>` entry by entry;
- the reader loops over the directory;
- `parsePageNumbers` collects pages and then sorts them;
- `validateFiles` loops with `continue`;
- rotation updates an array of pages;
- the rate limiter is a class whose stored record changes.

The properties the source promises are then proved about those specification
functions as lemmas.

JavaScript semantics the model writes out:

- **`parseInt`** skips leading white space and reads a sign, a `0x` prefix
  and the longest digit prefix. It is `None` (NaN) when there are no digits.
- **`split` and `trim`:** `split` on one character gives `[s]` when the
  character is absent. `trim` removes the ECMAScript white-space set.
- **`Array.prototype.sort`** with a numeric comparator is a stable sort by
  key.
- **`slice(0, n)`** counts a negative `n` from the end.
- **`Array.from({length: n})`** makes nothing when `n` is negative.
- **`splice`** reads a start that is not a number as 0, and counts a
  negative start from the end.
- **Integer arithmetic:** `Math.ceil(x / 60000)` is written on integers.
  `Uint8Array` and `DataView` stores are explicit reductions modulo 2^8,
  2^16 and 2^32.

## Model

| member | source | states |
|---|---|---|
| ImageUtils.Le16Reads | lib/image-utils.ts:96-98 | a little-endian 16-bit store reads back as the value modulo 2^16 |
| ImageUtils.Le32Reads | lib/image-utils.ts:113-114 | a little-endian 32-bit store reads back as the value modulo 2^32 |
| ImageUtils.DimRoundTrip | lib/image-utils.ts:107-108 | a dimension in 1..256 is stored in one byte (256 as 0) and read back unchanged (0 read as 256, line 144) |
| ImageUtils.DimNotValidated | lib/image-utils.ts:107-108 | the writer does not validate sizes: a dimension other than 256 is stored modulo 256, so for example 300 reads back as 44 and 512 as 256 |
| ImageUtils.PayloadOffset | lib/image-utils.ts:101 | the offset of payload i lies between the end of the directory, 6 + 16·n, and the end of the file |
| ImageUtils.HeaderAndDirectory | lib/image-utils.ts:84-86 | the header plus the first i directory entries is 6 + 16·i bytes long |
| ImageUtils.SetBytes | lib/image-utils.ts:117 | copying bytes into the buffer at k changes exactly those positions (`Overwrite`) |
| ImageUtils.WriteHeader | lib/image-utils.ts:96-98 | the header writes put `Header(count)` at bytes 0..5 and leave the rest |
| ImageUtils.WriteDirEntry | lib/image-utils.ts:103-114 | entry writes put `DirEntry(size, len, offset)` at the entry's 16 bytes and leave the rest |
| ImageUtils.WriteImage | lib/image-utils.ts:102-119 | one loop step: the directory through entry i and the payloads through i are in place, and the running offset advances by payload i's length |
| ImageUtils.WriteImages | lib/image-utils.ts:101-119 | after the loop the buffer is the full directory followed by every payload, concatenated in order |
| ImageUtils.BuildIcoFile | lib/image-utils.ts:83-122 | `buildICOFile` returns the layout `IcoFile(images, sizes)`; it fails with a TypeError when a size is missing for an image |
| ImageUtils.HeaderAndDirectoryPrefix | lib/image-utils.ts:102-115 | writing later entries does not disturb earlier ones |
| ImageUtils.IcoFileLength | lib/image-utils.ts:84-91 | the file is 6 + 16·n + the sum of the payload lengths bytes long |
| ImageUtils.IcoFileHeader | lib/image-utils.ts:96-98 | bytes 0-5 hold reserved 0, type 1 and the image count (modulo 2^16), little-endian |
| ImageUtils.HeaderFields | lib/image-utils.ts:96-98 | the three header fields read back as 0, 1 and the count modulo 2^16 |
| ImageUtils.DirEntryFields | lib/image-utils.ts:107-114 | in an entry, byte 0 is the width byte and byte 1 the height byte; colours and reserved are 0, planes 1 and bits per pixel 32; the size and offset fields are the payload length and offset modulo 2^32 |
| ImageUtils.IcoFileEntry | lib/image-utils.ts:103-114 | the file's bytes 6+16i .. 6+16i+16 are the i-th entry, with payload i's length and offset |
| ImageUtils.PayloadsContiguous | lib/image-utils.ts:101-118 | the first payload starts right after the directory; each next payload starts where the previous one ends; the last one ends at the end of the file |
| ImageUtils.IcoFilePayload | lib/image-utils.ts:117 | payload i sits after the directory, byte for byte, at its recorded offset, so no payload overwrites the header or directory |
| ImageUtils.Slice | lib/image-utils.ts:150 | `ArrayBuffer.slice` clamps both ends to the buffer: inside it is the exact slice, past the end it is empty or the tail |
| ImageUtils.IsPngPrefix | lib/image-utils.ts:153-158 | a payload is tagged PNG exactly when it has at least 4 bytes and they are 89 50 4E 47; otherwise it is BMP |
| ImageUtils.Entries | lib/image-utils.ts:141-162 | the reader produces one entry per directory slot |
| ImageUtils.EntriesAt | lib/image-utils.ts:141-162 | entry i of the result is the i-th directory entry, in order |
| ImageUtils.ReadEntry | lib/image-utils.ts:142-161 | reading one entry gives its width and height (0 read as 256), its clamped payload and its format |
| ImageUtils.IcoToImages | lib/image-utils.ts:125-165 | the reader loop computes `ReadIco(buf)` |
| ImageUtils.ReadIcoRejectsHeader | lib/image-utils.ts:134-136 | with a full header, the read fails with "Invalid ICO file format" exactly when reserved ≠ 0 or type ≠ 1 (a cursor, type 2, is rejected) |
| ImageUtils.ReadIcoRangeError | lib/image-utils.ts:130-147 | the read fails with a range error exactly when the buffer is shorter than the header, or a valid header announces more entries than the buffer holds |
| ImageUtils.ReadIcoEntries | lib/image-utils.ts:141-161 | a successful read has `count` entries, in directory order; each has the stored dimension bytes (0 as 256), the payload slice at [offset, offset+size) clamped to the buffer, and the format by the signature test |
| ImageUtils.ReadIcoValid | lib/image-utils.ts:130-164 | a buffer with a valid header and a complete directory always reads successfully |
| ImageUtils.ReadIcoEmpty | lib/image-utils.ts:141-164 | a valid header with count 0 reads as an empty list |
| ImageUtils.ReadBackEntry | lib/image-utils.ts:144-150 | an entry whose fields describe a payload in the buffer reads back as that payload with that size |
| ImageUtils.RoundTripEntry | lib/image-utils.ts:107-150 | entry i of a written file reads back as payload i with size i, when the dimensions are in 1..256 |
| ImageUtils.RoundTrip | lib/image-utils.ts:83-165 | reading a written file returns the written sizes and payloads, in order, when every dimension is in 1..256 and the fields fit their widths |
| ImageUtils.Selected | lib/image-utils.ts:175 | `images[sizeIndex] \|\| images[0]`: the indexed image when the index is a position, else image 0 |
| ImageUtils.IcoToPng | lib/image-utils.ts:168-180 | read errors pass through; no images fails with "No images found in ICO file"; otherwise the selected image is returned unchanged when tagged PNG, else handed to the BMP redraw |
| Utils.ValidateFileSize | lib/utils.ts:13-21 | valid exactly when size ≤ 50 MiB, with the "exceeds maximum" message otherwise |
| Utils.SomeAccepts | lib/utils.ts:27-32 | true exactly when some allowed entry accepts the extension and MIME type |
| Utils.ValidateFileType | lib/utils.ts:23-42 | valid exactly when some entry accepts: ".x" when the lower-cased extension is x, otherwise the MIME type equals the entry or starts with the part before '/'; the error lists the allowed types; an empty list rejects every file |
| Utils.ExtensionAfterLastDot | lib/utils.ts:24 | the extension is the lower-cased text after the last '.', or the whole name when there is no dot |
| Utils.MoreEntriesAccept | lib/utils.ts:27-32 | adding allowed entries, before or after, never rejects a file that was accepted |
| Utils.MimeFamilyAccepts | lib/utils.ts:31 | an entry "family/subtype" accepts every MIME type starting with the family, so "image/png" accepts any image |
| Utils.ReplaceUnsafe | lib/utils.ts:47 | each character outside [A-Za-z0-9._-] becomes '_', the others stay |
| Utils.CollapseUnderscores | lib/utils.ts:48 | runs of '_' become one: the result has no "__" and the same other characters, and is unchanged exactly when there was no "__" |
| Utils.CollapseKeepsFirstOfRuns | lib/utils.ts:48 | collapsing equals keeping every character except an '_' that follows an '_', so each run of underscores becomes exactly one |
| Utils.Truncate | lib/utils.ts:49 | `substring(0, 200)`: a prefix of at most n characters, the whole string when it is short enough |
| Utils.SanitizeFilename | lib/utils.ts:44-50 | the result has only safe characters, no "__" and at most 200 characters |
| Utils.SanitizeIdempotent | lib/utils.ts:44-50 | sanitising a sanitised name changes nothing |
| Utils.CurrentWindow | lib/utils.ts:95-100 | a missing record, or one whose window has expired, is read as count 0 with reset at now + 3600000; a live record is kept |
| Utils.RateCheck | lib/utils.ts:90-114 | allowed exactly when the window's count is below 100; remaining is 100 − count when allowed and 0 otherwise; resetIn is resetTime − now; with no storage, or a record that does not parse, the request is allowed with 100 remaining |
| Utils.RateIncrement | lib/utils.ts:116-134 | an expired or missing window becomes (1, now + 3600000); a live one counts one more and keeps its reset time; with no storage nothing is stored |
| Utils.RateLimitStore.CheckRateLimit | lib/utils.ts:90-114 | the imperative read of the stored record computes `RateCheck` |
| Utils.RateLimitStore.IncrementRateLimit | lib/utils.ts:116-134 | the stored record becomes `RateIncrement` of the old one |
| Utils.UsesAccumulate | lib/utils.ts:102-127 | within one window, k increments add exactly k to the count, and the next check is allowed exactly when the new count is below 100 |
| Utils.ExpiredWindowResets | lib/utils.ts:98-124 | once the window has expired, a check sees a fresh window and an increment starts a new one at 1 |
| Utils.MinutesUntilReset | app/tools/delete-pages/page.tsx:90 | `Math.ceil(resetIn / 60000)`: the least whole number of minutes covering resetIn |
| Utils.RateLimitGate | app/tools/delete-pages/page.tsx:88-93 | a tool refuses exactly when the limiter refuses, with "Rate limit exceeded. Please try again in m minutes." |
| PdfUtils.MergePdfs | lib/pdf-utils.ts:5-16 | the merged document is the pages of each input, concatenated in input order |
| PdfUtils.MergedLayout | lib/pdf-utils.ts:8-13 | input i's pages sit in the merged document right after the pages of the inputs before it |
| PdfUtils.RangeIndices | lib/pdf-utils.ts:28-31 | a range {start, end} asks for indices start−1 .. end−1, and none when end < start |
| PdfUtils.CopyPages | lib/pdf-utils.ts:32 | copying succeeds exactly when every index is a page, and gives those pages in order |
| PdfUtils.CopyRange | lib/pdf-utils.ts:28-33 | a range can be copied exactly when it is empty or all its pages exist, and then gives pages start..end |
| PdfUtils.SplitSucceeds | lib/pdf-utils.ts:26-35 | a split succeeds exactly when every range can be served |
| PdfUtils.SplitContents | lib/pdf-utils.ts:26-37 | a successful split has one output per range, in range order, holding that range's pages |
| PdfUtils.SplitOutputs | lib/pdf-utils.ts:18-38 | both directions together: success iff every range is valid, and then the outputs are the ranges' pages in order |
| PdfUtils.SplitFailsFrom | lib/pdf-utils.ts:26-35 | once a range fails, the whole split fails |
| PdfUtils.SplitPdf | lib/pdf-utils.ts:18-38 | the loop computes `SplitDocument(doc, ranges)` |
| PdfUtils.RemoveEach | lib/pdf-utils.ts:134-138 | removing indices one by one skips those past the current end and fails on a negative index |
| PdfUtils.DeletePdfPages | lib/pdf-utils.ts:127-141 | deletion sorts a copy of the indices in descending order and removes them one by one |
| PdfUtils.KeepSame | lib/pdf-utils.ts:132-138 | filtering depends only on which page positions are dropped |
| PdfUtils.KeepBelow | lib/pdf-utils.ts:132-138 | dropping positions below m leaves the pages from m on untouched |
| PdfUtils.RemoveThenKeep | lib/pdf-utils.ts:134-138 | removing the highest index first and then the lower ones equals filtering them all out at once |
| PdfUtils.DescendingRemovalKeeps | lib/pdf-utils.ts:132-138 | removing strictly descending non-negative indices equals filtering out that index set |
| PdfUtils.KeepNone | lib/pdf-utils.ts:127-141 | dropping nothing keeps the document |
| PdfUtils.DeleteIsFilter | lib/pdf-utils.ts:127-141 | for distinct non-negative indices, deletion leaves the original pages minus exactly those positions, in order |
| PdfUtils.Targets | lib/pdf-utils.ts:116 | with no index list, rotation targets 0 .. pageCount−1 |
| PdfUtils.RotatePdf | lib/pdf-utils.ts:111-125 | for an angle of 90, 180 or 270 (the parameter's type), each targeted page below the page count gets exactly the given angle (replaced, not added); other pages are unchanged; indices past the end are ignored; it fails (with the missing-page error only) exactly when some target is negative, so otherwise it always succeeds; with no index list it succeeds and every page gets the angle |
| PdfUtils.RotateAllTargetsEveryPage | lib/pdf-utils.ts:116-122 | with no index list every page is a target and no target is negative |
| DeletePages.Parts | app/tools/delete-pages/page.tsx:43 | the input is split at ',' and each part trimmed |
| DeletePages.Requests | app/tools/delete-pages/page.tsx:43-61 | each part becomes a range, a single page, or nothing |
| DeletePages.NamedBeforeExists | app/tools/delete-pages/page.tsx:45-61 | a page is named by the parts before j exactly when one of them names it |
| DeletePages.ParsePageNumbers | app/tools/delete-pages/page.tsx:41-64 | the result is strictly increasing (sorted, no repeats), and k is in it exactly when 0 ≤ k < pageCount and some part names page k+1 |
| DeletePages.CollectPages | app/tools/delete-pages/page.tsx:45-63 | the loop over parts, with the range counter, the `includes` test and the final sort, selects exactly those pages |
| DeletePages.PushPage | app/tools/delete-pages/page.tsx:50-58 | page p is pushed as p−1 only when 1 ≤ p ≤ pageCount and not already there; the list keeps no repeats |
| DeletePages.SortPages | app/tools/delete-pages/page.tsx:63 | sorting a list without repeats gives a strictly increasing list with the same members |
| DeletePages.PlainNumberPart | app/tools/delete-pages/page.tsx:55-58 | a plain number part "p" names page p |
| DeletePages.TrimUnchanged | app/tools/delete-pages/page.tsx:43 | trimming text without surrounding white space changes nothing |
| DeletePages.DecimalField | app/tools/delete-pages/page.tsx:47 | a decimal field holds no '-' and parses to its number after trimming |
| DeletePages.RangeFields | app/tools/delete-pages/page.tsx:46-47 | in "x-y…" the part contains '-' and its first two fields are x and y |
| DeletePages.RangePart | app/tools/delete-pages/page.tsx:46-54 | "a-b" names pages a..b, and so does "a-b-…": only the first two fields count, so "5-7-9" is "5-7" |
| DeletePages.LeadingDashDropped | app/tools/delete-pages/page.tsx:47-48 | "-3" has an empty first field, which does not parse, so the part names nothing |
| DeletePages.DeleteGuard | app/tools/delete-pages/page.tsx:72-93 | no file, nothing selected, or every page selected are refused with their messages, in that order; then the rate limit decides |
| DeletePages.DeleteLeavesPages | app/tools/delete-pages/page.tsx:83-101 | a deletion the guard lets through leaves at least one page, and removes exactly the selected positions |
| SplitPdfTool.OnLoaded | app/tools/split-pdf/page.tsx:34-36 | loading a document sets pageCount and endPage to its page count |
| SplitPdfTool.AllRanges | app/tools/split-pdf/page.tsx:66-72 | "all" mode asks for {i, i} for i = 1..pageCount, in order |
| SplitPdfTool.RangeModeRanges | app/tools/split-pdf/page.tsx:74-80 | "range" mode asks for {p, p} for p = startPage..endPage, and nothing when endPage < startPage |
| SplitPdfTool.LoadedRangeIsAll | app/tools/split-pdf/page.tsx:15-36 | right after loading, the default range covers the whole document, the same ranges as "all" mode |
| SplitPdfTool.SingletonRangesSplit | lib/pdf-utils.ts:26-35 | one-page ranges over consecutive existing pages split into one single-page document per range |
| SplitPdfTool.AllModeSplitsEachPage | app/tools/split-pdf/page.tsx:66-72 | "all" mode yields one single-page document per page, in page order |
| SplitPdfTool.RangeModeSplitsEachPage | app/tools/split-pdf/page.tsx:74-80 | a range of existing pages yields one single-page document per page of the range |
| SplitPdfTool.ClampPage | app/tools/split-pdf/page.tsx:182-194 | a typed page is clamped into 1..pageCount; text that is not a number, and 0, become 1 |
| SplitPdfTool.ClampedRangeSplits | app/tools/split-pdf/page.tsx:182-194 | with a loaded document, clamped inputs always name ranges the split can serve |
| SplitPdfTool.SplitGuard | app/tools/split-pdf/page.tsx:45-55 | no file is refused with "Please select a PDF file"; then the rate limit decides |
| SplitPdfTool.HandleSplit | app/tools/split-pdf/page.tsx:44-99 | a refused split does nothing; otherwise the outputs are the split of the document by the mode's ranges, or the library's error |
| SplitPdfTool.OutputNames | app/tools/split-pdf/page.tsx:245-248 | output i is named `<base>_page_<i+1>.pdf`, where base is the name with its first ".pdf" removed |
| SplitPdfTool.OutputNamesDistinct | app/tools/split-pdf/page.tsx:245-248 | no two outputs get the same name; these raw names are the ZIP entries, while a single download passes through `sanitizeFilename`, whose 200-character cut can give every page the same saved name when the base name is about 190 characters or longer |
| SplitPdfTool.RangeOutputsNamedByPosition | app/tools/split-pdf/page.tsx:245-248 | in range mode output i holds page startPage + i but is named after its position, i + 1 |
| FileUpload.CheckFile | components/FileUpload.tsx:31-47 | the size check runs first, then the type check; a failure is reported as "name: error" |
| FileUpload.SliceTo | components/FileUpload.tsx:52 | `slice(0, n)` is a prefix, of length n when 0 ≤ n < length, and of length + n (at least 0) when n is negative |
| FileUpload.Validated | components/FileUpload.tsx:49-55 | the valid files are cut to exactly the first maxFiles (for a negative maxFiles, all but the last -maxFiles), and one "Maximum … files allowed" error is added exactly when the cut is needed |
| FileUpload.ValidateFiles | components/FileUpload.tsx:26-56 | the loop with `continue` computes `Validated` |
| FileUpload.OneOutcomePerFile | components/FileUpload.tsx:31-47 | each file is either accepted or produces exactly one error |
| FileUpload.AcceptedAppend | components/FileUpload.tsx:46 | accepting is a filter that keeps input order across batches |
| FileUpload.AcceptedSingle | components/FileUpload.tsx:31-47 | a single file is accepted exactly when it passes its checks |
| FileUpload.AcceptedMembers | components/FileUpload.tsx:31-47 | the accepted files are exactly the files of the batch that pass their checks |
| FileUpload.HandleFiles | components/FileUpload.tsx:58-68 | the errors are replaced; the selection changes only when some file is valid, by appending in multiple mode and replacing otherwise |
| FileUpload.Without | components/FileUpload.tsx:96 | filtering by position removes exactly that position when it is one, and nothing otherwise |
| FileUpload.RemoveFile | components/FileUpload.tsx:95-99 | the file at the index leaves the selection and the rest keep their order |
| FileUpload.ClearAll | components/FileUpload.tsx:101-105 | no files and no errors |
| FileUpload.SelectionStaysAcceptable | components/FileUpload.tsx:58-105 | handling, removing and clearing keep a selection in which every file passed the checks |
| FileUpload.SingleModeStaysCapped | components/FileUpload.tsx:50-64 | outside multiple mode the selection never exceeds maxFiles |
| FileUpload.CapIsPerBatch | components/FileUpload.tsx:50-64 | the cap applies per batch: in multiple mode a second full batch brings the selection to twice maxFiles |
| MergePdfTool.RemoveById | app/tools/merge-pdf/page.tsx:34-36 | removing by id never lengthens the list |
| MergePdfTool.RemoveByIdMembers | app/tools/merge-pdf/page.tsx:35 | exactly the entries with another id remain |
| MergePdfTool.RemoveByIdIsRemoveAt | app/tools/merge-pdf/page.tsx:35 | with unique ids, removing an entry's id removes exactly its position and keeps the others in order |
| MergePdfTool.RemoveByIdKeepsAll | app/tools/merge-pdf/page.tsx:35 | removing an id no entry has changes nothing |
| MergePdfTool.MoveFile | app/tools/merge-pdf/page.tsx:38-45 | the result is a permutation of the same length; the entry from `from` is now at `to`; the others keep their relative order; the previous list is a value and is untouched |
| MergePdfTool.SpliceStart | app/tools/merge-pdf/page.tsx:41 | where `splice(start, 1)` removes: NaN as 0, a negative start from the end, one past the end removes nothing |
| MergePdfTool.DraggedIndexReadBack | app/tools/merge-pdf/page.tsx:127-132 | the index written when a drag starts is read back as that index |
| MergePdfTool.Drop | app/tools/merge-pdf/page.tsx:130-135 | the list is reordered only when the dropped index differs from the target; an index that reads past the end makes the splice remove nothing |
| MergePdfTool.MergeGuard | app/tools/merge-pdf/page.tsx:48-59 | fewer than 2 files is refused with its message; then the rate limit decides |
| MergePdfTool.Docs | app/tools/merge-pdf/page.tsx:69 | the documents in displayed order |
| MergePdfTool.HandleMerge | app/tools/merge-pdf/page.tsx:47-72 | merging proceeds exactly with at least 2 files and the rate limit allowing; the result is the files' pages in displayed order |
| ImageToIcoTool.IsSizeSelected | app/tools/image-to-ico/page.tsx:90-92 | true exactly when some entry has the size's width and height |
| ImageToIcoTool.WithoutSize | app/tools/image-to-ico/page.tsx:36 | filtering never lengthens the selection |
| ImageToIcoTool.WithoutSizeMembers | app/tools/image-to-ico/page.tsx:36 | the filter drops every entry of that size and keeps every other |
| ImageToIcoTool.WithoutSizeSorted | app/tools/image-to-ico/page.tsx:36 | a selection sorted by width stays sorted after the filter |
| ImageToIcoTool.WithoutSizeDistinct | app/tools/image-to-ico/page.tsx:36 | a selection without repeats stays without repeats |
| ImageToIcoTool.WithoutSizeLength | app/tools/image-to-ico/page.tsx:36 | without repeats, the filter removes exactly one entry |
| ImageToIcoTool.WithoutSizeUnchanged | app/tools/image-to-ico/page.tsx:36 | filtering a size that is not there changes nothing |
| ImageToIcoTool.SelectedIsMember | app/tools/image-to-ico/page.tsx:90-92 | a size is selected exactly when it is an entry |
| ImageToIcoTool.InitialWellFormed | app/tools/image-to-ico/page.tsx:14-18 | the initial selection 16, 32, 48 is non-empty, without repeats and sorted by width |
| ImageToIcoTool.ToggleWellFormed | app/tools/image-to-ico/page.tsx:30-41 | toggling keeps the selection non-empty, without repeats and sorted by width |
| ImageToIcoTool.ToggleFlips | app/tools/image-to-ico/page.tsx:30-41 | after a toggle the clicked size's selection has flipped, except when it was the only entry, which stays; every other size keeps its state |
| ImageToIcoTool.ReachableWellFormed | app/tools/image-to-ico/page.tsx:14-41 | every selection reachable by clicks is non-empty, without repeats and sorted |
| ImageToIcoTool.ToggleMembers | app/tools/image-to-ico/page.tsx:30-41 | a toggle adds no size other than the clicked one |
| ImageToIcoTool.OfferedSizesInRange | app/tools/image-to-ico/page.tsx:30-41 | clicking only the offered sizes (lib/image-utils.ts:8-16) keeps every dimension in 1..256 |
| ImageToIcoTool.SelectedSizesReadBack | app/tools/image-to-ico/page.tsx:69 | an icon built for a reachable selection reads back with exactly those sizes and payloads, in order |
| ImageToIcoTool.ConvertGuard | app/tools/image-to-ico/page.tsx:43-60 | no file, then an empty size list, are refused with their messages; then the rate limit decides |
| JsText.Split | app/tools/delete-pages/page.tsx:43-47 | `split` on one character: at least one piece, no piece holds the separator, `[s]` when it is absent |
| JsText.SplitJoin | app/tools/delete-pages/page.tsx:43 | joining the pieces with the separator gives the text back |
| JsText.SplitLast | lib/utils.ts:24 | the last piece (`pop()`) is the text after the last separator, or all of it |
| JsText.Trim | app/tools/delete-pages/page.tsx:43 | trimmed text is the stretch of the input with only white space before and after it, and it neither starts nor ends with white space |
| JsText.ParseDecimal | app/tools/delete-pages/page.tsx:56 | `parseInt` of a number's decimal rendering gives the number back |
| JsText.ParseIntStopsAtNonDigit | app/tools/delete-pages/page.tsx:56 | `parseInt` reads the leading decimal digits and ignores everything from the first other character on (unless that is the `x` of a leading `0x`), so "1e3" is 1 and "3abc" is 3 |
| JsText.ParseIntNonDigitFirst | app/tools/delete-pages/page.tsx:56 | a first character that is not white space, a sign or an ASCII digit (a digit of another script included) makes `parseInt` NaN |
| JsText.DecimalInjective | app/tools/split-pdf/page.tsx:247 | different numbers render differently |
| JsText.ToLower | lib/utils.ts:24-25 | lower-casing keeps the length, leaves no ASCII capital, and maps each capital to its small letter |
| JsText.Find | app/tools/split-pdf/page.tsx:247 | the first position where the pattern occurs, or none |
| JsText.ReplaceFirst | app/tools/split-pdf/page.tsx:247 | `replace` with a string pattern replaces only the first occurrence |
| Seqs.SortBy | app/tools/delete-pages/page.tsx:63 | sorting by a key gives a sorted permutation |
| Seqs.RemoveAt | app/tools/merge-pdf/page.tsx:41 | `splice(i, 1)` leaves the elements before i and after i, in order |

## Left out

- Canvas and codec work is not modelled. This covers `generateICO`, `loadImage` and the BMP-to-PNG redraw of `icoToPNG` (lib/image-utils.ts:33-80, 183-193). PNG payloads are byte sequences supplied by the caller. The redraw is the `RedrawnFromBmp` outcome, carrying the selected image.
- PDF parsing and saving belong to the PDF library and are not modelled. A document is its page sequence. The library's error messages are not modelled: a failure is `MissingPage` (an index with no page) or `IndexOutOfRange` (a negative removal).
- Asynchrony, React state hooks, progress values, JSX, drag-over styling, and the `onFilesSelected` callback are not modelled. The tool pages' state updates are modelled as the values they compute.
- The environment overrides of the file-size limit and of the hourly limit are not modelled; the defaults, 50 MiB and 100, are constants.
- `formatFileSize` uses floating point. The size error message holds its value for the default limit, "50 MB".
- `localStorage`, `JSON.parse` and `Date.now` are parameters. The stored record is `Unavailable`, `Missing`, `Unparsable` or `Saved`, and `now` is an integer.
- JSON that parses to an unexpected shape (for example a record without `count`) is not modelled.
- `parseInt` is modelled on unbounded integers, in radix 10 and radix 16. It reads the longest digit prefix, so "1e3" gives 1 as in JavaScript, and a non-ASCII digit has no value, so "٣" gives `None` (NaN) as in JavaScript. What is not modelled is that JavaScript numbers are doubles: above 2^53 `parseInt` rounds ("9007199254740993" gives 9007199254740992), while the model keeps the exact integer.
- DeletePages.ParsePageNumbers: the range loop at app/tools/delete-pages/page.tsx:49 runs once per number from start to end whatever the page count, so its running time grows with the typed end ("1-99999999999" means about 10^11 passes on every keystroke), and on doubles `i++` stops advancing at 2^53, so for an end of 2^53 or more the source never returns. The model works on unbounded integers, always terminates and returns the pages in range; it captures neither the running time nor the non-termination.
- JsText.ToLower: `toLowerCase` is modelled on ASCII letters only, because Unicode case mapping is not modelled.
- The random ids of the merge tool are not modelled. `RemoveByIdIsRemoveAt` assumes the ids are unique.
- MergePdfTool.MoveFile: requires both indices to be positions. The drop handler reaches it only after `SpliceStart` has normalised the source index, and with its own index as the target. The case where the splice removes nothing, and `undefined` is inserted, is the `None` result of `Drop`.
- ImageUtils.RoundTrip: requires fewer than 65536 images and a file shorter than 2^32 bytes. Outside those bounds the header count and the offsets wrap, as `DimNotValidated`, `HeaderFields` and `DirEntryFields` state.
- ImageToIcoTool.SelectedSizesReadBack: has the same bounds as `RoundTrip`.
- ImageUtils.BuildIcoFile: when there are more images than sizes, it returns `TypeError` instead of modelling the partially written buffer. In the source, reading the width of a missing size throws.
- `DownloadButton`, JSZip, and object URLs are not modelled. The output names are modelled as the strings the split page passes to `DownloadButton`.
