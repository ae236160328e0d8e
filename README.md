# edlParser in Dafny

This project models two small web tools and proves properties about them.

**The image metadata remover.** An uploaded PNG or JPEG is rewritten without its metadata:
- For PNG, only the IHDR, PLTE, IDAT and IEND chunks are kept.
- For JPEG, the APP0–APP15 and COM segments are dropped.

The model covers both byte filters, the upload handler that chooses between them, and the client-side `processImage` that does the same choice in the browser.

**The YouTube chapter editor.** It turns video-editor exports into chapter lists of `HH:MM:SS title` lines:
- It reads DaVinci Resolve EDLs, Premiere Pro EDLs, Premiere marker text and Premiere marker CSV.
- It detects which of the four it was given.
- It sorts, de-duplicates and shifts chapters by an hour.
- It adds, edits and deletes chapters in the editor text.
- It escapes chapter text before it is put into HTML.

The model also covers the older stand-alone page, with its EDL reader and its one-hour correction toggle, and the older CSV reader with its quote-aware line splitter.

## Layout

- `wrappers.dfy`: `Option` and `Result`.
- `bytes.dfy`: bytes, big-endian reads and the subsequence relation.
- `png.dfy`, `jpeg.dfy`: the two filters.
  - Each is written as a loop method proved equal to a recursive walk over the buffer.
  - Properties are proved about that walk.
- `image_dispatch.dfy`: the upload handler `onRequestPost` and the client's `processImage`.
- `text.dfy`: the JavaScript string operations the readers use:
  - `trim` and the `\s` class;
  - `split`/`join`;
  - splitting on `/\r?\n/`;
  - the time patterns;
  - `padStart`;
  - `toLowerCase` on ASCII.
- `chapter_ops.dfy`: `app/utils/chapter-operations.js`.
- `parsers.dfy`: `app/utils/parsers.js`.
- `legacy_csv.dfy`: `parseCSVLine` and the older `parsePremiereCSVMarkers` of `app/script.js`.
- `app_main.dfy`: `parseContent`, the `state` object, and the add, update and delete handlers of `app/main.js`.
- `legacy_editor.dfy`: `parseEDLText` and the correction button of the root `script.js`, with its `shifted` flag as a class field.
- `html_escape.dfy`: `escapeHtml` of `app/ui/chapter-list.js`.

## Model

| member | source | states |
|---|---|---|
| Png.StripPng | functions/api/remove-metadata.js:7-58 | succeeds exactly when the eight signature bytes match; otherwise it fails with the "not a valid PNG" message; on success the output starts with the signature |
| Png.RemovePngMetadata | functions/api/remove-metadata.js:7-58 | the imperative filter (signature check, then chunk loop) returns exactly `StripPng` of its input |
| Png.CheckSignature | functions/api/remove-metadata.js:12-16 | the byte-by-byte loop accepts exactly the buffers that start with 137 80 78 71 13 10 26 10 |
| Png.CopyKeptChunks | functions/api/remove-metadata.js:18-55 | the chunk loop leaves the signature followed by the kept bytes of the chunk walk from offset 8 |
| Png.WalkChunk | functions/api/remove-metadata.js:28-54 | one loop iteration appends what the walk keeps at the cursor, breaks exactly where the walk stops, and otherwise moves the cursor 12 + length bytes on |
| Png.CopyChunk | functions/api/remove-metadata.js:44-49 | a chunk is copied in full when its type is critical and skipped otherwise |
| Png.WalkBreaks | functions/api/remove-metadata.js:30-52 | when the walk stops (short header, overrun or IEND), the output built so far is the final output |
| Png.WalkContinues | functions/api/remove-metadata.js:54 | after a chunk that does not stop the walk, the output so far plus the walk from the next chunk is the final output |
| Png.Chunks | functions/api/remove-metadata.js:28-55 | the chunk walk yields only well-formed chunks: length, type, data and CRC, 12 + length bytes |
| Png.KeptChunks | functions/api/remove-metadata.js:26 | the kept chunks are drawn from the walked chunks |
| Png.KeptFromOfChunks | functions/api/remove-metadata.js:28-55 | the bytes the loop copies are the concatenation of the critical chunks of the walk |
| Png.ChunksWellFormed | functions/api/remove-metadata.js:28-55 | every walked chunk is complete, and IEND can only be the last chunk |
| Png.ChunksContiguous | functions/api/remove-metadata.js:28-55 | the walked chunks lie back to back in the buffer from the cursor on |
| Png.KeptWellFormed | functions/api/remove-metadata.js:44-52 | filtering keeps the chunk list well formed, and every kept chunk has a critical type |
| Png.KeptIdentity | functions/api/remove-metadata.js:44-49 | a list of only critical chunks passes the filter unchanged |
| Png.KeptIdat | functions/api/remove-metadata.js:26 | the IDAT chunks (the image data) survive filtering, all of them and in order |
| Png.KeptSubsequence | functions/api/remove-metadata.js:44-49 | the kept bytes are the walked bytes with whole chunks deleted |
| Png.ChunksOfFlatten | functions/api/remove-metadata.js:28-55 | walking a buffer made of well-formed chunks gives back those same chunks |
| Png.ChunkLengthsFit | functions/api/remove-metadata.js:32-33 | when every length the walk reads is below 2^31, so is each walked chunk's length |
| Png.PngOutputChunks | functions/api/remove-metadata.js:7-58 | the output's chunks are exactly the input's critical chunks; all are critical; the IDAT chunks are the input's |
| Png.PngIdempotent | functions/api/remove-metadata.js:7-58 | running the filter on its own output gives the same output |
| Png.PngOutputSubsequence | functions/api/remove-metadata.js:7-58 | the output is the input with bytes deleted, so it is never longer |
| Png.PngIgnoresTrailing | functions/api/remove-metadata.js:51-52 | bytes after the IEND chunk have no effect on the output |
| Png.KeptFromShortHeader | functions/api/remove-metadata.js:30 | fewer than 8 bytes left at the cursor ends the walk |
| Png.KeptFromShortChunk | functions/api/remove-metadata.js:42 | a chunk that runs past the buffer ends the walk without being copied |
| Png.PngTruncation | functions/api/remove-metadata.js:28-55 | a cut-off PNG still succeeds, and its output is a prefix of the whole file's output |
| Jpeg.MarkerAt | functions/api/remove-metadata.js:86 | the byte after 0xFF, or "undefined" (-1) past the end |
| Jpeg.SegmentLengthAt | functions/api/remove-metadata.js:104 | the big-endian 16-bit segment length |
| Jpeg.PassAt | functions/api/remove-metadata.js:79-118 | classifies one loop pass; a segment pass has its full 2 + length bytes inside the buffer |
| Jpeg.NextAt | functions/api/remove-metadata.js:82-118 | every pass that does not stop moves the cursor forward and stays within the buffer |
| Jpeg.StripJpeg | functions/api/remove-metadata.js:64-122 | succeeds exactly when the file starts with FF D8; otherwise it fails with the "not a valid JPEG" message; on success the output starts with FF D8 |
| Jpeg.RemoveJpegMetadata | functions/api/remove-metadata.js:64-122 | the imperative filter returns exactly `StripJpeg` of its input |
| Jpeg.WalkMarkers | functions/api/remove-metadata.js:72-121 | the marker loop leaves FF D8 followed by the pass walk from offset 2 |
| Jpeg.MarkerPass | functions/api/remove-metadata.js:80-118 | one loop pass appends what the walk emits at the cursor, breaks exactly where the walk stops, and otherwise moves to the walk's next cursor |
| Jpeg.PassBreaks | functions/api/remove-metadata.js:91-106 | when a pass breaks the loop, the output built so far is the final output |
| Jpeg.PassContinues | functions/api/remove-metadata.js:82-118 | after a pass that continues, the output so far plus the walk from the next cursor is the final output |
| Jpeg.SkipsNonMarkerByte | functions/api/remove-metadata.js:81-84 | a byte other than 0xFF is dropped and the walk moves on by one |
| Jpeg.StopsAtEoi | functions/api/remove-metadata.js:89-92 | FF D9 is copied and ends the walk |
| Jpeg.CopiesStandaloneMarker | functions/api/remove-metadata.js:95-99 | FF 00, FF 01 and FF D0–D7 are copied as two bytes and the walk continues |
| Jpeg.StopsWithoutLength | functions/api/remove-metadata.js:102 | a segment marker with no room for its length field ends the walk |
| Jpeg.StopsOnOverrun | functions/api/remove-metadata.js:106 | a segment whose length runs past the buffer ends the walk |
| Jpeg.SegmentPass | functions/api/remove-metadata.js:101-106 | a marker that is neither EOI nor standalone, with a length that fits, is a segment pass |
| Jpeg.DropsMetadataSegment | functions/api/remove-metadata.js:108-118 | an APPn or COM segment is skipped whole |
| Jpeg.CopiesSegment | functions/api/remove-metadata.js:111-118 | any other segment is copied whole, marker and length included |
| Jpeg.PushedVerbatim | functions/api/remove-metadata.js:111-116 | what a pass emits is a slice of the input at the cursor, ending no later than the next cursor |
| Jpeg.JpegFromSubsequence | functions/api/remove-metadata.js:79-119 | the walk's output is the rest of the input with bytes deleted |
| Jpeg.JpegOutputSubsequence | functions/api/remove-metadata.js:64-122 | the output is the input with bytes deleted, so it is never longer |
| Jpeg.PassCount | functions/api/remove-metadata.js:79-119 | the walk makes at most as many passes as there are bytes after the cursor |
| Jpeg.JpegFromPrefix | functions/api/remove-metadata.js:79-119 | the walk over a prefix of the buffer emits a prefix of the whole walk's output |
| Jpeg.JpegTruncation | functions/api/remove-metadata.js:64-122 | a cut-off JPEG still succeeds, and its output is a prefix of the whole file's output |
| Jpeg.WalkPieces | functions/api/remove-metadata.js:79-119 | the walk's output is the bytes each pass pushed, joined in order; when every copied segment's length field is at least 2, each piece is a parameterless marker, a whole segment or nothing, with at most a final FF D9 |
| Jpeg.RewalkPieces | functions/api/remove-metadata.js:79-119 | a walk over a buffer made of such pieces laid end to end pushes every piece again and nothing else, so it outputs exactly that buffer |
| Jpeg.JpegIdempotent | functions/api/remove-metadata.js:64-122 | when every copied segment's length field is at least 2, running the filter on its output gives the same output |
| Jpeg.ShortSegmentNotIdempotent | functions/api/remove-metadata.js:96-110 | a copied segment with length field 0 makes the second run differ: FF D8 FF C0 00 00 FF D9 becomes FF D8 FF C0 FF D9 and then FF D8 |
| ImageDispatch.ChooseFilter | functions/api/remove-metadata.js:146-170 | a declared `image/png` picks PNG and `image/jpeg`/`image/jpg` pick JPEG, whatever the bytes; otherwise the leading bytes decide, and no filter is chosen only for other types with neither signature |
| ImageDispatch.CleanedFilename | functions/api/remove-metadata.js:141-173 | the download name is `cleaned_` followed by the upload's name, or by `image` when the name is empty |
| ImageDispatch.OnRequestPost | functions/api/remove-metadata.js:127-191 | a missing file is answered 400; every error is 400 or 500; a cleaned answer carries the cleaned name |
| ImageDispatch.DeclaredPng | functions/api/remove-metadata.js:147-149 | a declared PNG is cleaned and served as `image/png` when the signature matches, and answered 500 with the filter's message otherwise |
| ImageDispatch.DeclaredJpeg | functions/api/remove-metadata.js:150-152 | a declared JPEG is cleaned and served as `image/jpeg` when it starts with FF D8, and answered 500 with the filter's message otherwise |
| ImageDispatch.SniffedType | functions/api/remove-metadata.js:153-169 | under another declared type, 137 80 78 71 picks PNG, FF D8 picks JPEG, and anything else is refused with 400 |
| ImageDispatch.ServerErrorIffFilterFails | functions/api/remove-metadata.js:183-190 | the answer is 500 exactly when a filter was chosen and it threw |
| ImageDispatch.CleanedIsSubsequence | functions/api/remove-metadata.js:172-181 | a cleaned body is the uploaded bytes with bytes deleted |
| ImageDispatch.ProcessImage | metadata-remover/client-processor.js:129-152 | bytes starting with the PNG signature get exactly the PNG filter's result or error, typed `image/png`; otherwise bytes starting FF D8 always succeed with the JPEG filter's output, typed `image/jpeg`; anything else is refused with the client's message |
| ImageDispatch.SniffPassesFilterFails | metadata-remover/client-processor.js:137-139 | bytes that pass the four-byte PNG sniff but not the eight-byte signature check fail in both the client and the handler |
| ImageDispatch.ShortPngPrefixFails | metadata-remover/client-processor.js:137-139 | the four bytes 137 80 78 71 pass the sniff and are still rejected |
| ImageDispatch.ClientMatchesServer | metadata-remover/client-processor.js:129-152 | for recognisable bytes with no declared type, the client succeeds exactly when the handler cleans, with the same bytes and type |
| Text.Trim | app/utils/parsers.js:143 | the result is empty exactly for all-whitespace input, and otherwise starts and ends with a non-space character |
| Text.TrimIdempotent | app/utils/parsers.js:143-151 | trimming twice is trimming once |
| Text.Split | app/utils/chapter-operations.js:20 | there is at least one part, and no part contains a separator |
| Text.JoinSplit | script.js:89-105 | joining the parts of a split with its separator gives back the string |
| Text.SplitJoin | app/utils/chapter-operations.js:9-20 | splitting a join of separator-free parts gives back the parts |
| Text.SplitCount | app/script.js:393-404 | a string with k separators splits into k + 1 parts |
| Text.SplitLines | app/utils/parsers.js:52 | splitting on `/\r?\n/` gives one line per `\n`, and no line contains `\n` |
| Text.IndexOf | app/utils/parsers.js:25-29 | finds the first occurrence at or after the start, or none at all |
| Text.FindTime | app/utils/parsers.js:167 | finds the first `\d{2}:\d{2}:\d{2}` match, or none at all |
| Text.FindTimecode | app/utils/parsers.js:58 | finds the first `\d{2}:\d{2}:\d{2}:\d{2}` match, or none at all |
| Text.DecimalRoundTrip | app/utils/chapter-operations.js:105-118 | reading back the decimal digits of n gives n |
| Text.Pad2 | app/utils/chapter-operations.js:115-117 | `padStart(2, '0')` gives at least two digits, and exactly two for n < 100 |
| Text.Pad2RoundTrip | app/utils/chapter-operations.js:104-118 | a padded number reads back as itself |
| ChapterOps.ValidTimeIsClock | app/utils/chapter-operations.js:104-128 | a `DD:DD:DD` time splits on `:` into its three two-digit fields, and `timeToSeconds` is h·3600 + m·60 + s |
| ChapterOps.SecondsToTime | app/utils/chapter-operations.js:114-119 | the time reads back as the same number of seconds; it passes `isValidTimeFormat` exactly when the seconds are below 360000 |
| ChapterOps.TimeRoundTrip | app/utils/chapter-operations.js:104-119 | a valid time with minutes and seconds below 60 survives seconds and back unchanged |
| ChapterOps.SecondsRoundTrip | app/utils/chapter-operations.js:104-119 | any number of seconds below 360000 survives time and back unchanged |
| ChapterOps.Lines | app/utils/chapter-operations.js:8-10 | one `time name` line per chapter, in order |
| ChapterOps.ParseChapterLine | app/utils/chapter-operations.js:23-30 | a match has a `DD:DD:DD` time as its first eight characters, and its name is the rest after a run of spaces |
| ChapterOps.ParseChapterLineOf | app/utils/chapter-operations.js:23-28 | every `time spaces name` line is matched, with that time and name |
| ChapterOps.StringToChapters | app/utils/chapter-operations.js:17-33 | empty text gives no chapters, and every chapter read has a valid time and a non-empty one-line name |
| ChapterOps.LineRoundTrip | app/utils/chapter-operations.js:8-30 | a chapter's own line reads back as that chapter |
| ChapterOps.StringToChaptersRoundTrip | app/utils/chapter-operations.js:8-33 | reading back the text of chapters with valid times and trimmed one-line names gives the same chapters |
| ChapterOps.ShiftTime | app/utils/chapter-operations.js:43-59 | shifting back subtracts an hour but never goes below zero; shifting forward adds an hour; a valid time stays valid when shifted back |
| ChapterOps.ShiftChapterTimes | app/utils/chapter-operations.js:41-63 | same length, same names, and each time moved by the shift |
| ChapterOps.ShiftBackForward | app/utils/chapter-operations.js:41-63 | for a canonical time of at least one hour, shifting back and then forward restores it |
| ChapterOps.ShiftForwardBack | app/utils/chapter-operations.js:41-63 | for a canonical time, shifting forward and then back restores it |
| ChapterOps.InsertBy | app/utils/chapter-operations.js:70-76 | insertion adds exactly one copy of the element |
| ChapterOps.SortBy | app/utils/chapter-operations.js:70-76 | sorting is a permutation |
| ChapterOps.InsertBySorted | app/utils/chapter-operations.js:70-76 | inserting into a sorted list keeps it sorted |
| ChapterOps.SortBySorted | app/utils/chapter-operations.js:70-76 | the sort's result is ordered by the key |
| ChapterOps.SortByStable | app/utils/chapter-operations.js:70-76 | elements with equal keys keep their relative order (the sort is stable) |
| ChapterOps.SortByTime | app/utils/chapter-operations.js:70-76 | `sortChaptersByTime` is a permutation of its input |
| ChapterOps.SortByTimeProperties | app/utils/chapter-operations.js:70-76 | the result is ordered by seconds, and chapters at the same second keep their input order |
| ChapterOps.FirstPerTime | app/utils/chapter-operations.js:85-93 | the de-duplication keeps only chapters from its input |
| ChapterOps.FirstPerTimeProperties | app/utils/chapter-operations.js:84-93 | no two kept chapters share a time, every input time is kept, and the kept chapter for a time is the first with that time |
| ChapterOps.FormatChapters | app/utils/chapter-operations.js:83-97 | the set-and-loop method returns the first chapter per time, sorted by time |
| ChapterOps.FormatChaptersResult | app/utils/chapter-operations.js:83-97 | `formatChapters` gives distinct times in order of seconds, the same set of times as its input, and each time's first chapter |
| Parsers.ParserFor | app/utils/parsers.js:293-298 | the four identifiers map to their readers, and no other identifier has one |
| Parsers.EveryFormatHasParser | app/utils/parsers.js:293-298 | every format `detectFileFormat` can return has a registered reader |
| Parsers.FormatDisplayName | app/utils/parsers.js:275-288 | an unregistered identifier is shown as 不明 |
| Parsers.DisplayNamesDistinct | app/utils/parsers.js:275-288 | the four formats have four different display names, none of them 不明 |
| Parsers.TimecodeTime | app/utils/parsers.js:58 | `(\d{2}:\d{2}:\d{2}):\d{2}` matches exactly when a timecode occurs in the line, and captures a valid time |
| Parsers.TimeOnly | app/utils/parsers.js:167 | `(\d{2}:\d{2}:\d{2})(:\d{2})?` matches exactly when a time occurs in the line, and captures a valid time |
| Parsers.MarkerNameFrom | app/utils/parsers.js:66 | the lazy `\|M:(.+?)\|D:` capture is non-empty, has no line break, and lies between the two tags |
| Parsers.ClipNameCapture | app/utils/parsers.js:106 | the `* FROM CLIP NAME:\s*(.+)` capture is non-empty and has no line break |
| Parsers.EdlStep | app/utils/parsers.js:56-79 | one iteration moves on one line, or two when it consumed a name line |
| Parsers.ParseEdl | app/utils/parsers.js:49-122 | the loop over lines returns exactly the EDL reading of the content (DaVinci or Premiere naming rule) |
| Parsers.EdlChaptersWellFormed | app/utils/parsers.js:58-73 | every EDL chapter has a valid time and a trimmed name |
| Parsers.EdlChapterCount | app/utils/parsers.js:64-77 | each chapter uses up two lines, so there are at most half as many chapters as lines |
| Parsers.EdlNeedsTimecode | app/utils/parsers.js:58-64 | with no timecode in any line, no chapter is read |
| Parsers.EdlNeedsNameLine | app/utils/parsers.js:64-68 | with no name line after the cursor, no chapter is read |
| Parsers.NonEmptyParts | app/utils/parsers.js:147 | only non-empty parts of the line are kept |
| Parsers.TxtStart | app/utils/parsers.js:136-140 | the first line is skipped exactly when it looks like a header |
| Parsers.TxtRow | app/utils/parsers.js:142-174 | a row gives at most one chapter, with a valid time and a trimmed name |
| Parsers.ParseTxt | app/utils/parsers.js:129-178 | the loop returns exactly the marker-text reading of the content |
| Parsers.TxtChaptersWellFormed | app/utils/parsers.js:142-177 | every marker-text chapter has a valid time and a trimmed name, and there are no more chapters than lines |
| Parsers.TxtTwoFieldRow | app/utils/parsers.js:162-173 | a two-field row with a time in its first field gives that time and its trimmed second field |
| Parsers.TxtLongRowNeedsTimecode | app/utils/parsers.js:149-161 | a row of three or more fields gives a chapter exactly when its second field holds a full timecode |
| Parsers.StripBom | app/utils/parsers.js:189 | a leading byte-order mark is removed, and at most one character is |
| Parsers.RemoveFirst | app/utils/parsers.js:189 | the first U+FFFE is removed when there is one, and nothing changes otherwise |
| Parsers.DropMojibake | app/utils/parsers.js:192 | no Þ, ü, «, þ or ÿ is left, and nothing is added |
| Parsers.LastOfKind | app/utils/parsers.js:207-217 | the column index is the last header of that kind, or -1 when there is none |
| Parsers.ColumnsOf | app/utils/parsers.js:200-223 | the in-point column is a header of that kind, or the default column 2 |
| Parsers.ScanHeaders | app/utils/parsers.js:207-223 | the header loop finds the same columns as the declarative search |
| Parsers.CellAt | app/utils/parsers.js:250-253 | a non-empty cell is the trimmed field at an index inside the row |
| Parsers.CsvTitle | app/utils/parsers.js:248-259 | the title is never empty: a trimmed name or description, or the numbered default |
| Parsers.CsvRow | app/utils/parsers.js:226-265 | a row's chapter has a valid time, and its name is non-empty and either trimmed or the default for that position |
| Parsers.NumberedAll | app/utils/parsers.js:226-265 | in a numbered reading, the k-th chapter satisfies the row property for position k, and there are no more chapters than lines |
| Parsers.ParseCsv | app/utils/parsers.js:185-268 | the loop returns exactly the marker-CSV reading of the content |
| Parsers.ReadCounted | app/utils/parsers.js:226-265 | the counting loop, where `chapters.length` numbers the default titles, returns the numbered reading |
| Parsers.CsvChaptersWellFormed | app/utils/parsers.js:226-267 | chapter k has a valid time and a name that is trimmed or `マーカー k+1`, and there are fewer chapters than lines, since the header line gives none |
| Parsers.CsvTextClean | app/utils/parsers.js:188-192 | the text the CSV reader splits holds no mojibake character |
| Parsers.ParsedChaptersWellFormed | app/utils/parsers.js:49-268 | every reader gives valid times, the CSV reader never an empty name, and empty content gives nothing |
| Parsers.DetectFileFormat | app/utils/parsers.js:9-42 | empty content gives none; a `.csv` or `.txt` name decides; then, each only when every earlier rule failed: `\|M:` means DaVinci, the clip-name tag means EDL, the marker-text signs mean Premiere text, a marker-CSV header means Premiere CSV, and a time with a comma means CSV or with a tab text; none exactly when all of these fail |
| Parsers.ExtensionAfterLastDot | app/utils/parsers.js:16 | the extension is the lower-cased text after the last dot |
| Parsers.ExtensionIgnoresCase | app/utils/parsers.js:15-21 | `.CSV` and `.Txt` are recognised like `.csv` and `.txt` |
| LegacyCsv.FieldsFrom | app/script.js:381-404 | a line always gives at least one field |
| LegacyCsv.ParseCsvLine | app/script.js:376-407 | the character loop returns exactly the quote-aware field split |
| LegacyCsv.FieldCount | app/script.js:393-404 | the number of fields is one more than the number of commas outside quotes; the empty line is one empty field |
| LegacyCsv.QuoteFreeLine | app/script.js:376-407 | without quotes, the line splits at every comma |
| LegacyCsv.PlainRoundTrip | app/script.js:376-407 | fields without quotes or commas, joined with commas, read back as the same fields |
| LegacyCsv.InsideQuotes | app/script.js:384-392 | inside quotes, a doubled quote reads as one quote and commas are kept, up to the closing quote |
| LegacyCsv.QuotedRoundTrip | app/script.js:384-392 | fields quoted with doubled inner quotes, joined with commas, read back as the same fields, commas and quotes included |
| LegacyCsv.DoubledQuoteIsLiteral | app/script.js:384-388 | a `""` pair anywhere, inside quotes or not, adds one quote character to the field and leaves the quote state as it was |
| LegacyCsv.QuotedEmptyFieldAnywhere | app/script.js:380-395 | a `""` between two commas, at any point of a line, reads as a field holding one quote character, not as an empty field |
| LegacyCsv.QuotedEmptyField | app/script.js:384-388 | a `""` between commas reads as a single quote character, not as an empty field |
| LegacyCsv.DropStray | app/script.js:284 | no Þ, ü or « is left, and nothing is added |
| LegacyCsv.CleanText | app/script.js:280-284 | a leading byte-order mark is removed and no mojibake character is left |
| LegacyCsv.LastWithRole | app/script.js:302-312 | the column index is the last header with that role, or -1 |
| LegacyCsv.ColumnsOf | app/script.js:297-313 | without a header line, no column is known |
| LegacyCsv.ScanHeaders | app/script.js:300-313 | the header loop finds the same columns as the declarative search |
| LegacyCsv.FirstWhere | app/script.js:338-365 | the first field at or after the start that holds a time, or none at all |
| LegacyCsv.LegacyRow | app/script.js:315-369 | a row's chapter has a valid time, and its name is non-empty and either trimmed or the default for its position |
| LegacyCsv.ParseLegacyCsv | app/script.js:277-373 | the loop returns exactly the older CSV reading of the content |
| LegacyCsv.LegacyChaptersWellFormed | app/script.js:315-372 | chapter k has a valid time and a name that is trimmed or `マーカー k+1` |
| LegacyCsv.HeaderColumnsRow | app/script.js:323-333 | with both columns known and present, a row gives a chapter exactly when its time column holds a time, named by its name column or numbered |
| LegacyCsv.ScannedRow | app/script.js:334-368 | otherwise a row gives a chapter exactly when some field holds a time, taken from the first such field, with the neighbouring field as the title |
| App.RunRegistered | app/main.js:57-63 | a registered reader's chapters all have times that can be sorted |
| App.ParseContentOutcome | app/main.js:46-69 | blank content, an unknown format and an empty reading each fail with their own message; a success is the reading, non-empty and sorted by time |
| App.ParseContentSorted | app/main.js:63-69 | a successful parse is a permutation of the reading, ordered by seconds, with ties in reading order |
| App.RunParser | app/main.js:57-63 | calling the reader methods gives the format's reading |
| App.AppState.constructor | app/main.js:11-15 | the state starts unshifted, with no last mode and no chapters |
| App.AppState.ParseContent | app/main.js:46-69 | returns the parse outcome; records the detected format even when reading then fails; changes nothing else |
| App.EntryOf | app/main.js:184-195 | the entry is accepted exactly when the trimmed title is non-empty and the trimmed time is `DD:DD:DD`; otherwise one of the two messages |
| App.EditorChapters | app/main.js:197 | the editor's chapters all have valid times and non-empty names |
| App.AddChapter | app/main.js:181-202 | succeeds exactly when the entry is accepted; the result is the editor's chapters plus the new one, sorted |
| App.UpdateChapter | app/main.js:226-255 | a missing or out-of-range index fails first; a success replaces that one chapter and keeps the others |
| App.DeleteChapter | app/main.js:263-277 | deletes only for an index in range and a confirmed prompt; then exactly that chapter is gone and the rest keep their order |
| App.DeleteRemovesOne | app/main.js:274-277 | a deletion removes one copy of the chosen chapter and nothing else |
| App.AddKeepsOrder | app/main.js:184-202 | an accepted entry is always added, and the editor's chapters are then in order of seconds |
| App.UpdateKeepsOrder | app/main.js:229-255 | an accepted entry at an index in range is always stored, and the editor's chapters are then in order of seconds |
| LegacyEditor.TextStep | script.js:7-25 | one iteration moves on one line, or two exactly when it pushed a chapter line |
| LegacyEditor.TextPassAt | script.js:8-25 | the loop body computes one iteration of the reading |
| LegacyEditor.ParseEdlText | script.js:2-29 | the loop returns exactly the chapter lines of the content |
| LegacyEditor.TextLoop | script.js:7-26 | the loop over the split lines returns the reading from the first line |
| LegacyEditor.TextFromAgrees | script.js:2-29 | the older reader gives, line for line, the text of the DaVinci reader's chapters |
| LegacyEditor.EdlTextAgrees | script.js:2-29 | the editor text the older page shows is `chaptersToString` of the DaVinci reading |
| LegacyEditor.EdlTextWellFormed | script.js:20-21 | every line is a valid time, one space, and a trimmed name |
| LegacyEditor.EdlTextNeedsBoth | script.js:10-19 | with no timecode, or with no `\|M:…\|D:` name anywhere, nothing is read |
| LegacyEditor.ShiftLine | script.js:87-105 | a blank line or a line without a space is kept exactly as it is |
| LegacyEditor.SpaceCut | script.js:89-105 | the first part is the text before the first space, and the rest rejoined with spaces is the text after it |
| LegacyEditor.ShiftLineCut | script.js:89-105 | a shifted line is the shifted time of its first word, a space, and the rest of the line unchanged |
| LegacyEditor.ShiftLines | script.js:86-106 | each line is mapped on its own and the number of lines is kept |
| LegacyEditor.ShiftEditorLines | script.js:86-108 | the editor keeps its number of lines, and line i is line i shifted |
| LegacyEditor.ShiftLineTwice | script.js:95-105 | for a canonical time line, the first click's shift back is undone by the second click's shift forward |
| LegacyEditor.ShiftEditorTwice | script.js:84-109 | clicking the correction button twice restores editor text whose lines all have canonical times |
| LegacyEditor.Editor.constructor | script.js:84 | the editor holds the given text and starts unshifted |
| LegacyEditor.Editor.Shift | script.js:85-109 | a click rewrites the editor with every line shifted in the current direction and flips the flag |
| HtmlEscape.EscapeChar | app/ui/chapter-list.js:13-17 | a special character becomes an entity starting with `&`, and any other character stays one character |
| HtmlEscape.EscapeHtml | app/ui/chapter-list.js:10-18 | a missing value gives the empty string; a string has each character replaced by its escape |
| HtmlEscape.ChainIsPerChar | app/ui/chapter-list.js:12-17 | the five chained replacements equal escaping each character once, with `&` first so no entity is escaped again |
| HtmlEscape.EscapedIsSafe | app/ui/chapter-list.js:12-17 | the output has no `<`, `>`, `"` or `'`, and every `&` starts one of the five entities |
| HtmlEscape.EscapedRoundTrip | app/ui/chapter-list.js:12-17 | decoding the five entities gives back the original string |
| HtmlEscape.EscapeHtmlInjective | app/ui/chapter-list.js:10-18 | different strings never escape to the same text |
| HtmlEscape.EscapedLength | app/ui/chapter-list.js:12-17 | escaping never shortens a string, and leaves it unchanged exactly when it has no special character |

## Left out

- HTTP plumbing is not modelled:
  - reading the form data, the JSON bodies and headers of the responses, the `Content-Length` header, and the logging in the handler's `catch`;
  - the upload is a value holding bytes, a declared type and a name.
- The handler trusts a declared `image/png` or `image/jpeg` type without checking the bytes; this is modelled as written. A wrong signature then throws in the filter and is answered with 500.
- The JPEG filter is modelled as written:
  - it skips every byte that is not 0xFF;
  - it does not follow entropy-coded scan data after SOS, so scan bytes are dropped and marker-like bytes inside them are read as markers;
  - no corrected scan-aware filter is proved.
- Png.RemovePngMetadata: requires `PngLengthsFit`, because JavaScript's `<<` on the top byte gives a negative 32-bit value for chunk lengths of 2^31 or more (functions/api/remove-metadata.js:32-40).
- Png.StripPng, Png.Chunks, Png.PngOutputChunks, Png.PngOutputSubsequence, Png.PngTruncation, Png.PngIgnoresTrailing, ImageDispatch.RunFilter, ImageDispatch.OnRequestPost, ImageDispatch.ProcessImage, ImageDispatch.DeclaredPng, ImageDispatch.SniffedType, ImageDispatch.CleanedIsSubsequence and ImageDispatch.ClientMatchesServer: for a chunk length of 2^31 or more they state the result of reading the length as unsigned. The JavaScript reads it as negative, so its chunk size is at most 11 and the cursor stays put or moves back; its loop may then never finish (for example the signature followed by `FF FF FF F4 I H D R`). The model's walk always moves forward and ends, so these members do not describe what the remover does on such files.
- Reading past the end of a typed array gives `undefined`. The model represents it as -1 (JPEG marker) or by the explicit length guards the loops have.
- The regular expressions are written out as predicates, not run through a regex engine.
  - `\s` and `String.prototype.trim` use the JavaScript whitespace set.
  - `.` excludes only line terminators.
  - `toLowerCase` is modelled on ASCII letters only; header words outside ASCII are compared unchanged.
- `Number()` on the fields of a time is modelled only for all-digit fields, and only for exactly three of them. JavaScript also gives a number, not NaN, for an empty field (0), a field with surrounding white space such as a tab, a decimal, an exponent, a hexadecimal `0x…` field and `Infinity`. Destructuring `[h, m, s]` ignores a fourth field. So `01:02:03:04 x`, `1.5:00:00 x` and `\t1:00:00 x` all shift to some time in JavaScript. In the shift, NaN comes only from other fields or from fewer than three fields; the sort's key is a number for any count of such fields.
  - ChapterOps.ShiftTime and ChapterOps.ShiftChapterTimes: require every time to be of the `D+:D+:D+` form, so they say nothing about any of the inputs above.
  - ChapterOps.SortByTime: requires every time to be of that form. For a fourth field the sort key adds a fractional weight 60^-1; a NaN key makes `Array.prototype.sort`'s order undefined.
  - LegacyEditor.ShiftLine and LegacyEditor.Editor.Shift: require the first word of every non-blank line with a space to be of that form, so they say nothing about the inputs above, nor about lines where JavaScript writes `NaN:NaN:NaN`.
- `Array.prototype.sort` is modelled as a stable insertion sort by seconds. ECMAScript 2019 requires stability, so the order of chapters at the same second is the one the browser gives.
- Parsers.TabFields: the split on `/\t+/` is applied only to trimmed lines, as in the parser. Leading and trailing tabs are therefore never seen.
- `parseInt` of the edit dialog's index is an `Option<int>`: `None` stands for NaN. `confirm()` in the delete handler is a boolean parameter.
- escapeHtml: `String(unsafe)` on non-string inputs is left out. The input is an `Option<string>`, where `None` stands for every falsy value, all of which give `''`.
- Not modelled, since they only move values between the DOM and the functions above:
  - writing to the editor, the chapter list's DOM, the modal dialogs and the status messages (`showMessage` and its texts), `FileReader`, download and clipboard;
  - the text of the correction button, keyboard shortcuts, drag and drop, ripples and dark mode;
  - the message branches of `parseEDLText`'s callers.
- `handleTimeShift` and `handleFormat` of `app/main.js` are not modelled as handlers: they read the editor, call `shiftChapterTimes` or `formatChapters`, and write back. Those two operations are modelled in ChapterOps.
