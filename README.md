# SmartShrink backend: compression policy and result ledger in Dafny

SmartShrink is a small web backend. A client uploads a file and asks for it to be compressed with a
named method (`ai`, `auto`, `gzip`, `brotli`, `webp`, `pdf_optimize`, ...), one file at a time or in
a batch. It then reads the result back or downloads the original or the compressed file. This project
models the decisions the backend makes along that path, and the key-value ledger in which it keeps
one JSON record per file id:

- **Method selection.**
  - The rule-based "ML" selector `ai_selector_ml` (module `AiSelector`).
  - The MIME-family selector `auto_select_compression`, and the wrapper `ai_selector_stub` with its
    different fallback rules (module `Utils`).
  - An independent ranked rule table, interpreted by one small function, that is proved equal to
    both if-chains (module `RuleTable`).
- **Entropy input.** The byte histogram that `file_entropy` builds in place, as a method with loop
  invariants (module `Utils`).
- **The ledger.** `db_utils` as a class `ResultStore` over a `map<string, Record>`, together with
  the map operations that specify it (module `Ledger`). `Records` gives the typed view of a stored
  record.
- **Upload.** The 500 MiB gate, MIME detection with the extension override chain, and the record
  saved (module `Upload`).
- **Compression.** `compress_file_internal` (module `Compress`) has four parts:
  - resolution of the requested method, and rejection of `lzma`/`flif`/`heic`;
  - the content-type dispatch chain over abstract executors;
  - the output-suffix rules;
  - the record update and the response.

  It is written as a function of the loaded record, which a method follows step by step against
  the ledger.
- **Batches.** The `batch_compress` loop, which drops failing items (module `Batch`).
- **Retrieval.** `get_result` status gating, download-mode normalisation and the choice of file to
  send (module `Retrieval`).

The executors (Ghostscript, PIL, ffmpeg, gzip, the office optimiser, a copy), the sensitive-entity
scan, the size of the written file and the availability of the ML module are outside the model. The
record `Compress.Env` supplies each of their outcomes to a call. The file system is a set of
existing paths. MIME types are `Option<string>`, with `None` standing for Python's `None`. Where the
source would call `None.startswith` and raise, the model returns `None` or `Err(InternalError)` at
exactly that branch.

## Model

| member | source | states |
|---|---|---|
| AiSelector.MlSelect | utils_ai_selector.py:3-46 | the answer is always one of webp, heic, flif, lzma, brotli, pdf_optimize, gzip; it raises (None) exactly when the MIME type is missing and the call reaches a `startswith` |
| AiSelector.ExtIsLastDotSegment | utils_ai_selector.py:7 | `ext` is the dot-free text after the last `.` of the lower-cased name (the whole name when there is no dot) |
| AiSelector.ExtIsDotFreeSuffix | utils_ai_selector.py:7 | `ext` holds no dot and ends the lower-cased name |
| AiSelector.CommonIsNotExotic | utils_ai_selector.py:33-35 | no extension is in both the common and the heic/flif lists, so the order of the two tests does not matter |
| AiSelector.WebProfile | utils_ai_selector.py:8-13 | profile web: an image gets webp iff its extension is jpg/jpeg/png/webp, else heic; a non-image gets brotli |
| AiSelector.ArchiveAndNetworkProfiles | utils_ai_selector.py:14-25 | profile archive: flif for images, lzma otherwise; profile network: webp for images, brotli otherwise |
| AiSelector.PdfThreshold | utils_ai_selector.py:27-31 | a PDF (by MIME type or `.pdf` name) under the default rules gets pdf_optimize iff the size is strictly above 2 MiB, gzip otherwise |
| AiSelector.PdfExamples | utils_ai_selector.py:27-32 | 3 MiB gives pdf_optimize, 1 MiB and exactly 2 MiB give gzip, and an image MIME type named `x.pdf` takes the PDF rule because that rule comes first |
| AiSelector.DefaultImage | utils_ai_selector.py:32-38 | a default-profile image with extension heic or flif gets that extension, any other extension webp |
| AiSelector.DefaultText | utils_ai_selector.py:39-43 | `text/*` or a .log/.txt/.csv/.json/.xml name: brotli iff the size exceeds 1 MiB, else gzip |
| AiSelector.DefaultOfficeAndRest | utils_ai_selector.py:44-46 | .docx/.xlsx/.pptx names get gzip, everything left gets brotli |
| Utils.AutoSelect | utils.py:36-41 | gzip iff the MIME type is `text/*` or exactly `application/pdf`; webp iff it is `image/*`; brotli otherwise, including None and the empty string |
| Utils.StubFallback | utils.py:87-106 | the fallback rules give one of webp, brotli, lzma, pdf_optimize, gzip, and raise exactly where they call `startswith` on a missing MIME type |
| Utils.StubSelect | utils.py:80-106 | the answer is one of the ML method names; whenever ML is importable and returns normally the stub returns its answer unchanged; it raises only for a missing MIME type under a profile other than archive or network |
| RuleTable.StubIsTwoTables | utils.py:80-106 | the stub is the ML table's answer when ML is importable and that table answers, and the fallback table's answer otherwise |
| Utils.FallbackDiffersOnSmallPdf | utils.py:98-99 | a 1 MiB PDF gets gzip from the ML rules but pdf_optimize from the fallback, whatever its size |
| Utils.FallbackDiffersOnArchiveImage | utils.py:93-94 | under profile archive an image gets flif from the ML rules but lzma from the fallback |
| Utils.FallbackDiffersOnWebTiff | utils.py:89-92 | under profile web a TIFF image gets heic from the ML rules but webp from the fallback |
| Utils.FallbackDiffersOnSmallText | utils.py:102-103 | small text gets gzip from the ML rules but brotli from the fallback |
| Utils.FallbackDiffersOnHeic | utils.py:100-101 | a default-profile `.heic` image gets heic from the ML rules but webp from the fallback |
| Utils.FallbackRescuesMissingMime | utils.py:84-94 | with no MIME type the ML selector raises, and the fallback still answers lzma for profile archive |
| Utils.ByteHistogram | utils.py:54-56 | after the loop `freq[b]` is the number of occurrences of byte `b`, for all 256 values, and the counts sum to the length of the data |
| Utils.CountsSumToLength | utils.py:54-56 | the per-value counts of any byte string add up to its length |
| Utils.SumIsCountsBelow | utils.py:54-56 | a histogram that holds every byte's count sums, over its first k cells, to the number of bytes below k |
| Utils.EntropyHistogram | utils.py:48-56 | at most `max_bytes` bytes are read; empty data gives the early return 0 (None here); otherwise the histogram of exactly the bytes read |
| RuleTable.MlTableIsMlSelect | utils_ai_selector.py:3-46 | the 19-row first-match table, run by the generic interpreter, gives the same answer as the if-chain on every input, raising included |
| RuleTable.WebRows | utils_ai_selector.py:8-13 | the web rows of the table agree with the if-chain |
| RuleTable.WebRowsAfterFirst | utils_ai_selector.py:10-13 | past the first web row, the remaining rows agree with the if-chain |
| RuleTable.ArchiveRows | utils_ai_selector.py:14-19 | the archive rows of the table agree with the if-chain |
| RuleTable.NetworkRows | utils_ai_selector.py:20-25 | the network rows of the table agree with the if-chain |
| RuleTable.PdfGuardIsPdfLike | utils_ai_selector.py:27 | the table's PDF guard holds exactly for a PDF by MIME type or by name |
| RuleTable.DefaultRows | utils_ai_selector.py:27-46 | for every non-special profile the default rows agree with the if-chain |
| RuleTable.ImageRows | utils_ai_selector.py:32-38 | for an image the image rows answer webp for a common extension, the extension itself for heic/flif, webp otherwise |
| RuleTable.ExoticImageRows | utils_ai_selector.py:35-38 | past the common-extension row an image gets its extension when that is heic or flif, else webp |
| RuleTable.ImageRowsSkipped | utils_ai_selector.py:32 | for a non-image MIME type the image rows are passed over |
| RuleTable.TextRows | utils_ai_selector.py:39-46 | the text rows answer brotli above 1 MiB and gzip otherwise for text by type or name; office names get gzip; anything else brotli |
| RuleTable.PdfRows | utils_ai_selector.py:27-31 | for a PDF by type or name the PDF rows answer pdf_optimize strictly above 2 MiB, gzip otherwise |
| RuleTable.PdfRowsSkipped | utils_ai_selector.py:27 | for anything that is not a PDF by type or name the PDF rows are passed over |
| RuleTable.WebRowsSkipped | utils_ai_selector.py:8 | outside profile web the web rows are passed over |
| RuleTable.ArchiveRowsSkipped | utils_ai_selector.py:14 | outside profile archive the archive rows are passed over |
| RuleTable.NetworkRowsSkipped | utils_ai_selector.py:20 | outside profile network the network rows are passed over |
| RuleTable.ArchiveTail | utils_ai_selector.py:14-19 | under profile archive the archive rows answer flif for an image and lzma otherwise, and raise on a missing MIME type |
| RuleTable.NetworkTail | utils_ai_selector.py:20-25 | under profile network the network rows answer webp for an image and brotli otherwise, and raise on a missing MIME type |
| RuleTable.SkipFalseRows | utils_ai_selector.py:8-46 | first match wins: rows whose guard is false are passed over without effect |
| RuleTable.FallbackTableIsStubFallback | utils.py:89-106 | the 9-row fallback table gives the same answer as the fallback if-chain on every input |
| RuleTable.FallbackDefaultRows | utils.py:98-106 | the default rows of the fallback table agree with the if-chain |
| Ledger.Save | db_utils.py:15-20 | insert-or-replace: the id maps to the new record, the key set gains the id, other ids keep their records |
| Ledger.Load | db_utils.py:22-30 | the stored record, or None exactly when no row exists |
| Ledger.UpdateField | db_utils.py:32-42 | the key set is unchanged: no row is ever created |
| Ledger.Delete | db_utils.py:52-57 | the id is gone and every other id keeps its record |
| Ledger.LoadAfterSave | db_utils.py:15-30 | loading after saving returns the saved record, wholly replacing an earlier one; other ids are unaffected |
| Ledger.LoadAfterDelete | db_utils.py:22-30 | a deleted id, or one never saved, loads as None; other ids are unaffected |
| Ledger.UpdateChangesOneField | db_utils.py:35-41 | on an existing id only `field` changes: all other fields and all other ids keep their values |
| Ledger.UpdateAbsentIsNoop | db_utils.py:36-42 | on an absent id the update changes nothing and creates no row |
| Ledger.SaveIdempotent | db_utils.py:18 | saving the same record twice leaves the state of saving it once |
| Ledger.SaveOverwrites | db_utils.py:18 | a second save under an id wholly overwrites the first |
| Ledger.DeleteUndoesSave | db_utils.py:52-57 | deleting a freshly saved id restores the table as it was |
| Ledger.ResultStore.constructor | db_utils.py:5-13 | a fresh table is empty |
| Ledger.ResultStore.SaveResult | db_utils.py:15-20 | the table becomes `Save` of the old table |
| Ledger.ResultStore.LoadResult | db_utils.py:22-30 | returns the row's record, or None exactly when there is no row; changes nothing |
| Ledger.ResultStore.UpdateResultField | db_utils.py:32-42 | the read-modify-write leaves the table as `UpdateField` of the old one |
| Ledger.ResultStore.LoadAllResults | db_utils.py:44-50 | returns exactly the stored ids, each with the record `load_result` would give |
| Ledger.ResultStore.DeleteResult | db_utils.py:52-57 | the table becomes `Delete` of the old table |
| Records.MimeValue | main.py:131 | a MIME type is stored as a JSON string, or null exactly when it is None |
| Records.MimeOf | main.py:383 | `entry.get("mime_type")` is a string exactly when the stored value is one, and it is that stored string |
| Records.ViewOf | main.py:382-384 | the typed view exists exactly when `file_path` and `original_filename` are strings, `size_before` is an integer and `mime_type` is a string, null or absent, and it carries those values |
| Upload.FirstSuffixMatchSpec | main.py:95-126 | the override chain is first-match: no override iff no listed suffix matches, and otherwise the value of the earliest matching row |
| Upload.DetectMime | main.py:92-126 | a listed suffix of the lower-cased name decides the type whatever was guessed; otherwise a non-empty guess wins over the declared type |
| Upload.TarGzOverride | main.py:95-102 | `a.tar.gz` skips .rar, .7z and .tar and matches .gz |
| Upload.TarGzIsGzip | main.py:92-102 | `a.tar.gz` is `application/gzip` whatever was guessed or declared |
| Upload.UpperCaseRar | main.py:93-96 | the chain runs on the lower-cased name, so `Backup.RAR` is a RAR archive |
| Upload.UnlistedKeepsGuess | main.py:92-126 | a name with no listed suffix keeps the guessed type |
| Upload.UploadRecord | main.py:128-134 | the new record has exactly the five upload fields and status "uploaded" |
| Upload.UploadRecordView | main.py:128-134 | the saved record's typed view carries the stored path, the name, the MIME type and `size_before` equal to the stored size |
| Upload.UploadFile | main.py:79-139 | above 500 MiB: 413 and the ledger is unchanged; up to and including 500 MiB: the upload record is saved under the new id and the response echoes id, name and detected type |
| Compress.EffectiveProfile | main.py:386 | `profile or 'default'`: a missing or empty profile is "default", any other is kept |
| Compress.Resolve | main.py:385-396 | `ai` asks the stub selector, `auto` the MIME-family selector, any other name stands for itself; a resolved lzma/flif/heic is refused with 501 and nothing else is |
| Compress.CompressStepPrologue | main.py:379-396 | 404 exactly for a missing or empty record; 500 for a record without the typed upload fields; otherwise a refused method is the result; success only after the method resolved |
| Compress.RejectionPrecedesWork | main.py:391-396 | a 501 refusal comes before any scan, output path or executor: it is the same whatever they would have done |
| Compress.Dispatch | main.py:410-469 | each executor is chosen exactly when its test is the first to hold: PDF by MIME type or extension; WebP for `image/*`; ffmpeg for `video/mp4` or `.mp4`; gzip for a text extension, a listed MIME type or `text/*`; the office optimiser for .pptx/.docx/.xlsx; a copy for .zip/.rar/.7z/.tar; 415 when none holds; a missing MIME type raises unless the extension is .pdf; the second image test is unreachable |
| Compress.DispatchOrder | main.py:410-450 | an image MIME type with a .pdf extension goes to the PDF optimiser, and an image named `.mp4` to WebP, not ffmpeg |
| Compress.OutputPath | main.py:410-469 | the .pdf/.webp/.gz suffix is present afterwards (ignoring case) and is added only when missing; office and archive outputs keep the base path; the path never shrinks |
| Compress.OutputSuffixIdempotent | main.py:412-439 | applying the suffix rule to its own output changes nothing |
| Compress.Mp4OutputPath | main.py:424-425 | a path ending in `.mp4` ends in `_compressed.mp4` afterwards |
| Compress.OutputPathAppends | main.py:410-439 | for the PDF, WebP and gzip executors a base path without the suffix (ignoring case) gets exactly the suffix appended, and the suffix holds no `/` |
| Compress.Mp4OutputPathGrows | main.py:424-425 | rewriting `.mp4` never shortens the path |
| Compress.MethodUsed | main.py:410-468 | the recorded method is the executor's (gs, webp, ffmpeg, gzip, office_optimize, copy), copy exactly for archives and for a failed office optimisation whose fallback copy succeeds; every other failure, that fallback copy's included, is a 500 |
| Compress.SensitiveScan | main.py:400-408 | in sensitive mode with `text/*` or a text extension the scan's result is kept; otherwise there are no entities; in sensitive mode a missing MIME type raises |
| Compress.CompressedRecord | main.py:488-493 | the stored record gains `output_path`, `size_after`, `compression_method` and status "compressed", and `sensitive_entities` when reported; an existing `sensitive_entities` is kept when none are reported; every other field keeps its value |
| Compress.Ratio | main.py:494 | the ratio is absent exactly when `size_before` is 0, and is otherwise `size_after / size_before` |
| Compress.Execute | main.py:397-507 | the first failing step decides the error: a missing MIME type in sensitive mode, then the dispatch error, then the executor's; on success the path is the dispatched executor's, the method the one it reports, the record the updated one, and the response names `output_filename` |
| Compress.SuccessfulCallRecord | main.py:471-507 | after success the four fields are set, `sensitive_entities` is the scan's when it reported some and kept otherwise, and all others kept; the method is one an executor reports; the ratio is absent iff `size_before` is 0; the reported name is `output_filename` |
| Compress.RequestedMethodOnlyGates | main.py:385-469 | two accepted requests for the same file give the same record and response: the requested method only decides refusal |
| Compress.AsWrittenCompressedFilename | main.py:398 | the name the source reports always starts with `compressed_` |
| Compress.AsWrittenNameLacksSuffix | main.py:497-499 | for a suffix executor the written file's name is the reported name plus the suffix, so the two differ |
| Compress.PhotoJpgBaseLacksWebp | main.py:398-418 | the base path for `photo.jpg` does not already end in `.webp` |
| Compress.PhotoJpgReportedName | main.py:499 | for `photo.jpg` under id `f1` the file written is named `compressed_f1_photo.jpg.webp`, the reported name plus `.webp` |
| Compress.CorrectedResponse | main.py:496-507 | the evidently intended response differs from the one given only in `compressed_filename`, which is the name of the file actually written |
| Compress.CompressFileInternal | main.py:374-507 | the response and the new ledger are those of the whole-call function on the loaded record, and on failure the ledger is as it was |
| Compress.ExecuteAndSave | main.py:470-507 | the intermediate save of sensitive entities and the final save leave exactly the updated record |
| Batch.ParseMethod | main.py:19-25 | only ai, gzip, brotli, webp and pdf_optimize are accepted; auto and the unimplemented names raise |
| Batch.ItemStep | main.py:517-527 | an item adds a result exactly when it has a file id, an enum method and its compression succeeds; the result is that compression's response under its file id and the ledger is the one the call saved; a failing item leaves the ledger as it was |
| Batch.ExtendShape | main.py:525 | one turn keeps the results so far and appends at most one, belonging to that turn's item |
| Batch.ExtendAfterPrefix | main.py:516-527 | a turn depends only on the ledger, and appends to whatever results came before |
| Batch.BatchAppend | main.py:516-528 | running two batches in sequence is running their concatenation: one failure never stops later items |
| Batch.InvalidItemIsSkipped | main.py:516-528 | an item with no file id or a method outside the enum changes nothing: the batch runs as if it were absent |
| Batch.TurnOfPrefix | main.py:516 | appending an item changes none of the earlier turns |
| Batch.OutcomeIsTurn | main.py:516-527 | the k-th outcome is what item k's call produced on the ledger the earlier items left |
| Batch.LastTurn | main.py:516-527 | the last item's call appends its outcome, and its result if any, after those of the items before it |
| Batch.PicksGrow | main.py:525 | a last outcome adds its position to the picked ones exactly when it holds a result |
| Batch.ResultsAreSucceedingTurns | main.py:516-528 | the results are, in input order, exactly the responses of the items whose call succeeded on the ledger of that moment: none is dropped and none is added |
| Batch.ResultsFollowItems | main.py:516-528 | the k-th result carries the file id of the item at a strictly increasing position: successes are in input order |
| Batch.StrictlyIncreasingBound | main.py:516-528 | strictly increasing positions below n number at most n |
| Batch.AtMostOneResultPerItem | main.py:516-528 | there are never more results than items |
| Batch.BatchCompress | main.py:511-528 | the loop leaves the ledger and returns the results of the per-item specification over all items, which `ResultsAreSucceedingTurns` shows are exactly the succeeding items' responses |
| Retrieval.Get | main.py:337 | `entry.get(key)` is the stored value, or null when absent |
| Retrieval.StoredRatio | main.py:340 | a falsy `size_before` gives no ratio; otherwise both sizes must be integers and the ratio is theirs |
| Retrieval.GetResult | main.py:332-354 | 404 exactly for a missing or empty record; 202 with the stored status ("pending" when absent) exactly while the status is not "compressed"; otherwise the stored fields, with the file name the last segment of `output_path` |
| Retrieval.FirstValueSpec | main.py:607-609 | the first value for a key is that of its earliest occurrence, and there is none exactly when the key does not occur |
| Retrieval.DownloadMode | main.py:607-615 | the original is chosen iff the first `mode` value is "original" |
| Retrieval.DownloadModeSpec | main.py:607-615 | the original is chosen iff the earliest `mode` parameter is exactly "original"; a later one does not count |
| Retrieval.UnknownModeIsCompressed | main.py:612-615 | no mode, a differently cased value, or "compressed" first all give the compressed file |
| Retrieval.Download | main.py:617-636 | 404 without a record or when the chosen path is unset or missing on disk; the original goes out under its stored name, the compressed file under the last segment of its path |
| Retrieval.DownloadCompressed | main.py:630-636 | a record whose `output_path` is a non-empty string on disk downloads that file under the last segment of the path |
| Retrieval.AfterUpload | main.py:333-339 | right after an upload the result is pending with status "uploaded", the original can be downloaded under its own name, and there is no compressed file yet |
| Retrieval.CompressedRecordReadsBack | main.py:340-354 | a record written by a successful compression reads back with the same name, sizes, method and exact ratio |
| Retrieval.AsWrittenResponseDisagrees | main.py:499 | when the PDF, WebP or gzip executor appends its suffix, the name the call returns differs from the one `get_result` reports afterwards |
| Retrieval.CompressReadsBack | main.py:341 | after a successful compression, the result endpoint and the download report the compressed file under the corrected response's name, and the result endpoint reports the call's ratio |

## Left out

- HTTP plumbing is not modelled: routing, API-key checks, rate limiting, CORS, logging and the
  status-code mapping. Errors are the values of `Types.Error`.
- Two handlers are registered for `POST /compress` (main.py:141 and main.py:530). The first one is
  the one that is served. That legacy handler, with its second dispatch pass, is not modelled.
  `compress_file_internal` is modelled as the orchestrator, and it is what the batch loop calls.
- The executors are not modelled: Ghostscript, PIL WebP, ffmpeg, gzip, the office image optimiser
  (office_optimize.py) and file copies. Each call's `Env` says whether the executor succeeds, whether
  the copy that replaces a failed office optimisation succeeds, and how large the output is.
- The sensitive-entity regexes (nlp_utils.py) are not modelled. The scan's result is a parameter.
- The disk is not modelled. The upload handler writes the file before checking its size and removes
  it afterwards. The model only decides from the stored size.
- Floating point is not modelled:
  - the Shannon entropy sum over the histogram;
  - the rounding of the ratio, to 3 places in `compress_file_internal` (main.py:494) and to 4 in
    `get_result` (main.py:340).

  Ratios are exact fractions.
- Compress.CompressFileInternal does not model the metadata analysis after dispatch: the entropy,
  PDF page count and image resolution. Its results are discarded and its exceptions are caught.
  `elapsed`, which is always None in that function, and `convert_to`, which is never read, are
  also not modelled.
- Compress.CompressStep treats a record whose upload fields have the wrong types as a 500 before any
  write. The upload handler never stores such a record, and the source's behaviour on one varies:
  - a `size_before` that is not a number can reach the final save (main.py:488-493) and raise only
    at main.py:494, leaving the updated record in the ledger although the call fails;
  - a `size_before` of null or a boolean does not raise at main.py:494: the call completes, with
    ratio None for null or False and `size_after` itself for True;
  - with method "ai", the ML selector's TypeError on a null size is caught by the stub, which
    falls back to its own rules.

  In these cases the source answers where the model refuses.
- Text.Lower folds ASCII letters only. Python's `lower()` folds all of Unicode.
- Batch.BatchCompress assumes every item is a JSON object. The source would raise from its own
  error handler on any other item, failing the whole batch.
- Retrieval.StoredRatio treats boolean sizes as malformed. Python would divide them as integers.
- Retrieval.Download treats a stored path that is not a string as missing. Python would pass it to
  `os.path.exists`.
- The unreachable tail of `ai_selector_stub` (utils.py:107-111) is not modelled.
- Other parts of the repository are outside this model:
  - the diff endpoint (diff_utils.py; main.py calls a `create_binary_patch` that diff_utils.py does
    not define);
  - cleanup.py, compare_utils.py and init_db.py;
  - the client and test scripts;
  - the compression-method listing endpoint.
- Two behaviours are modelled as the code has them:
  - a failing PDF optimisation is not retried with gzip but propagates as a 500;
  - a failing batch item leaves no error entry in the batch result but is simply omitted.
- There is no locking in the source, and concurrent requests are not modelled.

## Findings

| source | as written | input that shows it | evidently intended | confidence | as-written member | corrected member |
|---|---|---|---|---|---|---|
| main.py:499 | the response of `compress_file_internal` reports `compressed_filename` as `output_filename`, the name before the executor's suffix is added | file id `f1`, name `photo.jpg`, MIME `image/jpeg`: the file written is `compressed_f1_photo.jpg.webp`, but the response says `compressed_f1_photo.jpg`, a name that `/download` never serves | the name of the file actually written, `basename(output_path)`, which is what `get_result` (main.py:341) and `/download` (main.py:634) report | medium, not executed | Retrieval.AsWrittenResponseDisagrees | Compress.CorrectedResponse |
