/** `compress_file_internal` in main.py: load the record, resolve the
    requested method, reject the unimplemented ones, pick an executor by
    content type, derive the output path, run the executor, and write the
    outcome back to the ledger. The executors (Ghostscript, PIL, ffmpeg, gzip,
    the office optimiser, a plain copy), the sensitive-entity scan and the
    size of the written file are outside the model: an `Env` says how each
    of them turns out. */
module Compress {
  import opened Types
  import opened Text
  import opened AiSelector
  import opened Utils
  import opened Ledger
  import opened Records

  /** How the outside world answers for one call: whether the ML selector
      can be imported, what the sensitive-entity scan returns (None when it
      raises), whether the executor succeeds, whether the plain copy that
      replaces a failed office optimisation succeeds, and the size of the
      file written. */
  datatype Env = Env(mlAvailable: bool, scan: Option<Value>, executorOk: bool, fallbackOk: bool, outputSize: nat)

  /** `profile or 'default'`. */
  function EffectiveProfile(profile: Option<string>): (p: string)
    ensures p != ""
    ensures profile.Some? && profile.value != "" ==> p == profile.value
    ensures profile.None? || profile.value == "" ==> p == "default"
  {
    if profile.Some? && profile.value != "" then profile.value else "default"
  }

  /** The method names that are rejected with 501 once resolved. */
  const Unimplemented: set<string> := {"lzma", "flif", "heic"}

  /** Resolution and rejection: `ai` asks the stub selector, `auto` the
      MIME-family selector, any other name stands for itself; a resolved
      `lzma`, `flif` or `heic` is refused. */
  function Resolve(requested: string, v: FileView, profile: string, mlAvailable: bool): (r: Result<string>)
    ensures r.Ok? ==> r.value !in Unimplemented
    ensures requested == "auto" ==> r == Ok(AutoSelect(v.mime))
    ensures requested != "ai" && requested != "auto" ==>
      r == if requested in Unimplemented then Err(NotImplemented(requested)) else Ok(requested)
    ensures requested == "ai" ==>
      var s := StubSelect(v.mime, v.sizeBefore, v.filename, profile, mlAvailable);
      && (s.None? ==> r == Err(InternalError))
      && (s.Some? ==> r == if s.value in Unimplemented then Err(NotImplemented(s.value)) else Ok(s.value))
  {
    var chosen :=
      if requested == "ai" then StubSelect(v.mime, v.sizeBefore, v.filename, profile, mlAvailable)
      else if requested == "auto" then Some(AutoSelect(v.mime))
      else Some(requested);
    match chosen
    case None => Err(InternalError)
    case Some(m) => if m in Unimplemented then Err(NotImplemented(m)) else Ok(m)
  }

  /** The components of the dispatch chain. */
  datatype Executor = PdfOptimizer | WebpEncoder | Ffmpeg | Gzip | OfficeOptimizer | ArchiveCopy

  const TextExts: seq<string> := [".txt", ".csv", ".json", ".xml", ".html"]
  const TextMimes: seq<string> := ["text/plain", "text/csv", "application/json", "application/xml", "text/html"]
  const OfficeExts: seq<string> := [".pptx", ".docx", ".xlsx"]
  const ArchiveExts: seq<string> := [".zip", ".rar", ".7z", ".tar"]

  predicate PdfByType(mime: Option<string>, ext: string) {
    mime == Some("application/pdf") || ext == ".pdf"
  }

  predicate IsImage(mime: Option<string>) {
    mime.Some? && StartsWith(mime.value, "image/")
  }

  predicate IsMp4(mime: Option<string>, ext: string) {
    mime == Some("video/mp4") || ext == ".mp4"
  }

  /** The text/markup test: a listed extension, a listed MIME type or any
      `text/` type. */
  predicate IsTextLike(mime: Option<string>, ext: string) {
    ext in TextExts || (mime.Some? && (mime.value in TextMimes || StartsWith(mime.value, "text/")))
  }

  /** A file with a MIME type that none of the PDF, image and video tests
      took. */
  predicate PastMedia(mime: Option<string>, ext: string) {
    !PdfByType(mime, ext) && mime.Some? && !IsImage(mime) && !IsMp4(mime, ext)
  }

  /** The `if/elif` chain on the MIME type and the lower-cased extension.
      An `Err(InternalError)` is `None.startswith` raising; the second image
      test is dead, since every image MIME type was taken two tests earlier. */
  function Dispatch(mime: Option<string>, ext: string): (r: Result<Executor>)
    ensures r == Ok(PdfOptimizer) <==> PdfByType(mime, ext)
    ensures r == Err(InternalError) <==> mime.None? && ext != ".pdf"
    ensures r == Ok(WebpEncoder) <==> !PdfByType(mime, ext) && IsImage(mime)
    ensures r == Ok(Ffmpeg) <==> !PdfByType(mime, ext) && mime.Some? && !IsImage(mime) && IsMp4(mime, ext)
    ensures r == Ok(Gzip) <==> PastMedia(mime, ext) && IsTextLike(mime, ext)
    ensures r == Ok(OfficeOptimizer) <==> PastMedia(mime, ext) && !IsTextLike(mime, ext) && ext in OfficeExts
    ensures r == Ok(ArchiveCopy) <==>
      PastMedia(mime, ext) && !IsTextLike(mime, ext) && ext !in OfficeExts && ext in ArchiveExts
    ensures r == Err(UnsupportedType) <==>
      PastMedia(mime, ext) && !IsTextLike(mime, ext) && ext !in OfficeExts && ext !in ArchiveExts
    ensures r.Err? ==> r.error in {InternalError, UnsupportedType}
  {
    if PdfByType(mime, ext) then Ok(PdfOptimizer)
    else if mime.None? then Err(InternalError)
    else if StartsWith(mime.value, "image/") then Ok(WebpEncoder)
    else if mime.value == "video/mp4" || ext == ".mp4" then Ok(Ffmpeg)
    else if ext in TextExts || mime.value in TextMimes || StartsWith(mime.value, "text/") then Ok(Gzip)
    else if StartsWith(mime.value, "image/") then assert false; Ok(WebpEncoder)
    else if ext in OfficeExts then Ok(OfficeOptimizer)
    else if ext in ArchiveExts then Ok(ArchiveCopy)
    else Err(UnsupportedType)
  }

  /** `f"compressed_{file_id}_{original_filename}"`. */
  function OutputFilename(fileId: string, filename: string): string {
    "compressed_" + fileId + "_" + filename
  }

  /** `os.path.join(RESULTS_DIR, output_filename)`. */
  function BasePath(resultsDir: string, fileId: string, filename: string): string {
    resultsDir + "/" + OutputFilename(fileId, filename)
  }

  /** The suffix each converting executor's output must carry. */
  function SuffixOf(x: Executor): Option<string> {
    match x
    case PdfOptimizer => Some(".pdf")
    case WebpEncoder => Some(".webp")
    case Gzip => Some(".gz")
    case _ => None
  }

  /** The output path an executor writes: `.pdf`, `.webp` or `.gz` appended
      unless the path already ends with it (ignoring case); the last `.mp4`
      renamed to `_compressed.mp4`; the office optimiser and the archive copy
      keep the base path. */
  function OutputPath(x: Executor, base: string): (p: string)
    ensures SuffixOf(x).Some? ==>
      && EndsWith(Lower(p), SuffixOf(x).value) && StartsWith(p, base)
      && (EndsWith(Lower(base), SuffixOf(x).value) ==> p == base)
    ensures x == Ffmpeg && EndsWith(base, ".mp4") ==> EndsWith(Lower(p), "_compressed.mp4")
    ensures x == OfficeOptimizer || x == ArchiveCopy ==> p == base
    ensures |p| >= |base|
  {
    match x
    case PdfOptimizer =>
      assert Lower(".pdf") == ".pdf";
      WithSuffixIdempotent(base, ".pdf");
      WithSuffix(base, ".pdf")
    case WebpEncoder =>
      assert Lower(".webp") == ".webp";
      WithSuffixIdempotent(base, ".webp");
      WithSuffix(base, ".webp")
    case Gzip =>
      assert Lower(".gz") == ".gz";
      WithSuffixIdempotent(base, ".gz");
      WithSuffix(base, ".gz")
    case Ffmpeg => Mp4OutputPathGrows(base); Mp4OutputPath(base)
    case OfficeOptimizer => base
    case ArchiveCopy => base
  }

  /** The ffmpeg output path: unchanged when it already ends with
      `_compressed.mp4` (ignoring case), otherwise every `.mp4` replaced. */
  function Mp4OutputPath(base: string): (p: string)
    ensures EndsWith(base, ".mp4") ==> EndsWith(Lower(p), "_compressed.mp4")
  {
    if EndsWith(Lower(base), "_compressed.mp4") then base
    else
      var p := ReplaceAll(base, ".mp4", "_compressed.mp4");
      if EndsWith(base, ".mp4") then
        ReplaceMp4AtEnd(base);
        LowerFixed("_compressed.mp4");
        EndsWithLower(p, "_compressed.mp4");
        p
      else p
  }

  /** The rewrite only lengthens the path. */
  lemma Mp4OutputPathGrows(base: string)
    ensures |Mp4OutputPath(base)| >= |base|
  {
    if !EndsWith(Lower(base), "_compressed.mp4") {
      ReplaceAllGrows(base, ".mp4", "_compressed.mp4");
    }
  }

  /** Every name an executor can report as `compression_method`. */
  const ReportedMethods: set<string> := {"gs", "webp", "ffmpeg", "gzip", "office_optimize", "copy"}

  /** The name recorded as `compression_method`: the executor's own, never
      the requested one. Ghostscript reports "gs"; a failing office
      optimiser falls back to a plain copy, which may fail in turn; every
      other failure propagates (500). */
  function MethodUsed(x: Executor, ok: bool, fallbackOk: bool): (r: Result<string>)
    ensures r.Err? <==> !ok && (x != OfficeOptimizer || !fallbackOk)
    ensures r.Err? ==> r.error == ExecutorFailed
    ensures r.Ok? ==> r.value in ReportedMethods
    ensures r == Ok("copy") <==> (x == ArchiveCopy && ok) || (x == OfficeOptimizer && !ok && fallbackOk)
  {
    match x
    case PdfOptimizer => if ok then Ok("gs") else Err(ExecutorFailed)
    case WebpEncoder => if ok then Ok("webp") else Err(ExecutorFailed)
    case Ffmpeg => if ok then Ok("ffmpeg") else Err(ExecutorFailed)
    case Gzip => if ok then Ok("gzip") else Err(ExecutorFailed)
    case OfficeOptimizer =>
      if ok then Ok("office_optimize") else if fallbackOk then Ok("copy") else Err(ExecutorFailed)
    case ArchiveCopy => if ok then Ok("copy") else Err(ExecutorFailed)
  }

  /** The sensitive-entity scan: only in sensitive mode, only for `text/`
      types or text extensions; `None.startswith` raises before the
      extension is looked at. The scan's own exceptions are caught. */
  function SensitiveScan(sensitiveMode: bool, mime: Option<string>, ext: string, scan: Option<Value>): (r: Result<Option<Value>>)
    ensures r.Err? <==> sensitiveMode && mime.None?
    ensures r.Err? ==> r.error == InternalError
    ensures r.Ok? && r.value.Some? ==>
      sensitiveMode && r.value == scan && (StartsWith(mime.value, "text/") || ext in TextExts)
    ensures sensitiveMode && mime.Some? && (StartsWith(mime.value, "text/") || ext in TextExts) ==> r == Ok(scan)
    ensures !sensitiveMode || (mime.Some? && !StartsWith(mime.value, "text/") && ext !in TextExts) ==> r == Ok(None)
  {
    if !sensitiveMode then Ok(None)
    else if mime.None? then Err(InternalError)
    else if StartsWith(mime.value, "text/") || ext in TextExts then Ok(scan)
    else Ok(None)
  }

  /** The fields a successful call may write. */
  const WrittenFields: set<string> := {"output_path", "size_after", "compression_method", "status", "sensitive_entities"}

  /** The fields written after a successful run, on top of the loaded record
      (and the sensitive entities, when the scan reported some). */
  function CompressedRecord(entry: Record, entities: Option<Value>, outputPath: string,
                            sizeAfter: nat, used: string): (rec: Record)
    ensures rec.Keys == entry.Keys + {"output_path", "size_after", "compression_method", "status"}
                        + (if entities.Some? then {"sensitive_entities"} else {})
    ensures rec["status"] == Str("compressed")
    ensures rec["output_path"] == Str(outputPath)
    ensures rec["size_after"] == Int(sizeAfter)
    ensures rec["compression_method"] == Str(used)
    ensures entities.Some? ==> rec["sensitive_entities"] == entities.value
    ensures entities.None? && "sensitive_entities" in entry ==> rec["sensitive_entities"] == entry["sensitive_entities"]
    ensures forall f :: f in entry && f !in WrittenFields ==> rec[f] == entry[f]
  {
    var withEntities := if entities.Some? then entry["sensitive_entities" := entities.value] else entry;
    withEntities["output_path" := Str(outputPath)]["size_after" := Int(sizeAfter)]
      ["compression_method" := Str(used)]["status" := Str("compressed")]
  }

  /** An exact ratio `num / den`; the source rounds it to three places. */
  datatype Fraction = Fraction(num: int, den: int)

  /** `size_after / size_before if size_before else None`. */
  function Ratio(sizeAfter: int, sizeBefore: int): (r: Option<Fraction>)
    ensures r.None? <==> sizeBefore == 0
    ensures r.Some? ==> r.value.den != 0 && r.value.num * sizeBefore == sizeAfter * r.value.den
  {
    if sizeBefore != 0 then Some(Fraction(sizeAfter, sizeBefore)) else None
  }

  /** The response of a successful call. `elapsed` is always None and is
      left out. */
  datatype CompressResponse = CompressResponse(
    fileId: string, originalFilename: string, compressedFilename: string, mime: Option<string>,
    sizeBefore: int, sizeAfter: nat, methodUsed: string, ratio: Option<Fraction>, downloadUrl: string)

  /** Everything one successful call decides. */
  datatype Plan = Plan(entities: Option<Value>, outputPath: string, record: Record, response: CompressResponse)

  /** The part of the call after the method was accepted: scan, dispatch,
      run, and the record and response that follow. The first step that
      fails decides the error. On success the path is the dispatched
      executor's, the method is the one it reports, and the response names
      `output_filename`, as main.py:499 has it. */
  function Execute(entry: Record, v: FileView, fileId: string, sensitiveMode: bool,
                   resultsDir: string, env: Env): (r: Result<Plan>)
    ensures r.Err? ==> r.error in {InternalError, UnsupportedType, ExecutorFailed}
    ensures var ext := Lower(SplitExt(v.filename));
      var scan := SensitiveScan(sensitiveMode, v.mime, ext, env.scan);
      var exec := Dispatch(v.mime, ext);
      && (scan.Err? ==> r == Err(scan.error))
      && (scan.Ok? && exec.Err? ==> r == Err(exec.error))
      && (scan.Ok? && exec.Ok? ==>
            var used := MethodUsed(exec.value, env.executorOk, env.fallbackOk);
            && (used.Err? ==> r == Err(used.error))
            && (used.Ok? ==> r.Ok? && r.value.entities == scan.value && r.value.response.methodUsed == used.value
                             && r.value.outputPath == OutputPath(exec.value, BasePath(resultsDir, fileId, v.filename))))
    ensures r.Ok? ==> var plan := r.value;
      && plan.record == CompressedRecord(entry, plan.entities, plan.outputPath, env.outputSize, plan.response.methodUsed)
      && plan.response == CompressResponse(fileId, v.filename, AsWrittenCompressedFilename(fileId, v.filename),
                                           v.mime, v.sizeBefore, env.outputSize, plan.response.methodUsed,
                                           Ratio(env.outputSize, v.sizeBefore), "/download/" + fileId)
      && |plan.outputPath| >= |BasePath(resultsDir, fileId, v.filename)| > 0
      && plan.response.methodUsed in ReportedMethods
  {
    var ext := Lower(SplitExt(v.filename));
    match SensitiveScan(sensitiveMode, v.mime, ext, env.scan)
    case Err(e) => Err(e)
    case Ok(entities) =>
      match Dispatch(v.mime, ext)
      case Err(e) => Err(e)
      case Ok(x) =>
        match MethodUsed(x, env.executorOk, env.fallbackOk)
        case Err(e) => Err(e)
        case Ok(used) =>
          var out := OutputPath(x, BasePath(resultsDir, fileId, v.filename));
          Ok(Plan(entities, out, CompressedRecord(entry, entities, out, env.outputSize, used),
                  CompressResponse(fileId, v.filename, AsWrittenCompressedFilename(fileId, v.filename),
                                   v.mime, v.sizeBefore,
                                   env.outputSize, used, Ratio(env.outputSize, v.sizeBefore),
                                   "/download/" + fileId)))
  }

  /** The whole call as a function of the loaded record: an error, or the
      record to store and the response. The method below follows it step by
      step against the ledger. */
  function CompressStep(entry: Option<Record>, fileId: string, requested: string, sensitiveMode: bool,
                        profile: Option<string>, resultsDir: string, env: Env): Result<Plan>
  {
    if entry.None? || entry.value == map[] then Err(NotFound)
    else match ViewOf(entry.value)
      case None => Err(InternalError)
      case Some(v) =>
        match Resolve(requested, v, EffectiveProfile(profile), env.mlAvailable)
        case Err(e) => Err(e)
        case Ok(_) => Execute(entry.value, v, fileId, sensitiveMode, resultsDir, env)
  }

  /** The prologue of the call: a missing or empty record is a 404 and
      nothing else is; a record without the typed upload fields is a 500;
      otherwise a refused method is the result, and the call only goes on
      to the executor once the method has resolved. */
  lemma CompressStepPrologue(entry: Option<Record>, fileId: string, requested: string, sensitiveMode: bool,
                             profile: Option<string>, resultsDir: string, env: Env)
    ensures var r := CompressStep(entry, fileId, requested, sensitiveMode, profile, resultsDir, env);
      && (r == Err(NotFound) <==> entry.None? || entry.value == map[])
      && (entry.Some? && entry.value != map[] && ViewOf(entry.value).None? ==> r == Err(InternalError))
      && (entry.Some? && entry.value != map[] && ViewOf(entry.value).Some? ==>
            var res := Resolve(requested, ViewOf(entry.value).value, EffectiveProfile(profile), env.mlAvailable);
            res.Err? ==> r == Err(res.error))
      && (r.Ok? ==> entry.Some? && entry.value != map[] && ViewOf(entry.value).Some?
                    && Resolve(requested, ViewOf(entry.value).value, EffectiveProfile(profile), env.mlAvailable).Ok?)
  {
    var r := CompressStep(entry, fileId, requested, sensitiveMode, profile, resultsDir, env);
    if entry.None? || entry.value == map[] {
      assert r == Err(NotFound);
    } else if ViewOf(entry.value).None? {
      assert r == Err(InternalError);
    } else {
      var v := ViewOf(entry.value).value;
      var res := Resolve(requested, v, EffectiveProfile(profile), env.mlAvailable);
      if res.Err? {
        assert r == Err(res.error);
        assert res.error != NotFound;
      } else {
        assert r == Execute(entry.value, v, fileId, sensitiveMode, resultsDir, env);
      }
    }
  }

  // ----- properties of the whole call -----

  /** An unimplemented method is refused before the sensitive scan, before
      any output path is derived and before any executor runs: the outcome
      is the same whatever the scan, the executor, the results directory or
      the sensitive flag would have done. */
  lemma RejectionPrecedesWork(entry: Option<Record>, fileId: string, requested: string, profile: Option<string>,
                              sensitive1: bool, sensitive2: bool, dir1: string, dir2: string, env1: Env, env2: Env,
                              name: string)
    requires env1.mlAvailable == env2.mlAvailable
    requires CompressStep(entry, fileId, requested, sensitive1, profile, dir1, env1) == Err(NotImplemented(name))
    ensures name in Unimplemented
    ensures CompressStep(entry, fileId, requested, sensitive2, profile, dir2, env2) == Err(NotImplemented(name))
  {
  }

  /** The requested method only decides whether the call is refused: any two
      requests that are both accepted produce the same record and response,
      since the recorded method is the executor's. */
  lemma RequestedMethodOnlyGates(entry: Option<Record>, fileId: string, m1: string, m2: string,
                                 sensitive: bool, profile: Option<string>, dir: string, env: Env)
    requires CompressStep(entry, fileId, m1, sensitive, profile, dir, env).Ok?
    requires CompressStep(entry, fileId, m2, sensitive, profile, dir, env).Ok?
    ensures CompressStep(entry, fileId, m1, sensitive, profile, dir, env)
         == CompressStep(entry, fileId, m2, sensitive, profile, dir, env)
  {
  }

  /** After a successful call the stored record is the loaded one with
      `output_path`, `size_after`, `compression_method` and `status` set
      (and `sensitive_entities` when reported); every other field is kept;
      the method is one an executor reports; the ratio is absent exactly when
      `size_before` is 0; the response names `output_filename`, the name
      before any suffix was added. */
  lemma SuccessfulCallRecord(entry: Option<Record>, fileId: string, requested: string, sensitive: bool,
                             profile: Option<string>, dir: string, env: Env)
    requires CompressStep(entry, fileId, requested, sensitive, profile, dir, env).Ok?
    ensures var plan := CompressStep(entry, fileId, requested, sensitive, profile, dir, env).value;
      var rec := plan.record;
      && entry.Some? && entry.value != map[] && ViewOf(entry.value).Some?
      && rec["status"] == Str("compressed")
      && rec["output_path"] == Str(plan.outputPath)
      && rec["size_after"] == Int(env.outputSize)
      && rec["compression_method"] == Str(plan.response.methodUsed)
      && plan.response.methodUsed in ReportedMethods
      && (plan.entities.Some? ==> rec["sensitive_entities"] == plan.entities.value)
      && (plan.entities.None? && "sensitive_entities" in entry.value
          ==> rec["sensitive_entities"] == entry.value["sensitive_entities"])
      && (forall f :: f in entry.value && f !in WrittenFields ==> rec[f] == entry.value[f])
      && rec.Keys >= entry.value.Keys
      && (plan.response.ratio.None? <==> ViewOf(entry.value).value.sizeBefore == 0)
      && plan.response.compressedFilename == OutputFilename(fileId, ViewOf(entry.value).value.filename)
  {
    assert entry.Some? && entry.value != map[];
    var e := entry.value;
    assert ViewOf(e).Some?;
    var v := ViewOf(e).value;
    var x := Execute(e, v, fileId, sensitive, dir, env);
    assert CompressStep(entry, fileId, requested, sensitive, profile, dir, env) == x;
    var plan := x.value;
    assert plan.record == CompressedRecord(e, plan.entities, plan.outputPath, env.outputSize, plan.response.methodUsed);
  }

  /** Appending the suffix is idempotent: running the path rule on its own
      output changes nothing. */
  lemma OutputSuffixIdempotent(x: Executor, base: string)
    requires SuffixOf(x).Some?
    ensures OutputPath(x, OutputPath(x, base)) == OutputPath(x, base)
  {
  }

  /** The PDF test comes first: an image MIME type with a `.pdf` extension
      goes to the PDF optimiser, and a missing MIME type is only survivable
      with a `.pdf` extension. */
  lemma DispatchOrder(mime: string)
    ensures Dispatch(Some("image/png"), ".pdf") == Ok(PdfOptimizer)
    ensures Dispatch(None, ".pdf") == Ok(PdfOptimizer)
    ensures Dispatch(None, ".txt") == Err(InternalError)
    ensures StartsWith(mime, "image/") && mime != "application/pdf" ==> Dispatch(Some(mime), ".mp4") == Ok(WebpEncoder)
  {
  }

  // ----- the reported file name -----

  /** As written, the response reports `compressed_filename` as
      `output_filename`, the name before the executor's suffix was added. */
  function AsWrittenCompressedFilename(fileId: string, filename: string): (name: string)
    ensures StartsWith(name, "compressed_")
  {
    OutputFilename(fileId, filename)
  }

  /** A converting executor whose suffix is missing appends it; suffixes
      hold no `/`. */
  lemma OutputPathAppends(x: Executor, base: string)
    requires SuffixOf(x).Some? && !EndsWith(Lower(base), SuffixOf(x).value)
    ensures OutputPath(x, base) == base + SuffixOf(x).value
    ensures '/' !in SuffixOf(x).value
  {
    match x {
      case PdfOptimizer =>
      case WebpEncoder =>
      case Gzip =>
    }
  }

  /** When the suffix is appended the written file's name is the reported
      name plus the suffix, so the two never agree. */
  lemma AsWrittenNameLacksSuffix(resultsDir: string, fileId: string, filename: string, x: Executor)
    requires SuffixOf(x).Some? && '/' !in fileId && '/' !in filename
    requires !EndsWith(Lower(BasePath(resultsDir, fileId, filename)), SuffixOf(x).value)
    ensures Basename(OutputPath(x, BasePath(resultsDir, fileId, filename)))
         == AsWrittenCompressedFilename(fileId, filename) + SuffixOf(x).value
    ensures Basename(OutputPath(x, BasePath(resultsDir, fileId, filename)))
         != AsWrittenCompressedFilename(fileId, filename)
  {
    var suffix := SuffixOf(x).value;
    var stem := OutputFilename(fileId, filename);
    OutputPathAppends(x, BasePath(resultsDir, fileId, filename));
    NotInAppend('/', "compressed_", fileId);
    NotInAppend('/', "compressed_" + fileId, "_");
    NotInAppend('/', "compressed_" + fileId + "_", filename);
    BasenameOfJoinSuffix(resultsDir, stem, suffix);
  }

  /** The base output path of `photo.jpg` does not end with `.webp`. */
  lemma PhotoJpgBaseLacksWebp(resultsDir: string)
    ensures !EndsWith(Lower(BasePath(resultsDir, "f1", "photo.jpg")), ".webp")
  {
    var base := BasePath(resultsDir, "f1", "photo.jpg");
    assert base[|base| - 1] == 'g';
    assert Lower(base)[|base| - 1] == 'g';
    DifferAtEnd(Lower(base), ".webp", 1);
  }

  /** The input that shows it: `photo.jpg` uploaded as `image/jpeg` under
      id `f1` is written as `compressed_f1_photo.jpg.webp` but reported as
      `compressed_f1_photo.jpg`, whatever the results directory. */
  lemma PhotoJpgReportedName(resultsDir: string)
    ensures Basename(OutputPath(WebpEncoder, BasePath(resultsDir, "f1", "photo.jpg")))
         == AsWrittenCompressedFilename("f1", "photo.jpg") + ".webp"
  {
    PhotoJpgBaseLacksWebp(resultsDir);
    AsWrittenNameLacksSuffix(resultsDir, "f1", "photo.jpg", WebpEncoder);
  }

  /** The response the call evidently means to give: the one it gives, with
      `compressed_filename` the name of the file actually written, as
      `get_result` and `/download` report it. */
  function CorrectedResponse(plan: Plan): (resp: CompressResponse)
    ensures resp.compressedFilename == Basename(plan.outputPath)
    ensures resp.(compressedFilename := plan.response.compressedFilename) == plan.response
  {
    plan.response.(compressedFilename := Basename(plan.outputPath))
  }

  /** `compress_file_internal` against the ledger: on any error the ledger is
      left as it was; on success the record under `file_id` is replaced by the
      compressed record. */
  method CompressFileInternal(store: ResultStore, fileId: string, requested: string, sensitiveMode: bool,
                              profile: Option<string>, resultsDir: string, env: Env)
    returns (r: Result<CompressResponse>)
    modifies store
    ensures var step := CompressStep(Load(old(store.results), fileId), fileId, requested, sensitiveMode,
                                     profile, resultsDir, env);
      && r == (if step.Ok? then Ok(step.value.response) else Err(step.error))
      && store.results == (if step.Ok? then Save(old(store.results), fileId, step.value.record)
                           else old(store.results))
  {
    var entry := store.LoadResult(fileId);
    if entry.None? || entry.value == map[] {
      return Err(NotFound);
    }
    var view := ViewOf(entry.value);
    if view.None? {
      return Err(InternalError);
    }
    var v := view.value;
    var chosen := Resolve(requested, v, EffectiveProfile(profile), env.mlAvailable);
    if chosen.Err? {
      return Err(chosen.error);
    }
    r := ExecuteAndSave(store, entry.value, v, fileId, sensitiveMode, resultsDir, env);
  }

  /** The rest of the call once the method is accepted: when the scan,
      dispatch and executor succeed, save the sensitive entities (when the
      scan reported some), then update the loaded record field by field and
      save it, the second save overwriting the first. Nothing is written
      when any step raises. */
  method ExecuteAndSave(store: ResultStore, entry: Record, v: FileView, fileId: string, sensitiveMode: bool,
                        resultsDir: string, env: Env) returns (r: Result<CompressResponse>)
    modifies store
    ensures var step := Execute(entry, v, fileId, sensitiveMode, resultsDir, env);
      && r == (if step.Ok? then Ok(step.value.response) else Err(step.error))
      && store.results == (if step.Ok? then Save(old(store.results), fileId, step.value.record)
                           else old(store.results))
  {
    var step := Execute(entry, v, fileId, sensitiveMode, resultsDir, env);
    if step.Err? {
      return Err(step.error);
    }
    var plan := step.value;
    ghost var before := store.results;
    var record := entry;
    if plan.entities.Some? {
      record := record["sensitive_entities" := plan.entities.value];
      store.SaveResult(fileId, record);
      SaveOverwrites(before, fileId, record, plan.record);
    }
    record := record["output_path" := Str(plan.outputPath)]["size_after" := Int(env.outputSize)]
      ["compression_method" := Str(plan.response.methodUsed)]["status" := Str("compressed")];
    assert record == plan.record;
    store.SaveResult(fileId, record);
    r := Ok(plan.response);
  }
}
