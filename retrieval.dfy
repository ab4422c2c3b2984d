/** `get_result` and `download_file` in main.py: reading a record back from
    the ledger, and choosing which stored file to send. The file system is
    the set of paths that exist. */
module Retrieval {
  import opened Types
  import opened Text
  import opened Ledger
  import opened Records
  import opened Upload
  import opened Compress

  /** `entry.get(key)`: the stored value, or `null` when the key is absent. */
  function Get(entry: Record, key: string): (v: Value)
    ensures key in entry ==> v == entry[key]
    ensures key !in entry ==> v == Null
  {
    if key in entry then entry[key] else Null
  }

  // ----- get_result -----

  /** The body of a 200 answer from `get_result`. */
  datatype ResultResponse = ResultResponse(
    fileId: string, originalFilename: Value, compressedFilename: string, mime: Value,
    sizeBefore: Value, sizeAfter: Value, methodUsed: Value, ratio: Option<Fraction>,
    elapsed: Value, downloadUrl: string)

  /** 202 with the stored status, or 200 with the result. */
  datatype ResultView = Pending(status: Value) | Ready(response: ResultResponse)

  /** `size_after / size_before if size_before else None`: a falsy
      `size_before` gives None without looking at `size_after`; otherwise
      both must be integers. */
  function StoredRatio(entry: Record): (r: Result<Option<Fraction>>)
    requires "size_before" in entry
    ensures r.Ok? && r.value.None? <==> !Truthy(entry["size_before"])
    ensures r.Ok? && r.value.Some? ==>
      && entry["size_before"].Int? && "size_after" in entry && entry["size_after"].Int?
      && r.value == Ratio(entry["size_after"].i, entry["size_before"].i)
    ensures r.Err? ==> r.error == InternalError
  {
    if !Truthy(entry["size_before"]) then Ok(None)
    else if "size_after" in entry && entry["size_after"].Int? && entry["size_before"].Int? then
      Ok(Ratio(entry["size_after"].i, entry["size_before"].i))
    else Err(InternalError)
  }

  /** The fields `get_result` indexes without a default. */
  const ResultFields: set<string> :=
    {"size_before", "size_after", "output_path", "original_filename", "mime_type", "compression_method"}

  /** A compressed record `get_result` can answer from: every indexed field
      is present, the ratio can be computed and the output path is a string. */
  predicate Answerable(e: Record) {
    && ResultFields <= e.Keys
    && StoredRatio(e).Ok?
    && e["output_path"].Str?
  }

  /** `get_result`: 404 for a missing or empty record, 202 until the status
      is "compressed", then the stored result with the file name taken from
      the stored output path. A missing field or a value of the wrong type
      is a 500. */
  function GetResult(entry: Option<Record>, fileId: string): (r: Result<ResultView>)
    ensures r == Err(NotFound) <==> entry.None? || entry.value == map[]
    ensures r.Err? ==> r.error in {NotFound, InternalError}
    ensures r.Ok? && r.value.Pending? <==>
      entry.Some? && entry.value != map[] && Get(entry.value, "status") != Str("compressed")
    ensures r.Ok? && r.value.Pending? ==>
      r.value.status == (if "status" in entry.value then entry.value["status"] else Str("pending"))
    ensures r.Ok? && r.value.Ready? <==>
      && entry.Some? && entry.value != map[] && Get(entry.value, "status") == Str("compressed")
      && Answerable(entry.value)
    ensures r.Ok? && r.value.Ready? ==>
      var e, resp := entry.value, r.value.response;
      && resp.compressedFilename == Basename(e["output_path"].s)
      && resp.ratio == StoredRatio(e).value
      && resp.sizeBefore == e["size_before"] && resp.sizeAfter == e["size_after"]
      && resp.originalFilename == e["original_filename"] && resp.mime == e["mime_type"]
      && resp.methodUsed == e["compression_method"] && resp.elapsed == Get(e, "elapsed")
      && resp.fileId == fileId && resp.downloadUrl == "/download/" + fileId
  {
    if entry.None? || entry.value == map[] then Err(NotFound)
    else
      var e := entry.value;
      if Get(e, "status") != Str("compressed") then
        Ok(Pending(if "status" in e then e["status"] else Str("pending")))
      else if !Answerable(e) then Err(InternalError)
      else
        Ok(Ready(ResultResponse(fileId, e["original_filename"], Basename(e["output_path"].s), e["mime_type"],
                                e["size_before"], e["size_after"], e["compression_method"],
                                StoredRatio(e).value, Get(e, "elapsed"), "/download/" + fileId)))
  }

  // ----- download_file -----

  datatype Mode = Original | Compressed

  /** `query_params.getlist(key)[0]`: the first value given for `key`. */
  function FirstValue(params: seq<(string, string)>, key: string): Option<string>
    decreases |params|
  {
    if params == [] then None
    else if params[0].0 == key then Some(params[0].1)
    else FirstValue(params[1..], key)
  }

  /** The first value is the one at the earliest position that carries the
      key, and there is none exactly when no position does. */
  lemma {:induction false} FirstValueSpec(params: seq<(string, string)>, key: string, v: string)
    ensures FirstValue(params, key) == Some(v) <==>
      exists i :: 0 <= i < |params| && params[i] == (key, v) && forall j :: 0 <= j < i ==> params[j].0 != key
    ensures FirstValue(params, key).None? <==> forall i :: 0 <= i < |params| ==> params[i].0 != key
    decreases |params|
  {
    if params != [] && params[0].0 != key {
      FirstValueSpec(params[1..], key, v);
      if FirstValue(params, key) == Some(v) {
        var i :| 0 <= i < |params[1..]| && params[1..][i] == (key, v)
          && forall j :: 0 <= j < i ==> params[1..][j].0 != key;
        assert params[i + 1] == (key, v);
        assert forall j :: 0 <= j < i + 1 ==> params[j].0 != key by {
          forall j | 0 <= j < i + 1 ensures params[j].0 != key {
            if j > 0 { assert params[j] == params[1..][j - 1]; }
          }
        }
      }
      if exists i :: 0 <= i < |params| && params[i] == (key, v) && forall j :: 0 <= j < i ==> params[j].0 != key {
        var i :| 0 <= i < |params| && params[i] == (key, v) && forall j :: 0 <= j < i ==> params[j].0 != key;
        assert i > 0;
        assert params[1..][i - 1] == (key, v);
        assert forall j :: 0 <= j < i - 1 ==> params[1..][j].0 != key by {
          forall j | 0 <= j < i - 1 ensures params[1..][j].0 != key {
            assert params[1..][j] == params[j + 1];
          }
        }
      }
      if forall i :: 0 <= i < |params[1..]| ==> params[1..][i].0 != key {
        forall i | 0 <= i < |params| ensures params[i].0 != key {
          if i > 0 { assert params[i] == params[1..][i - 1]; }
        }
      }
    }
  }

  /** The `mode` query parameter: the first `mode` value when it is
      "original"; anything else, or no `mode` at all, means the compressed
      file. */
  function DownloadMode(params: seq<(string, string)>): (m: Mode)
    ensures m == Original <==> FirstValue(params, "mode") == Some("original")
  {
    if FirstValue(params, "mode") == Some("original") then Original else Compressed
  }

  /** The original file is sent exactly when the earliest `mode` parameter
      is "original": a later "original" does not count. */
  lemma DownloadModeSpec(params: seq<(string, string)>)
    ensures DownloadMode(params) == Original <==>
      exists i :: 0 <= i < |params| && params[i] == ("mode", "original")
        && forall j :: 0 <= j < i ==> params[j].0 != "mode"
  {
    FirstValueSpec(params, "mode", "original");
  }

  /** Values other than the two modes, including a different case, fall
      back to the compressed file. */
  lemma UnknownModeIsCompressed()
    ensures DownloadMode([]) == Compressed
    ensures DownloadMode([("mode", "ORIGINAL")]) == Compressed
    ensures DownloadMode([("mode", "compressed"), ("mode", "original")]) == Compressed
    ensures DownloadMode([("file", "x"), ("mode", "original")]) == Original
  {
  }

  /** A file handed to `FileResponse`: its path and the download name. */
  datatype FileSent = FileSent(path: string, filename: Value)

  /** `not p or not os.path.exists(p)` fails for a path value. */
  predicate OnDisk(p: Value, onDisk: set<string>) {
    p.Str? && p.s != "" && p.s in onDisk
  }

  /** `download_file` after the mode is known: 404 without a record, and
      404 when the chosen path is unset or not on disk. The original is sent
      under its stored name, the compressed file under the last segment of
      its path. */
  function Download(entry: Option<Record>, mode: Mode, onDisk: set<string>): (r: Result<FileSent>)
    ensures r.Err? ==> r.error == NotFound
    ensures entry.None? || entry.value == map[] ==> r == Err(NotFound)
    ensures r.Ok? ==> r.value.path in onDisk
    ensures r.Ok? && mode == Original ==>
      && Get(entry.value, "file_path") == Str(r.value.path)
      && r.value.filename == Get(entry.value, "original_filename")
    ensures r.Ok? && mode == Compressed ==>
      Get(entry.value, "output_path") == Str(r.value.path) && r.value.filename == Str(Basename(r.value.path))
    ensures entry.Some? && entry.value != map[] ==>
      (r.Ok? <==> OnDisk(Get(entry.value, if mode == Original then "file_path" else "output_path"), onDisk))
  {
    if entry.None? || entry.value == map[] then Err(NotFound)
    else
      var e := entry.value;
      match mode
      case Original =>
        if OnDisk(Get(e, "file_path"), onDisk) then Ok(FileSent(e["file_path"].s, Get(e, "original_filename")))
        else Err(NotFound)
      case Compressed =>
        if OnDisk(Get(e, "output_path"), onDisk) then
          Ok(FileSent(e["output_path"].s, Str(Basename(e["output_path"].s))))
        else Err(NotFound)
  }

  // ----- reading back what the other handlers wrote -----

  /** Right after an upload the result is pending with status "uploaded",
      the original can be downloaded under its own name once stored, and
      there is no compressed file yet. */
  lemma AfterUpload(t: Table, storageDir: string, fileId: string, filename: string, mime: Option<string>,
                    size: nat, onDisk: set<string>)
    ensures var t' := Save(t, fileId, UploadRecord(StoredPath(storageDir, fileId, filename), filename, mime, size));
      && GetResult(Load(t', fileId), fileId) == Ok(Pending(Str("uploaded")))
      && Download(Load(t', fileId), Compressed, onDisk) == Err(NotFound)
      && (StoredPath(storageDir, fileId, filename) in onDisk ==>
            Download(Load(t', fileId), Original, onDisk)
              == Ok(FileSent(StoredPath(storageDir, fileId, filename), Str(filename))))
  {
    var path := StoredPath(storageDir, fileId, filename);
    var rec := UploadRecord(path, filename, mime, size);
    assert "file_path" in rec && rec["file_path"] == Str(path);
    assert "original_filename" in rec && rec["original_filename"] == Str(filename);
    assert "output_path" !in rec;
    assert path != "" by { assert path[|storageDir|] == '/'; }
  }

  /** The record a successful compression stores reads back as what the
      call answered: the same file name, sizes, method and exact ratio. */
  lemma CompressedRecordReadsBack(entry: Record, v: FileView, entities: Option<Value>, out: string,
                                  sizeAfter: nat, used: string, fileId: string)
    requires ViewOf(entry) == Some(v) && "mime_type" in entry
    ensures GetResult(Some(CompressedRecord(entry, entities, out, sizeAfter, used)), fileId)
         == Ok(Ready(ResultResponse(fileId, Str(v.filename), Basename(out), MimeValue(v.mime),
                                    Int(v.sizeBefore), Int(sizeAfter), Str(used), Ratio(sizeAfter, v.sizeBefore),
                                    Get(entry, "elapsed"), "/download/" + fileId)))
  {
    var rec := CompressedRecord(entry, entities, out, sizeAfter, used);
    assert rec["size_before"] == Int(v.sizeBefore);
    assert rec["original_filename"] == Str(v.filename);
    assert rec["mime_type"] == MimeValue(v.mime);
    assert Get(rec, "elapsed") == Get(entry, "elapsed");
    assert StoredRatio(rec) == Ok(Ratio(sizeAfter, v.sizeBefore));
  }

  /** A record whose `output_path` names a file on disk is downloaded, in
      compressed mode, as that file under its last path segment. */
  lemma DownloadCompressed(rec: Record, out: string, onDisk: set<string>)
    requires "output_path" in rec && rec["output_path"] == Str(out) && out != ""
    ensures out in onDisk ==> Download(Some(rec), Compressed, onDisk) == Ok(FileSent(out, Str(Basename(out))))
  {
  }

  /** After a successful `compress_file_internal`, `get_result` and
      `/download` report the compressed file under the name the corrected
      response gives, and `get_result` reports the ratio the call returned.
      The record must carry `mime_type`, as every uploaded record does. */
  lemma CompressReadsBack(entry: Option<Record>, fileId: string, requested: string, sensitiveMode: bool,
                          profile: Option<string>, resultsDir: string, env: Env, onDisk: set<string>)
    requires entry.Some? && "mime_type" in entry.value
    requires CompressStep(entry, fileId, requested, sensitiveMode, profile, resultsDir, env).Ok?
    ensures var plan := CompressStep(entry, fileId, requested, sensitiveMode, profile, resultsDir, env).value;
      var got := GetResult(Some(plan.record), fileId);
      && got.Ok? && got.value.Ready?
      && got.value.response.compressedFilename == CorrectedResponse(plan).compressedFilename
      && got.value.response.ratio == plan.response.ratio
      && (plan.outputPath in onDisk ==>
            Download(Some(plan.record), Compressed, onDisk)
              == Ok(FileSent(plan.outputPath, Str(CorrectedResponse(plan).compressedFilename))))
  {
    var e := entry.value;
    var v := ViewOf(e).value;
    var plan := CompressStep(entry, fileId, requested, sensitiveMode, profile, resultsDir, env).value;
    var x := Execute(e, v, fileId, sensitiveMode, resultsDir, env);
    assert x.Ok? && plan == x.value;
    assert plan.record == CompressedRecord(e, plan.entities, plan.outputPath, env.outputSize, plan.response.methodUsed);
    CompressedRecordReadsBack(e, v, plan.entities, plan.outputPath, env.outputSize, plan.response.methodUsed, fileId);
    DownloadCompressed(plan.record, plan.outputPath, onDisk);
  }

  /** As written, the name the call returns is not the one `get_result`
      reports afterwards whenever the executor appends its suffix: the PDF
      optimiser, the WebP encoder and gzip on a name that lacks `.pdf`,
      `.webp` or `.gz`. */
  lemma AsWrittenResponseDisagrees(e: Record, v: FileView, fileId: string, sensitiveMode: bool,
                                   resultsDir: string, env: Env)
    requires ViewOf(e) == Some(v) && "mime_type" in e
    requires '/' !in fileId && '/' !in v.filename
    requires Execute(e, v, fileId, sensitiveMode, resultsDir, env).Ok?
    requires Dispatch(v.mime, Lower(SplitExt(v.filename))).Ok?
    requires SuffixOf(Dispatch(v.mime, Lower(SplitExt(v.filename))).value).Some?
    requires !EndsWith(Lower(BasePath(resultsDir, fileId, v.filename)),
                       SuffixOf(Dispatch(v.mime, Lower(SplitExt(v.filename))).value).value)
    ensures var plan := Execute(e, v, fileId, sensitiveMode, resultsDir, env).value;
      var got := GetResult(Some(plan.record), fileId);
      && got.Ok? && got.value.Ready?
      && got.value.response.compressedFilename != plan.response.compressedFilename
  {
    var x := Dispatch(v.mime, Lower(SplitExt(v.filename))).value;
    var plan := Execute(e, v, fileId, sensitiveMode, resultsDir, env).value;
    assert plan.outputPath == OutputPath(x, BasePath(resultsDir, fileId, v.filename));
    assert plan.record == CompressedRecord(e, plan.entities, plan.outputPath, env.outputSize, plan.response.methodUsed);
    AsWrittenNameLacksSuffix(resultsDir, fileId, v.filename, x);
    CompressedRecordReadsBack(e, v, plan.entities, plan.outputPath, env.outputSize, plan.response.methodUsed, fileId);
  }
}
