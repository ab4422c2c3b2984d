/** `upload_file` in main.py: the size gate, MIME detection with the
    extension override chain, and the record saved for a new file. The file
    id (a fresh UUID), the stored size and the guess of `mimetypes` are
    parameters. */
module Upload {
  import opened Types
  import opened Text
  import opened Ledger
  import opened Records

  /** `MAX_SIZE_MB * 1024 * 1024` with `MAX_SIZE_MB = 500`. */
  const MaxUploadBytes: nat := 500 * 1024 * 1024

  /** The `elif ext.endswith(...)` chain, in source order. */
  const MimeOverrides: seq<(string, string)> := [
    (".rar", "application/x-rar-compressed"),
    (".7z", "application/x-7z-compressed"),
    (".tar", "application/x-tar"),
    (".gz", "application/gzip"),
    (".doc", "application/msword"),
    (".xls", "application/vnd.ms-excel"),
    (".ppt", "application/vnd.ms-powerpoint"),
    (".xlsx", "application/vnd.openxmlformats-officedocument.spreadsheetml.sheet"),
    (".pptx", "application/vnd.openxmlformats-officedocument.presentationml.presentation"),
    (".gif", "image/gif"),
    (".tiff", "image/tiff"),
    (".bmp", "image/bmp"),
    (".csv", "text/csv"),
    (".json", "application/json"),
    (".xml", "application/xml"),
    (".html", "text/html")]

  /** A first-match suffix table read from row `i` on: the value of the
      first row whose suffix the name ends with. */
  function FirstSuffixMatch(table: seq<(string, string)>, name: string, i: nat): Option<string>
    decreases |table| - i
  {
    if i >= |table| then None
    else if EndsWith(name, table[i].0) then Some(table[i].1)
    else FirstSuffixMatch(table, name, i + 1)
  }

  /** The override chain applied to the lower-cased name. */
  function OverrideMime(lowerName: string): Option<string> {
    FirstSuffixMatch(MimeOverrides, lowerName, 0)
  }

  /** The table is first-match: it answers exactly when some listed suffix
      matches, and then with the value of the first row that does. */
  lemma {:induction false} FirstSuffixMatchSpec(table: seq<(string, string)>, name: string, i: nat)
    ensures FirstSuffixMatch(table, name, i).None? <==>
      forall k :: i <= k < |table| ==> !EndsWith(name, table[k].0)
    ensures FirstSuffixMatch(table, name, i).Some? ==>
      exists k :: i <= k < |table| && EndsWith(name, table[k].0)
        && FirstSuffixMatch(table, name, i).value == table[k].1
        && forall j :: i <= j < k ==> !EndsWith(name, table[j].0)
    decreases |table| - i
  {
    if i < |table| && !EndsWith(name, table[i].0) {
      FirstSuffixMatchSpec(table, name, i + 1);
    }
  }

  /** `mimetypes.guess_type(name)[0] or file.content_type`, then the override
      chain on `name.lower()`. */
  function DetectMime(filename: string, guessed: Option<string>, declared: Option<string>): (m: Option<string>)
    ensures OverrideMime(Lower(filename)).Some? ==> m == OverrideMime(Lower(filename))
    ensures OverrideMime(Lower(filename)).None? && guessed.Some? && guessed.value != "" ==> m == guessed
    ensures OverrideMime(Lower(filename)).None? && !(guessed.Some? && guessed.value != "") ==> m == declared
  {
    var base := if guessed.Some? && guessed.value != "" then guessed else declared;
    match OverrideMime(Lower(filename))
    case Some(t) => Some(t)
    case None => base
  }

  /** `a.tar.gz` does not end with `.rar`, `.7z` or `.tar`; it ends with `.gz`. */
  lemma TarGzOverride()
    ensures OverrideMime("a.tar.gz") == Some("application/gzip")
  {
    var n, t := "a.tar.gz", MimeOverrides;
    DifferAtEnd(n, t[0].0, 1);
    DifferAtEnd(n, t[1].0, 2);
    DifferAtEnd(n, t[2].0, 1);
    assert EndsWith(n, t[3].0);
    assert FirstSuffixMatch(t, n, 2) == Some("application/gzip");
  }

  /** A listed suffix decides the type whatever was guessed or declared:
      the chain gives `a.tar.gz` the type `application/gzip`. */
  lemma TarGzIsGzip(guessed: Option<string>, declared: Option<string>)
    ensures DetectMime("a.tar.gz", guessed, declared) == Some("application/gzip")
  {
    var n := "a.tar.gz";
    assert Lower(n) == n by {
      forall i | 0 <= i < |n| ensures Lower(n)[i] == n[i] {}
    }
    TarGzOverride();
  }

  /** The override runs on the lower-cased name, so `.RAR` is caught. */
  lemma UpperCaseRar(guessed: Option<string>, declared: Option<string>)
    ensures DetectMime("Backup.RAR", guessed, declared) == Some("application/x-rar-compressed")
  {
    assert Lower("Backup.RAR") == "backup.rar";
  }

  /** A name that matches no listed suffix keeps the guessed type. */
  lemma UnlistedKeepsGuess(declared: Option<string>)
    ensures DetectMime("notes.md", Some("text/markdown"), declared) == Some("text/markdown")
  {
    var n := "notes.md";
    assert Lower(n) == n;
    forall k | 0 <= k < |MimeOverrides|
      ensures !EndsWith(n, MimeOverrides[k].0)
    {
      DifferAtEnd(n, MimeOverrides[k].0, 1);
    }
    FirstSuffixMatchSpec(MimeOverrides, n, 0);
  }

  /** `os.path.join(STORAGE_DIR, file_id + '_' + file.filename)`. */
  function StoredPath(storageDir: string, fileId: string, filename: string): string {
    storageDir + "/" + fileId + "_" + filename
  }

  /** The record saved for a new upload. */
  function UploadRecord(path: string, filename: string, mime: Option<string>, size: nat): (rec: Record)
    ensures rec.Keys == {"file_path", "original_filename", "mime_type", "status", "size_before"}
    ensures rec["status"] == Str("uploaded")
  {
    map["file_path" := Str(path), "original_filename" := Str(filename), "mime_type" := MimeValue(mime),
        "status" := Str("uploaded"), "size_before" := Int(size)]
  }

  /** The record an upload saves has exactly the typed view compression
      needs, with `size_before` the stored size. */
  lemma UploadRecordView(path: string, filename: string, mime: Option<string>, size: nat)
    ensures ViewOf(UploadRecord(path, filename, mime, size)) == Some(FileView(path, filename, mime, size))
  {
    var rec := UploadRecord(path, filename, mime, size);
    assert "mime_type" in rec && rec["mime_type"] == MimeValue(mime);
  }

  datatype UploadResponse = UploadResponse(fileId: string, filename: string, mime: Option<string>)

  /** The upload handler: sizes strictly above 500 MiB are refused with 413
      and leave the ledger as it was; exactly 500 MiB is accepted. An accepted
      file gets a record with status "uploaded" under its id. */
  method UploadFile(store: ResultStore, fileId: string, filename: string, declared: Option<string>,
                    guessed: Option<string>, size: nat, storageDir: string) returns (r: Result<UploadResponse>)
    modifies store
    ensures size > MaxUploadBytes ==> r == Err(PayloadTooLarge) && store.results == old(store.results)
    ensures size <= MaxUploadBytes ==>
      var mime := DetectMime(filename, guessed, declared);
      && r == Ok(UploadResponse(fileId, filename, mime))
      && store.results == Save(old(store.results), fileId,
                               UploadRecord(StoredPath(storageDir, fileId, filename), filename, mime, size))
  {
    if size > MaxUploadBytes {
      return Err(PayloadTooLarge);
    }
    var mime := DetectMime(filename, guessed, declared);
    var path := StoredPath(storageDir, fileId, filename);
    store.SaveResult(fileId, UploadRecord(path, filename, mime, size));
    r := Ok(UploadResponse(fileId, filename, mime));
  }
}
