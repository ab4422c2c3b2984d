/** The shape of the per-file record that main.py keeps in the ledger, and
    the typed view `compress_file_internal` takes of it. */
module Records {
  import opened Types
  import opened Ledger

  /** The record as `upload_file` leaves it, with the fields compression reads. */
  datatype FileView = FileView(inputPath: string, filename: string, mime: Option<string>, sizeBefore: int)

  /** A MIME type as stored: a JSON string, or `null` for Python's None. */
  function MimeValue(m: Option<string>): (v: Value)
    ensures v.Null? <==> m.None?
    ensures m.Some? ==> v == Str(m.value)
  {
    if m.None? then Null else Str(m.value)
  }

  /** What `entry.get("mime_type")` means to the compressor: a string, or
      None for an absent key or a `null`. */
  function MimeOf(entry: Record): (m: Option<string>)
    ensures m.Some? <==> "mime_type" in entry && entry["mime_type"].Str?
    ensures m.Some? ==> m.value == entry["mime_type"].s
  {
    if "mime_type" in entry && entry["mime_type"].Str? then Some(entry["mime_type"].s) else None
  }

  /** The fields `compress_file_internal` reads, when they have the types
      the upload handler stores: `file_path` and `original_filename` strings,
      `size_before` an integer, `mime_type` a string, `null` or absent. */
  function ViewOf(entry: Record): (v: Option<FileView>)
    ensures v.Some? <==>
      && "file_path" in entry && entry["file_path"].Str?
      && "original_filename" in entry && entry["original_filename"].Str?
      && "size_before" in entry && entry["size_before"].Int?
      && ("mime_type" in entry ==> entry["mime_type"].Null? || entry["mime_type"].Str?)
    ensures v.Some? ==>
      && entry["file_path"] == Str(v.value.inputPath)
      && entry["original_filename"] == Str(v.value.filename)
      && entry["size_before"] == Int(v.value.sizeBefore)
      && MimeValue(v.value.mime) == (if "mime_type" in entry then entry["mime_type"] else Null)
  {
    if && "file_path" in entry && entry["file_path"].Str?
       && "original_filename" in entry && entry["original_filename"].Str?
       && "size_before" in entry && entry["size_before"].Int?
       && ("mime_type" in entry ==> entry["mime_type"].Null? || entry["mime_type"].Str?)
    then Some(FileView(entry["file_path"].s, entry["original_filename"].s, MimeOf(entry), entry["size_before"].i))
    else None
  }

  /** Python's truthiness of a JSON value. */
  predicate Truthy(v: Value) {
    match v
    case Null => false
    case Bool(b) => b
    case Int(i) => i != 0
    case Str(s) => s != ""
    case List(items) => items != []
    case Object(fields) => fields != map[]
  }
}
