/** The ML-style selector `ai_selector_ml`: a first-match decision table from
    (MIME type, size, file name, profile) to a compression method name.
    A MIME type of `None` makes `mime_type.startswith` raise; the selector then
    returns `None` here (the exception), at exactly the branches where the
    source would call `startswith` on it. */
module AiSelector {
  import opened Types
  import opened Text

  const MiB: int := 1024 * 1024

  /** Every name the selector can answer with. */
  const MlMethods: set<string> := {"webp", "heic", "flif", "lzma", "brotli", "pdf_optimize", "gzip"}

  const CommonRasterExts: seq<string> := ["jpg", "jpeg", "png", "webp"]
  const ExoticRasterExts: seq<string> := ["heic", "flif"]
  const TextSuffixes: seq<string> := [".log", ".txt", ".csv", ".json", ".xml"]
  const OfficeSuffixes: seq<string> := [".docx", ".xlsx", ".pptx"]

  /** No extension is both a common and an exotic raster one. */
  lemma CommonIsNotExotic(ext: string)
    requires ext in CommonRasterExts
    ensures ext !in ExoticRasterExts
  {
    assert ext[0] == 'j' || ext[0] == 'p' || ext[0] == 'w';
  }

  /** `filename.lower().split('.')[-1]`. */
  function Ext(filename: string): string {
    LastSegment(Lower(filename), '.')
  }

  /** The extension holds no dot and ends the lower-cased name. */
  lemma ExtIsDotFreeSuffix(filename: string)
    ensures '.' !in Ext(filename) && EndsWith(Lower(filename), Ext(filename))
  {
  }

  /** The default-profile PDF test: the exact MIME type or a `.pdf` name. */
  predicate PdfLike(mime: Option<string>, filename: string) {
    mime == Some("application/pdf") || EndsWith(Lower(filename), ".pdf")
  }

  predicate SpecialProfile(profile: string) {
    profile == "web" || profile == "archive" || profile == "network"
  }

  /** `ai_selector_ml`. `None` stands for the AttributeError raised by
      `None.startswith(...)`. */
  function MlSelect(mime: Option<string>, fileSize: int, filename: string, profile: string): (r: Option<string>)
    ensures r.Some? ==> r.value in MlMethods
    ensures r.None? <==> mime.None? && (SpecialProfile(profile) || !PdfLike(mime, filename))
  {
    var ext := Ext(filename);
    if profile == "web" then
      if mime.None? then None
      else if StartsWith(mime.value, "image/") then Some(if ext in CommonRasterExts then "webp" else "heic")
      else if StartsWith(mime.value, "text/") then Some("brotli")
      else Some("brotli")
    else if profile == "archive" then
      if mime.None? then None
      else if StartsWith(mime.value, "image/") then Some("flif")
      else if StartsWith(mime.value, "text/") then Some("lzma")
      else Some("lzma")
    else if profile == "network" then
      if mime.None? then None
      else if StartsWith(mime.value, "image/") then Some("webp")
      else if StartsWith(mime.value, "text/") then Some("brotli")
      else Some("brotli")
    // default rules
    else if PdfLike(mime, filename) then
      if fileSize > 2 * MiB then Some("pdf_optimize") else Some("gzip")
    else if mime.None? then None
    else if StartsWith(mime.value, "image/") then
      if ext in CommonRasterExts then Some("webp")
      else if ext in ExoticRasterExts then Some(ext)
      else Some("webp")
    else if StartsWith(mime.value, "text/") || EndsWithAny(Lower(filename), TextSuffixes) then
      if fileSize > 1 * MiB then Some("brotli") else Some("gzip")
    else if EndsWithAny(Lower(filename), OfficeSuffixes) then Some("gzip")
    else Some("brotli")
  }

  /** Profile `web`: images get `webp` exactly when the extension is a common
      raster one and `heic` otherwise; everything else gets `brotli`. */
  lemma WebProfile(m: string, fileSize: int, filename: string)
    ensures StartsWith(m, "image/") ==>
      (MlSelect(Some(m), fileSize, filename, "web") == Some("webp") <==> Ext(filename) in CommonRasterExts)
    ensures StartsWith(m, "image/") ==>
      (MlSelect(Some(m), fileSize, filename, "web") == Some("heic") <==> Ext(filename) !in CommonRasterExts)
    ensures !StartsWith(m, "image/") ==> MlSelect(Some(m), fileSize, filename, "web") == Some("brotli")
  {
  }

  /** Profiles `archive` and `network` look only at whether the MIME type is
      an image. */
  lemma ArchiveAndNetworkProfiles(m: string, fileSize: int, filename: string)
    ensures MlSelect(Some(m), fileSize, filename, "archive") ==
      Some(if StartsWith(m, "image/") then "flif" else "lzma")
    ensures MlSelect(Some(m), fileSize, filename, "network") ==
      Some(if StartsWith(m, "image/") then "webp" else "brotli")
  {
  }

  /** Default profile, PDF by MIME type or name: the document optimiser only
      strictly above 2 MiB, `gzip` otherwise; the PDF test wins over every
      later rule, including the image rule. */
  lemma PdfThreshold(mime: Option<string>, fileSize: int, filename: string, profile: string)
    requires !SpecialProfile(profile) && PdfLike(mime, filename)
    ensures MlSelect(mime, fileSize, filename, profile) == Some("pdf_optimize") <==> fileSize > 2 * MiB
    ensures MlSelect(mime, fileSize, filename, profile) == Some("gzip") <==> fileSize <= 2 * MiB
  {
  }

  /** The concrete cases: 3 MiB gives `pdf_optimize`, 1 MiB and exactly 2 MiB
      give `gzip`, and an image named `x.pdf` is treated as a PDF. */
  lemma PdfExamples()
    ensures MlSelect(Some("application/pdf"), 3 * MiB, "report.pdf", "default") == Some("pdf_optimize")
    ensures MlSelect(Some("application/pdf"), 1 * MiB, "report.pdf", "default") == Some("gzip")
    ensures MlSelect(Some("application/pdf"), 2 * MiB, "report.pdf", "default") == Some("gzip")
    ensures MlSelect(Some("image/png"), 10, "x.pdf", "default") == Some("gzip")
  {
    assert EndsWith(Lower("x.pdf"), ".pdf");
  }

  /** Default images: a `heic` or `flif` extension is returned as the method,
      every other extension gives `webp`. */
  lemma DefaultImage(m: string, fileSize: int, filename: string, profile: string)
    requires !SpecialProfile(profile) && !PdfLike(Some(m), filename) && StartsWith(m, "image/")
    ensures Ext(filename) in ExoticRasterExts ==> MlSelect(Some(m), fileSize, filename, profile) == Some(Ext(filename))
    ensures Ext(filename) !in ExoticRasterExts ==> MlSelect(Some(m), fileSize, filename, profile) == Some("webp")
  {
    var ext := Ext(filename);
    assert MlSelect(Some(m), fileSize, filename, profile) ==
      if ext in CommonRasterExts then Some("webp")
      else if ext in ExoticRasterExts then Some(ext)
      else Some("webp");
    if ext in CommonRasterExts {
      CommonIsNotExotic(ext);
    }
  }

  /** Default text (a `text/` MIME type or a listed name suffix): `brotli`
      strictly above 1 MiB, `gzip` otherwise. */
  lemma DefaultText(m: string, fileSize: int, filename: string, profile: string)
    requires !SpecialProfile(profile) && !PdfLike(Some(m), filename) && !StartsWith(m, "image/")
    requires StartsWith(m, "text/") || EndsWithAny(Lower(filename), TextSuffixes)
    ensures MlSelect(Some(m), fileSize, filename, profile) == Some(if fileSize > MiB then "brotli" else "gzip")
  {
  }

  /** Default, nothing earlier matched: office names give `gzip`, anything
      else `brotli`. */
  lemma DefaultOfficeAndRest(m: string, fileSize: int, filename: string, profile: string)
    requires !SpecialProfile(profile) && !PdfLike(Some(m), filename) && !StartsWith(m, "image/")
    requires !StartsWith(m, "text/") && !EndsWithAny(Lower(filename), TextSuffixes)
    ensures MlSelect(Some(m), fileSize, filename, profile) ==
      Some(if EndsWithAny(Lower(filename), OfficeSuffixes) then "gzip" else "brotli")
  {
  }

  /** `ext` is the text after the last dot of the lower-cased name, or the
      whole lower-cased name when there is no dot. */
  lemma ExtIsLastDotSegment(filename: string, t: string)
    requires '.' !in t && EndsWith(Lower(filename), t)
    requires |t| == |filename| || Lower(filename)[|filename| - |t| - 1] == '.'
    ensures Ext(filename) == t
  {
    LastSegmentUnique(Lower(filename), '.', t);
  }
}
