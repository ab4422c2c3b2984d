/** A single ranked rule table and its interpreter, as an independent
    reference definition of both selectors: the ML selector's if-chain and the
    stub's inline fallback are each one table of (guard, method) rows read
    top to bottom, first match wins. The lemmas below prove that the tables
    reproduce the two selectors exactly, on every input, including where the
    source raises on a missing MIME type. */
module RuleTable {
  import opened Types
  import opened Text
  import opened AiSelector
  import opened Utils

  datatype Input = Input(mime: Option<string>, fileSize: int, filename: string, profile: string)

  datatype Guard =
    | Always
    | ProfileIs(profile: string)
    | MimeIs(mime: string)
    | MimePrefix(prefix: string)       // raises when the MIME type is None
    | NameEndsWith(suffixes: seq<string>)
    | ExtIn(exts: seq<string>)
    | SizeOver(limit: int)
    | And(left: Guard, right: Guard)   // short-circuit, like Python's `and`
    | Or(left: Guard, right: Guard)    // short-circuit, like Python's `or`

  datatype Pick = Method(name: string) | ExtItself

  datatype Rule = Rule(when: Guard, pick: Pick)

  /** A guard's truth value on an input, or `None` when evaluating it raises. */
  function Eval(g: Guard, x: Input): Option<bool> {
    match g
    case Always => Some(true)
    case ProfileIs(p) => Some(x.profile == p)
    case MimeIs(m) => Some(x.mime == Some(m))
    case MimePrefix(p) => if x.mime.None? then None else Some(StartsWith(x.mime.value, p))
    case NameEndsWith(ss) => Some(EndsWithAny(Lower(x.filename), ss))
    case ExtIn(es) => Some(Ext(x.filename) in es)
    case SizeOver(n) => Some(x.fileSize > n)
    case And(a, b) =>
      (match Eval(a, x)
       case None => None
       case Some(false) => Some(false)
       case Some(true) => Eval(b, x))
    case Or(a, b) =>
      (match Eval(a, x)
       case None => None
       case Some(true) => Some(true)
       case Some(false) => Eval(b, x))
  }

  function PickOf(p: Pick, x: Input): string {
    match p
    case Method(m) => m
    case ExtItself => Ext(x.filename)
  }

  /** First match wins, reading the table from row `i` on; a guard that
      raises ends the search with `None`, and so does running off the end of
      the table. */
  function DecideFrom(rules: seq<Rule>, i: nat, x: Input): Option<string>
    decreases |rules| - i
  {
    if i >= |rules| then None
    else match Eval(rules[i].when, x)
      case None => None
      case Some(true) => Some(PickOf(rules[i].pick, x))
      case Some(false) => DecideFrom(rules, i + 1, x)
  }

  function Decide(rules: seq<Rule>, x: Input): Option<string> {
    DecideFrom(rules, 0, x)
  }

  const PdfGuard: Guard := Or(MimeIs("application/pdf"), NameEndsWith([".pdf"]))
  const TextGuard: Guard := Or(MimePrefix("text/"), NameEndsWith(TextSuffixes))

  /** The ML selector as one table: rows 0-3 are the web profile, 4-6 the
      archive profile, 7-9 the network profile, 10-18 the default rules. */
  const MlRules: seq<Rule> := [
    Rule(And(ProfileIs("web"), And(MimePrefix("image/"), ExtIn(CommonRasterExts))), Method("webp")),
    Rule(And(ProfileIs("web"), MimePrefix("image/")), Method("heic")),
    Rule(And(ProfileIs("web"), MimePrefix("text/")), Method("brotli")),
    Rule(ProfileIs("web"), Method("brotli")),
    Rule(And(ProfileIs("archive"), MimePrefix("image/")), Method("flif")),
    Rule(And(ProfileIs("archive"), MimePrefix("text/")), Method("lzma")),
    Rule(ProfileIs("archive"), Method("lzma")),
    Rule(And(ProfileIs("network"), MimePrefix("image/")), Method("webp")),
    Rule(And(ProfileIs("network"), MimePrefix("text/")), Method("brotli")),
    Rule(ProfileIs("network"), Method("brotli")),
    Rule(And(PdfGuard, SizeOver(2 * MiB)), Method("pdf_optimize")),
    Rule(PdfGuard, Method("gzip")),
    Rule(And(MimePrefix("image/"), ExtIn(CommonRasterExts)), Method("webp")),
    Rule(And(MimePrefix("image/"), ExtIn(ExoticRasterExts)), ExtItself),
    Rule(MimePrefix("image/"), Method("webp")),
    Rule(And(TextGuard, SizeOver(MiB)), Method("brotli")),
    Rule(TextGuard, Method("gzip")),
    Rule(NameEndsWith(OfficeSuffixes), Method("gzip")),
    Rule(Always, Method("brotli"))]

  /** The stub's fallback as one table. */
  const FallbackRules: seq<Rule> := [
    Rule(And(ProfileIs("web"), MimePrefix("image/")), Method("webp")),
    Rule(ProfileIs("web"), Method("brotli")),
    Rule(ProfileIs("archive"), Method("lzma")),
    Rule(ProfileIs("network"), Method("brotli")),
    Rule(PdfGuard, Method("pdf_optimize")),
    Rule(MimePrefix("image/"), Method("webp")),
    Rule(TextGuard, Method("brotli")),
    Rule(NameEndsWith(OfficeSuffixes), Method("gzip")),
    Rule(Always, Method("brotli"))]

  lemma PdfGuardIsPdfLike(x: Input)
    ensures Eval(PdfGuard, x) == Some(PdfLike(x.mime, x.filename))
  {
    EndsWithAnyOne(Lower(x.filename), ".pdf");
  }

  /** Rows whose guards are all false are passed over. */
  lemma {:induction false} SkipFalseRows(rules: seq<Rule>, i: nat, j: nat, x: Input)
    requires i <= j <= |rules|
    requires forall k :: i <= k < j ==> Eval(rules[k].when, x) == Some(false)
    ensures DecideFrom(rules, i, x) == DecideFrom(rules, j, x)
    decreases j - i
  {
    if i < j {
      SkipFalseRows(rules, i + 1, j, x);
    }
  }

  /** Rows 1 to 3 of the ML table, under the web profile with a MIME type. */
  lemma WebRowsAfterFirst(x: Input)
    requires x.profile == "web" && x.mime.Some?
    requires !(StartsWith(x.mime.value, "image/") && Ext(x.filename) in CommonRasterExts)
    ensures DecideFrom(MlRules, 1, x) == MlSelect(x.mime, x.fileSize, x.filename, x.profile)
  {
    var r := MlRules;
    var image := StartsWith(x.mime.value, "image/");
    assert Eval(r[1].when, x) == Some(image);
    if !image {
      assert Eval(r[2].when, x) == Some(StartsWith(x.mime.value, "text/"));
      assert DecideFrom(r, 3, x) == Some("brotli");
      assert DecideFrom(r, 2, x) == Some("brotli");
    } else {
      assert DecideFrom(r, 1, x) == Some("heic");
    }
  }

  lemma WebRows(x: Input)
    requires x.profile == "web"
    ensures Decide(MlRules, x) == MlSelect(x.mime, x.fileSize, x.filename, x.profile)
  {
    var r := MlRules;
    var imageCommon := And(MimePrefix("image/"), ExtIn(CommonRasterExts));
    assert r[0].when == And(ProfileIs("web"), imageCommon);
    if x.mime.None? {
      assert Eval(MimePrefix("image/"), x) == None;
      assert Eval(imageCommon, x) == None;
      assert Eval(r[0].when, x) == None;
    } else {
      var image := StartsWith(x.mime.value, "image/");
      var common := Ext(x.filename) in CommonRasterExts;
      assert Eval(imageCommon, x) == Some(image && common);
      assert Eval(r[0].when, x) == Some(image && common);
      if !(image && common) {
        WebRowsAfterFirst(x);
        assert DecideFrom(r, 0, x) == DecideFrom(r, 1, x);
      }
    }
  }

  /** The three special profile names are distinct. */
  lemma ProfileNamesDiffer()
    ensures "web" != "archive" && "web" != "network" && "archive" != "network"
  {
    assert "archive"[0] != "network"[0];
  }

  /** Outside the web profile rows 0 to 3 are passed over. */
  lemma WebRowsSkipped(x: Input)
    requires x.profile != "web"
    ensures DecideFrom(MlRules, 0, x) == DecideFrom(MlRules, 4, x)
  {
    var r := MlRules;
    assert r[0].when.left == ProfileIs("web") && r[1].when.left == ProfileIs("web");
    assert r[2].when.left == ProfileIs("web") && r[3].when == ProfileIs("web");
    SkipFalseRows(r, 0, 4, x);
  }

  /** Outside the archive profile rows 4 to 6 are passed over. */
  lemma ArchiveRowsSkipped(x: Input)
    requires x.profile != "archive"
    ensures DecideFrom(MlRules, 4, x) == DecideFrom(MlRules, 7, x)
  {
    var r := MlRules;
    assert r[4].when.left == ProfileIs("archive") && r[5].when.left == ProfileIs("archive");
    assert r[6].when == ProfileIs("archive");
    SkipFalseRows(r, 4, 7, x);
  }

  /** Outside the network profile rows 7 to 9 are passed over. */
  lemma NetworkRowsSkipped(x: Input)
    requires x.profile != "network"
    ensures DecideFrom(MlRules, 7, x) == DecideFrom(MlRules, 10, x)
  {
    var r := MlRules;
    assert r[7].when.left == ProfileIs("network") && r[8].when.left == ProfileIs("network");
    assert r[9].when == ProfileIs("network");
    SkipFalseRows(r, 7, 10, x);
  }

  /** Rows 4 to 6 of the ML table: under the archive profile an image gets
      `flif` and anything else `lzma`; a missing MIME type raises. */
  lemma ArchiveTail(x: Input)
    requires x.profile == "archive"
    ensures DecideFrom(MlRules, 4, x) ==
      if x.mime.None? then None else Some(if StartsWith(x.mime.value, "image/") then "flif" else "lzma")
  {
    var r := MlRules;
    assert r[4] == Rule(And(ProfileIs("archive"), MimePrefix("image/")), Method("flif"));
    if x.mime.Some? {
      assert Eval(r[4].when, x) == Some(StartsWith(x.mime.value, "image/"));
      assert r[5] == Rule(And(ProfileIs("archive"), MimePrefix("text/")), Method("lzma"));
      assert Eval(r[5].when, x) == Some(StartsWith(x.mime.value, "text/"));
      assert r[6] == Rule(ProfileIs("archive"), Method("lzma"));
      assert DecideFrom(r, 6, x) == Some("lzma");
      assert DecideFrom(r, 5, x) == Some("lzma");
    } else {
      assert Eval(r[4].when, x) == None;
    }
  }

  lemma ArchiveRows(x: Input)
    requires x.profile == "archive"
    ensures Decide(MlRules, x) == MlSelect(x.mime, x.fileSize, x.filename, x.profile)
  {
    ProfileNamesDiffer();
    WebRowsSkipped(x);
    ArchiveTail(x);
  }

  /** Rows 7 to 9 of the ML table: under the network profile an image gets
      `webp` and anything else `brotli`; a missing MIME type raises. */
  lemma NetworkTail(x: Input)
    requires x.profile == "network"
    ensures DecideFrom(MlRules, 7, x) ==
      if x.mime.None? then None else Some(if StartsWith(x.mime.value, "image/") then "webp" else "brotli")
  {
    var r := MlRules;
    assert r[7] == Rule(And(ProfileIs("network"), MimePrefix("image/")), Method("webp"));
    if x.mime.Some? {
      assert Eval(r[7].when, x) == Some(StartsWith(x.mime.value, "image/"));
      assert r[8] == Rule(And(ProfileIs("network"), MimePrefix("text/")), Method("brotli"));
      assert Eval(r[8].when, x) == Some(StartsWith(x.mime.value, "text/"));
      assert r[9] == Rule(ProfileIs("network"), Method("brotli"));
      assert DecideFrom(r, 9, x) == Some("brotli");
      assert DecideFrom(r, 8, x) == Some("brotli");
    } else {
      assert Eval(r[7].when, x) == None;
    }
  }

  lemma NetworkRows(x: Input)
    requires x.profile == "network"
    ensures Decide(MlRules, x) == MlSelect(x.mime, x.fileSize, x.filename, x.profile)
  {
    ProfileNamesDiffer();
    WebRowsSkipped(x);
    ArchiveRowsSkipped(x);
    NetworkTail(x);
  }

  /** Rows 13 and 14 of the ML table, for an image: an exotic extension is
      returned as the method, any other gives `webp`. */
  lemma ExoticImageRows(x: Input)
    requires x.mime.Some? && StartsWith(x.mime.value, "image/")
    ensures DecideFrom(MlRules, 13, x) ==
      Some(if Ext(x.filename) in ExoticRasterExts then Ext(x.filename) else "webp")
  {
    var r := MlRules;
    var ext := Ext(x.filename);
    assert r[13] == Rule(And(MimePrefix("image/"), ExtIn(ExoticRasterExts)), ExtItself);
    assert Eval(r[13].when, x) == Some(ext in ExoticRasterExts);
    if ext !in ExoticRasterExts {
      assert r[14] == Rule(MimePrefix("image/"), Method("webp"));
      assert Eval(r[14].when, x) == Some(true);
      assert DecideFrom(r, 14, x) == Some("webp");
    }
  }

  /** Rows 12 to 14 of the ML table, for an image: `webp` for a common
      extension, the extension itself for an exotic one, `webp` otherwise. */
  lemma ImageRows(x: Input)
    requires x.mime.Some? && StartsWith(x.mime.value, "image/")
    ensures DecideFrom(MlRules, 12, x) ==
      Some(if Ext(x.filename) in ExoticRasterExts then Ext(x.filename) else "webp")
  {
    var r := MlRules;
    var ext := Ext(x.filename);
    assert r[12] == Rule(And(MimePrefix("image/"), ExtIn(CommonRasterExts)), Method("webp"));
    assert Eval(r[12].when, x) == Some(ext in CommonRasterExts);
    if ext in CommonRasterExts {
      CommonIsNotExotic(ext);
    } else {
      ExoticImageRows(x);
    }
  }

  /** Rows 10 and 11 of the ML table, for a PDF by type or name: the
      document optimiser strictly above 2 MiB, `gzip` otherwise. */
  lemma PdfRows(x: Input)
    requires PdfLike(x.mime, x.filename)
    ensures DecideFrom(MlRules, 10, x) == Some(if x.fileSize > 2 * MiB then "pdf_optimize" else "gzip")
  {
    var r := MlRules;
    PdfGuardIsPdfLike(x);
    assert r[10] == Rule(And(PdfGuard, SizeOver(2 * MiB)), Method("pdf_optimize"));
    assert Eval(r[10].when, x) == Some(x.fileSize > 2 * MiB);
    if x.fileSize <= 2 * MiB {
      assert r[11] == Rule(PdfGuard, Method("gzip"));
      assert DecideFrom(r, 11, x) == Some("gzip");
    }
  }

  /** Rows 10 and 11 are passed over when the input is not a PDF. */
  lemma PdfRowsSkipped(x: Input)
    requires !PdfLike(x.mime, x.filename)
    ensures DecideFrom(MlRules, 10, x) == DecideFrom(MlRules, 12, x)
  {
    var r := MlRules;
    PdfGuardIsPdfLike(x);
    assert r[10].when.left == PdfGuard && r[11].when == PdfGuard;
    SkipFalseRows(r, 10, 12, x);
  }

  /** Rows 12 to 14 are passed over when the MIME type is not an image's. */
  lemma ImageRowsSkipped(x: Input)
    requires x.mime.Some? && !StartsWith(x.mime.value, "image/")
    ensures DecideFrom(MlRules, 12, x) == DecideFrom(MlRules, 15, x)
  {
    var r := MlRules;
    assert r[12].when.left == MimePrefix("image/") && r[13].when.left == MimePrefix("image/");
    assert r[14].when == MimePrefix("image/");
    SkipFalseRows(r, 12, 15, x);
  }

  /** Rows 15 to 18 of the ML table: text by type or name gets `brotli`
      strictly above 1 MiB and `gzip` otherwise; office names get `gzip`;
      anything else `brotli`. */
  lemma TextRows(x: Input)
    requires x.mime.Some?
    ensures DecideFrom(MlRules, 15, x) ==
      var text := StartsWith(x.mime.value, "text/") || EndsWithAny(Lower(x.filename), TextSuffixes);
      Some(if text then (if x.fileSize > MiB then "brotli" else "gzip")
           else if EndsWithAny(Lower(x.filename), OfficeSuffixes) then "gzip" else "brotli")
  {
    var r := MlRules;
    var text := StartsWith(x.mime.value, "text/") || EndsWithAny(Lower(x.filename), TextSuffixes);
    assert Eval(TextGuard, x) == Some(text);
    assert r[15] == Rule(And(TextGuard, SizeOver(MiB)), Method("brotli"));
    assert Eval(r[15].when, x) == Some(text && x.fileSize > MiB);
    if text {
      assert r[16] == Rule(TextGuard, Method("gzip"));
      assert DecideFrom(r, 16, x) == Some("gzip");
    } else {
      var office := EndsWithAny(Lower(x.filename), OfficeSuffixes);
      assert r[17] == Rule(NameEndsWith(OfficeSuffixes), Method("gzip"));
      assert Eval(r[17].when, x) == Some(office);
      assert r[18] == Rule(Always, Method("brotli"));
      assert DecideFrom(r, 18, x) == Some("brotli");
      assert DecideFrom(r, 17, x) == Some(if office then "gzip" else "brotli");
    }
  }

  lemma DefaultRows(x: Input)
    requires !SpecialProfile(x.profile)
    ensures Decide(MlRules, x) == MlSelect(x.mime, x.fileSize, x.filename, x.profile)
  {
    WebRowsSkipped(x);
    ArchiveRowsSkipped(x);
    NetworkRowsSkipped(x);
    if PdfLike(x.mime, x.filename) {
      PdfRows(x);
    } else {
      PdfRowsSkipped(x);
      if x.mime.None? {
        assert MlRules[12].when.left == MimePrefix("image/");
        assert Eval(MlRules[12].when, x) == None;
      } else if StartsWith(x.mime.value, "image/") {
        ImageRows(x);
      } else {
        ImageRowsSkipped(x);
        TextRows(x);
      }
    }
  }

  /** The ML table reproduces `ai_selector_ml` on every input, including
      where it raises. */
  lemma MlTableIsMlSelect(x: Input)
    ensures Decide(MlRules, x) == MlSelect(x.mime, x.fileSize, x.filename, x.profile)
  {
    if x.profile == "web" {
      WebRows(x);
    } else if x.profile == "archive" {
      ArchiveRows(x);
    } else if x.profile == "network" {
      NetworkRows(x);
    } else {
      DefaultRows(x);
    }
  }

  /** Rows 4 to 8 of the fallback table, reached under the default profile. */
  lemma FallbackDefaultRows(x: Input)
    requires !SpecialProfile(x.profile)
    ensures DecideFrom(FallbackRules, 4, x) == StubFallback(x.mime, x.filename, x.profile)
  {
    var r := FallbackRules;
    PdfGuardIsPdfLike(x);
    if !PdfLike(x.mime, x.filename) {
      if x.mime.None? {
        assert Eval(r[5].when, x) == None;
      } else if !StartsWith(x.mime.value, "image/") {
        assert Eval(r[5].when, x) == Some(false);
        var text := StartsWith(x.mime.value, "text/") || EndsWithAny(Lower(x.filename), TextSuffixes);
        assert Eval(TextGuard, x) == Some(text);
        if !text {
          var office := EndsWithAny(Lower(x.filename), OfficeSuffixes);
          assert Eval(r[7].when, x) == Some(office);
          assert DecideFrom(r, 8, x) == Some("brotli");
          assert DecideFrom(r, 7, x) == Some(if office then "gzip" else "brotli");
          SkipFalseRows(r, 4, 7, x);
        } else {
          assert DecideFrom(r, 6, x) == Some("brotli");
          SkipFalseRows(r, 4, 6, x);
        }
      }
    }
  }

  /** The fallback table reproduces the stub's inline rules on every input. */
  lemma FallbackTableIsStubFallback(x: Input)
    ensures Decide(FallbackRules, x) == StubFallback(x.mime, x.filename, x.profile)
  {
    var r := FallbackRules;
    if x.profile == "web" {
      if x.mime.None? {
        assert Eval(r[0].when, x) == None;
      } else {
        var image := StartsWith(x.mime.value, "image/");
        assert Eval(r[0].when, x) == Some(image);
        if !image {
          assert DecideFrom(r, 1, x) == Some("brotli");
        }
      }
    } else if x.profile == "archive" {
      SkipFalseRows(r, 0, 2, x);
    } else if x.profile == "network" {
      SkipFalseRows(r, 0, 3, x);
    } else {
      SkipFalseRows(r, 0, 4, x);
      FallbackDefaultRows(x);
    }
  }

  /** `ai_selector_stub` is the ML table when it answers and the fallback
      table otherwise: one interpreter, two tables. */
  lemma StubIsTwoTables(x: Input, mlAvailable: bool)
    ensures StubSelect(x.mime, x.fileSize, x.filename, x.profile, mlAvailable) ==
      if mlAvailable && Decide(MlRules, x).Some? then Decide(MlRules, x) else Decide(FallbackRules, x)
  {
    MlTableIsMlSelect(x);
    FallbackTableIsStubFallback(x);
  }
}
