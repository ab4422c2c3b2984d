/** The selectors of utils.py (`auto_select_compression`, `ai_selector_stub`
    with its inline fallback rules) and the byte histogram that
    `file_entropy` builds before its floating-point sum. */
module Utils {
  import opened Types
  import opened Text
  import opened AiSelector

  /** `auto_select_compression`: only the MIME family matters. A missing
      (None or empty) MIME type gets `brotli`. */
  function AutoSelect(mime: Option<string>): (r: string)
    ensures r in {"gzip", "webp", "brotli"}
    ensures r == "gzip" <==>
      mime.Some? && (StartsWith(mime.value, "text/") || mime.value == "application/pdf")
    ensures r == "webp" <==>
      mime.Some? && StartsWith(mime.value, "image/") && !StartsWith(mime.value, "text/")
    ensures mime == None || mime == Some("") ==> r == "brotli"
  {
    if mime.Some? && mime.value != "" && (StartsWith(mime.value, "text/") || mime.value == "application/pdf") then "gzip"
    else if mime.Some? && mime.value != "" && StartsWith(mime.value, "image/") then "webp"
    else "brotli"
  }

  /** The rules `ai_selector_stub` runs when the ML selector cannot be
      imported or raises. `None` again stands for `None.startswith` raising. */
  function StubFallback(mime: Option<string>, filename: string, profile: string): (r: Option<string>)
    ensures r.Some? ==> r.value in {"webp", "brotli", "lzma", "pdf_optimize", "gzip"}
    ensures r.None? <==>
      mime.None? && (profile == "web" || (!SpecialProfile(profile) && !PdfLike(mime, filename)))
  {
    if profile == "web" then
      if mime.None? then None
      else if StartsWith(mime.value, "image/") then Some("webp")
      else Some("brotli")
    else if profile == "archive" then Some("lzma")
    else if profile == "network" then Some("brotli")
    // default
    else if PdfLike(mime, filename) then Some("pdf_optimize")
    else if mime.None? then None
    else if StartsWith(mime.value, "image/") then Some("webp")
    else if StartsWith(mime.value, "text/") || EndsWithAny(Lower(filename), TextSuffixes) then Some("brotli")
    else if EndsWithAny(Lower(filename), OfficeSuffixes) then Some("gzip")
    else Some("brotli")
  }

  /** `ai_selector_stub`: the ML selector's answer whenever it can be imported
      and returns normally, otherwise the fallback rules. `mlAvailable` is
      whether `from backend.utils_ai_selector import ai_selector_ml` succeeds. */
  function StubSelect(mime: Option<string>, fileSize: int, filename: string, profile: string,
                      mlAvailable: bool): (r: Option<string>)
    ensures r.Some? ==> r.value in MlMethods
    ensures mlAvailable && MlSelect(mime, fileSize, filename, profile).Some? ==>
      r == MlSelect(mime, fileSize, filename, profile)
    ensures r.None? ==> mime.None? && !(SpecialProfile(profile) && profile != "web")
  {
    var ml := MlSelect(mime, fileSize, filename, profile);
    if mlAvailable && ml.Some? then ml
    else StubFallback(mime, filename, profile)
  }

  /** The fallback is not the ML table restated: on each of the inputs below
      the two disagree. A small PDF: */
  lemma FallbackDiffersOnSmallPdf()
    ensures MlSelect(Some("application/pdf"), MiB, "a.pdf", "default") == Some("gzip")
    ensures StubFallback(Some("application/pdf"), "a.pdf", "default") == Some("pdf_optimize")
  {
  }

  /** An image under the archive profile: */
  lemma FallbackDiffersOnArchiveImage()
    ensures MlSelect(Some("image/png"), 10, "a.png", "archive") == Some("flif")
    ensures StubFallback(Some("image/png"), "a.png", "archive") == Some("lzma")
  {
  }

  /** An exotic raster image under the web profile: */
  lemma FallbackDiffersOnWebTiff()
    ensures MlSelect(Some("image/tiff"), 10, "a.tiff", "web") == Some("heic")
    ensures StubFallback(Some("image/tiff"), "a.tiff", "web") == Some("webp")
  {
    ExtIsLastDotSegment("a.tiff", "tiff");
  }

  /** A small text file: */
  lemma FallbackDiffersOnSmallText()
    ensures MlSelect(Some("text/plain"), 10, "a.txt", "default") == Some("gzip")
    ensures StubFallback(Some("text/plain"), "a.txt", "default") == Some("brotli")
  {
    DifferAtEnd(Lower("a.txt"), ".pdf", 1);
    assert "text/plain"[0] != "image/"[0];
    assert StartsWith("text/plain", "text/");
  }

  /** A HEIC image under the default profile: */
  lemma FallbackDiffersOnHeic()
    ensures MlSelect(Some("image/heic"), 10, "a.heic", "default") == Some("heic")
    ensures StubFallback(Some("image/heic"), "a.heic", "default") == Some("webp")
  {
    ExtIsLastDotSegment("a.heic", "heic");
    DifferAtEnd(Lower("a.heic"), ".pdf", 1);
  }

  /** When the ML selector raises on a missing MIME type the stub may still
      answer: the archive profile falls back to `lzma`. */
  lemma FallbackRescuesMissingMime()
    ensures MlSelect(None, 10, "a.bin", "archive") == None
    ensures StubSelect(None, 10, "a.bin", "archive", true) == Some("lzma")
  {
  }

  // ----- the histogram of file_entropy -----

  newtype byte = x: int | 0 <= x < 256

  /** How many times `v` occurs in `data`. */
  function Count(data: seq<byte>, v: byte): (n: nat)
    ensures n <= |data|
  {
    if data == [] then 0
    else Count(data[..|data| - 1], v) + (if data[|data| - 1] == v then 1 else 0)
  }

  function Sum(s: seq<nat>): nat {
    if s == [] then 0 else Sum(s[..|s| - 1]) + s[|s| - 1]
  }

  /** Sum over the byte values below `k` of their counts. */
  function CountsBelow(data: seq<byte>, k: nat): nat
    requires k <= 256
  {
    if k == 0 then 0 else CountsBelow(data, k - 1) + Count(data, (k - 1) as byte)
  }

  lemma {:induction false} CountsBelowSnoc(data: seq<byte>, b: byte, k: nat)
    requires k <= 256
    ensures CountsBelow(data + [b], k) == CountsBelow(data, k) + (if (b as int) < k then 1 else 0)
  {
    if k > 0 {
      CountsBelowSnoc(data, b, k - 1);
      assert (data + [b])[..|data + [b]| - 1] == data;
    }
  }

  lemma {:induction false} CountsBelowEmpty(k: nat)
    requires k <= 256
    ensures CountsBelow([], k) == 0
  {
    if k > 0 { CountsBelowEmpty(k - 1); }
  }

  /** Every byte is counted exactly once: the 256 counts add up to the
      length of the data. */
  lemma {:induction false} CountsSumToLength(data: seq<byte>)
    ensures CountsBelow(data, 256) == |data|
  {
    if data == [] {
      CountsBelowEmpty(256);
    } else {
      var init := data[..|data| - 1];
      CountsSumToLength(init);
      assert init + [data[|data| - 1]] == data;
      CountsBelowSnoc(init, data[|data| - 1], 256);
    }
  }

  lemma {:induction false} SumIsCountsBelow(freq: seq<nat>, data: seq<byte>, k: nat)
    requires k <= |freq| == 256
    requires forall v :: 0 <= v < 256 ==> freq[v] == Count(data, v as byte)
    ensures Sum(freq[..k]) == CountsBelow(data, k)
  {
    if k > 0 {
      SumIsCountsBelow(freq, data, k - 1);
      assert freq[..k][..k - 1] == freq[..k - 1];
    }
  }

  /** The loop `for b in data: freq[b] += 1` over a zeroed 256-entry list:
      afterwards `freq[v]` is the number of occurrences of `v`, so the
      entries add up to the number of bytes read. */
  method ByteHistogram(data: seq<byte>) returns (freq: seq<nat>)
    ensures |freq| == 256
    ensures forall v :: 0 <= v < 256 ==> freq[v] == Count(data, v as byte)
    ensures Sum(freq) == |data|
  {
    var counts := new nat[256](_ => 0);
    for i := 0 to |data|
      invariant forall v :: 0 <= v < 256 ==> counts[v] == Count(data[..i], v as byte)
    {
      assert data[..i + 1][..i] == data[..i];
      counts[data[i]] := counts[data[i]] + 1;
    }
    assert data[..|data|] == data;
    freq := counts[..];
    SumIsCountsBelow(freq, data, 256);
    assert freq[..256] == freq;
    CountsSumToLength(data);
  }

  /** The integer part of `file_entropy(path, max_bytes)`: it reads at most
      `maxBytes` bytes of the file; on empty data it returns 0 (here `None`);
      otherwise the histogram of the bytes read, from which the source
      computes the Shannon entropy in floating point. */
  method EntropyHistogram(content: seq<byte>, maxBytes: nat) returns (hist: Option<seq<nat>>)
    ensures hist.None? <==> |content| == 0 || maxBytes == 0
    ensures hist.Some? ==>
      var n := if |content| < maxBytes then |content| else maxBytes;
      && |hist.value| == 256
      && (forall v :: 0 <= v < 256 ==> hist.value[v] == Count(content[..n], v as byte))
      && Sum(hist.value) == n
  {
    var n := if |content| < maxBytes then |content| else maxBytes;
    var data := content[..n];
    if |data| == 0 {
      return None;
    }
    var freq := ByteHistogram(data);
    hist := Some(freq);
  }
}
