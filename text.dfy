/** The string operations the backend relies on: ASCII `str.lower`,
    `startswith`/`endswith`, `split(sep)[-1]`, `os.path.splitext`,
    `os.path.basename` and `str.replace`. */
module Text {

  predicate StartsWith(s: string, prefix: string) {
    |prefix| <= |s| && s[..|prefix|] == prefix
  }

  predicate EndsWith(s: string, suffix: string) {
    |suffix| <= |s| && s[|s| - |suffix|..] == suffix
  }

  /** `s.endswith((a, b, ...))`: true when `s` ends with any of the suffixes. */
  predicate EndsWithAny(s: string, suffixes: seq<string>) {
    exists i :: 0 <= i < |suffixes| && EndsWith(s, suffixes[i])
  }

  lemma EndsWithAnyOne(s: string, t: string)
    ensures EndsWithAny(s, [t]) <==> EndsWith(s, t)
  {
    if EndsWith(s, t) {
      assert [t][0] == t;
    }
  }

  /** Two strings that differ `k` characters from the end do not end alike. */
  lemma DifferAtEnd(s: string, t: string, k: nat)
    requires 0 < k <= |t| && k <= |s| && s[|s| - k] != t[|t| - k]
    ensures !EndsWith(s, t)
  {
    if |t| <= |s| {
      assert s[|s| - |t|..][|t| - k] == s[|s| - k];
    }
  }

  function LowerChar(c: char): char {
    if 'A' <= c <= 'Z' then (c as int + 32) as char else c
  }

  /** `s.lower()`, restricted to ASCII letters. */
  function Lower(s: string): (r: string)
    ensures |r| == |s|
    ensures forall i :: 0 <= i < |s| ==> r[i] == LowerChar(s[i])
  {
    seq(|s|, i requires 0 <= i < |s| => LowerChar(s[i]))
  }

  lemma LowerAppend(a: string, b: string)
    ensures Lower(a + b) == Lower(a) + Lower(b)
  {
    assert forall i :: 0 <= i < |a + b| ==> Lower(a + b)[i] == (Lower(a) + Lower(b))[i];
  }

  /** A string without upper-case ASCII letters is its own lower case. */
  lemma LowerFixed(t: string)
    requires forall i :: 0 <= i < |t| ==> !('A' <= t[i] <= 'Z')
    ensures Lower(t) == t
  {
  }

  lemma LowerIdempotent(s: string)
    ensures Lower(Lower(s)) == Lower(s)
  {
  }

  /** `s.split(sep)[-1]`: the text after the last `sep`, or all of `s` when
      `sep` does not occur in it. */
  function LastSegment(s: string, sep: char): (r: string)
    ensures sep !in r
    ensures EndsWith(s, r)
    ensures |r| == |s| || s[|s| - |r| - 1] == sep
  {
    if s == [] then []
    else if s[|s| - 1] == sep then []
    else LastSegment(s[..|s| - 1], sep) + [s[|s| - 1]]
  }

  /** The last segment is unique: any suffix free of `sep` that is either the
      whole string or preceded by `sep` is it. */
  lemma {:induction false} LastSegmentUnique(s: string, sep: char, t: string)
    requires sep !in t && EndsWith(s, t)
    requires |t| == |s| || s[|s| - |t| - 1] == sep
    ensures LastSegment(s, sep) == t
  {
    if s != [] && s[|s| - 1] != sep {
      assert t != [];
      var s', t' := s[..|s| - 1], t[..|t| - 1];
      assert t' + [t[|t| - 1]] == t;
      assert s[|s| - |t|..] == t;
      assert s'[|s'| - |t'|..] == t';
      LastSegmentUnique(s', sep, t');
    }
  }

  /** `os.path.basename(p)` on POSIX paths. */
  function Basename(p: string): (r: string)
    ensures '/' !in r && EndsWith(p, r)
  {
    LastSegment(p, '/')
  }

  /** The base name of `dir + "/" + name` is `name` when `name` has no `/`. */
  lemma BasenameOfJoin(dir: string, name: string)
    requires '/' !in name
    ensures Basename(dir + "/" + name) == name
  {
    var p := dir + "/" + name;
    assert p[|p| - |name| - 1] == '/';
    assert p[|p| - |name|..] == name;
    LastSegmentUnique(p, '/', name);
  }

  /** A character absent from both parts is absent from their concatenation. */
  lemma NotInAppend(c: char, a: string, b: string)
    requires c !in a && c !in b
    ensures c !in a + b
  {
    forall i | 0 <= i < |a + b| ensures (a + b)[i] != c {
      if i < |a| { assert (a + b)[i] == a[i]; } else { assert (a + b)[i] == b[i - |a|]; }
    }
  }

  /** Appending to the last segment of a joined path appends to its base name. */
  lemma BasenameOfJoinSuffix(dir: string, stem: string, suffix: string)
    requires '/' !in stem && '/' !in suffix
    ensures Basename(dir + "/" + stem + suffix) == stem + suffix
  {
    assert dir + "/" + stem + suffix == dir + "/" + (stem + suffix);
    NotInAppend('/', stem, suffix);
    BasenameOfJoin(dir, stem + suffix);
  }

  predicate AllDots(s: string) {
    forall i :: 0 <= i < |s| ==> s[i] == '.'
  }

  /** The extension part of `os.path.splitext(p)` on POSIX paths: from the
      last dot of the final path component, provided something other than
      dots precedes that dot in the component; otherwise empty. */
  function SplitExt(p: string): (ext: string)
    ensures ext == [] || (ext[0] == '.' && EndsWith(p, ext) && '.' !in ext[1..] && '/' !in ext)
  {
    var base := Basename(p);
    var tail := LastSegment(base, '.');
    if |tail| < |base| && !AllDots(base[..|base| - |tail| - 1]) then
      DottedTail(p, base, tail);
      ['.'] + tail
    else []
  }

  /** The dot before the last dot-free segment of a base name, together with
      that segment, ends the whole path and holds no `/`. */
  lemma DottedTail(p: string, base: string, tail: string)
    requires '/' !in base && EndsWith(p, base)
    requires '.' !in tail && EndsWith(base, tail) && |tail| < |base| && base[|base| - |tail| - 1] == '.'
    ensures EndsWith(p, ['.'] + tail) && '/' !in ['.'] + tail
  {
    var k := |base| - |tail| - 1;
    assert base[k..] == [base[k]] + base[k + 1..];
    var ext := ['.'] + tail;
    assert base[k..] == ext;
    assert p[|p| - |ext|..] == base[k..];
    forall i | 0 <= i < |ext| ensures ext[i] != '/' {
      assert ext[i] == base[k + i];
    }
  }

  /** `s.replace(pat, rep)`: every non-overlapping occurrence of `pat`,
      scanning from the left, replaced by `rep`. */
  function ReplaceAll(s: string, pat: string, rep: string): string
    requires pat != []
    decreases |s|
  {
    if |s| < |pat| then s
    else if s[..|pat|] == pat then rep + ReplaceAll(s[|pat|..], pat, rep)
    else [s[0]] + ReplaceAll(s[1..], pat, rep)
  }

  /** Replacing with something at least as long never shortens the string. */
  lemma {:induction false} ReplaceAllGrows(s: string, pat: string, rep: string)
    requires pat != [] && |rep| >= |pat|
    ensures |ReplaceAll(s, pat, rep)| >= |s|
    decreases |s|
  {
    if |s| >= |pat| {
      if s[..|pat|] == pat {
        ReplaceAllGrows(s[|pat|..], pat, rep);
      } else {
        ReplaceAllGrows(s[1..], pat, rep);
      }
    }
  }

  lemma EndsWithAppend(a: string, b: string, t: string)
    requires EndsWith(b, t)
    ensures EndsWith(a + b, t)
  {
    assert (a + b)[|a + b| - |t|..] == b[|b| - |t|..];
  }

  /** A string ending in `.mp4` has its final `.mp4` rewritten: `.mp4` has no
      proper prefix that is also a suffix, so no earlier match can overlap it. */
  lemma {:induction false} ReplaceMp4AtEnd(s: string)
    requires EndsWith(s, ".mp4")
    ensures EndsWith(ReplaceAll(s, ".mp4", "_compressed.mp4"), "_compressed.mp4")
    decreases |s|
  {
    var pat, rep := ".mp4", "_compressed.mp4";
    var n := |s|;
    assert s[n - 4..] == pat;
    assert s[n - 4] == '.' && s[n - 3] == 'm' && s[n - 2] == 'p' && s[n - 1] == '4';
    if n == 4 {
      assert s == pat;
      assert ReplaceAll(s, pat, rep) == rep + ReplaceAll([], pat, rep);
    } else if s[..4] == pat {
      assert s[1] == 'm' && s[2] == 'p' && s[3] == '4';
      assert n >= 8;
      var rest := s[4..];
      assert rest[|rest| - 4..] == pat;
      ReplaceMp4AtEnd(rest);
      EndsWithAppend(rep, ReplaceAll(rest, pat, rep), rep);
    } else {
      var rest := s[1..];
      assert rest[|rest| - 4..] == pat;
      ReplaceMp4AtEnd(rest);
      EndsWithAppend([s[0]], ReplaceAll(rest, pat, rep), rep);
    }
  }

  predicate OccursAt(s: string, pat: string, i: nat) {
    i + |pat| <= |s| && s[i..i + |pat|] == pat
  }

  /** A string in which `pat` does not occur is left as it is. */
  lemma {:induction false} ReplaceAbsent(s: string, pat: string, rep: string)
    requires pat != []
    requires forall i: nat :: !OccursAt(s, pat, i)
    ensures ReplaceAll(s, pat, rep) == s
    decreases |s|
  {
    if |s| >= |pat| {
      assert !OccursAt(s, pat, 0);
      var rest := s[1..];
      forall i: nat ensures !OccursAt(rest, pat, i) {
        assert !OccursAt(s, pat, i + 1);
        if i + |pat| <= |rest| {
          assert rest[i..i + |pat|] == s[i + 1..i + 1 + |pat|];
        }
      }
      ReplaceAbsent(rest, pat, rep);
      assert [s[0]] + rest == s;
    }
  }

  /** A string ending with a lower-case suffix still ends with it after
      lower-casing. */
  lemma EndsWithLower(p: string, t: string)
    requires EndsWith(p, t) && Lower(t) == t
    ensures EndsWith(Lower(p), t)
  {
    var l := Lower(p);
    forall i | 0 <= i < |t| ensures l[|l| - |t|..][i] == t[i] {
      assert p[|p| - |t|..][i] == t[i];
      assert Lower(t)[i] == LowerChar(t[i]);
    }
  }

  /** `if not p.lower().endswith(suffix): p += suffix`. */
  function WithSuffix(p: string, suffix: string): string {
    if EndsWith(Lower(p), suffix) then p else p + suffix
  }

  /** For a lower-case suffix the result always ends with it (case-blind),
      keeps `p` as its prefix, and applying it again changes nothing. */
  lemma WithSuffixIdempotent(p: string, suffix: string)
    requires Lower(suffix) == suffix
    ensures EndsWith(Lower(WithSuffix(p, suffix)), suffix)
    ensures StartsWith(WithSuffix(p, suffix), p)
    ensures WithSuffix(WithSuffix(p, suffix), suffix) == WithSuffix(p, suffix)
  {
    if !EndsWith(Lower(p), suffix) {
      LowerAppend(p, suffix);
      var l := Lower(p + suffix);
      assert l == Lower(p) + suffix;
      assert l[|l| - |suffix|..] == suffix;
      assert (p + suffix)[..|p|] == p;
    }
  }
}
