/**
  Copycat, the social-media ingestor: the filename sanitiser, the uploader
  fallback, the names of the video and metadata files, the metadata
  lookups and the blockquote rendering of the description.
*/
module Copycat {
  import opened Text

  const DefaultMaxLen := 50
  const UnknownUploader := "unknown_user"

  predicate IsAsciiAlnum(c: char) {
    ('a' <= c <= 'z') || ('A' <= c <= 'Z') || ('0' <= c <= '9')
  }

  predicate IsUnderscore(c: char) {
    c == '_'
  }

  // ---------------------------------------------------------------------
  // sanitize_filename

  /** `re.sub(r'[^a-zA-Z0-9]', '_', s)`. */
  function Underscored(s: string): string {
    seq(|s|, i requires 0 <= i < |s| => if IsAsciiAlnum(s[i]) then s[i] else '_')
  }

  /** `re.sub(r'_+', '_', s)`: every run of underscores becomes one. */
  function Collapse(s: string): string
    decreases |s|
  {
    if s == [] then []
    else if s[0] == '_' then "_" + Collapse(TrimStart(s[1..], IsUnderscore))
    else [s[0]] + Collapse(s[1..])
  }

  /** The sanitised name before truncation: substitute, collapse, `strip('_')`. */
  function Cleaned(s: string): string {
    Trim(Collapse(Underscored(s)), IsUnderscore)
  }

  /** `s[:n]` with Python's reading of a negative bound (counted from the end). */
  function PyPrefix(s: string, n: int): (r: string)
    ensures |r| <= |s| && r == s[..|r|]
    ensures n >= 0 ==> |r| == if n < |s| then n else |s|
    ensures n < 0 ==> |r| == if -n < |s| then |s| + n else 0
  {
    if n >= 0 then (if n < |s| then s[..n] else s)
    else if -n < |s| then s[..|s| + n] else []
  }

  /** The longest prefix of ASCII letters and digits. */
  function Run(s: string): (w: string)
    ensures |w| <= |s| && w == s[..|w|]
    ensures forall i | 0 <= i < |w| :: IsAsciiAlnum(w[i])
    ensures |w| < |s| ==> !IsAsciiAlnum(s[|w|])
    decreases |s|
  {
    if s == [] || !IsAsciiAlnum(s[0]) then [] else [s[0]] + Run(s[1..])
  }

  /** The maximal runs of ASCII letters and digits, in order. */
  function Runs(s: string): (ws: seq<string>)
    ensures forall k | 0 <= k < |ws| :: |ws[k]| > 0
    ensures forall k, i | 0 <= k < |ws| && 0 <= i < |ws[k]| :: IsAsciiAlnum(ws[k][i])
    decreases |s|
  {
    if s == [] then []
    else if !IsAsciiAlnum(s[0]) then Runs(s[1..])
    else
      var w := Run(s);
      [w] + Runs(s[|w|..])
  }

  /** No character outside [A-Za-z0-9_], and no underscore next to another. */
  predicate SafeName(r: string) {
    && (forall i | 0 <= i < |r| :: IsAsciiAlnum(r[i]) || r[i] == '_')
    && (forall i | 0 <= i < |r| - 1 :: !(r[i] == '_' && r[i + 1] == '_'))
  }

  /** SafeName, and both ends are letters or digits. */
  predicate Joined(r: string) {
    SafeName(r) && (r == [] || (IsAsciiAlnum(r[0]) && IsAsciiAlnum(r[|r| - 1])))
  }

  lemma JoinedConcat(a: string, b: string)
    requires Joined(a) && Joined(b) && a != [] && b != []
    ensures Joined(a + "_" + b)
  {
    var r := a + "_" + b;
    forall i | 0 <= i < |r| - 1 ensures !(r[i] == '_' && r[i + 1] == '_') {
      if i < |a| - 1 {
        assert r[i] == a[i] && r[i + 1] == a[i + 1];
      } else if i == |a| - 1 {
        assert r[i] == a[|a| - 1];
      } else if i == |a| {
        assert r[i + 1] == b[0];
      } else {
        assert r[i] == b[i - |a| - 1] && r[i + 1] == b[i - |a|];
      }
    }
  }

  lemma {:induction false} JoinedRuns(ws: seq<string>)
    requires forall k | 0 <= k < |ws| :: Joined(ws[k]) && |ws[k]| > 0
    ensures Joined(JoinWith(ws, "_"))
    ensures ws != [] ==> JoinWith(ws, "_") != []
    decreases |ws|
  {
    if |ws| > 1 {
      JoinedRuns(ws[1..]);
      JoinedConcat(ws[0], JoinWith(ws[1..], "_"));
    }
  }

  lemma RunsAreJoined(s: string)
    ensures forall k | 0 <= k < |Runs(s)| :: Joined(Runs(s)[k])
  {
  }

  lemma {:induction false} UnderscoredSuffix(s: string, k: nat)
    requires k <= |s|
    ensures Underscored(s)[k..] == Underscored(s[k..])
  {
  }

  lemma {:induction false} RunOfUnderscored(s: string)
    ensures Run(Underscored(s)) == Run(s)
    decreases |s|
  {
    if s != [] && IsAsciiAlnum(s[0]) {
      UnderscoredSuffix(s, 1);
      RunOfUnderscored(s[1..]);
    }
  }

  /** Substituting `_` for the other characters leaves the alphanumeric runs as they were. */
  lemma {:induction false} RunsOfUnderscored(s: string)
    ensures Runs(Underscored(s)) == Runs(s)
    decreases |s|
  {
    if s != [] {
      if !IsAsciiAlnum(s[0]) {
        UnderscoredSuffix(s, 1);
        RunsOfUnderscored(s[1..]);
      } else {
        var w := Run(s);
        RunOfUnderscored(s);
        UnderscoredSuffix(s, |w|);
        RunsOfUnderscored(s[|w|..]);
      }
    }
  }

  lemma {:induction false} RunsSkipUnderscores(s: string)
    ensures Runs(TrimStart(s, IsUnderscore)) == Runs(s)
    decreases |s|
  {
    if s != [] && s[0] == '_' {
      RunsSkipUnderscores(s[1..]);
    }
  }

  lemma {:induction false} TrimStartDropsPrefix(a: string, b: string, drop: char -> bool)
    requires forall i | 0 <= i < |a| :: drop(a[i])
    ensures TrimStart(a + b, drop) == TrimStart(b, drop)
    decreases |a|
  {
    if a != [] {
      assert (a + b)[0] == a[0] && (a + b)[1..] == a[1..] + b;
      TrimStartDropsPrefix(a[1..], b, drop);
    } else {
      assert a + b == b;
    }
  }

  lemma {:induction false} TrimEndKeepsPrefix(a: string, b: string, drop: char -> bool)
    requires TrimEnd(b, drop) != []
    ensures TrimEnd(a + b, drop) == a + TrimEnd(b, drop)
    decreases |b|
  {
    var n := |b| - 1;
    if drop(b[n]) {
      assert (a + b)[..|a + b| - 1] == a + b[..n];
      TrimEndKeepsPrefix(a, b[..n], drop);
    }
  }

  lemma {:induction false} CollapseKeepsPrefix(w: string, r: string)
    requires forall i | 0 <= i < |w| :: w[i] != '_'
    ensures Collapse(w + r) == w + Collapse(r)
    decreases |w|
  {
    if w != [] {
      assert (w + r)[0] == w[0] && (w + r)[1..] == w[1..] + r;
      CollapseKeepsPrefix(w[1..], r);
      assert w == [w[0]] + w[1..];
    } else {
      assert w + r == r;
    }
  }

  predicate WordChars(u: string) {
    forall i | 0 <= i < |u| :: IsAsciiAlnum(u[i]) || u[i] == '_'
  }

  lemma WordCharsDrop(s: string, k: nat)
    requires WordChars(s) && k <= |s|
    ensures WordChars(s[k..])
  {
    forall i | 0 <= i < |s| - k ensures IsAsciiAlnum(s[k..][i]) || s[k..][i] == '_' {
      assert s[k..][i] == s[i + k];
    }
  }

  lemma {:induction false} WordCharsTrimStart(s: string)
    requires WordChars(s)
    ensures WordChars(TrimStart(s, IsUnderscore))
    decreases |s|
  {
    if s != [] && s[0] == '_' {
      WordCharsDrop(s, 1);
      WordCharsTrimStart(s[1..]);
    }
  }

  /** Over letters, digits and underscores, collapse-and-strip joins the runs with single underscores. */
  lemma {:induction false} CollapsedRuns(u: string)
    requires WordChars(u)
    ensures Trim(Collapse(u), IsUnderscore) == JoinWith(Runs(u), "_")
    decreases |u|, 3
  {
    if u == [] {
    } else if u[0] == '_' {
      CollapsedRunsLeadingUnderscore(u);
    } else {
      CollapsedRunsLeadingWord(u);
    }
  }

  /** Leading underscores: stripping ignores the single one Collapse leaves. */
  lemma {:induction false} CollapsedRunsLeadingUnderscore(u: string)
    requires WordChars(u) && u != [] && u[0] == '_'
    ensures Trim(Collapse(u), IsUnderscore) == JoinWith(Runs(u), "_")
    decreases |u|, 1
  {
    var d := TrimStart(u[1..], IsUnderscore);
    TrimCollapseLeadingUnderscore(u);
    RunsLeadingUnderscore(u);
    WordCharsDrop(u, 1);
    WordCharsTrimStart(u[1..]);
    CollapsedRuns(d);
  }

  lemma RunsLeadingUnderscore(u: string)
    requires u != [] && u[0] == '_'
    ensures Runs(u) == Runs(TrimStart(u[1..], IsUnderscore))
  {
    assert Runs(u) == Runs(u[1..]);
    RunsSkipUnderscores(u[1..]);
  }

  /** The single underscore Collapse keeps in front is stripped again. */
  lemma TrimCollapseLeadingUnderscore(u: string)
    requires u != [] && u[0] == '_'
    ensures Trim(Collapse(u), IsUnderscore) == Trim(Collapse(TrimStart(u[1..], IsUnderscore)), IsUnderscore)
  {
    var c := Collapse(TrimStart(u[1..], IsUnderscore));
    assert Collapse(u) == "_" + c;
    TrimStartDropsPrefix("_", c, IsUnderscore);
  }

  lemma {:induction false} TrimOfWord(w: string)
    requires w != [] && forall i | 0 <= i < |w| :: IsAsciiAlnum(w[i])
    ensures TrimStart(w, IsUnderscore) == w && TrimEnd(w, IsUnderscore) == w
  {
    assert !IsUnderscore(w[0]) && !IsUnderscore(w[|w| - 1]);
  }

  /** A leading word: it is kept, followed by one underscore when more words come. */
  lemma {:induction false} CollapsedRunsLeadingWord(u: string)
    requires WordChars(u) && u != [] && u[0] != '_'
    ensures Trim(Collapse(u), IsUnderscore) == JoinWith(Runs(u), "_")
    decreases |u|, 2
  {
    var w := Run(u);
    var r := u[|w|..];
    assert u == w + r;
    assert Runs(u) == [w] + Runs(r);
    CollapseKeepsPrefix(w, r);
    if r == [] {
      assert Collapse(u) == w;
      TrimOfWord(w);
      assert Runs(u) == [w];
    } else {
      WordCharsDrop(u, |w|);
      CollapsedRunsWordThenMore(w, r);
    }
  }

  lemma {:induction false} CollapsedRunsWordThenMore(w: string, r: string)
    requires w != [] && forall i | 0 <= i < |w| :: IsAsciiAlnum(w[i])
    requires WordChars(r) && r != [] && r[0] == '_'
    ensures Trim(w + Collapse(r), IsUnderscore) == JoinWith([w] + Runs(r), "_")
    decreases |w| + |r|, 1
  {
    var d := TrimStart(r[1..], IsUnderscore);
    assert Collapse(r) == "_" + Collapse(d);
    assert Runs(r) == Runs(r[1..]);
    RunsSkipUnderscores(r[1..]);
    assert w + Collapse(r) == (w + "_") + Collapse(d);
    if d == [] {
      assert Runs(d) == [];
      assert (w + "_") + Collapse(d) == w + "_";
      WordThenUnderscore(w);
    } else {
      WordCharsDrop(r, 1);
      WordCharsTrimStart(r[1..]);
      CollapsedRunsWordThenWords(w, d);
    }
  }

  lemma {:induction false} TrimStartAtWord(w: string, x: string)
    requires w != [] && IsAsciiAlnum(w[0])
    ensures TrimStart(w + x, IsUnderscore) == w + x
  {
    assert (w + x)[0] == w[0];
  }

  lemma {:induction false} TrimEndDropsUnderscore(w: string)
    ensures TrimEnd(w + "_", IsUnderscore) == TrimEnd(w, IsUnderscore)
  {
    var v := w + "_";
    assert v[..|v| - 1] == w;
  }

  lemma {:induction false} WordThenUnderscore(w: string)
    requires w != [] && forall i | 0 <= i < |w| :: IsAsciiAlnum(w[i])
    ensures Trim(w + "_", IsUnderscore) == JoinWith([w], "_")
  {
    TrimStartAtWord(w, "_");
    TrimEndDropsUnderscore(w);
    TrimOfWord(w);
  }

  /** A collapsed text that starts with a letter or digit loses only trailing underscores to `strip('_')`. */
  lemma {:induction false} CollapsedWordsTrimEnd(d: string)
    requires WordChars(d) && d != [] && d[0] != '_'
    ensures TrimEnd(Collapse(d), IsUnderscore) == JoinWith(Runs(d), "_")
    ensures JoinWith(Runs(d), "_") != []
    decreases |d|, 4
  {
    var c := Collapse(d);
    assert c == [d[0]] + Collapse(d[1..]);
    CollapsedRuns(d);
    TrimStartAtWord(c, []);
    assert c + [] == c;
    RunsAreJoined(d);
    JoinedRuns(Runs(d));
  }

  lemma {:induction false} CollapsedRunsWordThenWords(w: string, d: string)
    requires w != [] && forall i | 0 <= i < |w| :: IsAsciiAlnum(w[i])
    requires WordChars(d) && d != [] && d[0] != '_'
    ensures Trim((w + "_") + Collapse(d), IsUnderscore) == JoinWith([w] + Runs(d), "_")
    decreases |w| + |d|, 0
  {
    var v := w + "_";
    var c := Collapse(d);
    CollapsedWordsTrimEnd(d);
    TrimStartAtWord(w, "_" + c);
    assert v + c == w + ("_" + c);
    TrimEndKeepsPrefix(v, c, IsUnderscore);
    assert ([w] + Runs(d))[1..] == Runs(d);
  }

  /** Before truncation the sanitised name is the input's alphanumeric runs joined by `_`. */
  lemma CleanedIsJoinedRuns(s: string)
    ensures Cleaned(s) == JoinWith(Runs(s), "_")
  {
    RunsOfUnderscored(s);
    CollapsedRuns(Underscored(s));
  }

  /** `sanitize_filename(name, max_len)`. */
  function Sanitize(name: string, maxLen: int): (r: string)
    ensures r == PyPrefix(JoinWith(Runs(name), "_"), maxLen)
    ensures SafeName(r)
    ensures r == [] || r[0] != '_'
    ensures maxLen >= 0 ==> |r| <= maxLen
    ensures |r| <= |Cleaned(name)| && r == Cleaned(name)[..|r|]
  {
    CleanedIsJoinedRuns(name);
    RunsAreJoined(name);
    JoinedRuns(Runs(name));
    PyPrefix(Cleaned(name), maxLen)
  }

  /** A name with no letter or digit sanitises to the empty string. */
  lemma {:induction false} NoRunsWithoutAlnum(s: string)
    requires forall i | 0 <= i < |s| :: !IsAsciiAlnum(s[i])
    ensures Runs(s) == []
    decreases |s|
  {
    if s != [] {
      NoRunsWithoutAlnum(s[1..]);
    }
  }

  lemma {:induction false} RunOfWord(w: string, x: string)
    requires forall i | 0 <= i < |w| :: IsAsciiAlnum(w[i])
    requires x == [] || !IsAsciiAlnum(x[0])
    ensures Run(w + x) == w
    decreases |w|
  {
    if w == [] {
      assert w + x == x;
    } else {
      assert (w + x)[1..] == w[1..] + x;
      RunOfWord(w[1..], x);
    }
  }

  lemma RunsOfWord(w: string, x: string)
    requires w != [] && forall i | 0 <= i < |w| :: IsAsciiAlnum(w[i])
    requires x == [] || !IsAsciiAlnum(x[0])
    ensures Runs(w + x) == [w] + Runs(x)
  {
    RunOfWord(w, x);
    assert (w + x)[|w|..] == x;
  }

  lemma RunsOfSample()
    ensures Runs("abc_def") == ["abc", "def"]
  {
    assert "abc_def" == "abc" + "_def";
    RunsOfWord("abc", "_def");
    assert "_def"[1..] == "def";
    RunsOfWord("def", []);
    assert "def" + [] == "def";
  }

  lemma SanitizeSample()
    ensures Sanitize("abc_def", 4) == "abc_"
  {
    RunsOfSample();
    var j := JoinWith(["abc", "def"], "_");
    assert j == "abc_def";
    assert j[..4] == "abc_";
  }

  lemma SanitizeTruncated()
    ensures Sanitize("abc_", 4) == "abc"
  {
    assert "abc_" == "abc" + "_";
    RunsOfWord("abc", "_");
    assert "_"[1..] == [];
  }

  /** Truncation can cut just after an underscore, so sanitising twice differs from sanitising once. */
  lemma SanitizeIsNotIdempotent()
    ensures Sanitize("abc_def", 4) == "abc_"
    ensures Sanitize(Sanitize("abc_def", 4), 4) == "abc"
  {
    SanitizeSample();
    SanitizeTruncated();
  }

  // ---------------------------------------------------------------------
  // Uploader, output names

  /**
    The uploader: the first line of yt-dlp's stripped output when it
    succeeded and printed something, else "unknown_user".
  */
  function Uploader(returnCode: int, stdout: string): (r: string)
    ensures r != [] && forall i | 0 <= i < |r| :: r[i] != '\n'
    ensures returnCode != 0 || Strip(stdout) == [] ==> r == UnknownUploader
    ensures returnCode == 0 && Strip(stdout) != [] ==>
      StartsWith(Strip(stdout), r) && (|r| < |Strip(stdout)| ==> Strip(stdout)[|r|] == '\n')
  {
    var out := Strip(stdout);
    if returnCode == 0 && out != [] then
      StripStartsSolid(stdout);
      FirstLineOfSolid(out);
      FirstLine(out)
    else UnknownUploader
  }

  /** A text that does not open with a newline has a non-empty first line. */
  lemma FirstLineOfSolid(s: string)
    requires s != [] && s[0] != '\n'
    ensures FirstLine(s) != []
  {
    assert FirstLine(s) == [s[0]] + FirstLine(s[1..]);
  }

  /** A stripped text that is not empty starts with a non-space, so its first line is not empty. */
  lemma {:induction false} StripStartsSolid(s: string)
    ensures Strip(s) == [] || (!IsSpace(Strip(s)[0]) && Strip(s)[0] != '\n')
  {
    var t := TrimStart(s, IsSpace);
    assert Strip(s) == TrimEnd(t, IsSpace);
    if Strip(s) != [] {
      assert Strip(s)[0] == t[0];
    }
  }

  /** The timestamp `strftime("%m%d%Y-%H%M%S")` yields: digits and a dash. */
  predicate IsStamp(stamp: string) {
    forall i | 0 <= i < |stamp| :: ('0' <= stamp[i] <= '9') || stamp[i] == '-'
  }

  /** Characters a generated file name can hold. */
  predicate IsNameChar(c: char) {
    IsAsciiAlnum(c) || c == '_' || c == '-' || c == '.'
  }

  /** `f"{timestamp}_{clean_uploader}"`, shared by both output files. */
  function Stem(stamp: string, uploader: string): (r: string)
    ensures StartsWith(r, stamp + "_") && |r| <= |stamp| + 1 + DefaultMaxLen
  {
    var head := stamp + "_";
    var clean := Sanitize(uploader, DefaultMaxLen);
    assert (head + clean)[..|head|] == head;
    head + clean
  }

  /** Appending a suffix keeps the stem's prefix and ends with the suffix. */
  lemma Suffixed(stem: string, prefix: string, suffix: string)
    requires StartsWith(stem, prefix)
    ensures StartsWith(stem + suffix, prefix) && EndsWith(stem + suffix, suffix)
  {
    assert (stem + suffix)[..|prefix|] == stem[..|prefix|];
    assert (stem + suffix)[|stem|..] == suffix;
  }

  /** Every character of `s` can appear in a file name. */
  predicate NameSafe(s: string) {
    forall i | 0 <= i < |s| :: IsNameChar(s[i])
  }

  lemma NameSafeConcat(a: string, b: string)
    requires NameSafe(a) && NameSafe(b)
    ensures NameSafe(a + b)
  {
    forall i | 0 <= i < |a + b| ensures IsNameChar((a + b)[i]) {
      if i < |a| {
        assert (a + b)[i] == a[i];
      } else {
        assert (a + b)[i] == b[i - |a|];
      }
    }
  }

  /** With a well-formed timestamp, the stem and a name-safe suffix give a name-safe file name. */
  lemma NameCharsOf(stamp: string, uploader: string, suffix: string)
    requires NameSafe(suffix)
    ensures IsStamp(stamp) ==> NameSafe(Stem(stamp, uploader) + suffix)
  {
    if IsStamp(stamp) {
      var clean := Sanitize(uploader, DefaultMaxLen);
      assert NameSafe(clean) by {
        forall i | 0 <= i < |clean| ensures IsNameChar(clean[i]) {
          assert SafeName(clean);
        }
      }
      assert NameSafe(stamp);
      assert NameSafe("_");
      NameSafeConcat(stamp, "_");
      NameSafeConcat(stamp + "_", clean);
      NameSafeConcat(stamp + "_" + clean, suffix);
    }
  }

  /** What a file name made of the stem and a suffix looks like. */
  lemma StemWithSuffix(stamp: string, uploader: string, suffix: string)
    requires NameSafe(suffix)
    ensures StartsWith(Stem(stamp, uploader) + suffix, stamp + "_") && EndsWith(Stem(stamp, uploader) + suffix, suffix)
    ensures |Stem(stamp, uploader) + suffix| <= |stamp| + 1 + DefaultMaxLen + |suffix|
    ensures IsStamp(stamp) ==> NameSafe(Stem(stamp, uploader) + suffix)
  {
    NameCharsOf(stamp, uploader, suffix);
    Suffixed(Stem(stamp, uploader), stamp + "_", suffix);
  }

  function VideoName(stamp: string, uploader: string): (r: string)
    ensures StartsWith(r, stamp + "_") && EndsWith(r, ".mp4")
    ensures |r| <= |stamp| + 1 + DefaultMaxLen + 4
    ensures IsStamp(stamp) ==> NameSafe(r)
  {
    assert NameSafe(".mp4");
    StemWithSuffix(stamp, uploader, ".mp4");
    Stem(stamp, uploader) + ".mp4"
  }

  function MetaName(stamp: string, uploader: string): (r: string)
    ensures StartsWith(r, stamp + "_") && EndsWith(r, "_meta.md")
    ensures |r| <= |stamp| + 1 + DefaultMaxLen + 8
    ensures IsStamp(stamp) ==> NameSafe(r)
  {
    assert NameSafe("_meta.md");
    StemWithSuffix(stamp, uploader, "_meta.md");
    Stem(stamp, uploader) + "_meta.md"
  }

  /** The two files of one ingest share their stem and never collide. */
  lemma NamesShareStem(stamp: string, uploader: string)
    ensures VideoName(stamp, uploader)[..|Stem(stamp, uploader)|] == Stem(stamp, uploader)
    ensures MetaName(stamp, uploader)[..|Stem(stamp, uploader)|] == Stem(stamp, uploader)
    ensures VideoName(stamp, uploader) != MetaName(stamp, uploader)
  {
    var n := |Stem(stamp, uploader)|;
    assert VideoName(stamp, uploader)[n] == '.' != MetaName(stamp, uploader)[n];
  }

  // ---------------------------------------------------------------------
  // Metadata lookups

  const MetaFields := ["title", "uploader", "upload_date", "duration_string", "description"]

  /** One yt-dlp query: its return code and its standard output. */
  datatype Lookup = Lookup(returnCode: int, stdout: string)

  /** The stored value: stripped output on success, else '' for the description and 'N/A' for the rest. */
  function FieldValue(field: string, lookup: Lookup): (r: string)
    ensures lookup.returnCode == 0 ==> r == Strip(lookup.stdout)
    ensures lookup.returnCode != 0 && field == "description" ==> r == ""
    ensures lookup.returnCode != 0 && field != "description" ==> r == "N/A"
  {
    if lookup.returnCode == 0 then Strip(lookup.stdout)
    else if field == "description" then ""
    else "N/A"
  }

  lemma MetaFieldsDistinct()
    ensures forall i, j | 0 <= i < j < |MetaFields| :: MetaFields[i] != MetaFields[j]
  {
    assert |MetaFields[0]| == 5 && |MetaFields[1]| == 8 && |MetaFields[2]| == 11;
    assert |MetaFields[3]| == 15 && |MetaFields[4]| == 11;
    assert MetaFields[2][0] != MetaFields[4][0];
  }

  /** A map after storing `values[j]` under `keys[j]` for each `j < i`, in order. */
  function StoredPairs<K, V>(keys: seq<K>, values: seq<V>, i: nat): map<K, V>
    requires i <= |keys| == |values|
  {
    if i == 0 then map[]
    else StoredPairs(keys, values, i - 1)[keys[i - 1] := values[i - 1]]
  }

  /** With distinct keys, exactly the first `i` are in the map, each holding its own value. */
  lemma {:induction false} StoredPairsHold<K, V>(keys: seq<K>, values: seq<V>, i: nat)
    requires i <= |keys| == |values|
    requires forall j, k | 0 <= j < k < |keys| :: keys[j] != keys[k]
    ensures forall f :: f in StoredPairs(keys, values, i) <==> f in keys[..i]
    ensures forall j | 0 <= j < i :: StoredPairs(keys, values, i)[keys[j]] == values[j]
  {
    if i > 0 {
      var before := StoredPairs(keys, values, i - 1);
      StoredPairsHold(keys, values, i - 1);
      assert keys[..i] == keys[..i - 1] + [keys[i - 1]];
      forall j | 0 <= j < i - 1 ensures StoredPairs(keys, values, i)[keys[j]] == before[keys[j]] {
        assert keys[j] != keys[i - 1];
      }
    }
  }

  /** The loop filling `info`, one lookup per field of MetaFields, in order. */
  method CollectMetadata(lookups: seq<Lookup>) returns (info: map<string, string>)
    requires |lookups| == |MetaFields|
    ensures forall f :: f in info <==> f in MetaFields
    ensures forall i | 0 <= i < |MetaFields| :: info[MetaFields[i]] == FieldValue(MetaFields[i], lookups[i])
  {
    ghost var values := seq(|MetaFields|, j requires 0 <= j < |MetaFields| => FieldValue(MetaFields[j], lookups[j]));
    info := map[];
    for i := 0 to |MetaFields|
      invariant info == StoredPairs(MetaFields, values, i)
    {
      info := info[MetaFields[i] := FieldValue(MetaFields[i], lookups[i])];
    }
    MetaFieldsDistinct();
    StoredPairsHold(MetaFields, values, |MetaFields|);
    assert MetaFields[..|MetaFields|] == MetaFields;
  }

  // ---------------------------------------------------------------------
  // Description blockquote

  /** The line boundaries of Python's `str.splitlines`. */
  predicate IsLineBreak(c: char) {
    c == '\n' || c == '\r' || c == '\U{0B}' || c == '\U{0C}' || c == '\U{1C}' || c == '\U{1D}' || c == '\U{1E}'
    || c == '\U{85}' || c == '\U{2028}' || c == '\U{2029}'
  }

  predicate NoBreaks(s: string) {
    forall i | 0 <= i < |s| :: !IsLineBreak(s[i])
  }

  /** The index of the first line boundary, or |s|. */
  function LineEnd(s: string): (k: nat)
    ensures k <= |s| && NoBreaks(s[..k])
    ensures k < |s| ==> IsLineBreak(s[k])
    decreases |s|
  {
    if s == [] || IsLineBreak(s[0]) then 0 else 1 + LineEnd(s[1..])
  }

  /** How many characters the boundary at the start of `t` spans: 2 for "\r\n", else 1. */
  function BreakWidth(t: string): (w: nat)
    requires t != []
    ensures 1 <= w <= |t|
    ensures w == 2 <==> t[0] == '\r' && |t| > 1 && t[1] == '\n'
  {
    if t[0] == '\r' && |t| > 1 && t[1] == '\n' then 2 else 1
  }

  /** `s.splitlines()`: "\r\n" counts as one boundary, and a final boundary opens no empty line. */
  function SplitLines(s: string): (lines: seq<string>)
    ensures forall i | 0 <= i < |lines| :: NoBreaks(lines[i])
    ensures s == [] <==> lines == []
    decreases |s|
  {
    if s == [] then []
    else
      var k := LineEnd(s);
      if k == |s| then [s]
      else [s[..k]] + SplitLines(s[k + BreakWidth(s[k..])..])
  }

  /** The text with every line boundary ("\r\n" counting as one) written as "\n". */
  function NormalizeBreaks(s: string): (r: string)
    ensures |r| <= |s|
    ensures s != [] ==> r != []
    decreases |s|
  {
    if s == [] then []
    else if IsLineBreak(s[0]) then "\n" + NormalizeBreaks(s[BreakWidth(s)..])
    else [s[0]] + NormalizeBreaks(s[1..])
  }

  /** The text without one final "\n". */
  function DropFinalNewline(s: string): string {
    if s != [] && s[|s| - 1] == '\n' then s[..|s| - 1] else s
  }

  /** Boundary-free text is its own normal form, whatever follows it. */
  lemma {:induction false} NormalizeBreakFree(line: string, rest: string)
    requires NoBreaks(line)
    ensures NormalizeBreaks(line + rest) == line + NormalizeBreaks(rest)
    decreases |line|
  {
    if line != [] {
      var t := line + rest;
      assert t[0] == line[0] && !IsLineBreak(t[0]);
      assert t[1..] == line[1..] + rest;
      assert NormalizeBreaks(t) == [line[0]] + NormalizeBreaks(line[1..] + rest);
      NormalizeBreakFree(line[1..], rest);
      assert line == [line[0]] + line[1..];
    } else {
      assert line + rest == rest;
    }
  }

  /** Dropping a final "\n" after a first line: only the rest can lose it. */
  lemma DropAfterLine(line: string, n: string)
    ensures DropFinalNewline(line + "\n" + n) == if n == [] then line else line + "\n" + DropFinalNewline(n)
  {
    if n == [] {
      assert line + "\n" + n == line + "\n";
    } else if n[|n| - 1] == '\n' {
      assert (line + "\n" + n)[..|line + "\n" + n| - 1] == line + "\n" + n[..|n| - 1];
    }
  }

  lemma JoinCons(first: string, others: seq<string>, sep: string)
    ensures JoinWith([first] + others, sep) == if others == [] then first else first + sep + JoinWith(others, sep)
  {
    assert ([first] + others)[1..] == others;
  }

  /** A non-empty text without boundaries is one line and its own normal form. */
  lemma SingleLineRoundTrip(s: string)
    requires s != [] && LineEnd(s) == |s|
    ensures JoinWith(SplitLines(s), "\n") == DropFinalNewline(NormalizeBreaks(s))
  {
    assert s[..|s|] == s;
    NormalizeBreakFree(s, []);
    assert s + [] == s;
    assert !IsLineBreak(s[|s| - 1]);
  }

  /**
    Joining the lines with "\n" gives back the text with every boundary
    written as "\n" and a final boundary dropped: `splitlines` loses only
    which boundary characters separated the lines and whether one ended the text.
  */
  lemma {:induction false} SplitLinesRoundTrip(s: string)
    ensures JoinWith(SplitLines(s), "\n") == DropFinalNewline(NormalizeBreaks(s))
    decreases |s|
  {
    if s != [] {
      var k := LineEnd(s);
      var line := s[..k];
      if k == |s| {
        SingleLineRoundTrip(s);
      } else {
        var tail := s[k..];
        var rest := tail[BreakWidth(tail)..];
        assert s == line + tail;
        NormalizeBreakFree(line, tail);
        assert rest == s[k + BreakWidth(tail)..];
        var n := NormalizeBreaks(rest);
        assert NormalizeBreaks(s) == line + "\n" + n;
        SplitLinesRoundTrip(rest);
        JoinCons(line, SplitLines(rest), "\n");
        DropAfterLine(line, n);
      }
    }
  }

  /** With "\n" as its only boundary and none at the end, a text is its lines joined by "\n". */
  lemma {:induction false} SplitLinesRestores(s: string)
    requires forall i | 0 <= i < |s| :: IsLineBreak(s[i]) ==> s[i] == '\n'
    requires s == [] || s[|s| - 1] != '\n'
    ensures JoinWith(SplitLines(s), "\n") == s
    decreases |s|
  {
    SplitLinesRoundTrip(s);
    NormalizeNewlinesOnly(s);
  }

  /** With "\n" as its only boundary, normalising changes nothing. */
  lemma {:induction false} NormalizeNewlinesOnly(s: string)
    requires forall i | 0 <= i < |s| :: IsLineBreak(s[i]) ==> s[i] == '\n'
    ensures NormalizeBreaks(s) == s
    decreases |s|
  {
    if s != [] {
      NormalizeNewlinesOnly(s[1..]);
    }
  }

  /** Every line boundary in `r` is a "\n" that opens a new "> " quoted line. */
  predicate QuotedBreaks(r: string) {
    forall i | 0 <= i < |r| && IsLineBreak(r[i]) :: r[i] == '\n' && i + 2 < |r| && r[i + 1] == '>' && r[i + 2] == ' '
  }

  lemma {:induction false} QuotedJoin(parts: seq<string>)
    requires forall k | 0 <= k < |parts| :: NoBreaks(parts[k])
    ensures QuotedBreaks(JoinWith(parts, "\n> "))
    decreases |parts|
  {
    if |parts| > 1 {
      QuotedJoin(parts[1..]);
      var a, b := parts[0] + "\n> ", JoinWith(parts[1..], "\n> ");
      var r := a + b;
      forall i | 0 <= i < |r| && IsLineBreak(r[i])
        ensures r[i] == '\n' && i + 2 < |r| && r[i + 1] == '>' && r[i + 2] == ' '
      {
        if i >= |a| {
          assert r[i] == b[i - |a|];
        }
      }
    }
  }

  /** `"\n> ".join(description.splitlines()) if description else "No description."`. */
  function FormatDescription(description: string): (r: string)
    ensures description == [] ==> r == "No description."
    ensures description != [] ==> QuotedBreaks(r)
    ensures description != [] ==> r == JoinWith(SplitLines(description), "\n> ")
  {
    if description == [] then "No description."
    else
      QuotedJoin(SplitLines(description));
      JoinWith(SplitLines(description), "\n> ")
  }
}
