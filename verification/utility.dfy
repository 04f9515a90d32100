/**
 * The pure helpers of utility.php and the tables of globals.php: HTTP-version
 * and URI checks, file features from extensions, Accept-family parsing, the
 * CGI script header, and the resource search over an abstract file system.
 */
module Utility {
  import opened Wrappers
  import opened Strings

  // ---------------------------------------------------------------------------
  // Configuration (globals.php and the parsed configuration files)

  /** A host's entries in configuration order: "home" and alias pattern -> target. */
  type HostEntry = seq<(string, string)>

  /** The parsed configuration: listening port, host table and extension tables. */
  datatype Config = Config(
    port: string,
    hosts: map<string, HostEntry>,
    mimeTypes: map<string, string>,
    languages: map<string, string>,
    charsets: map<string, string>)

  const SUPPORTED_METHODS: seq<string> := ["GET", "HEAD", "POST"]
  const INDEX_PAGES: seq<string> := ["index.html", "index.cgi", "index.php", "index.xhtml", "index.htm"]
  const ENCODINGS: map<string, string> := map["gz" := "gzip", "Z" := "compress", "gzd" := "deflate"]
  const TRANSFER_CODINGS: map<string, string> := map["gzip" := "gzip", "compress" := "compress", "deflate" := "deflate"]

  /** The value of the first entry with key `k` (PHP array keys are unique). */
  function Lookup<V>(entries: seq<(string, V)>, k: string): (r: Option<V>)
    ensures r.Some? ==> (k, r.value) in entries
    ensures r.None? ==> forall i | 0 <= i < |entries| :: entries[i].0 != k
  {
    if entries == [] then None
    else if entries[0].0 == k then Some(entries[0].1)
    else Lookup(entries[1..], k)
  }

  /** `$GLOBALS["host"][host]["home"]`, when set. */
  function Home(cfg: Config, host: string): Option<string> {
    if host in cfg.hosts then Lookup(cfg.hosts[host], "home") else None
  }

  /** `$GLOBALS["host"][host]`, or no entries for an unknown host. */
  function Entries(cfg: Config, host: string): HostEntry {
    if host in cfg.hosts then cfg.hosts[host] else []
  }

  // ---------------------------------------------------------------------------
  // is_supported_method, get_version

  predicate IsSupportedMethod(m: string) {
    m in SUPPORTED_METHODS
  }

  /**
   * `get_version`: the version after "HTTP/". The version is compared with
   * PHP's loose `!=`, so any numeric string equal in value to 0.9, 1.0 or 1.1
   * ("1", "01.10", "+1.1") is accepted and returned as written.
   */
  function GetVersion(s: string): (v: Option<string>)
    ensures v.Some? ==> s == "HTTP/" + v.value && !Contains(v.value, "/")
    ensures v.Some? ==> LooseEq(v.value, "0.9") || LooseEq(v.value, "1.0") || LooseEq(v.value, "1.1")
  {
    var parts := Split(s, "/");
    if |parts| != 2 then None
    else if parts[0] != "HTTP" then None
    else if !LooseEq(parts[1], "0.9") && !LooseEq(parts[1], "1.0") && !LooseEq(parts[1], "1.1") then None
    else
      VersionLine(s);
      Some(parts[1])
  }

  /** "HTTP" and one more part around "/" join back to the whole line. */
  lemma VersionLine(s: string)
    requires |Split(s, "/")| == 2 && Split(s, "/")[0] == "HTTP"
    ensures s == "HTTP/" + Split(s, "/")[1] && !Contains(Split(s, "/")[1], "/")
  {
    JoinSplit(s, "/");
    var p := IndexOf(s, "/").value;
    var rest := s[p + 1..];
    assert Split(s, "/") == [s[..p]] + Split(rest, "/");
    assert IndexOf(rest, "/").None?;
    assert "HTTP" + "/" == "HTTP/";
  }

  /** The three versions the server speaks are accepted exactly. */
  lemma GetVersionAccepts(x: string)
    requires x == "0.9" || x == "1.0" || x == "1.1"
    ensures GetVersion("HTTP/" + x) == Some(x)
  {
    assert "HTTP/" + x == "HTTP" + ['/'] + x;
    SplitOnce("HTTP", '/', x);
  }

  /** A line that does not split into "HTTP" and one more part is refused. */
  lemma GetVersionRefuses(s: string)
    requires |Split(s, "/")| != 2 || Split(s, "/")[0] != "HTTP"
    ensures GetVersion(s).None?
  {
  }

  /** The loose comparison accepts any numeric spelling of 1.0, such as "HTTP/1", returned as written. */
  lemma GetVersionLoose(x: string)
    requires Numeric(x) == Some(1.0) && !Contains(x, "/")
    ensures GetVersion("HTTP/" + x) == Some(x)
  {
    assert "HTTP/" + x == "HTTP" + ['/'] + x;
    forall i | 0 <= i < |x| ensures x[i] != '/' {
      assert !OccursAt(x, "/", i);
      assert x[i..i + 1][0] == x[i];
    }
    SplitOnce("HTTP", '/', x);
    NumericOnePointZero();
  }

  lemma NumericOnePointZero()
    ensures Numeric("1.0") == Some(1.0)
  {
    var s := "1.0";
    assert OccursAt(s, ".", 1);
    assert s[0..1][0] == '1';
    IndexOfIsFirst(s, ".", 1);
    assert s[..1] == "1" && s[2..] == "0";
  }

  /** "1" is such a spelling. */
  lemma NumericOne()
    ensures Numeric("1") == Some(1.0) && !Contains("1", "/")
  {
    assert "1"[0..1][0] == '1';
  }

  // ---------------------------------------------------------------------------
  // parse_uri

  /** The parts `parse_url` finds in a request target. */
  datatype Url = Url(scheme: Option<string>, host: Option<string>, port: Option<string>, path: Option<string>, query: Option<string>)

  /** `urldecode`: "+" is a space and "%XY" with two hex digits is that byte. */
  function UrlDecode(s: string): (r: string)
    ensures |r| <= |s|
    decreases |s|
  {
    if s == "" then ""
    else if s[0] == '+' then " " + UrlDecode(s[1..])
    else if s[0] == '%' && |s| >= 3 && IsHexDigit(s[1]) && IsHexDigit(s[2]) then
      [(HexDigitValue(s[1]) * 16 + HexDigitValue(s[2])) as char] + UrlDecode(s[3..])
    else [s[0]] + UrlDecode(s[1..])
  }

  /** Text without '+' or '%' decodes to itself. */
  lemma {:induction false} UrlDecodePlain(s: string)
    requires forall i | 0 <= i < |s| :: s[i] != '+' && s[i] != '%'
    ensures UrlDecode(s) == s
    decreases |s|
  {
    if s != "" {
      UrlDecodePlain(s[1..]);
    }
  }

  /**
   * The path clean-up of `parse_uri` as written: drop "..", fold "//", and
   * only then percent-decode, so an encoded "%2e%2e" comes back as "..".
   */
  function CleanPathAsWritten(path: string): string {
    UrlDecode(Replace(Replace(path, "..", ""), "//", "/"))
  }

  /** No two consecutive dots, so no ".." step up a directory. */
  predicate NoDotDot(s: string) {
    forall i | 0 <= i < |s| - 1 :: !(s[i] == '.' && s[i + 1] == '.')
  }

  /**
   * The clean-up as its comment means it ("removes one dir up"): decode
   * first, then drop "..", then fold "//"; no ".." is left.
   */
  function CleanPath(path: string): (r: string)
    ensures NoDotDot(r)
  {
    var decoded := UrlDecode(path);
    DotDotRemoved(decoded);
    FoldKeepsNoDotDot(Replace(decoded, "..", ""));
    Replace(Replace(decoded, "..", ""), "//", "/")
  }

  /** A string that does not start with the pattern's first character keeps its head. */
  lemma ReplaceKeepsHead(t: string, pat: string, rep: string)
    requires t != "" && |pat| == 2 && t[0] != pat[0]
    ensures Replace(t, pat, rep) != "" && Replace(t, pat, rep)[0] == t[0]
  {
    if |t| >= 2 {
      assert t[..2][0] == t[0];
    }
  }

  /** Dropping every ".." leaves no two dots side by side. */
  lemma {:induction false} DotDotRemoved(s: string)
    ensures NoDotDot(Replace(s, "..", ""))
    decreases |s|
  {
    if |s| < 2 {
    } else if s[..2] == ".." {
      DotDotRemoved(s[2..]);
    } else {
      DotDotRemoved(s[1..]);
      if s[0] == '.' {
        assert s[..2] == [s[0], s[1]];
        ReplaceKeepsHead(s[1..], "..", "");
      }
    }
  }

  /** Folding "//" to "/" never brings two dots together. */
  lemma {:induction false} FoldKeepsNoDotDot(s: string)
    requires NoDotDot(s)
    ensures NoDotDot(Replace(s, "//", "/"))
    decreases |s|
  {
    if |s| < 2 {
    } else if s[..2] == "//" {
      FoldKeepsNoDotDot(s[2..]);
    } else {
      FoldKeepsNoDotDot(s[1..]);
      if s[0] == '.' && s[1] != '/' {
        ReplaceKeepsHead(s[1..], "//", "/");
      } else if s[0] == '.' {
        FoldHeadSlash(s[1..]);
      }
    }
  }

  /** Folding keeps a leading slash. */
  lemma FoldHeadSlash(t: string)
    requires t != "" && t[0] == '/'
    ensures Replace(t, "//", "/") != "" && Replace(t, "//", "/")[0] == '/'
  {
  }

  /** A string with no doubled `c` is left alone by replacing "cc". */
  lemma {:induction false} NoPairUnchanged(s: string, c: char, rep: string)
    requires forall i | 0 <= i < |s| - 1 :: !(s[i] == c && s[i + 1] == c)
    ensures Replace(s, [c, c], rep) == s
    decreases |s|
  {
    if |s| >= 2 {
      assert s[..2] == [s[0], s[1]];
      NoPairUnchanged(s[1..], c, rep);
    }
  }

  /** "%2e" decodes to a dot. */
  lemma EncodedDot(rest: string)
    ensures UrlDecode("%2e" + rest) == "." + UrlDecode(rest)
  {
    var s := "%2e" + rest;
    assert s[0] == '%' && s[1] == '2' && s[2] == 'e' && s[3..] == rest;
    assert (HexDigitValue('2') * 16 + HexDigitValue('e')) as char == '.';
  }

  /** The dots and slashes of "/%2e%2e/x" are never doubled, so neither replacement touches it. */
  lemma EncodedPathUnfolded()
    ensures Replace(Replace("/%2e%2e/x", "..", ""), "//", "/") == "/%2e%2e/x"
  {
    NoPairUnchanged("/%2e%2e/x", '.', "");
    NoPairUnchanged("/%2e%2e/x", '/', "/");
  }

  lemma EncodedPathDecoded()
    ensures UrlDecode("/%2e%2e/x") == "/../x"
  {
    assert "/%2e%2e/x" == "/" + ("%2e" + ("%2e" + "/x"));
    assert UrlDecode("/x") == "/x" by {
      assert UrlDecode("x") == "x";
    }
    EncodedDot("/x");
    EncodedDot("%2e" + "/x");
  }

  /** An encoded ".." passes the clean-up as written and comes out decoded. */
  lemma EncodedDotsSurvive()
    ensures CleanPathAsWritten("/%2e%2e/x") == "/../x"
    ensures !NoDotDot(CleanPathAsWritten("/%2e%2e/x"))
  {
    EncodedPathUnfolded();
    EncodedPathDecoded();
    assert "/../x"[1] == '.' && "/../x"[2] == '.';
  }



  /**
   * `parse_uri`, given what `parse_url` made of the target (None when it
   * failed): an absolute URI must be http with a host, the port defaults to
   * "80", and a path is required. The path is cleaned by `CleanPath`, the
   * decode-first order the clean-up is meant to have.
   */
  function ParseUri(parsed: Option<Url>): (r: Option<Url>)
    ensures r.Some? <==>
      && parsed.Some?
      && parsed.value.path.Some?
      && (parsed.value.scheme.Some? ==> parsed.value.scheme.value == "http" && parsed.value.host.Some?)
    ensures r.Some? ==>
      && r.value.scheme == parsed.value.scheme
      && r.value.host == parsed.value.host
      && r.value.query == parsed.value.query
      && r.value.path == Some(CleanPath(parsed.value.path.value))
      && NoDotDot(r.value.path.value)
      && (r.value.host.Some? ==> r.value.port.Some?)
      && (parsed.value.host.Some? && parsed.value.port.None? ==> r.value.port == Some("80"))
      && (parsed.value.port.Some? ==> r.value.port == parsed.value.port)
  {
    match parsed
    case None => None
    case Some(u) =>
      if u.scheme.Some? && (u.scheme.value != "http" || u.host.None?) then None
      else
        var port := if u.host.Some? && u.port.None? then Some("80") else u.port;
        if u.path.None? then None
        else Some(u.(port := port, path := Some(CleanPath(u.path.value))))
  }

  // ---------------------------------------------------------------------------
  // set_file_features

  /** Feature maps use the keys of the source's `$options` arrays. */
  type Options = map<string, string>

  const MIME_TYPE := "mime_type"
  const LANGUAGE := "language"
  const CHARSET := "charset"
  const ENCODING := "encoding"

  /** The file name after the last "/". */
  function BaseName(path: string): string
    decreases |path|
  {
    if path == "" then ""
    else if path[|path| - 1] == '/' then ""
    else BaseName(path[..|path| - 1]) + [path[|path| - 1]]
  }

  /** One extension of the `set_file_features` loop; each `continue` ends the step. */
  function FeatureStep(cfg: Config, ext: string, o: Options): Options {
    if ext in cfg.mimeTypes && MIME_TYPE !in o then o[MIME_TYPE := cfg.mimeTypes[ext]]
    else if ext in cfg.languages && LANGUAGE !in o then o[LANGUAGE := cfg.languages[ext]]
    else if ext in cfg.charsets && CHARSET !in o then o[LANGUAGE := cfg.charsets[ext]]
    else if ext in ENCODINGS && ENCODING !in o then o[ENCODING := ENCODINGS[ext]]
    else o
  }

  function FeatureLoop(cfg: Config, exts: seq<string>, o: Options): Options
    decreases |exts|
  {
    if exts == [] then o else FeatureLoop(cfg, exts[1..], FeatureStep(cfg, exts[0], o))
  }

  /**
   * `set_file_features`: scans the extensions after the base name. The first
   * mime and the first encoding extension win; a charset extension is stored
   * under "language", as the source does.
   */
  function SetFileFeatures(cfg: Config, path: string): (r: Options)
    ensures r.Keys <= {MIME_TYPE, LANGUAGE, ENCODING}
  {
    var exts := Split(BaseName(path), ".");
    if |exts| == 1 then map[]
    else
      FeatureLoopKeys(cfg, exts[1..], map[]);
      FeatureLoop(cfg, exts[1..], map[])
  }

  /** The features never hold a "charset" key, and only the three keys the loop writes. */
  lemma {:induction false} FeatureLoopKeys(cfg: Config, exts: seq<string>, o: Options)
    requires o.Keys <= {MIME_TYPE, LANGUAGE, ENCODING}
    ensures FeatureLoop(cfg, exts, o).Keys <= {MIME_TYPE, LANGUAGE, ENCODING}
    decreases |exts|
  {
    if exts != [] {
      FeatureLoopKeys(cfg, exts[1..], FeatureStep(cfg, exts[0], o));
    }
  }

  lemma NoCharsetFeature(cfg: Config, path: string)
    ensures CHARSET !in SetFileFeatures(cfg, path)
  {
    var exts := Split(BaseName(path), ".");
    if |exts| != 1 {
      FeatureLoopKeys(cfg, exts[1..], map[]);
    }
  }

  /** A name without "." has no features. */
  lemma NoExtensionNoFeatures(cfg: Config, path: string)
    requires !Contains(BaseName(path), ".")
    ensures SetFileFeatures(cfg, path) == map[]
  {
  }

  /** The index of the first extension found in `table`. */
  function FirstIn(exts: seq<string>, table: map<string, string>): (r: Option<nat>)
    ensures r.Some? ==> r.value < |exts| && exts[r.value] in table && forall j | 0 <= j < r.value :: exts[j] !in table
    ensures r.None? ==> forall j | 0 <= j < |exts| :: exts[j] !in table
  {
    if exts == [] then None
    else if exts[0] in table then Some(0)
    else match FirstIn(exts[1..], table)
      case None => None
      case Some(i) => Some(i + 1)
  }

  /** The mime type comes from the first extension in the mime table, and only from it. */
  lemma {:induction false} FirstMimeWins(cfg: Config, exts: seq<string>, o: Options)
    ensures var r := FeatureLoop(cfg, exts, o);
      MIME_TYPE in o ==> MIME_TYPE in r && r[MIME_TYPE] == o[MIME_TYPE]
    ensures var r := FeatureLoop(cfg, exts, o);
      MIME_TYPE !in o ==> match FirstIn(exts, cfg.mimeTypes)
        case None => MIME_TYPE !in r
        case Some(i) => MIME_TYPE in r && r[MIME_TYPE] == cfg.mimeTypes[exts[i]]
    decreases |exts|
  {
    if exts != [] {
      FirstMimeWins(cfg, exts[1..], FeatureStep(cfg, exts[0], o));
    }
  }

  /** The file features' mime type is that of the first extension in the mime table. */
  lemma MimeOfFirstExtension(cfg: Config, path: string)
    ensures var exts := Split(BaseName(path), ".");
      var f := SetFileFeatures(cfg, path);
      match FirstIn(exts[1..], cfg.mimeTypes)
      case None => MIME_TYPE !in f
      case Some(i) => MIME_TYPE in f && f[MIME_TYPE] == cfg.mimeTypes[exts[1 + i]]
  {
    var exts := Split(BaseName(path), ".");
    if |exts| != 1 {
      FirstMimeWins(cfg, exts[1..], map[]);
    }
  }

  /** A charset extension leaves a "language" entry behind (the source's key slip). */
  lemma {:induction false} CharsetSetsLanguage(cfg: Config, exts: seq<string>, o: Options, i: nat)
    requires i < |exts| && exts[i] in cfg.charsets && exts[i] !in cfg.mimeTypes
    requires CHARSET !in o && o.Keys <= {MIME_TYPE, LANGUAGE, ENCODING}
    ensures LANGUAGE in FeatureLoop(cfg, exts, o)
    decreases |exts|
  {
    var o' := FeatureStep(cfg, exts[0], o);
    if i == 0 {
      assert LANGUAGE in o';
      LanguageStays(cfg, exts[1..], o');
    } else {
      CharsetSetsLanguage(cfg, exts[1..], o', i - 1);
    }
  }

  lemma {:induction false} LanguageStays(cfg: Config, exts: seq<string>, o: Options)
    requires LANGUAGE in o
    ensures LANGUAGE in FeatureLoop(cfg, exts, o)
    decreases |exts|
  {
    if exts != [] {
      LanguageStays(cfg, exts[1..], FeatureStep(cfg, exts[0], o));
    }
  }

  /** Once set, the encoding is never overwritten by later extensions. */
  lemma {:induction false} EncodingStays(cfg: Config, exts: seq<string>, o: Options)
    requires ENCODING in o
    ensures var r := FeatureLoop(cfg, exts, o); ENCODING in r && r[ENCODING] == o[ENCODING]
    decreases |exts|
  {
    if exts != [] {
      EncodingStays(cfg, exts[1..], FeatureStep(cfg, exts[0], o));
    }
  }

  /**
   * The first encoding extension wins: when no earlier extension is an
   * encoding, one that is in no other table sets the encoding for good.
   */
  lemma {:induction false} FirstEncodingWins(cfg: Config, exts: seq<string>, o: Options, i: nat)
    requires ENCODING !in o
    requires i < |exts| && exts[i] in ENCODINGS
    requires exts[i] !in cfg.mimeTypes && exts[i] !in cfg.languages && exts[i] !in cfg.charsets
    requires forall j | 0 <= j < i :: exts[j] !in ENCODINGS
    ensures var r := FeatureLoop(cfg, exts, o); ENCODING in r && r[ENCODING] == ENCODINGS[exts[i]]
    decreases |exts|
  {
    var o' := FeatureStep(cfg, exts[0], o);
    if i == 0 {
      EncodingStays(cfg, exts[1..], o');
    } else {
      assert exts[1..][i - 1] == exts[i];
      FirstEncodingWins(cfg, exts[1..], o', i - 1);
    }
  }

  /** Without an encoding extension the file gets no encoding. */
  lemma {:induction false} NoEncodingExtension(cfg: Config, exts: seq<string>, o: Options)
    requires ENCODING !in o
    requires forall j | 0 <= j < |exts| :: exts[j] !in ENCODINGS
    ensures ENCODING !in FeatureLoop(cfg, exts, o)
    decreases |exts|
  {
    if exts != [] {
      NoEncodingExtension(cfg, exts[1..], FeatureStep(cfg, exts[0], o));
    }
  }

  // ---------------------------------------------------------------------------
  // parse_accept

  /** A parsed Accept-family header: token -> quality, in the order of the PHP array. */
  type Prefs = seq<(string, real)>

  datatype Accepted = AcceptError | Accepted(prefs: Prefs)

  /** The quality text of an entry: what follows its first ";q=", with every ";q=" removed. */
  function QualityText(e: string): string
    requires Contains(e, ";q=")
  {
    Replace(e[IndexOf(e, ";q=").value..], ";q=", "")
  }

  /**
   * One comma-separated entry: no ";q=" means quality 1; ";q=" at the start is
   * an error (None); a non-numeric quality is 0.01, one above 1 is 1, and one
   * below 0 is 0 (the lower bound is the correction of `ParseEntryAsWritten`).
   */
  function ParseEntry(e: string): (r: Option<(string, real)>)
    ensures r.None? <==> IndexOf(e, ";q=") == Some(0)
    ensures !Contains(e, ";q=") ==> r == Some((e, 1.0))
    ensures r.Some? ==> 0.0 <= r.value.1 <= 1.0
    ensures r.Some? && Contains(e, ";q=") ==> r.value.0 == e[..IndexOf(e, ";q=").value] && r.value.0 != ""
    ensures r.Some? && Contains(e, ";q=") && Numeric(QualityText(e)).None? ==> r.value.1 == 0.01
    ensures r.Some? && Contains(e, ";q=") && Numeric(QualityText(e)).Some? ==>
      var v := Numeric(QualityText(e)).value;
      && (v > 1.0 ==> r.value.1 == 1.0)
      && (v < 0.0 ==> r.value.1 == 0.0)
      && (0.0 <= v <= 1.0 ==> r.value.1 == v)
  {
    match IndexOf(e, ";q=")
    case None => Some((e, 1.0))
    case Some(p) =>
      if p == 0 then None
      else
        var q := match Numeric(QualityText(e)) case None => 0.01 case Some(v) => v;
        Some((e[..p], if q > 1.0 then 1.0 else if q < 0.0 then 0.0 else q))
  }

  /** The entry as `parse_accept` computes it: a quality above 1 is capped, but a negative one is kept. */
  function ParseEntryAsWritten(e: string): (r: Option<(string, real)>)
    ensures r.None? <==> IndexOf(e, ";q=") == Some(0)
    ensures r.Some? ==> r.value.1 <= 1.0
    ensures r.Some? && Contains(e, ";q=") && Numeric(QualityText(e)).Some? && Numeric(QualityText(e)).value <= 1.0 ==>
      r.value.1 == Numeric(QualityText(e)).value
  {
    match IndexOf(e, ";q=")
    case None => Some((e, 1.0))
    case Some(p) =>
      if p == 0 then None
      else
        var q := match Numeric(QualityText(e)) case None => 0.01 case Some(v) => v;
        Some((e[..p], if q > 1.0 then 1.0 else q))
  }

  lemma MinusTwoEntry()
    ensures IndexOf("a;q=-2", ";q=") == Some(1)
    ensures "a;q=-2"[1..] == ";q=-2" && "a;q=-2"[..1] == "a"
  {
    assert OccursAt("a;q=-2", ";q=", 1);
    assert "a;q=-2"[0..3][0] == 'a';
    IndexOfIsFirst("a;q=-2", ";q=", 1);
  }

  lemma MinusTwoText()
    ensures Replace(";q=-2", ";q=", "") == "-2"
  {
    assert ";q=-2"[..3] == ";q=" && ";q=-2"[3..] == "-2";
  }

  lemma MinusTwoValue()
    ensures Numeric("-2") == Some(-2.0)
  {
    assert "-2"[1..] == "2";
    assert IndexFrom("2", ".", 1) == None;
    assert "2"[0..1] == ['2'];
    assert IndexOf("2", ".") == None;
    assert IsDigits("2");
    assert DecimalValue("2") == 2 by {
      assert "2"[..0] == "";
    }
  }

  /** As written, "a;q=-2" keeps the quality -2; the corrected entry has quality 0. */
  lemma NegativeQualityKept()
    ensures ParseEntryAsWritten("a;q=-2") == Some(("a", -2.0))
    ensures ParseEntry("a;q=-2") == Some(("a", 0.0))
  {
    MinusTwoEntry();
    MinusTwoText();
    MinusTwoValue();
    assert QualityText("a;q=-2") == "-2";
  }

  /** PHP array assignment: overwrite the value in place, or append a new key. */
  function Put(m: Prefs, k: string, v: real): (r: Prefs)
    ensures (k, v) in r
    ensures forall x | x in m && x.0 != k :: x in r
    ensures forall x | x in r :: x in m || x == (k, v)
  {
    if m == [] then [(k, v)]
    else if m[0].0 == k then [(k, v)] + m[1..]
    else [m[0]] + Put(m[1..], k, v)
  }

  /** Each comma-separated entry parsed on its own. */
  function ParseEntries(entries: seq<string>): (ps: seq<Option<(string, real)>>)
    ensures |ps| == |entries| && forall i | 0 <= i < |entries| :: ps[i] == ParseEntry(entries[i])
  {
    seq(|entries|, i requires 0 <= i < |entries| => ParseEntry(entries[i]))
  }

  /** The parsed entries in order; any malformed one is an error, the last entry for a token sets its quality. */
  function CollectPrefs(ps: seq<Option<(string, real)>>): Accepted
    decreases |ps|
  {
    if ps == [] then Accepted([])
    else match CollectPrefs(ps[..|ps| - 1])
      case AcceptError => AcceptError
      case Accepted(p) =>
        match ps[|ps| - 1]
        case None => AcceptError
        case Some(kv) => Accepted(Put(p, kv.0, kv.1))
  }

  predicate SortedDesc(s: Prefs) {
    forall i, j | 0 <= i < j < |s| :: s[i].1 >= s[j].1
  }

  /** Inserts `x` after every element of quality at least its own (keeps ties in order). */
  function InsertDesc(s: Prefs, x: (string, real)): (r: Prefs)
    requires SortedDesc(s)
    ensures SortedDesc(r) && multiset(r) == multiset(s) + multiset{x}
    ensures |r| == |s| + 1
    decreases |s|
  {
    if s == [] then [x]
    else if s[|s| - 1].1 >= x.1 then s + [x]
    else
      var init, last := s[..|s| - 1], s[|s| - 1];
      assert s == init + [last];
      var r' := InsertDesc(init, x);
      AllAtLeast(r', init, x, last);
      r' + [last]
  }

  /** Rearranging a sequence and adding `x` keeps a lower bound on the qualities. */
  lemma AllAtLeast(r: Prefs, s: Prefs, x: (string, real), last: (string, real))
    requires multiset(r) == multiset(s) + multiset{x}
    requires SortedDesc(s + [last]) && x.1 >= last.1
    ensures forall i | 0 <= i < |r| :: r[i].1 >= last.1
  {
    forall i | 0 <= i < |r|
      ensures r[i].1 >= last.1
    {
      var y := r[i];
      assert y in multiset(r);
      if y != x {
        assert y in multiset(s);
        var k :| 0 <= k < |s| && s[k] == y;
        assert (s + [last])[k] == y && (s + [last])[|s|] == last;
      }
    }
  }

  /** `arsort(..., SORT_NUMERIC)`: by non-increasing quality, ties in their original order. */
  function SortDesc(s: Prefs): (r: Prefs)
    ensures SortedDesc(r) && multiset(r) == multiset(s)
    ensures |r| == |s|
    decreases |s|
  {
    if s == [] then []
    else
      assert s == s[..|s| - 1] + [s[|s| - 1]];
      InsertDesc(SortDesc(s[..|s| - 1]), s[|s| - 1])
  }

  /** PHP's `empty()` on a header value: "" and "0". */
  predicate EmptyValue(s: string) {
    s == "" || s == "0"
  }

  /** `parse_accept`. */
  function ParseAccept(content: string): (r: Accepted)
    ensures EmptyValue(content) ==> r == Accepted([])
    ensures r.Accepted? ==> SortedDesc(r.prefs) && forall x | x in r.prefs :: 0.0 <= x.1 <= 1.0
  {
    if EmptyValue(content) then Accepted([])
    else
      var ps := ParseEntries(Split(content, ","));
      match CollectPrefs(ps)
      case AcceptError => AcceptError
      case Accepted(p) =>
        CollectedBound(ps);
        var sorted := SortDesc(p);
        assert forall x | x in sorted :: x in multiset(p);
        Accepted(sorted)
  }

  lemma {:induction false} CollectedBound(ps: seq<Option<(string, real)>>)
    requires forall i | 0 <= i < |ps| && ps[i].Some? :: 0.0 <= ps[i].value.1 <= 1.0
    ensures CollectPrefs(ps).Accepted? ==> forall x | x in CollectPrefs(ps).prefs :: 0.0 <= x.1 <= 1.0
    decreases |ps|
  {
    if ps != [] {
      CollectedBound(ps[..|ps| - 1]);
    }
  }

  lemma {:induction false} MalformedEntryRejected(ps: seq<Option<(string, real)>>, i: nat)
    requires i < |ps| && ps[i].None?
    ensures CollectPrefs(ps) == AcceptError
    decreases |ps|
  {
    if i < |ps| - 1 {
      var init := ps[..|ps| - 1];
      assert init[i] == ps[i];
      MalformedEntryRejected(init, i);
    }
  }

  /** An entry with an empty token before ";q=" makes the whole header an error. */
  lemma EmptyTokenRejected(content: string, i: nat)
    requires !EmptyValue(content)
    requires i < |Split(content, ",")| && IndexOf(Split(content, ",")[i], ";q=") == Some(0)
    ensures ParseAccept(content) == AcceptError
  {
    MalformedEntryRejected(ParseEntries(Split(content, ",")), i);
  }

  /** The last entry for a token decides its quality. */
  lemma {:induction false} LastEntryWins(ps: seq<Option<(string, real)>>, i: nat, kv: (string, real))
    requires i < |ps| && ps[i] == Some(kv)
    requires forall j | i < j < |ps| && ps[j].Some? :: ps[j].value.0 != kv.0
    requires CollectPrefs(ps).Accepted?
    ensures kv in CollectPrefs(ps).prefs
    decreases |ps|
  {
    var n := |ps|;
    var init := ps[..n - 1];
    var last := ps[n - 1].value;
    var p := CollectPrefs(init).prefs;
    assert CollectPrefs(ps) == Accepted(Put(p, last.0, last.1));
    if i < n - 1 {
      assert init[i] == ps[i];
      forall j | i < j < |init| && init[j].Some?
        ensures init[j].value.0 != kv.0
      {
        assert init[j] == ps[j];
      }
      LastEntryWins(init, i, kv);
      assert kv in p && last.0 != kv.0;
    }
  }

  /** Every entry's quality is in the parsed header unless a later entry names the same token. */
  lemma ParseAcceptEntry(content: string, i: nat, kv: (string, real))
    requires !EmptyValue(content)
    requires var entries := Split(content, ",");
      && i < |entries| && ParseEntry(entries[i]) == Some(kv)
      && forall j | i < j < |entries| && ParseEntry(entries[j]).Some? :: ParseEntry(entries[j]).value.0 != kv.0
    requires ParseAccept(content).Accepted?
    ensures kv in ParseAccept(content).prefs
  {
    var ps := ParseEntries(Split(content, ","));
    LastEntryWins(ps, i, kv);
    var p := CollectPrefs(ps).prefs;
    assert kv in multiset(p);
  }

  /** The quality the last entry naming `k` gives it: the reference for what `parse_accept` stores under `k`. */
  function LastQuality(ps: seq<Option<(string, real)>>, k: string): Option<real>
    decreases |ps|
  {
    if ps == [] then None
    else if ps[|ps| - 1].Some? && ps[|ps| - 1].value.0 == k then Some(ps[|ps| - 1].value.1)
    else LastQuality(ps[..|ps| - 1], k)
  }

  /** No token is listed twice, as in a PHP array. */
  predicate UniqueTokens(s: Prefs) {
    forall i, j | 0 <= i < j < |s| :: s[i].0 != s[j].0
  }

  /** Storing under `k` changes the lookup of `k` only. */
  lemma {:induction false} PutLookup(m: Prefs, k: string, v: real)
    ensures Lookup(Put(m, k, v), k) == Some(v)
    ensures forall j | j != k :: Lookup(Put(m, k, v), j) == Lookup(m, j)
    decreases |m|
  {
    if m != [] && m[0].0 != k {
      PutLookup(m[1..], k, v);
      assert Put(m, k, v)[1..] == Put(m[1..], k, v);
    }
  }

  /** Storing under `k` keeps the tokens unique. */
  lemma {:induction false} PutUnique(m: Prefs, k: string, v: real)
    requires UniqueTokens(m)
    ensures UniqueTokens(Put(m, k, v))
    decreases |m|
  {
    if m != [] {
      UniqueHead(m);
      if m[0].0 == k {
        UniqueCons((k, v), m[1..]);
      } else {
        PutUnique(m[1..], k, v);
        UniqueCons(m[0], Put(m[1..], k, v));
      }
    }
  }

  /** The tail of a list with unique tokens has unique tokens, none equal to the head's. */
  lemma UniqueHead(m: Prefs)
    requires UniqueTokens(m) && m != []
    ensures UniqueTokens(m[1..])
    ensures forall y | y in m[1..] :: y.0 != m[0].0
  {
    forall y | y in m[1..]
      ensures y.0 != m[0].0
    {
      var t :| 0 <= t < |m[1..]| && m[1..][t] == y;
      assert m[t + 1] == y;
    }
  }

  /** An entry whose token is new to a list with unique tokens can go in front. */
  lemma UniqueCons(x: (string, real), rest: Prefs)
    requires UniqueTokens(rest)
    requires forall y | y in rest :: y.0 != x.0
    ensures UniqueTokens([x] + rest)
  {
    var r := [x] + rest;
    forall i, j | 0 <= i < j < |r|
      ensures r[i].0 != r[j].0
    {
      assert r[j] == rest[j - 1];
      if i > 0 {
        assert r[i] == rest[i - 1];
      }
    }
  }

  /** A header parses exactly when none of its entries is malformed. */
  lemma {:induction false} CollectAccepted(ps: seq<Option<(string, real)>>)
    ensures CollectPrefs(ps).Accepted? <==> forall i | 0 <= i < |ps| :: ps[i].Some?
    decreases |ps|
  {
    if ps != [] {
      var init := ps[..|ps| - 1];
      CollectAccepted(init);
      assert forall i | 0 <= i < |init| :: init[i] == ps[i];
    }
  }

  /** The collected entries list each token once, with the quality of its last entry. */
  lemma {:induction false} CollectLookup(ps: seq<Option<(string, real)>>)
    requires CollectPrefs(ps).Accepted?
    ensures UniqueTokens(CollectPrefs(ps).prefs)
    ensures forall k :: Lookup(CollectPrefs(ps).prefs, k) == LastQuality(ps, k)
    decreases |ps|
  {
    if ps != [] {
      var init := ps[..|ps| - 1];
      CollectLookup(init);
      var kv := ps[|ps| - 1].value;
      PutLookup(CollectPrefs(init).prefs, kv.0, kv.1);
      PutUnique(CollectPrefs(init).prefs, kv.0, kv.1);
    }
  }

  /** Rearranging a list of unique tokens changes no lookup. */
  lemma SameLookup(a: Prefs, b: Prefs, k: string)
    requires multiset(a) == multiset(b) && UniqueTokens(a)
    ensures Lookup(b, k) == Lookup(a, k)
  {
    match Lookup(a, k)
    case None =>
      forall x | x in b
        ensures x.0 != k
      {
        assert x in multiset(a);
      }
    case Some(w) =>
      assert (k, w) in multiset(b);
      var v := Lookup(b, k).value;
      assert (k, v) in multiset(a);
      var i :| 0 <= i < |a| && a[i] == (k, v);
      var j :| 0 <= j < |a| && a[j] == (k, w);
      assert i == j;
  }

  /** A header is refused exactly when it is non-empty and one of its entries opens with ";q=". */
  lemma ParseAcceptRejects(content: string)
    ensures ParseAccept(content).AcceptError? <==>
      !EmptyValue(content) && exists i | 0 <= i < |Split(content, ",")| :: IndexOf(Split(content, ",")[i], ";q=") == Some(0)
  {
    if !EmptyValue(content) {
      var entries := Split(content, ",");
      var ps := ParseEntries(entries);
      CollectAccepted(ps);
      assert ParseAccept(content).AcceptError? <==> CollectPrefs(ps).AcceptError?;
      if exists i | 0 <= i < |entries| :: IndexOf(entries[i], ";q=") == Some(0) {
        var i :| 0 <= i < |entries| && IndexOf(entries[i], ";q=") == Some(0);
        MalformedEntryRejected(ps, i);
        assert ParseAccept(content).AcceptError?;
        assert IndexOf(Split(content, ",")[i], ";q=") == Some(0);
      } else {
        forall i | 0 <= i < |ps|
          ensures ps[i].Some?
        {
          assert IndexOf(entries[i], ";q=") != Some(0);
        }
      }
    }
  }

  /** A parsed header gives each token the quality of its last entry, and lists no other token. */
  lemma ParseAcceptLookup(content: string, k: string)
    requires !EmptyValue(content) && ParseAccept(content).Accepted?
    ensures Lookup(ParseAccept(content).prefs, k) == LastQuality(ParseEntries(Split(content, ",")), k)
  {
    var ps := ParseEntries(Split(content, ","));
    CollectLookup(ps);
    SameLookup(CollectPrefs(ps).prefs, ParseAccept(content).prefs, k);
  }

  // ---------------------------------------------------------------------------
  // read_script_header (on a complete buffer) and parse_script_header

  const DOUBLE_LF: string := "\n\n"

  /**
   * `read_script_header` without a pipe: the header block ends at the first
   * "\r\n\r\n" or the first "\n\n"; LF endings are rewritten to CRLF. When
   * neither or both terminators occur, the header is rejected (None).
   */
  function ReadScriptHeader(buffer: string): (r: Option<(string, string)>)
    ensures r.None? <==> Contains(buffer, DOUBLE_CRLF) == Contains(buffer, DOUBLE_LF)
    ensures r.Some? && Contains(buffer, DOUBLE_CRLF) ==>
      var p := IndexOf(buffer, DOUBLE_CRLF).value;
      r.value.0 + r.value.1 == buffer && r.value.0 == buffer[..p + 4]
    ensures r.Some? && Contains(buffer, DOUBLE_LF) ==>
      var p := IndexOf(buffer, DOUBLE_LF).value;
      r.value.0 == Replace(buffer[..p + 2], "\n", CRLF) && r.value.1 == buffer[p + 2..]
  {
    var crlf, lf := IndexOf(buffer, DOUBLE_CRLF), IndexOf(buffer, DOUBLE_LF);
    if crlf.None? && lf.None? then None
    else if crlf.None? then Some((Replace(buffer[..lf.value + 2], "\n", CRLF), buffer[lf.value + 2..]))
    else if lf.None? then
      assert buffer[..crlf.value + 4] + buffer[crlf.value + 4..] == buffer;
      Some((buffer[..crlf.value + 4], buffer[crlf.value + 4..]))
    else None
  }

  /** Every LF is preceded by a CR. */
  predicate NoBareLfIn(r: string) {
    forall i | 0 < i < |r| && r[i] == '\n' :: r[i - 1] == '\r'
  }

  /** Rewriting LF to CRLF leaves no bare LF. */
  lemma {:induction false} NoBareLf(s: string)
    ensures var r := Replace(s, "\n", CRLF);
      NoBareLfIn(r) && (r != [] ==> r[0] != '\n')
    decreases |s|
  {
    if s != "" {
      NoBareLf(s[1..]);
      var tail := Replace(s[1..], "\n", CRLF);
      var r := Replace(s, "\n", CRLF);
      var off := if s[0] == '\n' then 2 else 1;
      if s[0] == '\n' {
        assert s[..1] == "\n";
        assert r == CRLF + tail;
      } else {
        assert s[..1] != "\n";
        assert r == [s[0]] + tail;
      }
      forall i | 0 < i < |r| && r[i] == '\n'
        ensures r[i - 1] == '\r'
      {
        if i >= off {
          assert r[i] == tail[i - off];
          if i > off { assert r[i - 1] == tail[i - off - 1]; }
        }
      }
    }
  }

  /** A script header terminator, "\r\n\r\n" or "\n\n", occurs. */
  predicate Terminated(buffer: string) {
    Contains(buffer, DOUBLE_CRLF) || Contains(buffer, DOUBLE_LF)
  }

  /** A header block ends with an empty line: CRLF CRLF. */
  predicate EndsWithBlankLine(h: string) {
    |h| >= 4 && h[|h| - 4..] == DOUBLE_CRLF
  }

  /**
   * `e` ends the header block: the prefix up to `e` is the shortest one that
   * holds a terminator, and it ends with that terminator.
   */
  predicate CutAt(buffer: string, e: nat) {
    && 2 <= e <= |buffer|
    && Terminated(buffer[..e]) && !Terminated(buffer[..e - 1])
    && if Contains(buffer[..e], DOUBLE_CRLF) then 4 <= e && buffer[e - 4..e] == DOUBLE_CRLF
       else buffer[e - 2..e] == DOUBLE_LF
  }

  /**
   * Where the header block of a script's output ends if it is cut at the
   * first terminator of either kind: just after it, the shortest prefix that
   * holds a terminator.
   */
  function HeaderEnd(buffer: string): (e: Option<nat>)
    ensures e.None? <==> !Terminated(buffer)
    ensures e.Some? ==> CutAt(buffer, e.value)
  {
    var crlf, lf := IndexOf(buffer, DOUBLE_CRLF), IndexOf(buffer, DOUBLE_LF);
    if crlf.Some? && (lf.None? || crlf.value < lf.value) then
      CrlfCut(buffer);
      Some(crlf.value + 4)
    else if lf.Some? then
      LfCut(buffer);
      Some(lf.value + 2)
    else None
  }

  /** Cutting after a first "\r\n\r\n" that precedes any "\n\n" leaves no earlier terminator. */
  lemma CrlfCut(buffer: string)
    requires IndexOf(buffer, DOUBLE_CRLF).Some?
    requires var lf := IndexOf(buffer, DOUBLE_LF); lf.None? || IndexOf(buffer, DOUBLE_CRLF).value < lf.value
    ensures CutAt(buffer, IndexOf(buffer, DOUBLE_CRLF).value + 4)
  {
    var p := IndexOf(buffer, DOUBLE_CRLF).value;
    assert OccursAt(buffer[..p + 4], DOUBLE_CRLF, p) by {
      assert buffer[..p + 4][p..p + 4] == buffer[p..p + 4];
    }
    PrefixOccurrence(buffer, p + 3, DOUBLE_CRLF);
    assert !OccursAt(buffer, DOUBLE_LF, p + 1) by {
      assert buffer[p..p + 4] == DOUBLE_CRLF;
      assert buffer[p + 2] == buffer[p..p + 4][2] == '\r';
      assert buffer[p + 1..p + 3][1] == buffer[p + 2];
    }
    PrefixOccurrence(buffer, p + 3, DOUBLE_LF);
  }

  /** Cutting after a first "\n\n" that precedes any "\r\n\r\n" leaves no earlier terminator and no CRLF CRLF. */
  lemma LfCut(buffer: string)
    requires IndexOf(buffer, DOUBLE_LF).Some?
    requires var crlf := IndexOf(buffer, DOUBLE_CRLF); crlf.None? || IndexOf(buffer, DOUBLE_LF).value <= crlf.value
    ensures CutAt(buffer, IndexOf(buffer, DOUBLE_LF).value + 2)
  {
    var l := IndexOf(buffer, DOUBLE_LF).value;
    assert OccursAt(buffer[..l + 2], DOUBLE_LF, l) by {
      assert buffer[..l + 2][l..l + 2] == buffer[l..l + 2];
    }
    PrefixOccurrence(buffer, l + 2, DOUBLE_CRLF);
    PrefixOccurrence(buffer, l + 1, DOUBLE_CRLF);
    PrefixOccurrence(buffer, l + 1, DOUBLE_LF);
  }

  /**
   * The header split `read_script_header` evidently intends: the header ends
   * at the first terminator of either kind, LF endings are rewritten to CRLF,
   * and only output without any terminator is rejected.
   */
  function SplitScriptOutput(buffer: string): (r: Option<(string, string)>)
    ensures r.None? <==> !Terminated(buffer)
    ensures r.Some? ==> r.value.1 == buffer[HeaderEnd(buffer).value..]
  {
    match HeaderEnd(buffer)
    case None => None
    case Some(e) =>
      if Contains(buffer[..e], DOUBLE_CRLF) then Some((buffer[..e], buffer[e..]))
      else Some((Replace(buffer[..e], "\n", CRLF), buffer[e..]))
  }

  /**
   * The intended split's header: the output up to and including the first
   * terminator, kept as it is when that is CRLF CRLF and with LF endings
   * rewritten otherwise; either way it ends with a blank line.
   */
  lemma ScriptHeaderShape(buffer: string)
    requires Terminated(buffer)
    ensures var r := SplitScriptOutput(buffer).value;
      var e := HeaderEnd(buffer).value;
      && EndsWithBlankLine(r.0)
      && (Contains(buffer[..e], DOUBLE_CRLF) ==> r.0 + r.1 == buffer)
      && (!Contains(buffer[..e], DOUBLE_CRLF) ==> r.0 == Replace(buffer[..e], "\n", CRLF))
  {
    var e := HeaderEnd(buffer).value;
    if Contains(buffer[..e], DOUBLE_CRLF) {
      CrlfHeaderShape(buffer, e);
    } else {
      LfHeaderShape(buffer, e);
    }
  }

  lemma CrlfHeaderShape(buffer: string, e: nat)
    requires 4 <= e <= |buffer| && buffer[e - 4..e] == DOUBLE_CRLF
    ensures EndsWithBlankLine(buffer[..e]) && buffer[..e] + buffer[e..] == buffer
  {
    assert buffer[..e] == buffer[..e - 4] + DOUBLE_CRLF;
    BlankLineAppended(buffer[..e - 4]);
  }

  lemma LfHeaderShape(buffer: string, e: nat)
    requires 2 <= e <= |buffer| && buffer[e - 2..e] == DOUBLE_LF
    ensures EndsWithBlankLine(Replace(buffer[..e], "\n", CRLF))
  {
    var l := e - 2;
    assert buffer[..e] == buffer[..l] + "\n\n";
    ReplaceCharAppend(buffer[..l], "\n\n", '\n', CRLF);
    LfLfRewritten();
    BlankLineAppended(Replace(buffer[..l], "\n", CRLF));
  }

  /** "\n\n" with its LFs rewritten is CRLF CRLF. */
  lemma LfLfRewritten()
    ensures Replace("\n\n", "\n", CRLF) == DOUBLE_CRLF
  {
    var lf: string := "\n";
    assert "\n\n"[..1] == lf && "\n\n"[1..] == lf;
    assert lf[..1] == lf && lf[1..] == "";
    assert Replace(lf, lf, CRLF) == CRLF + Replace("", lf, CRLF);
  }

  lemma BlankLineAppended(h: string)
    ensures EndsWithBlankLine(h + DOUBLE_CRLF)
  {
    assert (h + DOUBLE_CRLF)[|h|..] == DOUBLE_CRLF;
  }

  /** Where only one kind of terminator occurs, `read_script_header` and the intended split agree. */
  lemma ReadScriptHeaderAgrees(buffer: string)
    requires Contains(buffer, DOUBLE_CRLF) != Contains(buffer, DOUBLE_LF)
    ensures ReadScriptHeader(buffer) == SplitScriptOutput(buffer)
  {
    var e := HeaderEnd(buffer).value;
    if Contains(buffer, DOUBLE_CRLF) {
      assert e == IndexOf(buffer, DOUBLE_CRLF).value + 4;
      PrefixOccurrence(buffer, e, DOUBLE_LF);
    } else {
      assert e == IndexOf(buffer, DOUBLE_LF).value + 2;
      assert !Contains(buffer[..e], DOUBLE_CRLF) by {
        PrefixOccurrence(buffer, e, DOUBLE_CRLF);
      }
    }
  }

  /**
   * As written, `read_script_header` searches the whole output, body
   * included: a header ended by CRLF CRLF followed by a body holding a blank
   * LF line is rejected, though the header itself is well terminated.
   */
  lemma BodyBlankLineRejected(header: string, body: string)
    requires Contains(body, DOUBLE_LF)
    ensures ReadScriptHeader(header + DOUBLE_CRLF + body).None?
    ensures SplitScriptOutput(header + DOUBLE_CRLF + body).Some?
  {
    var s := header + DOUBLE_CRLF + body;
    assert s == (header + DOUBLE_CRLF) + body;
    ContainsSuffix(header + DOUBLE_CRLF, body, DOUBLE_LF);
    assert OccursAt(s, DOUBLE_CRLF, |header|) by {
      assert s[|header|..|header| + 4] == DOUBLE_CRLF;
    }
  }

  // ---------------------------------------------------------------------------
  // read_script_header on a pipe

  /**
   * The pipe-mode reading loop: each element of `pipe` is what one `fread`
   * returns, and the pipe is at end of file once they are used up. Reads are
   * appended to the buffer until it holds a terminator; the reads not taken
   * stay in the pipe.
   */
  function Drain(buffer: string, pipe: seq<string>): (r: (string, seq<string>))
    ensures r.0 + Concat(r.1) == buffer + Concat(pipe)
    ensures |r.1| <= |pipe| && r.1 == pipe[|pipe| - |r.1|..]
    ensures pipe != [] ==> |r.1| < |pipe|
    ensures r.1 != [] ==> Terminated(r.0)
    decreases |pipe|
  {
    if pipe == [] then (buffer, [])
    else
      var b := buffer + pipe[0];
      assert b + Concat(pipe[1..]) == buffer + Concat(pipe);
      if Terminated(b) then (b, pipe[1..])
      else
        var r := Drain(b, pipe[1..]);
        assert pipe[1..][|pipe| - 1 - |r.1|..] == pipe[|pipe| - |r.1|..];
        r
  }

  datatype ScriptRead = ScriptRead(header: Option<string>, buffer: string, rest: seq<string>)

  /**
   * `read_script_header` with a pipe, as written. With no read at all (the
   * pipe already at end of file) neither position is set, neither compares
   * identical to false, and the header is rejected. Output that ends without
   * a terminator leaves both positions false, so the LF branch cuts at
   * false + 2: the "header" is the first two bytes.
   */
  function PipeScriptHeader(buffer: string, pipe: seq<string>): (r: ScriptRead)
  {
    if pipe == [] then ScriptRead(None, buffer, [])
    else
      var (b, rest) := Drain(buffer, pipe);
      if Terminated(b) then
        match ReadScriptHeader(b)
        case None => ScriptRead(None, b, rest)
        case Some((h, after)) => ScriptRead(Some(h), after, rest)
      else
        var n := if |b| < 2 then |b| else 2;
        ScriptRead(Some(Replace(b[..n], "\n", CRLF)), b[n..], rest)
  }

  /** `read_script_header($buffer, $pipe)`: the `while (!feof)` loop, then the cut at whichever position was found. */
  method ReadScriptHeaderFromPipe(buffer: string, pipe: seq<string>) returns (header: Option<string>, buffer': string, rest: seq<string>)
    ensures ScriptRead(header, buffer', rest) == PipeScriptHeader(buffer, pipe)
  {
    buffer', rest := buffer, pipe;
    var found := false;
    while rest != [] && !found
      invariant !found ==> Drain(buffer', rest) == Drain(buffer, pipe)
      invariant found ==> (buffer', rest) == Drain(buffer, pipe) && Terminated(buffer')
      decreases |rest|
    {
      buffer' := buffer' + rest[0];
      rest := rest[1..];
      found := Terminated(buffer');
    }
    if pipe == [] {
      return None, buffer', rest;
    }
    var crlf, lf := IndexOf(buffer', DOUBLE_CRLF), IndexOf(buffer', DOUBLE_LF);
    if crlf.None? {
      // with no "\n\n" either, the position is false and false + 2 is 2
      var cut := if lf.Some? then lf.value + 2 else if |buffer'| < 2 then |buffer'| else 2;
      header, buffer' := Some(Replace(buffer'[..cut], "\n", CRLF)), buffer'[cut..];
    } else if lf.None? {
      header, buffer' := Some(buffer'[..crlf.value + 4]), buffer'[crlf.value + 4..];
    } else {
      header := None;
    }
  }

  /** When the output read so far holds a terminator, the pipe mode cuts it as the buffer mode does. */
  lemma PipeMatchesBufferMode(buffer: string, pipe: seq<string>)
    requires pipe != [] && Terminated(Drain(buffer, pipe).0)
    ensures var b := Drain(buffer, pipe).0;
      var r := PipeScriptHeader(buffer, pipe);
      && r.rest == Drain(buffer, pipe).1
      && (ReadScriptHeader(b).None? ==> r.header.None? && r.buffer == b)
      && (ReadScriptHeader(b).Some? ==> r.header == Some(ReadScriptHeader(b).value.0) && r.buffer == ReadScriptHeader(b).value.1)
  {
  }

  /**
   * As written, output that ends without any terminator is accepted: output
   * such as "a:b" yields the header "a:", which parses to a header "a" with
   * an empty value instead of a rejection.
   */
  lemma UnterminatedOutputAccepted(k: char, v: string)
    requires k !in WHITESPACE && k != ':'
    requires !Terminated([k, ':'] + v)
    ensures PipeScriptHeader("", [[k, ':'] + v]) == ScriptRead(Some([k, ':']), v, [])
    ensures ParseScriptHeader([k, ':']) == Some(map[[k] := ""])
  {
    UnterminatedCut(k, v);
    ColonOnlyHeader(k);
  }

  /** With no terminator, the pipe mode cuts after the first two bytes. */
  lemma UnterminatedCut(k: char, v: string)
    requires k != '\n' && k != ':'
    requires !Terminated([k, ':'] + v)
    ensures PipeScriptHeader("", [[k, ':'] + v]) == ScriptRead(Some([k, ':']), v, [])
  {
    var out := [k, ':'] + v;
    assert "" + out == out;
    var pipe: seq<string> := [out];
    assert Drain("", pipe) == (out, []) by {
      assert pipe[1..] == [];
    }
    assert out[..2] == [k, ':'] && out[2..] == v;
    var h := [k, ':'];
    assert Replace(h, "\n", CRLF) == h by {
      assert !Contains(h, "\n") by {
        assert !OccursAt(h, "\n", 0) by { assert h[0..1][0] == k; }
        assert !OccursAt(h, "\n", 1) by { assert h[1..2][0] == ':'; }
      }
      ReplaceAbsent(h, "\n", CRLF);
    }
  }

  /** A lone "k:" line is a valid script header with an empty field `k`. */
  lemma ColonOnlyHeader(k: char)
    requires k !in WHITESPACE && k != ':'
    ensures ParseScriptHeader([k, ':']) == Some(map[[k] := ""])
  {
    var h := [k, ':'];
    assert Trim(h) == h by {
      assert LTrim(h, WHITESPACE) == h;
    }
    assert Split(h, CRLF) == [h] by {
      assert !OccursAt(h, CRLF, 0) && !OccursAt(h, CRLF, 1);
    }
    assert IndexOf(h, ":") == Some(1) by {
      assert h[1..2] == ":";
      assert !OccursAt(h, ":", 0) by { assert h[0..1][0] == k; }
      assert OccursAt(h, ":", 1);
    }
    assert Trim(h[2..]) == "" && h[..1] == [k];
    var lines: seq<string> := [h];
    assert lines[1..] == [];
    assert ScriptHeaderLines(lines, map[]) == Some(map[[k] := ""]);
  }


  /**
   * The evidently intended pipe mode: the same reading loop, then the
   * intended split; output that ends without a terminator is rejected.
   */
  function PipeScriptHeaderIntended(buffer: string, pipe: seq<string>): (r: ScriptRead)
    ensures r.header.Some? <==> pipe != [] && Terminated(Drain(buffer, pipe).0)
    ensures r.header.Some? ==> EndsWithBlankLine(r.header.value)
  {
    if pipe == [] then ScriptRead(None, buffer, [])
    else
      var (b, rest) := Drain(buffer, pipe);
      if !Terminated(b) then ScriptRead(None, b, rest)
      else
        ScriptHeaderShape(b);
        var (h, after) := SplitScriptOutput(b).value;
        ScriptRead(Some(h), after, rest)
  }

  /**
   * A pipe's last read is the empty one that finds end of file. If the
   * output before it holds a terminator, the reading loop stops before that
   * read, so at least that read is left for the relay loop.
   */
  lemma {:induction false} EofReadLeftUnread(buffer: string, pipe: seq<string>)
    requires pipe != [] && pipe[|pipe| - 1] == "" && !Terminated(buffer)
    ensures Terminated(Drain(buffer, pipe).0) ==> Drain(buffer, pipe).1 != []
    decreases |pipe|
  {
    var b := buffer + pipe[0];
    if |pipe| == 1 {
      assert b == buffer;
    } else if !Terminated(b) {
      var more := pipe[1..];
      assert more[|more| - 1] == pipe[|pipe| - 1];
      EofReadLeftUnread(b, more);
    }
  }

  /**
   * One line of the folded header map: the text before the first ":" maps to
   * the trimmed rest; a line without ":" rejects the header.
   */
  function ScriptHeaderLines(lines: seq<string>, m: map<string, string>): Option<map<string, string>>
    decreases |lines|
  {
    if lines == [] then Some(m)
    else match IndexOf(lines[0], ":")
      case None => None
      case Some(p) => ScriptHeaderLines(lines[1..], m[lines[0][..p] := Trim(lines[0][p + 1..])])
  }

  /** The lines fold to a header map exactly when every line has a ":". */
  lemma {:induction false} ScriptLinesAccepted(lines: seq<string>, m: map<string, string>)
    ensures ScriptHeaderLines(lines, m).Some? <==> forall l | l in lines :: Contains(l, ":")
    decreases |lines|
  {
    if lines != [] {
      assert lines == [lines[0]] + lines[1..];
      match IndexOf(lines[0], ":")
      case None =>
        assert lines[0] in lines && !Contains(lines[0], ":");
      case Some(p) =>
        ScriptLinesAccepted(lines[1..], m[lines[0][..p] := Trim(lines[0][p + 1..])]);
    }
  }

  /** The names of the folded map are the earlier names and those of the lines. */
  lemma {:induction false} ScriptLinesKeys(lines: seq<string>, m: map<string, string>)
    requires ScriptHeaderLines(lines, m).Some?
    ensures forall k :: k in ScriptHeaderLines(lines, m).value <==> k in m || exists l | l in lines :: LineKey(l) == Some(k)
    decreases |lines|
  {
    if lines != [] {
      assert lines == [lines[0]] + lines[1..];
      var p := IndexOf(lines[0], ":").value;
      var m' := m[lines[0][..p] := Trim(lines[0][p + 1..])];
      ScriptLinesKeys(lines[1..], m');
      assert LineKey(lines[0]) == Some(lines[0][..p]);
    }
  }

  /**
   * `parse_script_header`: a header that is empty after trimming, or that
   * has a line without ":", is refused; otherwise the names are those of its
   * lines.
   */
  function ParseScriptHeader(header: string): (r: Option<map<string, string>>)
    ensures r.Some? <==> !EmptyValue(Trim(header)) && forall l | l in Split(Trim(header), CRLF) :: Contains(l, ":")
    ensures r.Some? ==> forall k :: k in r.value <==> exists l | l in Split(Trim(header), CRLF) :: LineKey(l) == Some(k)
  {
    var t := Trim(header);
    if EmptyValue(t) then None
    else
      var lines := Split(t, CRLF);
      ScriptLinesAccepted(lines, map[]);
      var r := ScriptHeaderLines(lines, map[]);
      if r.None? then r
      else
        ScriptLinesKeys(lines, map[]);
        r
  }

  /** Any line without ":" rejects the whole header. */
  lemma {:induction false} LineWithoutColonRejected(lines: seq<string>, m: map<string, string>, i: nat)
    requires i < |lines| && !Contains(lines[i], ":")
    ensures ScriptHeaderLines(lines, m).None?
    decreases |lines|
  {
    if i > 0 {
      match IndexOf(lines[0], ":")
      case None =>
      case Some(p) =>
        assert lines[1..][i - 1] == lines[i];
        LineWithoutColonRejected(lines[1..], m[lines[0][..p] := Trim(lines[0][p + 1..])], i - 1);
    }
  }

  /** The key of a header line is the text before its first ":". */
  function LineKey(line: string): Option<string> {
    match IndexOf(line, ":") case None => None case Some(p) => Some(line[..p])
  }

  /** The last line for a name decides its value, the trimmed text after the first ":". */
  lemma {:induction false} LastScriptHeaderWins(lines: seq<string>, m: map<string, string>, i: nat)
    requires i < |lines| && Contains(lines[i], ":")
    requires forall j | i < j < |lines| :: LineKey(lines[j]) != LineKey(lines[i])
    requires ScriptHeaderLines(lines, m).Some?
    ensures var p := IndexOf(lines[i], ":").value;
      var r := ScriptHeaderLines(lines, m).value;
      lines[i][..p] in r && r[lines[i][..p]] == Trim(lines[i][p + 1..])
    decreases |lines|
  {
    var p0 := IndexOf(lines[0], ":").value;
    var m' := m[lines[0][..p0] := Trim(lines[0][p0 + 1..])];
    assert ScriptHeaderLines(lines, m) == ScriptHeaderLines(lines[1..], m');
    if i == 0 {
      assert LineKey(lines[0]) == Some(lines[0][..p0]);
      forall j | 0 <= j < |lines[1..]|
        ensures LineKey(lines[1..][j]) != Some(lines[0][..p0])
      {
        assert lines[1..][j] == lines[j + 1];
      }
      KeptAfter(lines[1..], m', lines[0][..p0]);
    } else {
      var rest := lines[1..];
      assert rest[i - 1] == lines[i];
      forall j | i - 1 < j < |rest|
        ensures LineKey(rest[j]) != LineKey(rest[i - 1])
      {
        assert rest[j] == lines[j + 1];
      }
      LastScriptHeaderWins(rest, m', i - 1);
    }
  }

  /** A name no later line sets keeps its value. */
  lemma {:induction false} KeptAfter(lines: seq<string>, m: map<string, string>, k: string)
    requires k in m
    requires forall j | 0 <= j < |lines| :: LineKey(lines[j]) != Some(k)
    requires ScriptHeaderLines(lines, m).Some?
    ensures k in ScriptHeaderLines(lines, m).value && ScriptHeaderLines(lines, m).value[k] == m[k]
    decreases |lines|
  {
    if lines != [] {
      var p := IndexOf(lines[0], ":").value;
      assert LineKey(lines[0]) == Some(lines[0][..p]);
      forall j | 0 <= j < |lines[1..]|
        ensures LineKey(lines[1..][j]) != Some(k)
      {
        assert lines[1..][j] == lines[j + 1];
      }
      KeptAfter(lines[1..], m[lines[0][..p] := Trim(lines[0][p + 1..])], k);
    }
  }

  // ---------------------------------------------------------------------------
  // find_resource over an abstract file system

  /** Regular files, directories, and what `glob` returns for each pattern. */
  datatype FileSystem = FileSystem(files: set<string>, dirs: set<string>, glob: map<string, seq<string>>)

  function Glob(fs: FileSystem, pattern: string): seq<string> {
    if pattern in fs.glob then fs.glob[pattern] else []
  }

  /** The index-page loop: an exact index file first, else any `index.*` match, in priority order. */
  function IndexSearch(fs: FileSystem, dir: string, i: nat): (r: Option<seq<string>>)
    requires i <= |INDEX_PAGES|
    ensures r.Some? ==> r.value != []
    decreases |INDEX_PAGES| - i
  {
    if i == |INDEX_PAGES| then None
    else
      var index := dir + INDEX_PAGES[i];
      if index in fs.files then Some([index])
      else if Glob(fs, index + ".*") != [] then Some(Glob(fs, index + ".*"))
      else IndexSearch(fs, dir, i + 1)
  }

  /**
   * `find_resource`: the file itself, a directory's index pages, or every
   * `path.*` match; None (false) when nothing is found.
   */
  function FindResource(fs: FileSystem, path: string): (r: Option<seq<string>>)
    ensures r.Some? ==> r.value != []
    ensures path in fs.files ==> r == Some([path])
    ensures path !in fs.files && path !in fs.dirs ==> (r.None? <==> Glob(fs, path + ".*") == [])
  {
    if path in fs.files then Some([path])
    else if path in fs.dirs then IndexSearch(fs, Replace(path + "/", "//", "/"), 0)
    else if Glob(fs, path + ".*") == [] then None
    else Some(Glob(fs, path + ".*"))
  }

  /** Index pages that match nothing are skipped: the search resumes at the next one. */
  lemma {:induction false} IndexSearchSkips(fs: FileSystem, dir: string, i: nat, k: nat)
    requires i <= k <= |INDEX_PAGES|
    requires forall j | i <= j < k :: dir + INDEX_PAGES[j] !in fs.files && Glob(fs, dir + INDEX_PAGES[j] + ".*") == []
    ensures IndexSearch(fs, dir, i) == IndexSearch(fs, dir, k)
    decreases k - i
  {
    if i < k {
      IndexSearchSkips(fs, dir, i + 1, k);
    }
  }

  /**
   * A directory is served by its first index page, in the configured order,
   * that exists as a file, provided no earlier page exists or has variants.
   */
  lemma DirectoryIndex(fs: FileSystem, path: string, k: nat)
    requires path !in fs.files && path in fs.dirs && k < |INDEX_PAGES|
    requires var dir := Replace(path + "/", "//", "/");
      && (forall j | 0 <= j < k :: dir + INDEX_PAGES[j] !in fs.files && Glob(fs, dir + INDEX_PAGES[j] + ".*") == [])
      && dir + INDEX_PAGES[k] in fs.files
    ensures FindResource(fs, path) == Some([Replace(path + "/", "//", "/") + INDEX_PAGES[k]])
  {
    IndexSearchSkips(fs, Replace(path + "/", "//", "/"), 0, k);
  }

  /** A directory with no index page and no index variants is not found. */
  lemma DirectoryWithoutIndex(fs: FileSystem, path: string)
    requires path !in fs.files && path in fs.dirs
    requires var dir := Replace(path + "/", "//", "/");
      forall j | 0 <= j < |INDEX_PAGES| :: dir + INDEX_PAGES[j] !in fs.files && Glob(fs, dir + INDEX_PAGES[j] + ".*") == []
    ensures FindResource(fs, path).None?
  {
    IndexSearchSkips(fs, Replace(path + "/", "//", "/"), 0, |INDEX_PAGES|);
  }
}
