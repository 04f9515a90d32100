/**
 * Content negotiation as `Response::get_resource_value` and
 * `Response::content_negotiation` compute it (sections 12 and 14.1-14.4 of
 * RFC 2616): the factor each Accept-family header contributes, the score of
 * a candidate, the candidates that survive scoring, their ranking, and the
 * group tied at the top. Qualities are exact reals.
 */
module Negotiation {
  import opened Wrappers
  import opened Strings
  import opened Utility

  /** The four Accept-family headers once `accept_parsing` has parsed them. */
  datatype Preferences = Preferences(types: Prefs, languages: Prefs, charsets: Prefs, encodings: Prefs)

  const CGI_SCRIPT := "cgi-script"
  const PHP_SCRIPT := "application/x-httpd-php"
  const IDENTITY := "identity"

  predicate IsScriptMime(t: string) {
    t == CGI_SCRIPT || t == PHP_SCRIPT
  }

  /** Every quality lies between 0 and 1. */
  predicate Bounded(p: Prefs) {
    forall i | 0 <= i < |p| :: 0.0 <= p[i].1 <= 1.0
  }

  // ---------------------------------------------------------------------------
  // accept_parsing

  /** The encoding preferences always list "identity": appended with quality 1 when the header does not name it. */
  function WithIdentity(e: Prefs): (r: Prefs)
    ensures Lookup(r, IDENTITY).Some?
    ensures Lookup(e, IDENTITY).Some? ==> r == e
    ensures Lookup(e, IDENTITY).None? ==> Lookup(r, IDENTITY) == Some(1.0)
    ensures forall k | k != IDENTITY :: Lookup(r, k) == Lookup(e, k)
  {
    if Lookup(e, IDENTITY).Some? then e
    else
      IdentityAppended(e);
      e + [(IDENTITY, 1.0)]
  }

  lemma {:induction false} IdentityAppended(e: Prefs)
    requires Lookup(e, IDENTITY).None?
    ensures Lookup(e + [(IDENTITY, 1.0)], IDENTITY) == Some(1.0)
    ensures forall k | k != IDENTITY :: Lookup(e + [(IDENTITY, 1.0)], k) == Lookup(e, k)
    decreases |e|
  {
    if e != [] {
      assert (e + [(IDENTITY, 1.0)])[1..] == e[1..] + [(IDENTITY, 1.0)];
      IdentityAppended(e[1..]);
    }
  }

  /** Parsed qualities lie between 0 and 1, and "identity" is added at 1. */
  lemma IdentityBounded(e: Prefs)
    requires forall x | x in e :: 0.0 <= x.1 <= 1.0
    ensures Bounded(e) && Bounded(WithIdentity(e))
  {
    assert forall i | 0 <= i < |e| :: e[i] in e;
    var w := WithIdentity(e);
    assert forall i | 0 <= i < |w| :: w[i] in e || w[i] == (IDENTITY, 1.0);
  }

  /**
   * `accept_parsing` with no feature fixed in advance: all four headers are
   * parsed, in the order Accept, Accept-Language, Accept-Charset,
   * Accept-Encoding; any malformed one fails the whole (None).
   */
  function ParsePreferences(accept: string, language: string, charset: string, encoding: string): (r: Option<Preferences>)
    ensures r.Some? <==>
      && ParseAccept(accept).Accepted? && ParseAccept(language).Accepted?
      && ParseAccept(charset).Accepted? && ParseAccept(encoding).Accepted?
    ensures r.Some? ==>
      && r.value.types == ParseAccept(accept).prefs
      && r.value.languages == ParseAccept(language).prefs
      && r.value.charsets == ParseAccept(charset).prefs
      && Lookup(r.value.encodings, IDENTITY).Some?
      && forall k | k != IDENTITY :: Lookup(r.value.encodings, k) == Lookup(ParseAccept(encoding).prefs, k)
    ensures r.Some? ==> AllBounded(r.value)
  {
    match (ParseAccept(accept), ParseAccept(language), ParseAccept(charset), ParseAccept(encoding))
    case (Accepted(a), Accepted(l), Accepted(c), Accepted(e)) =>
      IdentityBounded(e);
      Some(Preferences(a, l, c, WithIdentity(e)))
    case _ => None
  }

  // ---------------------------------------------------------------------------
  // get_resource_value

  /** The wildcard form of a media type: its subtype (the text after the first "/") replaced by "*" wherever it occurs. */
  function WildcardType(t: string): string {
    var start := match IndexOf(t, "/") case None => 1 case Some(p) => p + 1;
    var sub := if start <= |t| then t[start..] else "";
    Replace(t, sub, "*")
  }

  /**
   * The media-type axis: script types and an empty Accept are neutral (1);
   * otherwise the exact type, then the type with its subtype replaced by a
   * star, then the star-slash-star range; None (score 0) when none is listed.
   */
  function TypeFactor(types: Prefs, mime: string): (f: Option<real>)
    ensures IsScriptMime(mime) || types == [] ==> f == Some(1.0)
    ensures !IsScriptMime(mime) && Lookup(types, mime).Some? ==> f == Lookup(types, mime)
    ensures !IsScriptMime(mime) && types != [] && Lookup(types, mime).None? && Lookup(types, WildcardType(mime)).Some? ==>
      f == Lookup(types, WildcardType(mime))
    ensures !IsScriptMime(mime) && types != [] && Lookup(types, mime).None? && Lookup(types, WildcardType(mime)).None? ==>
      f == Lookup(types, "*/*")
    ensures f.None? <==>
      && !IsScriptMime(mime) && types != []
      && Lookup(types, mime).None? && Lookup(types, WildcardType(mime)).None? && Lookup(types, "*/*").None?
  {
    if IsScriptMime(mime) || types == [] then Some(1.0)
    else match Lookup(types, mime)
      case Some(q) => Some(q)
      case None =>
        match Lookup(types, WildcardType(mime))
        case Some(q) => Some(q)
        case None => Lookup(types, "*/*")
  }

  /**
   * The language, charset and encoding axes. An empty header is neutral. A
   * feature the file does not have takes "*"'s quality if listed and is
   * otherwise neutral; a feature it has takes its own quality, else "*"'s,
   * else None (score 0).
   */
  function FeatureFactor(prefs: Prefs, feature: Option<string>): (f: Option<real>)
    ensures prefs == [] ==> f == Some(1.0)
    ensures feature.None? ==> f.Some?
    ensures f.None? <==> prefs != [] && feature.Some? && Lookup(prefs, feature.value).None? && Lookup(prefs, "*").None?
    ensures prefs != [] && feature.Some? && Lookup(prefs, feature.value).Some? ==> f == Lookup(prefs, feature.value)
    ensures prefs != [] && feature.Some? && Lookup(prefs, feature.value).None? ==> f == Lookup(prefs, "*")
    ensures prefs != [] && feature.None? ==> f == Some(Lookup(prefs, "*").GetOr(1.0))
  {
    if prefs == [] then Some(1.0)
    else match feature
      case None => Some(Lookup(prefs, "*").GetOr(1.0))
      case Some(x) =>
        match Lookup(prefs, x)
        case Some(q) => Some(q)
        case None => Lookup(prefs, "*")
  }

  function Get(o: Options, k: string): Option<string> {
    if k in o then Some(o[k]) else None
  }

  /**
   * The defaults `get_resource_value` writes into a candidate's features: a
   * missing type is "cgi-script" for a script and "text/plain" otherwise; a
   * missing encoding is "identity".
   */
  function Defaulted(o: Options, isScript: bool): (d: Options)
    ensures MIME_TYPE in d && ENCODING in d
    ensures d[MIME_TYPE] == if MIME_TYPE in o then o[MIME_TYPE] else if isScript then CGI_SCRIPT else "text/plain"
    ensures d[ENCODING] == if ENCODING in o then o[ENCODING] else IDENTITY
    ensures forall k | k != MIME_TYPE && k != ENCODING :: Get(d, k) == Get(o, k)
  {
    var m := if MIME_TYPE in o then o else o[MIME_TYPE := if isScript then CGI_SCRIPT else "text/plain"];
    if ENCODING in m then m else m[ENCODING := IDENTITY]
  }

  /** The four factors of a candidate, in the order they are checked. */
  function Factors(p: Preferences, isScript: bool, o: Options): seq<Option<real>> {
    var d := Defaulted(o, isScript);
    [ TypeFactor(p.types, d[MIME_TYPE]),
      FeatureFactor(p.languages, Get(o, LANGUAGE)),
      FeatureFactor(p.charsets, Get(o, CHARSET)),
      FeatureFactor(p.encodings, Some(d[ENCODING])) ]
  }

  /**
   * The running product of `get_resource_value`: it starts at 1, multiplies in
   * each axis in turn and gives 0 as soon as an axis has no match.
   */
  function Product(fs: seq<Option<real>>): real {
    if fs == [] then 1.0
    else if fs[0].None? then 0.0
    else fs[0].value * Product(fs[1..])
  }

  /** `get_resource_value`: the product of the four factors. */
  function Score(p: Preferences, isScript: bool, o: Options): real
  {
    Product(Factors(p, isScript, o))
  }

  /** The score is 0 exactly when an axis has no match or matches with quality 0. */
  lemma ScoreZero(p: Preferences, isScript: bool, o: Options)
    ensures Score(p, isScript, o) == 0.0 <==>
      exists i | 0 <= i < 4 :: Factors(p, isScript, o)[i] == None || Factors(p, isScript, o)[i] == Some(0.0)
  {
    ProductZero(Factors(p, isScript, o));
  }

  /** When every quality lies in [0, 1], so does the score. */
  lemma ScoreBounded(p: Preferences, isScript: bool, o: Options)
    requires AllBounded(p)
    ensures 0.0 <= Score(p, isScript, o) <= 1.0
  {
    FactorsBounded(p, isScript, o);
    ProductBounded(Factors(p, isScript, o));
  }

  /** A product of qualities between 0 and 1 stays between 0 and 1. */
  lemma UnitProduct(a: real, b: real)
    requires 0.0 <= a <= 1.0 && 0.0 <= b <= 1.0
    ensures 0.0 <= a * b <= b
  {
  }

  lemma {:induction false} ProductBounded(fs: seq<Option<real>>)
    requires forall i | 0 <= i < |fs| && fs[i].Some? :: 0.0 <= fs[i].value <= 1.0
    ensures 0.0 <= Product(fs) <= 1.0
  {
    if fs != [] && fs[0].Some? {
      ProductBounded(fs[1..]);
      UnitProduct(fs[0].value, Product(fs[1..]));
    }
  }

  /** The product is 0 exactly when some axis is unmatched or matched with quality 0. */
  lemma {:induction false} ProductZero(fs: seq<Option<real>>)
    ensures Product(fs) == 0.0 <==> exists i | 0 <= i < |fs| :: fs[i] == None || fs[i] == Some(0.0)
  {
    if fs != [] {
      ProductZero(fs[1..]);
      if fs[0].None? || fs[0] == Some(0.0) {
        assert fs[0] == None || fs[0] == Some(0.0);
      } else {
        if exists i | 0 <= i < |fs[1..]| :: fs[1..][i] == None || fs[1..][i] == Some(0.0) {
          var i :| 0 <= i < |fs[1..]| && (fs[1..][i] == None || fs[1..][i] == Some(0.0));
          assert fs[i + 1] == fs[1..][i];
        }
        if exists i | 0 <= i < |fs| :: fs[i] == None || fs[i] == Some(0.0) {
          var i :| 0 <= i < |fs| && (fs[i] == None || fs[i] == Some(0.0));
          assert fs[1..][i - 1] == fs[i];
        }
      }
    }
  }

  lemma LookupBounded(p: Prefs, k: string)
    requires Bounded(p) && Lookup(p, k).Some?
    ensures 0.0 <= Lookup(p, k).value <= 1.0
  {
    var i :| 0 <= i < |p| && p[i] == (k, Lookup(p, k).value);
  }

  lemma TypeFactorBounded(types: Prefs, mime: string)
    requires Bounded(types)
    ensures var f := TypeFactor(types, mime); f.Some? ==> 0.0 <= f.value <= 1.0
  {
    if !IsScriptMime(mime) && types != [] {
      if Lookup(types, mime).Some? {
        LookupBounded(types, mime);
      } else if Lookup(types, WildcardType(mime)).Some? {
        LookupBounded(types, WildcardType(mime));
      } else if Lookup(types, "*/*").Some? {
        LookupBounded(types, "*/*");
      }
    }
  }

  lemma FeatureFactorBounded(prefs: Prefs, feature: Option<string>)
    requires Bounded(prefs)
    ensures var f := FeatureFactor(prefs, feature); f.Some? ==> 0.0 <= f.value <= 1.0
  {
    if prefs != [] {
      if feature.Some? && Lookup(prefs, feature.value).Some? {
        LookupBounded(prefs, feature.value);
      } else if Lookup(prefs, "*").Some? {
        LookupBounded(prefs, "*");
      }
    }
  }

  predicate AllBounded(p: Preferences) {
    Bounded(p.types) && Bounded(p.languages) && Bounded(p.charsets) && Bounded(p.encodings)
  }

  lemma FactorsBounded(p: Preferences, isScript: bool, o: Options)
    requires AllBounded(p)
    ensures var f := Factors(p, isScript, o);
      forall i | 0 <= i < 4 && f[i].Some? :: 0.0 <= f[i].value <= 1.0
  {
    var d := Defaulted(o, isScript);
    TypeFactorBounded(p.types, d[MIME_TYPE]);
    FeatureFactorBounded(p.languages, Get(o, LANGUAGE));
    FeatureFactorBounded(p.charsets, Get(o, CHARSET));
    FeatureFactorBounded(p.encodings, Some(d[ENCODING]));
  }

  /** Whatever the four headers, a score computed from parsed preferences lies in [0, 1]. */
  lemma ParsedScoreBounded(accept: string, language: string, charset: string, encoding: string, isScript: bool, o: Options)
    requires ParsePreferences(accept, language, charset, encoding).Some?
    ensures 0.0 <= Score(ParsePreferences(accept, language, charset, encoding).value, isScript, o) <= 1.0
  {
    ScoreBounded(ParsePreferences(accept, language, charset, encoding).value, isScript, o);
  }

  /** A file of type "a" in language "a", scored against a type and a language both listed at quality `q`. */
  lemma SquaredQuality(q: real)
    ensures Score(Preferences([("a", q)], [("a", q)], [], [(IDENTITY, 1.0)]), false, map[MIME_TYPE := "a", LANGUAGE := "a"]) == q * q
  {
    var p := Preferences([("a", q)], [("a", q)], [], [(IDENTITY, 1.0)]);
    var o := map[MIME_TYPE := "a", LANGUAGE := "a"];
    var d := Defaulted(o, false);
    assert d[MIME_TYPE] == "a" && d[ENCODING] == IDENTITY;
    assert !IsScriptMime("a");
    var f := Factors(p, false, o);
    assert f == [Some(q), Some(q), Some(1.0), Some(1.0)];
    assert f[1..][1..][1..] == [Some(1.0)];
    assert Product(f[1..][1..][1..]) == 1.0 * Product([]);
    assert Product(f[1..][1..]) == 1.0;
    assert Product(f[1..]) == q;
    assert Score(p, false, o) == Product(f) == q * q;
  }

  /**
   * As written, `parse_accept` keeps the quality -2 of "a;q=-2", and a type
   * and a language refused that way multiply to a score of 4: the candidate
   * survives scoring, outside [0, 1]. With the corrected entry the score is 0.
   */
  lemma NegativeQualitiesMultiply()
    ensures ParseEntryAsWritten("a;q=-2") == Some(("a", -2.0)) && ParseEntry("a;q=-2") == Some(("a", 0.0))
    ensures Score(Preferences([("a", -2.0)], [("a", -2.0)], [], [(IDENTITY, 1.0)]), false, map[MIME_TYPE := "a", LANGUAGE := "a"]) == 4.0
    ensures Score(Preferences([("a", 0.0)], [("a", 0.0)], [], [(IDENTITY, 1.0)]), false, map[MIME_TYPE := "a", LANGUAGE := "a"]) == 0.0
  {
    NegativeQualityKept();
    SquaredQuality(-2.0);
    SquaredQuality(0.0);
  }

  /**
   * Without Accept-family headers, `accept_parsing` leaves only the
   * "identity" encoding: a candidate scores 1 unless it has an encoding other
   * than identity, which scores 0.
   */
  lemma NoAcceptHeaders(isScript: bool, o: Options)
    ensures var none := ParsePreferences("", "", "", "").value;
      Score(none, isScript, o) == if ENCODING in o && o[ENCODING] != IDENTITY then 0.0 else 1.0
  {
    var none := ParsePreferences("", "", "", "").value;
    assert none == Preferences([], [], [], [(IDENTITY, 1.0)]);
    var last := if ENCODING in o && o[ENCODING] != IDENTITY then None else Some(1.0);
    IdentityOnlyFactors(isScript, o);
    ThreeNeutralFactors(last);
  }

  lemma ThreeNeutralFactors(last: Option<real>)
    ensures Product([Some(1.0), Some(1.0), Some(1.0), last]) == if last.None? then 0.0 else last.value
  {
    var f := [Some(1.0), Some(1.0), Some(1.0), last];
    assert f[1..][1..][1..] == [last];
    assert Product(f[1..][1..][1..]) == Product(f[1..][1..]) == Product(f[1..]) == Product(f);
    assert Product([last]) == if last.None? then 0.0 else last.value * Product([]);
  }

  /** Only the encoding axis can reject a candidate when no Accept header was sent. */
  lemma IdentityOnlyFactors(isScript: bool, o: Options)
    ensures Factors(Preferences([], [], [], [(IDENTITY, 1.0)]), isScript, o)
         == [Some(1.0), Some(1.0), Some(1.0), if ENCODING in o && o[ENCODING] != IDENTITY then None else Some(1.0)]
  {
    var d := Defaulted(o, isScript);
    var encodings := [(IDENTITY, 1.0)];
    if d[ENCODING] != IDENTITY {
      assert Lookup(encodings, d[ENCODING]).None?;
      assert Lookup(encodings, "*").None?;
    }
  }

  // ---------------------------------------------------------------------------
  // content_negotiation

  /** `content_negotiation` with exactly one candidate: its own features, never the Accept headers. */
  function SingleOptions(cfg: Config, path: string, isScript: bool): (o: Options)
    ensures SetFileFeatures(cfg, path) != map[] ==> o == SetFileFeatures(cfg, path)
    ensures SetFileFeatures(cfg, path) == map[] && isScript ==> o == map[MIME_TYPE := CGI_SCRIPT]
    ensures SetFileFeatures(cfg, path) == map[] && !isScript ==> o == map["mime-type" := "text/plain"] && MIME_TYPE !in o
  {
    var f := SetFileFeatures(cfg, path);
    if f != map[] then f
    else if isScript then map[MIME_TYPE := CGI_SCRIPT]
    else map["mime-type" := "text/plain"]
  }

  /** A scored candidate and the features `get_resource_value` left it with. */
  datatype Candidate = Candidate(path: string, score: real, options: Options)

  function Scored(cfg: Config, p: Preferences, isScript: bool, path: string): Candidate {
    var f := SetFileFeatures(cfg, path);
    Candidate(path, Score(p, isScript, f), Defaulted(f, isScript))
  }

  /** Every candidate path scored, in the order `find_resource` returned them. */
  function Candidates(cfg: Config, p: Preferences, isScript: bool, paths: seq<string>): (cs: seq<Candidate>)
    ensures |cs| == |paths|
    ensures forall i | 0 <= i < |paths| :: cs[i] == Scored(cfg, p, isScript, paths[i])
  {
    seq(|paths|, i requires 0 <= i < |paths| => Scored(cfg, p, isScript, paths[i]))
  }

  /** The scoring loop: every candidate whose score is not 0, in the order found. */
  function Survivors(cs: seq<Candidate>): (r: seq<Candidate>)
    ensures |r| <= |cs|
    ensures forall c | c in r :: c in cs && c.score != 0.0
    ensures forall c | c in cs && c.score != 0.0 :: c in r
    decreases |cs|
  {
    if cs == [] then []
    else
      var init := Survivors(cs[..|cs| - 1]);
      var c := cs[|cs| - 1];
      assert cs == cs[..|cs| - 1] + [c];
      if c.score != 0.0 then init + [c] else init
  }

  /** One more candidate scored: it joins the survivors unless its score is 0. */
  lemma SurvivorsStep(cfg: Config, p: Preferences, isScript: bool, paths: seq<string>, i: nat)
    requires i < |paths|
    ensures var c := Scored(cfg, p, isScript, paths[i]);
      Survivors(Candidates(cfg, p, isScript, paths[..i + 1]))
        == Survivors(Candidates(cfg, p, isScript, paths[..i])) + if c.score != 0.0 then [c] else []
  {
    var cs := Candidates(cfg, p, isScript, paths[..i + 1]);
    assert cs[..i] == Candidates(cfg, p, isScript, paths[..i]);
    assert cs[i] == Scored(cfg, p, isScript, paths[i]);
  }

  /** The survivors are empty exactly when every candidate scores 0. */
  lemma NoSurvivors(cs: seq<Candidate>)
    ensures Survivors(cs) == [] <==> forall i | 0 <= i < |cs| :: cs[i].score == 0.0
  {
    if Survivors(cs) == [] {
      forall i | 0 <= i < |cs|
        ensures cs[i].score == 0.0
      {
        assert cs[i] in cs;
      }
    } else {
      assert Survivors(cs)[0] in Survivors(cs);
    }
  }

  /** No candidate survives exactly when every found path scores 0. */
  lemma AllScoredZero(cfg: Config, p: Preferences, isScript: bool, found: seq<string>)
    ensures Survivors(Candidates(cfg, p, isScript, found)) == [] <==>
      forall i | 0 <= i < |found| :: Score(p, isScript, SetFileFeatures(cfg, found[i])) == 0.0
  {
    var cs := Candidates(cfg, p, isScript, found);
    NoSurvivors(cs);
    forall i | 0 <= i < |found|
      ensures cs[i].score == Score(p, isScript, SetFileFeatures(cfg, found[i]))
    {
      assert cs[i] == Scored(cfg, p, isScript, found[i]);
    }
  }

  /** The survivors as a path -> score array, ranked by `arsort`. */
  function Ranking(r: seq<Candidate>): (ranked: Prefs)
    ensures SortedDesc(ranked) && |ranked| == |r|
    ensures multiset(ranked) == multiset(seq(|r|, i requires 0 <= i < |r| => (r[i].path, r[i].score)))
  {
    SortDesc(seq(|r|, i requires 0 <= i < |r| => (r[i].path, r[i].score)))
  }

  /** A pair is ranked exactly when some survivor has that path and score. */
  lemma RankedPair(s: seq<Candidate>, path: string, q: real)
    ensures (path, q) in Ranking(s) <==> exists k | 0 <= k < |s| :: s[k].path == path && s[k].score == q
  {
    var pairs := seq(|s|, i requires 0 <= i < |s| => (s[i].path, s[i].score));
    assert (path, q) in Ranking(s) <==> (path, q) in multiset(pairs);
    if (path, q) in pairs {
      var k :| 0 <= k < |pairs| && pairs[k] == (path, q);
      assert s[k].path == path && s[k].score == q;
    }
    if exists k | 0 <= k < |s| :: s[k].path == path && s[k].score == q {
      var k :| 0 <= k < |s| && s[k].path == path && s[k].score == q;
      assert pairs[k] == (path, q);
    }
  }

  /** The survivors of scoring are the found paths' candidates whose score is not 0. */
  lemma SurvivorOf(cfg: Config, p: Preferences, isScript: bool, found: seq<string>, c: Candidate)
    ensures c in Survivors(Candidates(cfg, p, isScript, found)) <==>
      exists i | 0 <= i < |found| :: c == Scored(cfg, p, isScript, found[i]) && c.score != 0.0
  {
    var cs := Candidates(cfg, p, isScript, found);
    if c in Survivors(cs) {
      var i :| 0 <= i < |cs| && cs[i] == c;
    }
    if exists i | 0 <= i < |found| :: c == Scored(cfg, p, isScript, found[i]) && c.score != 0.0 {
      var i :| 0 <= i < |found| && c == Scored(cfg, p, isScript, found[i]) && c.score != 0.0;
      assert cs[i] in cs;
    }
  }

  // ---------------------------------------------------------------------------
  // get_resource: grouping the ranking's ties

  /** The paths whose score equals `top`, in ranking order. */
  function Tied(ranked: Prefs, top: real): (r: seq<string>)
    ensures |r| <= |ranked|
    ensures forall k | k in r :: (k, top) in ranked
    ensures forall i | 0 <= i < |ranked| && ranked[i].1 == top :: ranked[i].0 in r
    decreases |ranked|
  {
    if ranked == [] then []
    else
      var init := ranked[..|ranked| - 1];
      var last := ranked[|ranked| - 1];
      assert ranked == init + [last];
      Tied(init, top) + if last.1 == top then [last.0] else []
  }

  /** One more entry of the ranking examined: it joins the group when its score is the top score. */
  lemma TiedStep(ranked: Prefs, top: real, j: nat)
    requires j < |ranked|
    ensures Tied(ranked[..j + 1], top) == Tied(ranked[..j], top) + if ranked[j].1 == top then [ranked[j].0] else []
  {
    assert ranked[..j + 1][..j] == ranked[..j];
  }

  /**
   * On a ranking, the group kept by `get_resource` is exactly the paths with
   * the highest score: the first one's score bounds all the others.
   */
  lemma TiedAreTheBest(ranked: Prefs)
    requires SortedDesc(ranked) && ranked != []
    ensures Tied(ranked, ranked[0].1) != [] && Tied(ranked, ranked[0].1)[0] == ranked[0].0
    ensures forall i | 0 <= i < |ranked| :: ranked[i].1 <= ranked[0].1
    ensures forall i | 0 <= i < |ranked| :: ranked[i].1 == ranked[0].1 ==> ranked[i].0 in Tied(ranked, ranked[0].1)
    ensures forall k | k in Tied(ranked, ranked[0].1) :: (k, ranked[0].1) in ranked
  {
    TiedStartsWith(ranked, ranked[0].1);
  }

  lemma {:induction false} TiedStartsWith(ranked: Prefs, top: real)
    requires ranked != [] && ranked[0].1 == top
    ensures Tied(ranked, top) != [] && Tied(ranked, top)[0] == ranked[0].0
    decreases |ranked|
  {
    if |ranked| > 1 {
      var init := ranked[..|ranked| - 1];
      TiedStartsWith(init, top);
    }
  }
}
