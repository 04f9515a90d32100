/**
 * `Response`: the state a response is built in, for one request. The
 * constructor resolves the request path against the host table (home
 * directory and aliases) and fixes the connection; `GetResource` finds the
 * candidate files, negotiates between them and sets the status code;
 * `SetHeaders` and `SetEnv` build the entity headers and the CGI/1.1
 * environment (section 4.1 of RFC 3875); `HandleScriptReply` applies the
 * decision `send_script` takes on a script's header block.
 */
module Responses {
  import opened Wrappers
  import opened Strings
  import opened Utility
  import opened Negotiation
  import opened Requests
  import opened Gateway

  const HOME := "home"
  const CGI_BIN := "/cgi-bin/"

  // ---------------------------------------------------------------------------
  // Host table rewriting

  /**
   * The alias loop: in table order, every entry other than "home" whose
   * pattern occurs in the path has it replaced everywhere by its target.
   * The flag records whether the "/cgi-bin/" pattern was replaced.
   */
  function Aliased(path: string, entries: HostEntry): (string, bool)
    decreases |entries|
  {
    if entries == [] then (path, false)
    else
      var init := entries[..|entries| - 1];
      assert forall i | 0 <= i < |init| :: init[i] == entries[i];
      var prev := Aliased(path, init);
      var (k, v) := entries[|entries| - 1];
      if k == HOME || !Contains(prev.0, k) then prev
      else (Replace(prev.0, k, v), prev.1 || k == CGI_BIN)
  }

  /**
   * The request is marked as a script exactly when a "/cgi-bin/" entry is
   * reached while the path, as rewritten so far, contains "/cgi-bin/".
   */
  lemma {:induction false} CgiBinMarksScript(path: string, entries: HostEntry)
    ensures Aliased(path, entries).1 <==>
      exists i | 0 <= i < |entries| :: entries[i].0 == CGI_BIN && Contains(Aliased(path, entries[..i]).0, CGI_BIN)
    decreases |entries|
  {
    if entries != [] {
      var n := |entries| - 1;
      var init := entries[..n];
      CgiBinMarksScript(path, init);
      AliasedFlagStep(path, entries);
      forall i | 0 <= i < n
        ensures (init[i].0 == CGI_BIN && Contains(Aliased(path, init[..i]).0, CGI_BIN)) ==
                (entries[i].0 == CGI_BIN && Contains(Aliased(path, entries[..i]).0, CGI_BIN))
      {
        assert init[i] == entries[i] && init[..i] == entries[..i];
      }
    }
  }

  /** One more entry raises the flag exactly when it is "/cgi-bin/" and the path so far contains it. */
  lemma AliasedFlagStep(path: string, entries: HostEntry)
    requires entries != []
    ensures var n := |entries| - 1;
      Aliased(path, entries).1 <==>
        Aliased(path, entries[..n]).1 || (entries[n].0 == CGI_BIN && Contains(Aliased(path, entries[..n]).0, CGI_BIN))
  {
    assert |HOME| != |CGI_BIN|;
  }

  /** A path in which no alias pattern occurs is left alone and is not a script. */
  lemma {:induction false} AliasesUntouched(path: string, entries: HostEntry)
    requires forall i | 0 <= i < |entries| :: entries[i].0 == HOME || !Contains(path, entries[i].0)
    ensures Aliased(path, entries) == (path, false)
    decreases |entries|
  {
    if entries != [] {
      var init := entries[..|entries| - 1];
      assert forall i | 0 <= i < |init| :: init[i] == entries[i];
      AliasesUntouched(path, init);
    }
  }

  /**
   * The reverse loop for a script's virtual path: in table order, every
   * entry other than "home" whose target occurs has it replaced by its
   * pattern.
   */
  function Unaliased(path: string, entries: HostEntry): (r: string)
    ensures (forall i | 0 <= i < |entries| :: entries[i].0 == HOME || !Contains(path, entries[i].1)) ==> r == path
    decreases |entries|
  {
    if entries == [] then path
    else
      var init := entries[..|entries| - 1];
      assert forall i | 0 <= i < |init| :: init[i] == entries[i];
      var prev := Unaliased(path, init);
      var (k, v) := entries[|entries| - 1];
      if k == HOME || !Contains(prev, v) then prev else Replace(prev, v, k)
  }

  /** A script's virtual path: its file path with the home directory removed, after "/", aliases restored. */
  function VirtualPath(script: string, home: string, entries: HostEntry): string {
    Unaliased("/" + Replace(script, home, ""), entries)
  }

  /**
   * A script under the home directory, reached without an alias, is
   * referred to by its path below the home directory.
   */
  lemma VirtualPathUnderHome(home: string, rest: string, entries: HostEntry)
    requires home != "" && !Contains(rest, home)
    requires forall i | 0 <= i < |entries| :: entries[i].0 == HOME || !Contains("/" + rest, entries[i].1)
    ensures VirtualPath(home + rest, home, entries) == "/" + rest
  {
    ReplaceAbsent(rest, home, "");
    assert (home + rest)[..|home|] == home && (home + rest)[|home|..] == rest;
    assert Replace(home + rest, home, "") == rest;
  }

  // ---------------------------------------------------------------------------
  // Connection

  /**
   * The connection after a request: its Connection header when it sent one,
   * otherwise "keep-alive" for HTTP/1.1 and "close" for any other version.
   */
  function ConnectionFor(version: Option<string>, header: Option<string>): (c: string)
    ensures header.Some? ==> c == header.value
    ensures header.None? ==> (c == "keep-alive" <==> version == Some("1.1")) && (c == "close" <==> version != Some("1.1"))
  {
    if header.Some? then header.value
    else if version == Some("1.1") then "keep-alive"
    else "close"
  }

  // ---------------------------------------------------------------------------
  // content_negotiation and get_resource

  /** What `content_negotiation` returns, with the features it leaves in `$options`. */
  datatype Negotiated =
    | BadAccept                                            // false: a malformed Accept-family header
    | Chosen(path: string, options: Options)               // 1: one candidate left
    | Ranked(ranking: Prefs, choices: seq<(string, Options)>)  // 0 or at least 2 candidates, ranked

  /** The paths of a ranking, best first. */
  function Paths(ranking: Prefs): (r: seq<string>)
    ensures |r| == |ranking| && forall i | 0 <= i < |r| :: r[i] == ranking[i].0
  {
    seq(|ranking|, i requires 0 <= i < |ranking| => ranking[i].0)
  }

  function OptionsOf(s: seq<Candidate>): (r: seq<(string, Options)>)
    ensures |r| == |s| && forall i | 0 <= i < |s| :: r[i] == (s[i].path, s[i].options)
  {
    seq(|s|, i requires 0 <= i < |s| => (s[i].path, s[i].options))
  }

  /**
   * `content_negotiation` on the candidates `find_resource` returned: one
   * candidate is taken with its own features and no Accept header is looked
   * at; otherwise all four Accept-family headers are parsed and the
   * candidates with a nonzero score are kept.
   */
  function Negotiate(cfg: Config, found: seq<string>, isScript: bool, accept: string, language: string, charset: string, encoding: string): Negotiated
  {
    if |found| == 1 then Chosen(found[0], SingleOptions(cfg, found[0], isScript))
    else match ParsePreferences(accept, language, charset, encoding)
      case None => BadAccept
      case Some(p) =>
        var s := Survivors(Candidates(cfg, p, isScript, found));
        if |s| == 1 then Chosen(s[0].path, s[0].options)
        else Ranked(Ranking(s), OptionsOf(s))
  }

  /**
   * Negotiation fails only on a malformed Accept-family header with more
   * than one candidate; what it chooses or ranks is always among the found
   * paths, and a ranking is best first and holds no zero score.
   */
  lemma NegotiateOutcome(cfg: Config, found: seq<string>, isScript: bool, accept: string, language: string, charset: string, encoding: string)
    ensures var r := Negotiate(cfg, found, isScript, accept, language, charset, encoding);
      && (r.BadAccept? <==> |found| != 1 && ParsePreferences(accept, language, charset, encoding).None?)
      && (r.Chosen? ==> r.path in found)
      && (r.Ranked? ==> SortedDesc(r.ranking) && forall x | x in r.ranking :: x.0 in found && x.1 != 0.0)
  {
    if |found| != 1 {
      var pr := ParsePreferences(accept, language, charset, encoding);
      if pr.Some? {
        var s := Survivors(Candidates(cfg, pr.value, isScript, found));
        SurvivorsFound(cfg, pr.value, isScript, found);
        if |s| == 1 {
          assert s[0] in s;
        } else {
          RankedFound(s, found);
        }
      }
    }
  }

  /** Every survivor is a found path with a nonzero score. */
  lemma SurvivorsFound(cfg: Config, p: Preferences, isScript: bool, found: seq<string>)
    ensures forall c | c in Survivors(Candidates(cfg, p, isScript, found)) :: c.path in found && c.score != 0.0
  {
    var cs := Candidates(cfg, p, isScript, found);
    forall c | c in Survivors(cs)
      ensures c.path in found
    {
      var i :| 0 <= i < |cs| && cs[i] == c;
      assert c == Scored(cfg, p, isScript, found[i]);
    }
  }

  /** The ranking of survivors holds only their paths and scores. */
  lemma RankedFound(s: seq<Candidate>, found: seq<string>)
    requires forall c | c in s :: c.path in found && c.score != 0.0
    ensures forall x | x in Ranking(s) :: x.0 in found && x.1 != 0.0
  {
    forall x | x in Ranking(s)
      ensures x.0 in found && x.1 != 0.0
    {
      RankedPair(s, x.0, x.1);
      var k :| 0 <= k < |s| && s[k].path == x.0 && s[k].score == x.1;
      assert s[k] in s;
    }
  }

  /** The outcome of `get_resource`. */
  datatype Selection =
    | NotFound                                  // 404
    | Malformed                                 // 400
    | NotAcceptable                             // 406
    | Multiple(paths: seq<string>)              // 300
    | Selected(path: string, options: Options)  // 200

  function StatusOf(s: Selection): nat {
    match s
    case NotFound => 404
    case Malformed => 400
    case NotAcceptable => 406
    case Multiple(_) => 300
    case Selected(_, _) => 200
  }

  /**
   * `get_resource`: no candidate gives 404, and otherwise the outcome of
   * negotiating between the candidates decides.
   */
  function Select(cfg: Config, fs: FileSystem, path: string, isScript: bool, accept: string, language: string, charset: string, encoding: string): (r: Selection)
    ensures r == NotFound <==> FindResource(fs, path).None?
    ensures r.Selected? ==> r.path in FindResource(fs, path).value
    ensures r.Multiple? ==> forall k | k in r.paths :: k in FindResource(fs, path).value
  {
    match FindResource(fs, path)
    case None => NotFound
    case Some(found) =>
      var n := Negotiate(cfg, found, isScript, accept, language, charset, encoding);
      NegotiateOutcome(cfg, found, isScript, accept, language, charset, encoding);
      PickFound(n, found);
      Pick(n)
  }

  /**
   * A malformed header, and only that, gives 400; an empty ranking, and only
   * that, gives 406; 300 lists more than one path, each tied at the top
   * score; otherwise the single candidate or the leader of the ranking is
   * served.
   */
  lemma PickOutcome(n: Negotiated)
    ensures var r := Pick(n);
      && (r == Malformed <==> n.BadAccept?)
      && (r == NotAcceptable <==> n.Ranked? && n.ranking == [])
      && (r.Multiple? ==> n.Ranked? && n.ranking != [] && |r.paths| > 1 && forall k | k in r.paths :: (k, n.ranking[0].1) in n.ranking)
      && (r.Selected? ==> if n.Chosen? then r.path == n.path else n.Ranked? && n.ranking != [] && r.path == n.ranking[0].0)
  {
  }

  /** What `Pick` selects is among the paths the negotiation chose from. */
  lemma PickFound(n: Negotiated, found: seq<string>)
    requires n.Chosen? ==> n.path in found
    requires n.Ranked? ==> forall x | x in n.ranking :: x.0 in found
    ensures Pick(n) != NotFound
    ensures Pick(n).Selected? ==> Pick(n).path in found
    ensures Pick(n).Multiple? ==> forall k | k in Pick(n).paths :: k in found
  {
    if n.Ranked? && n.ranking != [] {
      assert n.ranking[0] in n.ranking;
    }
  }

  /**
   * What `get_resource` makes of a negotiation: a malformed Accept-family
   * header gives 400 and no candidate with a nonzero score 406; when several
   * are ranked, the group tied at the top score is kept, and more than one
   * of them gives 300.
   */
  function Pick(n: Negotiated): Selection
  {
    match n
    case BadAccept => Malformed
    case Chosen(f, o) => Selected(f, o)
    case Ranked(ranking, choices) =>
      if ranking == [] then NotAcceptable
      else
        var tied := Tied(ranking, ranking[0].1);
        if |tied| > 1 then Multiple(tied)
        else Selected(ranking[0].0, Lookup(choices, ranking[0].0).GetOr(map[]))
  }

  /** A lone candidate is served whatever the Accept-family headers say, even malformed ones. */
  lemma SingleCandidateServed(cfg: Config, found: seq<string>, isScript: bool, accept: string, language: string, charset: string, encoding: string)
    requires |found| == 1
    ensures Pick(Negotiate(cfg, found, isScript, accept, language, charset, encoding)) == Selected(found[0], SingleOptions(cfg, found[0], isScript))
  {
  }

  /**
   * With several candidates, 406 is answered exactly when the headers parse
   * and every candidate scores 0.
   */
  lemma NotAcceptableWhenAllZero(cfg: Config, found: seq<string>, isScript: bool, accept: string, language: string, charset: string, encoding: string)
    requires |found| != 1
    ensures var p := ParsePreferences(accept, language, charset, encoding);
      (Pick(Negotiate(cfg, found, isScript, accept, language, charset, encoding)) == NotAcceptable) <==>
        p.Some? && forall i | 0 <= i < |found| :: Score(p.value, isScript, SetFileFeatures(cfg, found[i])) == 0.0
  {
    var p := ParsePreferences(accept, language, charset, encoding);
    var n := Negotiate(cfg, found, isScript, accept, language, charset, encoding);
    PickOutcome(n);
    if p.Some? {
      var s := Survivors(Candidates(cfg, p.value, isScript, found));
      AllScoredZero(cfg, p.value, isScript, found);
      assert n == if |s| == 1 then Chosen(s[0].path, s[0].options) else Ranked(Ranking(s), OptionsOf(s));
      assert |Ranking(s)| == |s|;
    }
  }

  /**
   * 300 lists exactly the candidates that share the top score, at least
   * two, with a score no other candidate exceeds.
   */
  lemma MultipleChoicesAreTheBest(cfg: Config, found: seq<string>, isScript: bool, accept: string, language: string, charset: string, encoding: string)
    requires Pick(Negotiate(cfg, found, isScript, accept, language, charset, encoding)).Multiple?
    ensures var n := Negotiate(cfg, found, isScript, accept, language, charset, encoding);
      var paths := Pick(n).paths;
      && n.Ranked? && n.ranking != [] && |paths| > 1
      && (forall k | k in paths :: (k, n.ranking[0].1) in n.ranking)
      && (forall i | 0 <= i < |n.ranking| :: n.ranking[i].1 <= n.ranking[0].1)
      && (forall i | 0 <= i < |n.ranking| && n.ranking[i].1 == n.ranking[0].1 :: n.ranking[i].0 in paths)
  {
    NegotiateOutcome(cfg, found, isScript, accept, language, charset, encoding);
    PickMultiple(Negotiate(cfg, found, isScript, accept, language, charset, encoding));
  }

  lemma PickMultiple(n: Negotiated)
    requires Pick(n).Multiple? && (n.Ranked? ==> SortedDesc(n.ranking))
    ensures n.Ranked? && n.ranking != [] && |Pick(n).paths| > 1
    ensures forall k | k in Pick(n).paths :: (k, n.ranking[0].1) in n.ranking
    ensures forall i | 0 <= i < |n.ranking| :: n.ranking[i].1 <= n.ranking[0].1
    ensures forall i | 0 <= i < |n.ranking| && n.ranking[i].1 == n.ranking[0].1 :: n.ranking[i].0 in Pick(n).paths
  {
    assert Pick(n).paths == Tied(n.ranking, n.ranking[0].1);
    TiedAreTheBest(n.ranking);
  }

  /** The ranking holds exactly the candidates with a nonzero score, each with its score. */
  lemma RankingHoldsSurvivors(cfg: Config, found: seq<string>, isScript: bool, accept: string, language: string, charset: string, encoding: string, path: string, q: real)
    requires Negotiate(cfg, found, isScript, accept, language, charset, encoding).Ranked?
    ensures var n := Negotiate(cfg, found, isScript, accept, language, charset, encoding);
      var p := ParsePreferences(accept, language, charset, encoding).value;
      (path, q) in n.ranking <==> exists i | 0 <= i < |found| :: found[i] == path && q == Score(p, isScript, SetFileFeatures(cfg, path)) && q != 0.0
  {
    var p := ParsePreferences(accept, language, charset, encoding).value;
    var s := Survivors(Candidates(cfg, p, isScript, found));
    var score := Score(p, isScript, SetFileFeatures(cfg, path));
    assert Negotiate(cfg, found, isScript, accept, language, charset, encoding).ranking == Ranking(s);
    RankedPair(s, path, q);
    if (path, q) in Ranking(s) {
      var k :| 0 <= k < |s| && s[k].path == path && s[k].score == q;
      SurvivorOf(cfg, p, isScript, found, s[k]);
    }
    if exists i | 0 <= i < |found| :: found[i] == path && q == score && q != 0.0 {
      var i :| 0 <= i < |found| && found[i] == path && q == score && q != 0.0;
      var c := Scored(cfg, p, isScript, path);
      SurvivorOf(cfg, p, isScript, found, c);
      var k :| 0 <= k < |s| && s[k] == c;
      assert s[k].path == path && s[k].score == q;
    }
  }

  // ---------------------------------------------------------------------------
  // set_headers

  /**
   * The entity headers of a chosen candidate: Content-Type for a type that
   * is not a script type, with its charset appended when it has one;
   * Content-Language and Content-Encoding when it has those features.
   */
  function HeadersFor(o: Options): (h: map<string, string>)
    ensures "Content-Type" in h <==> MIME_TYPE in o && !IsScriptMime(o[MIME_TYPE])
    ensures "Content-Type" in h ==>
      h["Content-Type"] == o[MIME_TYPE] + if CHARSET in o then "; charset=" + o[CHARSET] else ""
    ensures "Content-Language" in h <==> LANGUAGE in o
    ensures "Content-Language" in h ==> h["Content-Language"] == o[LANGUAGE]
    ensures "Content-Encoding" in h <==> ENCODING in o
    ensures "Content-Encoding" in h ==> h["Content-Encoding"] == o[ENCODING]
    ensures h.Keys <= {"Content-Type", "Content-Language", "Content-Encoding"}
  {
    var t := if MIME_TYPE in o && !IsScriptMime(o[MIME_TYPE]) then
        map["Content-Type" := if CHARSET in o then o[MIME_TYPE] + "; charset=" + o[CHARSET] else o[MIME_TYPE]]
      else map[];
    var l := if LANGUAGE in o then map["Content-Language" := o[LANGUAGE]] else map[];
    var e := if ENCODING in o then map["Content-Encoding" := o[ENCODING]] else map[];
    t + l + e
  }
  /** Setting one key is the same as adding a one-entry map. */
  lemma UpdateIsUnion(m: map<string, string>, k: string, v: string)
    ensures m[k := v] == m + map[k := v]
  {
  }

  /** The Content-Type step, then the Content-Language and Content-Encoding steps, add up to `HeadersFor`. */
  lemma HeadersForUpdates(before: map<string, string>, typed: map<string, string>, after: map<string, string>, o: Options)
    requires typed == if MIME_TYPE in o && !IsScriptMime(o[MIME_TYPE]) then
        before["Content-Type" := if CHARSET in o then o[MIME_TYPE] + "; charset=" + o[CHARSET] else o[MIME_TYPE]]
      else before
    requires after == (if ENCODING in o then (if LANGUAGE in o then typed["Content-Language" := o[LANGUAGE]] else typed)["Content-Encoding" := o[ENCODING]]
      else if LANGUAGE in o then typed["Content-Language" := o[LANGUAGE]] else typed)
    ensures after == before + HeadersFor(o)
  {
    assert "Content-Language"[8] != "Content-Encoding"[8];
    var h := HeadersFor(o);
    forall k
      ensures k in after <==> k in before + h
      ensures k in after ==> after[k] == (before + h)[k]
    {
      if k != "Content-Type" && k != "Content-Language" && k != "Content-Encoding" {
        assert k !in h;
      }
    }
  }


  /**
   * Features derived from file names never hold a charset (a charset
   * extension is filed under "language"), so Content-Type never carries
   * one.
   */
  lemma NoCharsetInContentType(cfg: Config, path: string, isScript: bool)
    ensures var o := Defaulted(SetFileFeatures(cfg, path), isScript);
      "Content-Type" in HeadersFor(o) ==> HeadersFor(o)["Content-Type"] == o[MIME_TYPE]
  {
    NoCharsetFeature(cfg, path);
  }

  // ---------------------------------------------------------------------------
  // set_env

  /** SERVER_NAME: the host up to its ":", or "" when it has none. */
  function ServerName(host: string): (n: string)
    ensures Contains(host, ":") ==> |n| < |host| && host[..|n| + 1] == n + ":" && !Contains(n, ":")
    ensures !Contains(host, ":") ==> n == ""
  {
    match IndexOf(host, ":")
    case None => ""
    case Some(p) =>
      NothingBeforeFirst(host, ":", p);
      assert host[..p + 1] == host[..p] + ":" by { assert OccursAt(host, ":", p); }
      host[..p]
  }

  /**
   * The names of the environment variables `set_env` can set. A request
   * header becomes `Http` of its name upper-cased with "-" turned into "_".
   */
  datatype CgiVar =
    | ServerSoftware | ServerNameVar | GatewayInterface | ServerProtocol | ServerPort | RequestMethod
    | PathInfo | PathTranslated | QueryString | ScriptName | RemoteHost | RemoteAddr
    | ContentType | ContentLength
    | PhpSelf | DocumentRoot | RemotePort | ScriptFilename | RequestUri
    | Http(suffix: string)

  type Env = map<CgiVar, string>

  /** The variable's name as the script sees it. */
  function VarName(v: CgiVar): string {
    match v
    case ServerSoftware => "SERVER_SOFTWARE"
    case ServerNameVar => "SERVER_NAME"
    case GatewayInterface => "GATEWAY_INTERFACE"
    case ServerProtocol => "SERVER_PROTOCOL"
    case ServerPort => "SERVER_PORT"
    case RequestMethod => "REQUEST_METHOD"
    case PathInfo => "PATH_INFO"
    case PathTranslated => "PATH_TRANSLATED"
    case QueryString => "QUERY_STRING"
    case ScriptName => "SCRIPT_NAME"
    case RemoteHost => "REMOTE_HOST"
    case RemoteAddr => "REMOTE_ADDR"
    case ContentType => "CONTENT_TYPE"
    case ContentLength => "CONTENT_LENGTH"
    case PhpSelf => "PHP_SELF"
    case DocumentRoot => "DOCUMENT_ROOT"
    case RemotePort => "REMOTE_PORT"
    case ScriptFilename => "SCRIPT_FILENAME"
    case RequestUri => "REQUEST_URI"
    case Http(suffix) => "HTTP_" + suffix
  }

  /**
   * No variable set from a request header has the name of one the server
   * sets itself, so a header cannot override those.
   */
  lemma HeaderVarsApart(suffix: string, v: CgiVar)
    requires !v.Http?
    ensures VarName(Http(suffix)) != VarName(v)
  {
    assert VarName(Http(suffix))[0] == 'H';
    assert VarName(v)[0] != 'H';
  }

  /** The environment variable a request header becomes. */
  function HttpName(h: string): CgiVar {
    Http(Replace(ToUpper(h), "-", "_"))
  }

  /**
   * The variables the header loop sets: one per header, each holding the
   * value of a header it comes from (headers whose names differ only in
   * case or in "-" against "_" share one variable).
   */
  predicate HttpVars(headers: map<string, string>, m: Env) {
    && (forall h | h in headers :: HttpName(h) in m)
    && (forall k | k in m :: exists h | h in headers :: HttpName(h) == k && m[k] == headers[h])
  }

  /** A header whose variable no other header shares passes its value unchanged. */
  lemma HttpVarExact(headers: map<string, string>, m: Env, h: string)
    requires HttpVars(headers, m) && h in headers
    requires forall g | g in headers && HttpName(g) == HttpName(h) :: g == h
    ensures HttpName(h) in m && m[HttpName(h)] == headers[h]
  {
    var g :| g in headers && HttpName(g) == HttpName(h) && m[HttpName(h)] == headers[g];
  }

  /**
   * What the query string contributes: PATH_INFO and PATH_TRANSLATED, then
   * either QUERY_STRING or the script's arguments; all None when there is
   * no query string.
   */
  datatype QueryParts = QueryParts(pathInfo: Option<string>, pathTranslated: Option<string>, queryString: Option<string>, argv: Option<seq<string>>)

  const NO_QUERY := QueryParts(None, None, None, None)

  /**
   * A query string containing "/" gives PATH_INFO (from the first "/" on)
   * and PATH_TRANSLATED (that path under the home directory, aliases
   * applied); what is before the "/" becomes QUERY_STRING if it contains
   * "=", and the arguments, split on "+", otherwise. Nothing of the query
   * string is lost.
   */
  function SplitQuery(q: string, home: string, entries: HostEntry): (r: QueryParts)
    ensures r.pathInfo.Some? <==> Contains(q, "/")
    ensures r.pathTranslated.Some? <==> r.pathInfo.Some?
    ensures r.pathInfo.Some? ==> r.pathInfo.value != "" && r.pathInfo.value[0] == '/'
    ensures r.queryString.Some? <==> r.argv.None?
    ensures var before := if r.queryString.Some? then r.queryString.value else Join(r.argv.value, "+");
      && !Contains(before, "/")
      && (r.queryString.Some? <==> Contains(before, "="))
      && before + r.pathInfo.GetOr("") == q
  {
    var before := match IndexOf(q, "/") case None => q case Some(p) => q[..p];
    var info := match IndexOf(q, "/") case None => None case Some(p) => Some(q[p..]);
    var translated := if info.Some? then Some(Aliased(Replace(home + info.value, "//", "/"), entries).0) else None;
    QuerySplitsAtSlash(q);
    if Contains(before, "=") then QueryParts(info, translated, Some(before), None)
    else
      JoinSplit(before, "+");
      QueryParts(info, translated, None, Some(Split(before, "+")))
  }

  /** Cutting the query string at its first "/". */
  lemma QuerySplitsAtSlash(q: string)
    ensures var before := match IndexOf(q, "/") case None => q case Some(p) => q[..p];
      var info := match IndexOf(q, "/") case None => None case Some(p) => Some(q[p..]);
      && !Contains(before, "/")
      && (info.Some? <==> Contains(q, "/"))
      && (info.Some? ==> info.value != "" && info.value[0] == '/')
      && before + info.GetOr("") == q
  {
    match IndexOf(q, "/")
    case None =>
    case Some(p) =>
      NothingBeforeFirst(q, "/", p);
      assert OccursAt(q, "/", p);
      assert q[..p] + q[p..] == q;
  }

  /** The request facts `set_env` reads. */
  datatype CgiRequest = CgiRequest(
    verb: string, version: string, query: Option<string>, headers: map<string, string>,
    remoteHost: string, remotePort: nat, body: string)

  /** The variables `set_env` sets before the header loop, whether or not they apply to a request. */
  const BASE_VARS: set<CgiVar> := {
    ServerSoftware, ServerNameVar, GatewayInterface, ServerProtocol, ServerPort, RequestMethod,
    PathInfo, PathTranslated, QueryString, ScriptName, RemoteHost, RemoteAddr, ContentType, ContentLength}

  /** The value `set_env` gives a variable before the header loop, None when it leaves it unset. */
  function BaseValue(r: CgiRequest, port: string, serverName: string, qp: QueryParts, virtualPath: string, v: CgiVar): Option<string> {
    match v
    case ServerSoftware => Some("PHP Web Server")
    case ServerNameVar => Some(serverName)
    case GatewayInterface => Some("CGI/1.1")
    case ServerProtocol => Some("HTTP/" + r.version)
    case ServerPort => Some(port)
    case RequestMethod => Some(r.verb)
    case PathInfo => qp.pathInfo
    case PathTranslated => qp.pathTranslated
    case QueryString => qp.queryString
    case ScriptName => Some(virtualPath)
    case RemoteHost => Some("")
    case RemoteAddr => Some(r.remoteHost)
    case ContentType => if r.verb == "POST" then Some(if "content-type" in r.headers then r.headers["content-type"] else "") else None
    case ContentLength => if r.verb == "POST" then Some(NatToString(|r.body|)) else None
    case _ => None
  }

  /**
   * The variables `set_env` sets before the header loop: the server
   * software, name, protocol, port and method, what the query string
   * gives, SCRIPT_NAME and the remote address, and for POST the body's
   * type and length.
   */
  function BaseEnv(r: CgiRequest, port: string, serverName: string, qp: QueryParts, virtualPath: string): (env: Env)
    ensures forall v | v in env :: v in BASE_VARS
  {
    map v | v in BASE_VARS && BaseValue(r, port, serverName, qp, virtualPath, v).Some? :: BaseValue(r, port, serverName, qp, virtualPath, v).value
  }

  /**
   * What `set_env` sets before the header loop: the server software, name,
   * protocol, port and method, what the query string gives, SCRIPT_NAME and
   * the remote address, and for POST the body's type and length.
   */
  lemma BaseEnvValues(r: CgiRequest, port: string, serverName: string, qp: QueryParts, virtualPath: string)
    ensures var env := BaseEnv(r, port, serverName, qp, virtualPath);
      && ServerSoftware in env && ServerNameVar in env && GatewayInterface in env
      && ServerProtocol in env && ServerPort in env && RequestMethod in env
      && ScriptName in env && RemoteHost in env && RemoteAddr in env
      && env[GatewayInterface] == "CGI/1.1" && env[ServerSoftware] == "PHP Web Server"
      && env[ServerNameVar] == serverName && env[ServerPort] == port
      && env[ServerProtocol] == "HTTP/" + r.version && env[RequestMethod] == r.verb
      && env[ScriptName] == virtualPath && env[RemoteAddr] == r.remoteHost && env[RemoteHost] == ""
      && (ContentLength in env <==> r.verb == "POST") && (ContentType in env <==> r.verb == "POST")
      && (r.verb == "POST" ==> env[ContentLength] == NatToString(|r.body|))
      && (r.verb == "POST" ==> env[ContentType] == if "content-type" in r.headers then r.headers["content-type"] else "")
      && (PathInfo in env <==> qp.pathInfo.Some?) && (PathInfo in env ==> env[PathInfo] == qp.pathInfo.value)
      && (PathTranslated in env <==> qp.pathTranslated.Some?) && (PathTranslated in env ==> env[PathTranslated] == qp.pathTranslated.value)
      && (QueryString in env <==> qp.queryString.Some?) && (QueryString in env ==> env[QueryString] == qp.queryString.value)
  {
    var env := BaseEnv(r, port, serverName, qp, virtualPath);
    forall v | v in BASE_VARS
      ensures v in env <==> BaseValue(r, port, serverName, qp, virtualPath, v).Some?
      ensures v in env ==> env[v] == BaseValue(r, port, serverName, qp, virtualPath, v).value
    {
    }
  }

  /** None of the variables set before the header loop is a header's or a PHP one. */
  lemma BaseVarsApart(v: CgiVar)
    requires v in BASE_VARS
    ensures !v.Http? && !IsPhpVar(v)
  {
  }

  /** The query string's parts, if there is one. */
  function QueryOf(query: Option<string>, home: string, entries: HostEntry): QueryParts {
    if query.Some? then SplitQuery(query.value, home, entries) else NO_QUERY
  }

  predicate IsPhpVar(v: CgiVar) {
    v.PhpSelf? || v.DocumentRoot? || v.RemotePort? || v.ScriptFilename? || v.RequestUri?
  }

  /** What `set_env` reads from a request through its getters. */
  function Facts(req: Request): CgiRequest
    reads req
  {
    CgiRequest(req.verb, req.version.GetOr(""),
      if req.uri.Some? then req.uri.value.query else None,
      req.headers, req.remoteHost, req.remotePort, req.body)
  }

  /** The extra variables a PHP script gets. */
  function PhpEnv(virtualPath: string, home: string, remotePort: nat, script: string, relativePath: string): (env: Env)
    ensures env.Keys == {PhpSelf, DocumentRoot, RemotePort, ScriptFilename, RequestUri}
    ensures forall v | v in env :: IsPhpVar(v)
    ensures env[PhpSelf] == virtualPath && env[DocumentRoot] == home && env[ScriptFilename] == script
    ensures env[RemotePort] == NatToString(remotePort) && env[RequestUri] == relativePath
  {
    map[
      PhpSelf := virtualPath,
      DocumentRoot := home,
      RemotePort := NatToString(remotePort),
      ScriptFilename := script,
      RequestUri := relativePath]
  }

  /** Everything `set_env` sets, given the variables its header loop set. */
  function CgiEnv(r: CgiRequest, cfg: Config, host: string, virtualPath: string, kind: ScriptKind, script: string, relativePath: string, http: Env): Env {
    var home := Home(cfg, host).GetOr("");
    BaseEnv(r, cfg.port, ServerName(host), QueryOf(r.query, home, Entries(cfg, host)), virtualPath) + http
      + if kind == Php then PhpEnv(virtualPath, home, r.remotePort, script, relativePath) else map[]
  }

  /**
   * A request header can set neither a variable the server sets itself nor
   * a PHP one: those keep the values `set_env` gave them, and the header
   * variables keep the header values.
   */
  lemma ServerVarsKept(r: CgiRequest, cfg: Config, host: string, virtualPath: string, kind: ScriptKind, script: string, relativePath: string, http: Env, v: CgiVar)
    requires HttpVars(r.headers, http)
    ensures var home := Home(cfg, host).GetOr("");
      var base := BaseEnv(r, cfg.port, ServerName(host), QueryOf(r.query, home, Entries(cfg, host)), virtualPath);
      var env := CgiEnv(r, cfg, host, virtualPath, kind, script, relativePath, http);
      && (v in base ==> v in env && env[v] == base[v])
      && (v.Http? ==> (v in env <==> v in http) && (v in http ==> env[v] == http[v]))
      && (kind == Php && IsPhpVar(v) ==> v in env && env[v] == PhpEnv(virtualPath, home, r.remotePort, script, relativePath)[v])
  {
    var home := Home(cfg, host).GetOr("");
    var base := BaseEnv(r, cfg.port, ServerName(host), QueryOf(r.query, home, Entries(cfg, host)), virtualPath);
    var php := if kind == Php then PhpEnv(virtualPath, home, r.remotePort, script, relativePath) else map[];
    forall k | k in base
      ensures !k.Http? && !IsPhpVar(k)
    {
      BaseVarsApart(k);
    }
    forall k | k in http
      ensures k.Http?
    {
      var h :| h in r.headers && HttpName(h) == k && http[k] == r.headers[h];
    }
    assert CgiEnv(r, cfg, host, virtualPath, kind, script, relativePath, http) == base + http + php;
    EnvLayers(base, http, php, v);
  }

  /** Three layers with disjoint kinds of keys: none overrides another. */
  lemma EnvLayers(base: Env, http: Env, php: Env, v: CgiVar)
    requires forall k | k in base :: !k.Http? && !IsPhpVar(k)
    requires forall k | k in http :: k.Http?
    requires forall k | k in php :: IsPhpVar(k)
    ensures v in base ==> v in base + http + php && (base + http + php)[v] == base[v]
    ensures v.Http? ==> (v in base + http + php <==> v in http) && (v in http ==> (base + http + php)[v] == http[v])
    ensures v in php ==> (base + http + php)[v] == php[v]
  {
  }

  /** What a response reads from its request, through `get_host`, `get_path`, `get_http_version` and `get_header`. */
  datatype RequestView = RequestView(host: Option<string>, path: Option<string>, version: Option<string>, headers: map<string, string>)

  function ViewOf(req: Request): (v: RequestView)
    reads req
    ensures v.host == req.GetHost() && v.version == req.version && v.headers == req.headers
  {
    RequestView(req.GetHost(), if req.uri.Some? then req.uri.value.path else None, req.version, req.headers)
  }

  /** `get_header` on the view. */
  function Header(v: RequestView, name: string): Option<string> {
    if name in v.headers then Some(v.headers[name]) else None
  }

  // ---------------------------------------------------------------------------
  // The response

  class Response {
    var absolutePath: string
    var relativePath: string
    var virtualPath: string
    var host: string
    /** The candidate files, then the chosen one or the tied group. */
    var resource: seq<string>
    /** The raw Accept-family headers ("" when absent). */
    var accept: string
    var acceptCharset: string
    var acceptLanguage: string
    var acceptEncoding: string
    var te: Option<string>
    /** The Accept-family headers once `accept_parsing` has parsed them. */
    var prefs: Preferences
    var connection: string
    var headers: map<string, string>
    var isScript: bool
    var scriptKind: ScriptKind
    var argv: Option<seq<string>>
    var env: Env
    var requestBody: string
    var error: bool
    /** 0 stands for a code not yet set. */
    var code: nat

    /**
     * A response to a request, seen through its getters, or to no request
     * (one that failed to parse), which only closes the connection.
     */
    constructor (req: Option<RequestView>, cfg: Config)
      ensures req.None? ==> connection == "close" && !isScript && headers == map[] && code == 0
      ensures req.Some? ==>
        var h := req.value.host.GetOr("");
        && host == h && relativePath == req.value.path.GetOr("")
        && (absolutePath, isScript) == Aliased(Replace(Home(cfg, h).GetOr("") + relativePath, "//", "/"), Entries(cfg, h))
        && accept == Header(req.value, "accept").GetOr("")
        && acceptCharset == Header(req.value, "accept-charset").GetOr("")
        && acceptLanguage == Header(req.value, "accept-language").GetOr("")
        && acceptEncoding == Header(req.value, "accept-encoding").GetOr("")
        && te == Header(req.value, "te")
        && connection == ConnectionFor(req.value.version, Header(req.value, "connection"))
        && headers == map[] && code == 0 && !error && scriptKind == NoScript
    {
      absolutePath, relativePath, virtualPath, host := "", "", "", "";
      resource := [];
      accept, acceptCharset, acceptLanguage, acceptEncoding, te := "", "", "", "", None;
      prefs := Preferences([], [], [], []);
      headers := map[];
      isScript, scriptKind := false, NoScript;
      argv, env, requestBody := None, map[], "";
      error, code := false, 0;
      connection := "close";
      if req.Some? {
        var v := req.value;
        host := v.host.GetOr("");
        relativePath := v.path.GetOr("");
        accept := Header(v, "accept").GetOr("");
        acceptCharset := Header(v, "accept-charset").GetOr("");
        acceptLanguage := Header(v, "accept-language").GetOr("");
        acceptEncoding := Header(v, "accept-encoding").GetOr("");
        te := Header(v, "te");
        connection := ConnectionFor(v.version, Header(v, "connection"));
      }
      new;
      if req.Some? {
        absolutePath := Replace(Home(cfg, host).GetOr("") + relativePath, "//", "/");
        ApplyAliases(Entries(cfg, host));
      }
    }

    /** The alias loop over the host's entries. */
    method ApplyAliases(entries: HostEntry)
      modifies this`absolutePath, this`isScript
      ensures absolutePath == Aliased(old(absolutePath), entries).0
      ensures isScript == (old(isScript) || Aliased(old(absolutePath), entries).1)
    {
      ghost var start := absolutePath;
      for i := 0 to |entries|
        invariant absolutePath == Aliased(start, entries[..i]).0
        invariant isScript == (old(isScript) || Aliased(start, entries[..i]).1)
      {
        assert entries[..i + 1][..i] == entries[..i];
        var (k, v) := entries[i];
        if k != HOME && Contains(absolutePath, k) {
          absolutePath := Replace(absolutePath, k, v);
          if k == CGI_BIN {
            isScript := true;
          }
        }
      }
      assert entries[..|entries|] == entries;
    }

    /**
     * `accept_parsing`: the four Accept-family headers in order, the first
     * malformed one failing; the encodings always list "identity".
     */
    method AcceptParsing() returns (ok: bool)
      modifies this`prefs
      ensures ok <==> ParsePreferences(accept, acceptLanguage, acceptCharset, acceptEncoding).Some?
      ensures ok ==> prefs == ParsePreferences(accept, acceptLanguage, acceptCharset, acceptEncoding).value
      ensures !ok ==> prefs == old(prefs)
    {
      var t := ParseAccept(accept);
      if t.AcceptError? { return false; }
      var l := ParseAccept(acceptLanguage);
      if l.AcceptError? { return false; }
      var c := ParseAccept(acceptCharset);
      if c.AcceptError? { return false; }
      var e := ParseAccept(acceptEncoding);
      if e.AcceptError? { return false; }
      prefs := Preferences(t.prefs, l.prefs, c.prefs, WithIdentity(e.prefs));
      return true;
    }

    /**
     * `content_negotiation` over `resource`: one candidate is kept; after
     * negotiation a single survivor replaces the candidates, and otherwise
     * the survivors, best first, do.
     */
    method ContentNegotiation(cfg: Config) returns (n: Negotiated)
      modifies this`prefs, this`resource
      ensures n == Negotiate(cfg, old(resource), isScript, accept, acceptLanguage, acceptCharset, acceptEncoding)
      ensures n.Chosen? ==> resource == [n.path]
      ensures n.Ranked? ==> resource == Paths(n.ranking)
      ensures n.BadAccept? ==> resource == old(resource)
    {
      if |resource| == 1 {
        return Chosen(resource[0], SingleOptions(cfg, resource[0], isScript));
      }
      var ok := AcceptParsing();
      if !ok {
        return BadAccept;
      }
      var survivors := ScoreCandidates(cfg);
      if |survivors| == 1 {
        resource := [survivors[0].path];
        return Chosen(survivors[0].path, survivors[0].options);
      }
      n := Ranked(Ranking(survivors), OptionsOf(survivors));
      resource := Paths(n.ranking);
    }

    /** The scoring loop: every candidate with a nonzero score, in order. */
    method ScoreCandidates(cfg: Config) returns (survivors: seq<Candidate>)
      ensures survivors == Survivors(Candidates(cfg, prefs, isScript, resource))
    {
      survivors := [];
      for i := 0 to |resource|
        invariant survivors == Survivors(Candidates(cfg, prefs, isScript, resource[..i]))
      {
        SurvivorsStep(cfg, prefs, isScript, resource, i);
        var c := Scored(cfg, prefs, isScript, resource[i]);
        if c.score != 0.0 {
          survivors := survivors + [c];
        }
      }
      assert resource[..|resource|] == resource;
    }

    /** The tie-grouping loop: the paths that share the first path's score. */
    method GroupTies(ranking: Prefs) returns (tied: seq<string>)
      requires ranking != []
      ensures tied == Tied(ranking, ranking[0].1)
    {
      tied := [];
      var highest := ranking[0].1;
      for j := 0 to |ranking|
        invariant tied == Tied(ranking[..j], highest)
      {
        TiedStep(ranking, highest, j);
        if ranking[j].1 == highest {
          tied := tied + [ranking[j].0];
        }
      }
      assert ranking[..|ranking|] == ranking;
    }

    /**
     * The state `get_resource` leaves for the outcome `sel`: the status
     * code; errors close the connection; the tied group or the chosen path
     * replaces the candidates; a chosen CGI or PHP type makes the response a
     * script of that kind, and a script gets its virtual path; a chosen
     * candidate's entity headers are added.
     */
    predicate Settled(sel: Selection, oldConnection: string, oldHeaders: map<string, string>, oldIsScript: bool, oldKind: ScriptKind, home: string, entries: HostEntry)
      reads this
    {
      && code == StatusOf(sel)
      && (error <==> sel.NotFound? || sel.Malformed? || sel.NotAcceptable?)
      && (error ==> connection == "close" && headers == oldHeaders)
      && (!error ==> connection == oldConnection)
      && (sel.NotAcceptable? ==> resource == [])
      && (sel.Multiple? ==> resource == sel.paths && headers == oldHeaders)
      && (sel.Selected? ==> Served(sel.path, sel.options, oldHeaders, oldIsScript, oldKind, home, entries))
    }

    /**
     * The state after `path` is chosen with `options`: it is the one
     * resource, a CGI or PHP type makes the response a script of that kind,
     * a script gets its virtual path, and the entity headers are added.
     */
    predicate Served(path: string, options: Options, oldHeaders: map<string, string>, oldIsScript: bool, oldKind: ScriptKind, home: string, entries: HostEntry)
      reads this
    {
      && resource == [path]
      && headers == oldHeaders + HeadersFor(options)
      && (Get(options, MIME_TYPE) == Some(CGI_SCRIPT) ==> isScript && scriptKind == Cgi)
      && (Get(options, MIME_TYPE) == Some(PHP_SCRIPT) ==> isScript && scriptKind == Php)
      && (!IsScriptMime(Get(options, MIME_TYPE).GetOr("")) ==> isScript == oldIsScript && scriptKind == oldKind)
      && (isScript ==> virtualPath == VirtualPath(path, home, entries))
    }

    /** `get_resource`. */
    method GetResource(cfg: Config, fs: FileSystem)
      modifies this`error, this`code, this`connection, this`resource, this`prefs
      modifies this`isScript, this`scriptKind, this`virtualPath, this`headers
      ensures Settled(Select(cfg, fs, old(absolutePath), old(isScript), old(accept), old(acceptLanguage), old(acceptCharset), old(acceptEncoding)),
        old(connection), old(headers), old(isScript), old(scriptKind), Home(cfg, host).GetOr(""), Entries(cfg, host))
    {
      var found := FindResource(fs, absolutePath);
      if found.None? {
        error, code, connection := true, 404, "close";
        return;
      }
      resource := found.value;
      NegotiateAndSettle(cfg, Select(cfg, fs, old(absolutePath), old(isScript), old(accept), old(acceptLanguage), old(acceptCharset), old(acceptEncoding)));
    }

    /** `get_resource` once candidates are found: negotiate, then settle. */
    method NegotiateAndSettle(cfg: Config, ghost sel: Selection)
      requires sel == Pick(Negotiate(cfg, resource, isScript, accept, acceptLanguage, acceptCharset, acceptEncoding))
      modifies this`error, this`code, this`connection, this`resource, this`prefs
      modifies this`isScript, this`scriptKind, this`virtualPath, this`headers
      ensures Settled(sel, old(connection), old(headers), old(isScript), old(scriptKind), Home(cfg, host).GetOr(""), Entries(cfg, host))
    {
      var n := ContentNegotiation(cfg);
      Settle(n, sel, cfg);
    }

    /** What `get_resource` does once the candidates are negotiated. */
    method Settle(n: Negotiated, ghost sel: Selection, cfg: Config)
      requires sel == Pick(n)
      requires n.Chosen? ==> resource == [n.path]
      requires n.Ranked? ==> resource == Paths(n.ranking)
      modifies this`error, this`code, this`connection, this`resource
      modifies this`isScript, this`scriptKind, this`virtualPath, this`headers
      ensures Settled(sel, old(connection), old(headers), old(isScript), old(scriptKind), Home(cfg, host).GetOr(""), Entries(cfg, host))
    {
      match n {
        case BadAccept =>
          error, code, connection := true, 400, "close";
        case Chosen(path, o) =>
          error := false;
          Serve(path, o, Home(cfg, host).GetOr(""), Entries(cfg, host));
          code := 200;
        case Ranked(ranking, choices) =>
          SettleRanked(ranking, choices, sel, cfg);
      }
    }

    /** The ranked case: 406 with no survivor, 300 with tied leaders, else the leader is served. */
    method SettleRanked(ranking: Prefs, choices: seq<(string, Options)>, ghost sel: Selection, cfg: Config)
      requires sel == Pick(Ranked(ranking, choices))
      requires resource == Paths(ranking)
      modifies this`error, this`code, this`connection, this`resource
      modifies this`isScript, this`scriptKind, this`virtualPath, this`headers
      ensures Settled(sel, old(connection), old(headers), old(isScript), old(scriptKind), Home(cfg, host).GetOr(""), Entries(cfg, host))
    {
      if ranking == [] {
        assert sel == NotAcceptable;
        error, code, connection := true, 406, "close";
        return;
      }
      var tied := GroupTies(ranking);
      TiedStartsWith(ranking, ranking[0].1);
      resource := tied;
      if |tied| > 1 {
        assert sel == Multiple(tied);
        error, code := false, 300;
        return;
      }
      assert sel == Selected(tied[0], Lookup(choices, ranking[0].0).GetOr(map[]));
      error := false;
      Serve(resource[0], Lookup(choices, ranking[0].0).GetOr(map[]), Home(cfg, host).GetOr(""), Entries(cfg, host));
      code := 200;
    }

    /** The success path of `get_resource` for the one chosen candidate. */
    method Serve(path: string, options: Options, home: string, entries: HostEntry)
      requires resource == [path]
      modifies this`isScript, this`scriptKind, this`virtualPath, this`headers
      ensures Served(path, options, old(headers), old(isScript), old(scriptKind), home, entries)
    {
      ChooseScriptKind(options);
      if isScript {
        SetVirtualPath(home, entries);
      }
      SetHeaders(options);
    }

    /** A chosen CGI or PHP type makes the response a script of that kind. */
    method ChooseScriptKind(o: Options)
      modifies this`isScript, this`scriptKind
      ensures Get(o, MIME_TYPE) == Some(CGI_SCRIPT) ==> isScript && scriptKind == Cgi
      ensures Get(o, MIME_TYPE) == Some(PHP_SCRIPT) ==> isScript && scriptKind == Php
      ensures !IsScriptMime(Get(o, MIME_TYPE).GetOr("")) ==> isScript == old(isScript) && scriptKind == old(scriptKind)
    {
      if Get(o, MIME_TYPE) == Some(CGI_SCRIPT) {
        isScript, scriptKind := true, Cgi;
      }
      if Get(o, MIME_TYPE) == Some(PHP_SCRIPT) {
        isScript, scriptKind := true, Php;
      }
    }

    /** The virtual path of the chosen script: the reverse alias loop. */
    method SetVirtualPath(home: string, entries: HostEntry)
      requires resource != []
      modifies this`virtualPath
      ensures virtualPath == VirtualPath(resource[0], home, entries)
    {
      virtualPath := "/" + Replace(resource[0], home, "");
      ghost var start := virtualPath;
      for i := 0 to |entries|
        invariant virtualPath == Unaliased(start, entries[..i])
      {
        assert entries[..i + 1][..i] == entries[..i];
        var (k, v) := entries[i];
        if k != HOME && Contains(virtualPath, v) {
          virtualPath := Replace(virtualPath, v, k);
        }
      }
      assert entries[..|entries|] == entries;
    }

    /** `set_headers`. */
    method SetHeaders(o: Options)
      modifies this`headers
      ensures headers == old(headers) + HeadersFor(o)
    {
      var h := headers;
      if MIME_TYPE in o && !IsScriptMime(o[MIME_TYPE]) {
        h := h["Content-Type" := o[MIME_TYPE]];
        if CHARSET in o {
          h := h["Content-Type" := h["Content-Type"] + "; charset=" + o[CHARSET]];
        }
      }
      ghost var typed := h;
      if LANGUAGE in o {
        h := h["Content-Language" := o[LANGUAGE]];
      }
      if ENCODING in o {
        h := h["Content-Encoding" := o[ENCODING]];
      }
      HeadersForUpdates(old(headers), typed, h, o);
      headers := h;
    }

    /**
     * `set_env`: the base variables, then one HTTP_ variable per request
     * header, then for a PHP script the PHP variables; a query string
     * without "=" becomes the script's arguments, and a POST body is kept
     * for the script's input.
     */
    method SetEnv(req: Request, cfg: Config)
      requires resource != []
      modifies this`env, this`argv, this`requestBody
      ensures var r := Facts(req);
        exists http | HttpVars(r.headers, http) ::
          env == old(env) + CgiEnv(r, cfg, host, virtualPath, scriptKind, resource[0], relativePath, http)
      ensures var r := Facts(req);
        argv == (if r.query.Some? then QueryOf(r.query, Home(cfg, host).GetOr(""), Entries(cfg, host)).argv else old(argv))
      ensures requestBody == (if req.verb == "POST" then req.body else old(requestBody))
    {
      var r := Facts(req);
      if r.query.Some? {
        argv := QueryOf(r.query, Home(cfg, host).GetOr(""), Entries(cfg, host)).argv;
      }
      if r.verb == "POST" {
        requestBody := r.body;
      }
      var http := HttpLoop(r.headers);
      env := env + CgiEnv(r, cfg, host, virtualPath, scriptKind, resource[0], relativePath, http);
      assert Facts(req) == r && HttpVars(r.headers, http);
      assert env == old(env) + CgiEnv(r, cfg, host, virtualPath, scriptKind, resource[0], relativePath, http);
    }

    /** The header loop: each header, in some order, sets its HTTP_ variable. */
    static method HttpLoop(headers: map<string, string>) returns (http: Env)
      ensures HttpVars(headers, http)
    {
      http := map[];
      var todo := headers.Keys;
      while todo != {}
        invariant todo <= headers.Keys
        invariant forall h | h in headers && h !in todo :: HttpName(h) in http
        invariant forall k | k in http :: exists h | h in headers :: HttpName(h) == k && http[k] == headers[h]
        decreases todo
      {
        var h :| h in todo;
        http := http[HttpName(h) := headers[h]];
        todo := todo - {h};
      }
    }

    /**
     * The part of `send_script` after the script's header block was read:
     * the status actually answered, with the fields and connection it
     * leaves.
     */
    method HandleScriptReply(reply: Reply, version: Option<string>) returns (status: string)
      modifies this`headers, this`code, this`connection
      ensures reply.ScriptError? ==> status == "500" && connection == "close" && headers == old(headers) && code == old(code)
      ensures reply.StatusReply? ==> status == reply.code && connection == "close" && headers == old(headers) && code == old(code)
      ensures reply.Redirect? ==> status == "302" && code == 302 && headers == old(headers) + reply.fields && connection == old(connection)
      ensures reply.Forward? ==>
        && status == "200" && code == old(code) && connection == old(connection)
        && headers == old(headers) + reply.fields
          + (if version == Some("1.1") then map["Transfer-Encoding" := TransferEncoding(ChooseCoding(te))] else map[])
    {
      match reply {
        case ScriptError =>
          connection := "close";
          return "500";
        case StatusReply(c) =>
          connection := "close";
          return c;
        case Redirect(fields) =>
          headers := headers + fields;
          code := 302;
          return "302";
        case Forward(fields) =>
          headers := headers + fields;
          if version == Some("1.1") {
            var field := TransferEncoding(ChooseCoding(te));
            UpdateIsUnion(headers, "Transfer-Encoding", field);
            headers := headers["Transfer-Encoding" := field];
          }
          return "200";
      }
    }
  }
}
