/**
 * Request.php: reading one request off a connection, splitting the request
 * line, normalising the header lines, and the ordered validation cascade that
 * maps a malformed request to its status code.
 */
module Requests {
  import opened Wrappers
  import opened Strings
  import opened Wire
  import opened Utility

  /** The client connection: the by-reference `$buffer` and the socket's pending input. */
  class Connection {
    var buffer: string
    var input: seq<Piece>

    constructor (input: seq<Piece>)
      ensures buffer == "" && this.input == input
    {
      buffer := "";
      this.input := input;
    }
  }

  // ---------------------------------------------------------------------------
  // Request line

  /** `set_request_line`'s cut: the text before the first CRLF, and what follows it. */
  function SplitRequestLine(header: string): (r: (string, string))
    ensures Contains(header, CRLF) ==> r.0 + CRLF + r.1 == header && !Contains(r.0, CRLF)
  {
    match IndexOf(header, CRLF)
    case Some(p) =>
      assert header[..p] + CRLF + header[p + 2..] == header;
      assert forall j | 0 <= j :: !OccursAt(header[..p], CRLF, j) by {
        forall j | 0 <= j ensures !OccursAt(header[..p], CRLF, j) {
          if j + 2 <= p {
            assert header[..p][j..j + 2] == header[j..j + 2];
            assert !OccursAt(header, CRLF, j);
          }
        }
      }
      (header[..p], header[p + 2..])
    case None => ("", if |header| < 2 then "" else header[2..])
  }

  /** A well-formed request line splits back into its method, target and version. */
  lemma RequestLineFields(m: string, target: string, v: string, rest: string)
    requires forall i | 0 <= i < |m| :: m[i] != ' ' && m[i] != '\r'
    requires forall i | 0 <= i < |target| :: target[i] != ' ' && target[i] != '\r'
    requires v == "0.9" || v == "1.0" || v == "1.1"
    ensures var line := m + " " + target + " " + "HTTP/" + v;
      && SplitRequestLine(line + CRLF + rest) == (line, rest)
      && Split(line, " ") == [m, target, "HTTP/" + v]
      && GetVersion("HTTP/" + v) == Some(v)
  {
    var w := "HTTP/" + v;
    var line := m + " " + target + " " + w;
    assert line == m + " " + target + " " + "HTTP/" + v;
    LineWithoutCr(m, target, w);
    LineCut(line, rest);
    LineTokens(m, target, w);
    GetVersionAccepts(v);
  }

  lemma LineWithoutCr(m: string, target: string, w: string)
    requires forall i | 0 <= i < |m| :: m[i] != '\r'
    requires forall i | 0 <= i < |target| :: target[i] != '\r'
    requires forall i | 0 <= i < |w| :: w[i] != '\r'
    ensures var line := m + " " + target + " " + w;
      forall i | 0 <= i < |line| :: line[i] != '\r'
  {
    var line := m + " " + target + " " + w;
    forall i | 0 <= i < |line| ensures line[i] != '\r' {
      if i < |m| { assert line[i] == m[i]; }
      else if i == |m| { }
      else if i < |m| + 1 + |target| { assert line[i] == target[i - |m| - 1]; }
      else if i == |m| + 1 + |target| { }
      else { assert line[i] == w[i - |m| - 2 - |target|]; }
    }
  }

  lemma LineCut(line: string, rest: string)
    requires forall i | 0 <= i < |line| :: line[i] != '\r'
    ensures SplitRequestLine(line + CRLF + rest) == (line, rest)
  {
    IndexOfCrlfAfter(line, rest);
    assert (line + CRLF + rest)[..|line|] == line;
    assert (line + CRLF + rest)[|line| + 2..] == rest;
  }

  lemma LineTokens(m: string, target: string, w: string)
    requires forall i | 0 <= i < |m| :: m[i] != ' '
    requires forall i | 0 <= i < |target| :: target[i] != ' '
    requires w == "HTTP/0.9" || w == "HTTP/1.0" || w == "HTTP/1.1"
    ensures Split(m + " " + target + " " + w, " ") == [m, target, w]
  {
    assert m + " " + target + " " + w == m + [' '] + (target + [' '] + w);
    SplitCons(m, ' ', target + [' '] + w);
    VersionWithoutSpace(w);
    SplitOnce(target, ' ', w);
  }

  lemma VersionWithoutSpace(w: string)
    requires w == "HTTP/0.9" || w == "HTTP/1.0" || w == "HTTP/1.1"
    ensures forall i | 0 <= i < |w| :: w[i] != ' '
  {
    assert |w| == 8 && w[..5] == "HTTP/" && w[6] == '.';
    assert w[5] != ' ' && w[7] != ' ';
    forall i | 0 <= i < |w|
      ensures w[i] != ' '
    {
      if i < 5 {
        assert w[i] == w[..5][i];
      }
    }
  }

  // ---------------------------------------------------------------------------
  // Header lines

  /** Spaces and tabs removed, then lower-cased: value included. */
  function NormalizeLine(line: string): string {
    ToLower(RemoveChar(RemoveChar(line, ' '), '\t'))
  }

  /** No blanks and no upper-case letters. */
  predicate Normalized(s: string) {
    forall i | 0 <= i < |s| :: s[i] != ' ' && s[i] != '\t' && !('A' <= s[i] <= 'Z')
  }

  predicate AllNormalized(m: map<string, string>) {
    forall k | k in m :: Normalized(k) && Normalized(m[k])
  }

  lemma NormalizeLineNormalized(line: string)
    ensures Normalized(NormalizeLine(line))
  {
    var a := RemoveChar(line, ' ');
    var b := RemoveChar(a, '\t');
    assert forall i | 0 <= i < |b| :: b[i] != ' ' by {
      forall i | 0 <= i < |b| ensures b[i] != ' ' {
        RemoveCharKeeps(a, '\t', i);
      }
    }
  }

  /** Every character kept by `RemoveChar` comes from the input. */
  lemma {:induction false} RemoveCharKeeps(s: string, c: char, i: nat)
    requires i < |RemoveChar(s, c)|
    requires forall j | 0 <= j < |s| :: s[j] != ' '
    ensures RemoveChar(s, c)[i] != ' '
    decreases |s|
  {
    if s != [] {
      if s[0] == c {
        RemoveCharKeeps(s[1..], c, i);
      } else if i > 0 {
        RemoveCharKeeps(s[1..], c, i - 1);
      }
    }
  }

  /** Folding the header lines: the outcome and the map built so far. */
  datatype HeaderParse = HeaderParse(ok: bool, headers: map<string, string>)

  /** The name of a normalised header line (text before its first ":"), if it has ":". */
  function HeaderKey(line: string): Option<string> {
    var l := NormalizeLine(line);
    match IndexOf(l, ":") case None => None case Some(p) => Some(l[..p])
  }

  /** The header loop: each line split at its first ":"; a line without one, or starting with one, stops the loop. */
  function FoldHeaders(lines: seq<string>, m: map<string, string>): HeaderParse
    decreases |lines|
  {
    if lines == [] then HeaderParse(true, m)
    else
      var l := NormalizeLine(lines[0]);
      match IndexOf(l, ":")
      case None => HeaderParse(false, m)
      case Some(p) => if p == 0 then HeaderParse(false, m) else FoldHeaders(lines[1..], m[l[..p] := l[p + 1..]])
  }

  /** `set_request_headers` on the text after the request line. */
  function ParseHeaderBlock(block: string, m: map<string, string>): HeaderParse {
    var t := Trim(block);
    if EmptyValue(t) then HeaderParse(true, m) else FoldHeaders(Split(t, CRLF), m)
  }

  /** A header line `set_request_headers` accepts: once normalised, it has ":" after its first character. */
  predicate GoodHeaderLine(line: string) {
    match IndexOf(NormalizeLine(line), ":") case None => false case Some(p) => p > 0
  }

  /** The loop runs to the end exactly when every line is a good header line. */
  lemma {:induction false} FoldHeadersAccepted(lines: seq<string>, m: map<string, string>)
    ensures FoldHeaders(lines, m).ok <==> forall l | l in lines :: GoodHeaderLine(l)
    decreases |lines|
  {
    if lines != [] {
      assert lines == [lines[0]] + lines[1..];
      var l := NormalizeLine(lines[0]);
      match IndexOf(l, ":")
      case None =>
        assert !GoodHeaderLine(lines[0]);
      case Some(p) =>
        if p == 0 {
          assert !GoodHeaderLine(lines[0]);
        } else {
          FoldHeadersAccepted(lines[1..], m[l[..p] := l[p + 1..]]);
        }
    }
  }

  /** The names stored are the earlier ones and those of the lines. */
  lemma {:induction false} FoldHeadersKeys(lines: seq<string>, m: map<string, string>)
    requires FoldHeaders(lines, m).ok
    ensures forall k :: k in FoldHeaders(lines, m).headers <==> k in m || exists l | l in lines :: HeaderKey(l) == Some(k)
    decreases |lines|
  {
    if lines != [] {
      assert lines == [lines[0]] + lines[1..];
      var l := NormalizeLine(lines[0]);
      var p := IndexOf(l, ":").value;
      FoldHeadersKeys(lines[1..], m[l[..p] := l[p + 1..]]);
      assert HeaderKey(lines[0]) == Some(l[..p]);
    }
  }

  /**
   * `set_request_headers` succeeds exactly on an empty block or one whose
   * every line is a good header line, and then stores exactly the lines' names.
   */
  lemma HeaderBlockAccepted(block: string)
    ensures var t := Trim(block);
      ParseHeaderBlock(block, map[]).ok <==> EmptyValue(t) || forall l | l in Split(t, CRLF) :: GoodHeaderLine(l)
    ensures var t := Trim(block);
      !EmptyValue(t) && ParseHeaderBlock(block, map[]).ok ==>
        forall k :: k in ParseHeaderBlock(block, map[]).headers <==> exists l | l in Split(t, CRLF) :: HeaderKey(l) == Some(k)
  {
    var t := Trim(block);
    if !EmptyValue(t) {
      FoldHeadersAccepted(Split(t, CRLF), map[]);
      if FoldHeaders(Split(t, CRLF), map[]).ok {
        FoldHeadersKeys(Split(t, CRLF), map[]);
      }
    }
  }

  /** A line with no ":" or with ":" first fails the whole block. */
  lemma {:induction false} BadHeaderLineRejected(lines: seq<string>, m: map<string, string>, i: nat)
    requires i < |lines|
    requires var l := NormalizeLine(lines[i]); IndexOf(l, ":").None? || IndexOf(l, ":") == Some(0)
    ensures !FoldHeaders(lines, m).ok
    decreases |lines|
  {
    if i > 0 {
      var l := NormalizeLine(lines[0]);
      match IndexOf(l, ":")
      case None =>
      case Some(p) =>
        if p != 0 {
          assert lines[1..][i - 1] == lines[i];
          BadHeaderLineRejected(lines[1..], m[l[..p] := l[p + 1..]], i - 1);
        }
    }
  }

  /** The last line with a given name decides its value: the normalised text after the first ":". */
  lemma {:induction false} LastHeaderWins(lines: seq<string>, m: map<string, string>, i: nat)
    requires i < |lines| && FoldHeaders(lines, m).ok
    requires HeaderKey(lines[i]).Some?
    requires forall j | i < j < |lines| :: HeaderKey(lines[j]) != HeaderKey(lines[i])
    ensures var l := NormalizeLine(lines[i]);
      var p := IndexOf(l, ":").value;
      var r := FoldHeaders(lines, m).headers;
      l[..p] in r && r[l[..p]] == l[p + 1..]
    decreases |lines|
  {
    var l0 := NormalizeLine(lines[0]);
    var p0 := IndexOf(l0, ":").value;
    var m' := m[l0[..p0] := l0[p0 + 1..]];
    if i == 0 {
      HeaderKeptAfter(lines[1..], m', l0[..p0]);
    } else {
      forall j | i - 1 < j < |lines[1..]|
        ensures HeaderKey(lines[1..][j]) != HeaderKey(lines[1..][i - 1])
      {
        assert lines[1..][j] == lines[j + 1];
      }
      LastHeaderWins(lines[1..], m', i - 1);
    }
  }

  lemma {:induction false} HeaderKeptAfter(lines: seq<string>, m: map<string, string>, k: string)
    requires k in m && FoldHeaders(lines, m).ok
    requires forall j | 0 <= j < |lines| :: HeaderKey(lines[j]) != Some(k)
    ensures k in FoldHeaders(lines, m).headers && FoldHeaders(lines, m).headers[k] == m[k]
    decreases |lines|
  {
    if lines != [] {
      var l := NormalizeLine(lines[0]);
      var p := IndexOf(l, ":").value;
      forall j | 0 <= j < |lines[1..]|
        ensures HeaderKey(lines[1..][j]) != Some(k)
      {
        assert lines[1..][j] == lines[j + 1];
      }
      HeaderKeptAfter(lines[1..], m[l[..p] := l[p + 1..]], k);
    }
  }

  /** Every stored name and value is free of blanks and upper-case letters. */
  lemma {:induction false} HeadersNormalized(lines: seq<string>, m: map<string, string>)
    requires AllNormalized(m)
    ensures AllNormalized(FoldHeaders(lines, m).headers)
    decreases |lines|
  {
    if lines != [] {
      var l := NormalizeLine(lines[0]);
      NormalizeLineNormalized(lines[0]);
      match IndexOf(l, ":")
      case None =>
      case Some(p) =>
        if p != 0 {
          assert Normalized(l[..p]) && Normalized(l[p + 1..]) by {
            assert forall i | 0 <= i < p :: l[..p][i] == l[i];
            var value := l[p + 1..];
            assert forall i | 0 <= i < |value| :: value[i] == l[p + 1 + i];
          }
          HeadersNormalized(lines[1..], m[l[..p] := l[p + 1..]]);
        }
    }
  }

  lemma BlockNormalized(block: string)
    ensures AllNormalized(ParseHeaderBlock(block, map[]).headers)
  {
    var t := Trim(block);
    if !EmptyValue(t) {
      HeadersNormalized(Split(t, CRLF), map[]);
    }
  }

  // ---------------------------------------------------------------------------
  // Validation (is_bad_header)

  /** A URI with a host (`isset($uri["host"])`). */
  predicate UriHost(uri: Option<Url>) {
    uri.Some? && uri.value.host.Some?
  }

  /** `get_host`: "host:port" from the URI when it has a host, else the Host header, else None (false). */
  function RequestHost(uri: Option<Url>, headers: map<string, string>): (h: Option<string>)
    ensures UriHost(uri) ==> h == Some(uri.value.host.value + ":" + uri.value.port.GetOr(""))
    ensures !UriHost(uri) ==> (h.Some? <==> "host" in headers) && (h.Some? ==> h.value == headers["host"])
  {
    if UriHost(uri) then Some(uri.value.host.value + ":" + uri.value.port.GetOr(""))
    else if "host" in headers then Some(headers["host"])
    else None
  }

  /**
   * The cascade of `is_bad_header`, first failure wins: 501 for an unsupported
   * method; 400 (version 1.1) or 300 (older) for a missing host; 400 for a host
   * without a home; then the body-framing rules of POST, GET and HEAD. 0 means
   * no error.
   */
  function BadHeaderCode(verb: string, uri: Option<Url>, version: string, headers: map<string, string>, cfg: Config): (code: nat)
    ensures code in {0, 300, 400, 411, 501}
    ensures !IsSupportedMethod(verb) ==> code == 501
    ensures code == 0 && verb == "POST" && "content-length" in headers ==> IsDigits(headers["content-length"])
  {
    var hasHost := UriHost(uri) || "host" in headers;
    if !IsSupportedMethod(verb) then 501
    else if LooseEq(version, "1.1") && !hasHost then 400
    else if version != "1.1" && !hasHost then 300
    else if Home(cfg, RequestHost(uri, headers).value).None? then 400
    else if verb == "POST" then
      if "content-length" !in headers then
        if "transfer-encoding" !in headers then 411
        else if headers["transfer-encoding"] != "chunked" then 400
        else 0
      else if "transfer-encoding" in headers then 400
      else if !IsDigits(headers["content-length"]) then 400
      else 0
    else if "content-length" in headers || "transfer-encoding" in headers then 400
    else 0
  }

  /**
   * What the cascade accepts, stated declaratively: a supported method, a
   * host known to the host table, and a body framed by exactly one of
   * Content-Length (all digits) or Transfer-Encoding: chunked for POST, and
   * by neither for GET and HEAD.
   */
  predicate Acceptable(verb: string, uri: Option<Url>, headers: map<string, string>, cfg: Config) {
    && IsSupportedMethod(verb)
    && RequestHost(uri, headers).Some?
    && Home(cfg, RequestHost(uri, headers).value).Some?
    && (verb == "POST" ==>
          && (("content-length" in headers) != ("transfer-encoding" in headers))
          && ("content-length" in headers ==> IsDigits(headers["content-length"]))
          && ("transfer-encoding" in headers ==> headers["transfer-encoding"] == "chunked"))
    && (verb != "POST" ==> "content-length" !in headers && "transfer-encoding" !in headers)
  }

  lemma AcceptableIffNoError(verb: string, uri: Option<Url>, version: string, headers: map<string, string>, cfg: Config)
    ensures BadHeaderCode(verb, uri, version, headers, cfg) == 0 <==> Acceptable(verb, uri, headers, cfg)
  {
  }

  /** Without any host the code depends only on the version: 400 for 1.1, 300 otherwise. */
  lemma MissingHostCode(verb: string, uri: Option<Url>, version: string, headers: map<string, string>, cfg: Config)
    requires IsSupportedMethod(verb) && !UriHost(uri) && "host" !in headers
    ensures BadHeaderCode(verb, uri, version, headers, cfg) == (if LooseEq(version, "1.1") then 400 else 300)
  {
  }

  /** A POST carrying both Content-Length and Transfer-Encoding is refused whatever their values. */
  lemma PostWithBothFramings(uri: Option<Url>, version: string, headers: map<string, string>, cfg: Config)
    requires "content-length" in headers && "transfer-encoding" in headers
    requires RequestHost(uri, headers).Some? && Home(cfg, RequestHost(uri, headers).value).Some?
    ensures BadHeaderCode("POST", uri, version, headers, cfg) == 400
  {
    assert IsSupportedMethod("POST");
  }

  /** A POST with neither framing header gets 411 once method and host pass. */
  lemma PostWithoutLength(uri: Option<Url>, version: string, headers: map<string, string>, cfg: Config)
    requires "content-length" !in headers && "transfer-encoding" !in headers
    requires RequestHost(uri, headers).Some? && Home(cfg, RequestHost(uri, headers).value).Some?
    ensures BadHeaderCode("POST", uri, version, headers, cfg) == 411
  {
    assert IsSupportedMethod("POST");
  }

  /** A host that the host table does not know is refused with 400. */
  lemma UnknownHostCode(verb: string, uri: Option<Url>, version: string, headers: map<string, string>, cfg: Config)
    requires IsSupportedMethod(verb)
    requires RequestHost(uri, headers).Some? && Home(cfg, RequestHost(uri, headers).value).None?
    ensures BadHeaderCode(verb, uri, version, headers, cfg) == 400
  {
  }

  /** A POST framed by Transfer-Encoding alone must say "chunked", else 400. */
  lemma PostWithUnchunkedCoding(uri: Option<Url>, version: string, headers: map<string, string>, cfg: Config)
    requires "content-length" !in headers && "transfer-encoding" in headers && headers["transfer-encoding"] != "chunked"
    requires RequestHost(uri, headers).Some? && Home(cfg, RequestHost(uri, headers).value).Some?
    ensures BadHeaderCode("POST", uri, version, headers, cfg) == 400
  {
    assert IsSupportedMethod("POST");
  }

  /** A POST framed by Content-Length alone must give it as digits, else 400. */
  lemma PostWithBadLength(uri: Option<Url>, version: string, headers: map<string, string>, cfg: Config)
    requires "content-length" in headers && "transfer-encoding" !in headers && !IsDigits(headers["content-length"])
    requires RequestHost(uri, headers).Some? && Home(cfg, RequestHost(uri, headers).value).Some?
    ensures BadHeaderCode("POST", uri, version, headers, cfg) == 400
  {
    assert IsSupportedMethod("POST");
  }

  /** A GET or HEAD that announces a body is refused with 400. */
  lemma BodiedGetOrHead(verb: string, uri: Option<Url>, version: string, headers: map<string, string>, cfg: Config)
    requires verb == "GET" || verb == "HEAD"
    requires "content-length" in headers || "transfer-encoding" in headers
    requires RequestHost(uri, headers).Some? && Home(cfg, RequestHost(uri, headers).value).Some?
    ensures BadHeaderCode(verb, uri, version, headers, cfg) == 400
  {
    assert IsSupportedMethod(verb);
  }

  /** An accepted request names a host with a home directory. */
  lemma AcceptedHostHasHome(verb: string, uri: Option<Url>, version: string, headers: map<string, string>, cfg: Config)
    requires BadHeaderCode(verb, uri, version, headers, cfg) == 0
    ensures RequestHost(uri, headers).Some? && Home(cfg, RequestHost(uri, headers).value).Some?
  {
  }

  // ---------------------------------------------------------------------------
  // The whole header block

  /** What an accepted header block yields. */
  datatype Head = Head(verb: string, uri: Url, version: string, headers: map<string, string>)

  datatype HeadResult = HeadRejected(code: nat) | HeadOk(head: Head)

  /**
   * The header block's part of the constructor: request line, URI, header
   * lines and the validation cascade, in that order.
   */
  function ParseHead(header: string, parseUrl: string -> Option<Url>, cfg: Config): (r: HeadResult)
    ensures r.HeadRejected? ==> r.code in {300, 400, 411, 501}
    ensures r.HeadOk? ==>
      && Acceptable(r.head.verb, Some(r.head.uri), r.head.headers, cfg)
      && AllNormalized(r.head.headers)
      && GetVersion("HTTP/" + r.head.version) == Some(r.head.version)
  {
    var (line, rest) := SplitRequestLine(header);
    var tokens := Split(line, " ");
    if |tokens| != 3 then HeadRejected(400)
    else match GetVersion(tokens[2])
      case None => HeadRejected(400)
      case Some(v) =>
        match ParseUri(parseUrl(tokens[1]))
        case None => HeadRejected(400)
        case Some(u) =>
          var hp := ParseHeaderBlock(rest, map[]);
          if !hp.ok then HeadRejected(400)
          else
            var code := BadHeaderCode(tokens[0], Some(u), v, hp.headers, cfg);
            if code != 0 then HeadRejected(code)
            else
              AcceptableIffNoError(tokens[0], Some(u), v, hp.headers, cfg);
              BlockNormalized(rest);
              HeadOk(Head(tokens[0], u, v, hp.headers))
  }

  /** The body length the constructor passes on: Content-Length's value, or 0 (chunked). */
  function BodyLength(headers: map<string, string>): nat
    requires "content-length" in headers ==> AllDigits(headers["content-length"])
  {
    if "content-length" in headers then DecimalValue(headers["content-length"]) else 0
  }

  /** "Content-Length: 0" is passed on as 0, which `read_body` takes to mean a chunked body. */
  lemma ZeroLengthReadsChunked(headers: map<string, string>)
    requires "content-length" in headers && headers["content-length"] == "0"
    ensures BodyLength(headers) == 0
  {
    assert DecimalValue("0") == 0 by {
      assert "0"[..0] == "";
    }
  }

  /** The body read from the stream after the header, and the stream left over. */
  function BodyFrom(length: nat, all: string): (BodyRead, string) {
    if length > 0 then
      if |all| < length then (BodyReadFailure, "") else (Body(all[..length]), all[length..])
    else match Dechunk(all)
      case Decoded(b, r) => (Body(b), r)
      case SyntaxError => (BodySyntaxError, "")
      case TransportError => (BodyReadFailure, "")
  }

  /** `read_header` on the whole trimmed stream: the header through its first blank line, and what follows. */
  function SplitHeader(stream: string): (r: Option<(string, string)>)
    ensures r.Some? ==> r.value.0 + r.value.1 == LTrim(stream, CRLF_CHARS)
  {
    var all := LTrim(stream, CRLF_CHARS);
    match IndexOf(all, DOUBLE_CRLF)
    case None => None
    case Some(p) =>
      assert all[..p + 4] + all[p + 4..] == all;
      Some((all[..p + 4], all[p + 4..]))
  }

  // ---------------------------------------------------------------------------
  // The Request object

  /**
   * The outcome of reading a POST body of the length `headers` announce from
   * `stream`: the body and the stream left over, or 400 (chunk syntax) or 500
   * (transport).
   */
  predicate BodyReceived(r: Request, headers: map<string, string>, stream: string, left: string)
    requires "content-length" in headers ==> AllDigits(headers["content-length"])
    reads r
  {
    var (b, rest) := BodyFrom(BodyLength(headers), stream);
    match b
    case Body(d) => !r.badRequest && r.body == d && left == rest
    case BodySyntaxError => r.badRequest && r.errorCode == 400
    case BodyReadFailure => r.badRequest && r.errorCode == 500
  }

  class Request {
    var verb: string
    var rawUri: string
    var uri: Option<Url>
    var version: Option<string>
    var headers: map<string, string>
    var body: string
    var remoteHost: string
    var remotePort: nat
    var badRequest: bool
    /** 0 stands for the initial "". */
    var errorCode: nat

    /**
     * Reads and checks one request. `peer` is what `socket_getpeername`
     * reports (None when it fails) and `parseUrl` stands for `parse_url`.
     */
    constructor (conn: Connection, peer: Option<(string, nat)>, parseUrl: string -> Option<Url>, cfg: Config)
      modifies conn
      ensures peer.None? ==> badRequest && errorCode == 500 && conn.buffer == old(conn.buffer) && conn.input == old(conn.input)
      ensures peer.Some? ==> remoteHost == peer.value.0 && remotePort == peer.value.1
      ensures peer.Some? ==>
        match SplitHeader(old(conn.buffer) + Available(old(conn.input)))
        case None => badRequest && errorCode == 500
        case Some((header, after)) => HeadHandled(header, parseUrl, cfg, after, conn.buffer + Available(conn.input))
    {
      verb, rawUri, uri, version, headers, body := "", "", None, None, map[], "";
      badRequest, errorCode := false, 0;
      remoteHost, remotePort := if peer.Some? then peer.value.0 else "", if peer.Some? then peer.value.1 else 0;
      new;
      if peer.None? {
        badRequest, errorCode := true, 500;
        return;
      }
      Receive(conn, parseUrl, cfg);
    }

    /** The constructor's work once the peer is known: header, request line, headers, checks and body. */
    method Receive(conn: Connection, parseUrl: string -> Option<Url>, cfg: Config)
      requires !badRequest && headers == map[]
      modifies this`verb, this`rawUri, this`uri, this`version, this`headers, this`badRequest, this`errorCode, this`body, conn
      ensures
        match SplitHeader(old(conn.buffer) + Available(old(conn.input)))
        case None => badRequest && errorCode == 500
        case Some((header, after)) => HeadHandled(header, parseUrl, cfg, after, conn.buffer + Available(conn.input))
    {
      var header := ReceiveHeader(conn);
      if header.None? {
        badRequest, errorCode := true, 500;
        return;
      }
      HandleHead(conn, header.value, parseUrl, cfg);
    }

    /**
     * What the constructor leaves for a received header block: the request
     * line's parts and the headers, the rejection code, or, for POST, the
     * body read from the stream after the header.
     */
    predicate HeadHandled(header: string, parseUrl: string -> Option<Url>, cfg: Config, after: string, left: string)
      reads this
    {
      match ParseHead(header, parseUrl, cfg)
      case HeadRejected(c) => badRequest && errorCode == c
      case HeadOk(h) =>
        && verb == h.verb && uri == Some(h.uri) && version == Some(h.version) && headers == h.headers
        && (h.verb != "POST" ==> !badRequest && left == after)
        && (h.verb == "POST" ==> BodyReceived(this, h.headers, after, left))
    }

    /** The constructor's steps on a received header block. */
    method HandleHead(conn: Connection, header: string, parseUrl: string -> Option<Url>, cfg: Config)
      requires !badRequest && headers == map[]
      modifies this`verb, this`rawUri, this`uri, this`version, this`headers, this`badRequest, this`errorCode, this`body, conn
      ensures HeadHandled(header, parseUrl, cfg, old(conn.buffer) + Available(old(conn.input)), conn.buffer + Available(conn.input))
    {
      var ok := ReadHead(header, parseUrl, cfg);
      if !ok {
        return;
      }
      if verb == "POST" {
        ReceiveBody(conn);
      }
    }

    /** `read_header` on the connection, as `SplitHeader` describes it. */
    static method ReceiveHeader(conn: Connection) returns (header: Option<string>)
      modifies conn
      ensures match SplitHeader(old(conn.buffer) + Available(old(conn.input)))
        case None => header.None?
        case Some((h, after)) => header == Some(h) && conn.buffer + Available(conn.input) == after
    {
      var buf, inp;
      header, buf, inp := ReadHeader(conn.buffer, conn.input);
      conn.buffer, conn.input := buf, inp;
    }

    /** The POST branch of the constructor: `read_body` with the announced length, failures mapped to 500 and 400. */
    method ReceiveBody(conn: Connection)
      requires "content-length" in headers ==> AllDigits(headers["content-length"])
      requires !badRequest
      modifies conn, this`body, this`badRequest, this`errorCode
      ensures BodyReceived(this, headers, old(conn.buffer) + Available(old(conn.input)), conn.buffer + Available(conn.input))
    {
      var length := BodyLength(headers);
      var b, buf, inp := ReadBody(length, conn.buffer, conn.input);
      conn.buffer, conn.input := buf, inp;
      match b
      case BodyReadFailure =>
        badRequest, errorCode := true, 500;
      case BodySyntaxError =>
        badRequest, errorCode := true, 400;
      case Body(d) =>
        body := d;
    }

    /** The constructor's steps from `set_request_line` to `is_bad_header` on a received header block. */
    method ReadHead(header: string, parseUrl: string -> Option<Url>, cfg: Config) returns (ok: bool)
      requires !badRequest && headers == map[]
      modifies this`verb, this`rawUri, this`uri, this`version, this`headers, this`badRequest, this`errorCode
      ensures match ParseHead(header, parseUrl, cfg)
        case HeadRejected(c) => !ok && badRequest && errorCode == c
        case HeadOk(h) => ok && !badRequest && verb == h.verb && uri == Some(h.uri) && version == Some(h.version) && headers == h.headers
    {
      var rest := SetRequestLine(header);
      if badRequest {
        return false;
      }
      var u := ParseUri(parseUrl(rawUri));
      if u.None? {
        badRequest, errorCode := true, 400;
        return false;
      }
      uri := u;
      ok := ReadHeaderLines(rest, cfg);
    }

    /** `set_request_headers`, then `is_bad_header`, on the lines after a good request line. */
    method ReadHeaderLines(block: string, cfg: Config) returns (ok: bool)
      requires !badRequest && headers == map[] && uri.Some? && version.Some?
      modifies this`headers, this`badRequest, this`errorCode
      ensures var hp := ParseHeaderBlock(block, map[]);
        && (!hp.ok ==> !ok && badRequest && errorCode == 400)
        && (hp.ok ==>
          var code := BadHeaderCode(verb, uri, version.value, hp.headers, cfg);
          && headers == hp.headers && ok == (code == 0) && badRequest == !ok
          && (!ok ==> errorCode == code))
    {
      SetRequestHeaders(block);
      if badRequest {
        return false;
      }
      var bad := IsBadHeader(cfg);
      return !bad;
    }

    /** `set_request_line`: method, target and version, or 400. */
    method SetRequestLine(header: string) returns (rest: string)
      modifies this`verb, this`rawUri, this`version, this`badRequest, this`errorCode
      ensures rest == SplitRequestLine(header).1
      ensures var tokens := Split(SplitRequestLine(header).0, " ");
        if |tokens| != 3 then
          badRequest && errorCode == 400 && verb == old(verb) && rawUri == old(rawUri) && version == old(version)
        else
          && verb == tokens[0] && rawUri == tokens[1] && version == GetVersion(tokens[2])
          && (version.None? ==> badRequest && errorCode == 400)
          && (version.Some? ==> badRequest == old(badRequest) && errorCode == old(errorCode))
    {
      var line;
      line, rest := SplitRequestLine(header).0, SplitRequestLine(header).1;
      var tokens := Split(line, " ");
      if |tokens| != 3 {
        badRequest, errorCode := true, 400;
        return;
      }
      verb, rawUri := tokens[0], tokens[1];
      version := GetVersion(tokens[2]);
      if version.None? {
        badRequest, errorCode := true, 400;
      }
    }

    /** `set_request_headers`: the header loop, stopping with 400 at the first line without a name. */
    method SetRequestHeaders(block: string)
      modifies this`headers, this`badRequest, this`errorCode
      ensures var r := ParseHeaderBlock(block, old(headers));
        && headers == r.headers
        && (r.ok ==> badRequest == old(badRequest) && errorCode == old(errorCode))
        && (!r.ok ==> badRequest && errorCode == 400)
    {
      var t := Trim(block);
      if EmptyValue(t) {
        return;
      }
      var lines := Split(t, CRLF);
      var i := 0;
      while i < |lines|
        invariant 0 <= i <= |lines|
        invariant FoldHeaders(lines[i..], headers) == FoldHeaders(lines, old(headers))
        invariant badRequest == old(badRequest) && errorCode == old(errorCode)
      {
        assert lines[i..][1..] == lines[i + 1..];
        var line := NormalizeLine(lines[i]);
        var p := IndexOf(line, ":");
        if p.None? || p.value == 0 {
          badRequest, errorCode := true, 400;
          return;
        }
        headers := headers[line[..p.value] := line[p.value + 1..]];
        i := i + 1;
      }
    }

    /** `is_bad_header`: true exactly when the request is (now) marked bad, with the cascade's code. */
    method IsBadHeader(cfg: Config) returns (bad: bool)
      modifies this`badRequest, this`errorCode
      ensures old(badRequest) ==> bad && badRequest && errorCode == old(errorCode)
      ensures !old(badRequest) ==>
        var code := BadHeaderCode(verb, uri, version.GetOr(""), headers, cfg);
        && bad == (code != 0) && badRequest == bad
        && errorCode == (if bad then code else old(errorCode))
    {
      if badRequest {
        return true;
      }
      var v := version.GetOr("");
      if !IsSupportedMethod(verb) {
        badRequest, errorCode := true, 501;
        return true;
      }
      if LooseEq(v, "1.1") && !UriHost(uri) && !IsHeaderSet("host") {
        badRequest, errorCode := true, 400;
        return true;
      }
      if v != "1.1" && !UriHost(uri) && !IsHeaderSet("host") {
        badRequest, errorCode := true, 300;
        return true;
      }
      if UriHost(uri) || IsHeaderSet("host") {
        var host := GetHost();
        if Home(cfg, host.value).None? {
          badRequest, errorCode := true, 400;
          return true;
        }
      }
      if verb == "POST" {
        if !IsHeaderSet("content-length") {
          if !IsHeaderSet("transfer-encoding") {
            badRequest, errorCode := true, 411;
            return true;
          }
          if GetHeader("transfer-encoding").value != "chunked" {
            badRequest, errorCode := true, 400;
            return true;
          }
          return false;
        }
        if IsHeaderSet("transfer-encoding") {
          badRequest, errorCode := true, 400;
          return true;
        }
        if !IsDigits(GetHeader("content-length").value) {
          badRequest, errorCode := true, 400;
          return true;
        }
        return false;
      } else if IsHeaderSet("content-length") || IsHeaderSet("transfer-encoding") {
        badRequest, errorCode := true, 400;
        return true;
      }
      return false;
    }

    /** `is_header_set`. */
    predicate IsHeaderSet(name: string)
      reads this
    {
      name in headers
    }

    /** `get_header`: the value, or None (false) when the header is absent. */
    function GetHeader(name: string): (v: Option<string>)
      reads this
      ensures v.Some? <==> IsHeaderSet(name)
      ensures v.Some? ==> v.value == headers[name]
    {
      if name in headers then Some(headers[name]) else None
    }

    /** `get_host`. */
    function GetHost(): (h: Option<string>)
      reads this
      ensures h == RequestHost(uri, headers)
    {
      if UriHost(uri) then Some(uri.value.host.value + ":" + uri.value.port.GetOr(""))
      else GetHeader("host")
    }
  }
}
