/**
 * The decisions `Response::send_script` takes around a CGI/1.1 script (RFC
 * 3875) and the chunked framing it relays the script's output in: the
 * command line and working directory of the script, non-parsed-header
 * detection (section 5 of RFC 3875), the Status/Location decision on the
 * script's header block (section 6.3 of RFC 3875), the choice of a transfer coding from
 * the TE header (section 14.39 of RFC 2616) and the chunk relay (section
 * 3.6.1 of RFC 2616). Starting the process and reading its pipes are inputs:
 * a pipe is the sequence of what successive reads return, and it is at end
 * of file once they are used up.
 */
module Gateway {
  import opened Wrappers
  import opened Strings
  import opened Utility
  import opened Wire

  /** `$script_type`: unset, "cgi" or "php". */
  datatype ScriptKind = NoScript | Cgi | Php

  // ---------------------------------------------------------------------------
  // Command line and working directory

  /** The position of the last "/" in `s`. */
  function LastSlash(s: string): (r: Option<nat>)
    ensures r.Some? ==> r.value < |s| && s[r.value] == '/' && forall j | r.value < j < |s| :: s[j] != '/'
    ensures r.None? ==> forall j | 0 <= j < |s| :: s[j] != '/'
    decreases |s|
  {
    if s == [] then None
    else if s[|s| - 1] == '/' then Some(|s| - 1)
    else LastSlash(s[..|s| - 1])
  }

  /**
   * `pathinfo(path, PATHINFO_DIRNAME)` for the file paths `find_resource`
   * returns: the text before the last "/", "/" when that is the first
   * character, "." when there is none.
   */
  function DirName(path: string): (r: string)
    ensures (forall j | 0 <= j < |path| :: path[j] != '/') ==> r == "."
    ensures path != "" && path[0] == '/' && (forall j | 0 < j < |path| :: path[j] != '/') ==> r == "/"
    ensures (exists j | 0 < j < |path| :: path[j] == '/') ==>
      && 0 < |r| < |path| && path[..|r|] == r && path[|r|] == '/'
      && forall j | |r| < j < |path| :: path[j] != '/'
  {
    match LastSlash(path)
    case None => "."
    case Some(i) => if i == 0 then "/" else path[..i]
  }

  /** The script's working directory: its directory with a trailing "/". */
  function WorkingDir(path: string): string {
    DirName(path) + "/"
  }

  /** The script's file name: the path with its working directory removed; a bare name is its own file name. */
  function ScriptFileName(path: string): (r: string)
    ensures (forall j | 0 <= j < |path| :: path[j] != '/') ==> r == path
  {
    if forall j | 0 <= j < |path| :: path[j] != '/' then
      SlashFreeName("./", path);
      ReplaceAbsent(path, "./", "");
      assert WorkingDir(path) == "./";
      Replace(path, WorkingDir(path), "")
    else
      Replace(path, WorkingDir(path), "")
  }

  /** A non-parsed-header script: a CGI program whose file name starts with "nph-". */
  predicate IsNph(kind: ScriptKind, path: string)
    ensures IsNph(kind, path) <==> kind == Cgi && |ScriptFileName(path)| >= 4 && ScriptFileName(path)[..4] == "nph-"
  {
    var name := ScriptFileName(path);
    if |name| >= 4 && name[..4] == "nph-" then
      assert OccursAt(name, "nph-", 0);
      kind == Cgi && IndexOf(name, "nph-") == Some(0)
    else
      kind == Cgi && IndexOf(name, "nph-") == Some(0)
  }

  /**
   * A script `dir/name` runs in `dir/` under its own name, so it is a
   * non-parsed-header script exactly when it is a CGI program named "nph-...".
   */
  lemma NphByName(kind: ScriptKind, dir: string, name: string)
    requires dir != ""
    requires forall i | 0 <= i < |name| :: name[i] != '/'
    ensures ScriptFileName(dir + "/" + name) == name
    ensures IsNph(kind, dir + "/" + name) <==> kind == Cgi && |name| >= 4 && name[..4] == "nph-"
  {
    var cwd := dir + "/";
    assert dir + "/" + name == cwd + name;
    LastSlashBeforeName(dir, name);
    assert WorkingDir(cwd + name) == cwd by {
      assert (cwd + name)[..|dir|] == dir;
    }
    SlashFreeName(cwd, name);
    ReplaceAbsent(name, cwd, "");
    ReplaceLeading(cwd, name);
    if |name| >= 4 && name[..4] == "nph-" {
      assert OccursAt(name, "nph-", 0);
    }
  }

  lemma {:induction false} LastSlashBeforeName(dir: string, name: string)
    requires forall i | 0 <= i < |name| :: name[i] != '/'
    ensures LastSlash(dir + "/" + name) == Some(|dir|)
    decreases |name|
  {
    var path := dir + "/" + name;
    if name != [] {
      var init := name[..|name| - 1];
      assert path[..|path| - 1] == dir + "/" + init;
      assert path[|path| - 1] == name[|name| - 1];
      LastSlashBeforeName(dir, init);
    }
  }

  /** A name without "/" does not contain a directory ending in "/". */
  lemma SlashFreeName(cwd: string, name: string)
    requires cwd != [] && cwd[|cwd| - 1] == '/'
    requires forall i | 0 <= i < |name| :: name[i] != '/'
    ensures !Contains(name, cwd)
  {
    forall q | 0 <= q
      ensures !OccursAt(name, cwd, q)
    {
      if q + |cwd| <= |name| {
        assert name[q..q + |cwd|][|cwd| - 1] == name[q + |cwd| - 1];
      }
    }
  }

  /** Removing a leading prefix that does not occur in the rest leaves the rest. */
  lemma ReplaceLeading(pre: string, rest: string)
    requires pre != [] && Replace(rest, pre, "") == rest
    ensures Replace(pre + rest, pre, "") == rest
  {
    assert (pre + rest)[..|pre|] == pre;
    assert (pre + rest)[|pre|..] == rest;
  }

  /** The arguments appended to a command line, each after a space. */
  function Args(argv: seq<string>): (r: string)
    ensures argv == [] ==> r == ""
  {
    if argv == [] then "" else " " + argv[0] + Args(argv[1..])
  }

  /**
   * The command `proc_open` runs: "php-cgi" for a PHP script, given the
   * script path and the arguments only when the query string became
   * arguments; the program itself, followed by any arguments, otherwise.
   */
  function Command(kind: ScriptKind, path: string, argv: Option<seq<string>>): (cmd: string)
    ensures kind == Php && argv.None? ==> cmd == "php-cgi"
    ensures kind != Php && argv.None? ==> cmd == path
  {
    var args := if argv.Some? then Args(argv.value) else "";
    if kind == Php then
      if argv.Some? then "php-cgi " + path + args else "php-cgi"
    else path + args
  }

  /** A PHP script given arguments is started without the environment `set_env` built. */
  predicate PassesEnvironment(kind: ScriptKind, argv: Option<seq<string>>) {
    !(kind == Php && argv.Some?)
  }

  /**
   * A command line splits back into the program and its arguments when
   * none of them contains a space.
   */
  lemma {:induction false} CommandWords(path: string, argv: seq<string>)
    requires forall i | 0 <= i < |path| :: path[i] != ' '
    requires forall k, i | 0 <= k < |argv| && 0 <= i < |argv[k]| :: argv[k][i] != ' '
    ensures Split(path + Args(argv), " ") == [path] + argv
    decreases |argv|
  {
    if argv == [] {
      assert path + Args(argv) == path;
      SplitNone(path, ' ');
    } else {
      var tail := argv[1..];
      var rest := argv[0] + Args(tail);
      assert Args(argv) == [' '] + rest;
      assert path + Args(argv) == path + [' '] + rest;
      SplitCons(path, ' ', rest);
      forall k, i | 0 <= k < |tail| && 0 <= i < |tail[k]|
        ensures tail[k][i] != ' '
      {
        assert tail[k] == argv[k + 1];
      }
      CommandWords(argv[0], tail);
      assert argv == [argv[0]] + tail;
    }
  }

  // ---------------------------------------------------------------------------
  // The Status / Location decision

  /** What `send_script` does with the script's header block. */
  datatype Reply =
    | ScriptError                                // answer 500 and close
    | StatusReply(code: string)                  // answer with the script's status code and close
    | Redirect(fields: map<string, string>)      // answer 302 with the script's fields
    | Forward(fields: map<string, string>)       // answer 200 with the script's fields and its output

  /** The code of a Status field: its text before the first space. */
  function StatusCode(status: string): string {
    Split(status, " ")[0]
  }

  /** A status line "code reason" gives its code. */
  lemma StatusLineCode(code: string, reason: string)
    requires forall i | 0 <= i < |code| :: code[i] != ' '
    ensures StatusCode(code + " " + reason) == code
  {
    assert code + " " + reason == code + [' '] + reason;
    SplitCons(code, ' ', reason);
  }

  /**
   * The decision on the header block `read_script_header` returned (None
   * when it was rejected).
   */
  function Decide(header: Option<string>): (r: Reply)
    ensures r.ScriptError? <==>
      || header.None? || ParseScriptHeader(header.value).None?
      || (var f := ParseScriptHeader(header.value).value; "Status" in f && !IsDigits(StatusCode(f["Status"])))
    ensures r.StatusReply? ==>
      var f := ParseScriptHeader(header.value).value;
      "Status" in f && r.code == StatusCode(f["Status"]) && IsDigits(r.code)
    ensures r.Redirect? ==>
      var f := ParseScriptHeader(header.value).value;
      "Status" !in f && "Location" in f && r.fields == f
    ensures r.Forward? ==>
      var f := ParseScriptHeader(header.value).value;
      "Status" !in f && "Location" !in f && r.fields == f
  {
    if header.None? then ScriptError
    else match ParseScriptHeader(header.value)
      case None => ScriptError
      case Some(f) =>
        if "Status" in f then
          var code := StatusCode(f["Status"]);
          if IsDigits(code) then StatusReply(code) else ScriptError
        else if "Location" in f then Redirect(f)
        else Forward(f)
  }

  // ---------------------------------------------------------------------------
  // The transfer coding asked for by TE

  /** An entry of TE the server can honour: a known transfer coding with a nonzero quality. */
  predicate Usable(e: (string, real)) {
    e.0 in TRANSFER_CODINGS && e.1 != 0.0
  }

  /** The position of the first usable entry. */
  function FirstUsable(prefs: Prefs): (r: Option<nat>)
    ensures r.Some? ==> r.value < |prefs| && Usable(prefs[r.value]) && forall j | 0 <= j < r.value :: !Usable(prefs[j])
    ensures r.None? ==> forall j | 0 <= j < |prefs| :: !Usable(prefs[j])
    decreases |prefs|
  {
    if prefs == [] then None
    else if Usable(prefs[0]) then Some(0)
    else
      var r := FirstUsable(prefs[1..]);
      assert forall j | 1 <= j < |prefs| :: prefs[j] == prefs[1..][j - 1];
      if r.Some? then Some(r.value + 1) else None
  }

  /** The coding `send_script` applies: none without TE or when TE is malformed, else the first usable entry. */
  function ChooseCoding(te: Option<string>): (r: Option<string>)
    ensures r.Some? ==> r.value in TRANSFER_CODINGS
    ensures te.None? || ParseAccept(te.value).AcceptError? ==> r.None?
    ensures te.Some? && ParseAccept(te.value).Accepted? ==>
      var p := ParseAccept(te.value).prefs;
      (r.None? <==> FirstUsable(p).None?) && (r.Some? ==> r.value == p[FirstUsable(p).value].0)
  {
    match te
    case None => None
    case Some(t) =>
      match ParseAccept(t)
      case AcceptError => None
      case Accepted(p) =>
        match FirstUsable(p)
        case None => None
        case Some(i) => Some(p[i].0)
  }

  /**
   * TE lists codings by non-increasing quality, so the chosen coding has
   * the highest quality among the usable codings listed, and that quality
   * is positive.
   */
  lemma ChosenCodingIsPreferred(t: string)
    requires ParseAccept(t).Accepted? && FirstUsable(ParseAccept(t).prefs).Some?
    ensures var p := ParseAccept(t).prefs; var i := FirstUsable(p).value;
      && ChooseCoding(Some(t)) == Some(p[i].0) && 0.0 < p[i].1
      && forall j | 0 <= j < |p| && Usable(p[j]) :: p[j].1 <= p[i].1
  {
    FirstUsableIsBest(ParseAccept(t).prefs);
  }

  lemma FirstUsableIsBest(p: Prefs)
    requires SortedDesc(p) && forall x | x in p :: 0.0 <= x.1
    requires FirstUsable(p).Some?
    ensures var i := FirstUsable(p).value;
      0.0 < p[i].1 && forall j | 0 <= j < |p| && Usable(p[j]) :: p[j].1 <= p[i].1
  {
    var i := FirstUsable(p).value;
    assert p[i] in p;
    forall j | 0 <= j < |p| && Usable(p[j])
      ensures p[j].1 <= p[i].1
    {
      if i < j {
        assert p[i].1 >= p[j].1;
      }
    }
  }

  /**
   * As written, `parse_accept` keeps a negative quality, and `send_script`
   * only refuses a quality equal to 0: a known coding with a negative
   * quality is chosen. The corrected entry has quality 0 and is refused.
   */
  lemma NegativeCodingUsableAsWritten(e: string)
    requires Contains(e, ";q=") && IndexOf(e, ";q=").value != 0
    requires Numeric(QualityText(e)).Some? && Numeric(QualityText(e)).value < 0.0
    requires e[..IndexOf(e, ";q=").value] in TRANSFER_CODINGS
    ensures ParseEntryAsWritten(e).Some? && Usable(ParseEntryAsWritten(e).value)
    ensures ParseEntry(e).Some? && !Usable(ParseEntry(e).value)
  {
  }

  /** "gzip;q=-2" is an entry of that kind. */
  lemma GzipMinusTwo()
    ensures ParseEntryAsWritten("gzip;q=-2") == Some(("gzip", -2.0)) && Usable(("gzip", -2.0))
    ensures ParseEntry("gzip;q=-2") == Some(("gzip", 0.0)) && !Usable(("gzip", 0.0))
  {
    assert OccursAt("gzip;q=-2", ";q=", 4);
    forall j | 0 <= j < 4 ensures !OccursAt("gzip;q=-2", ";q=", j) {
      assert "gzip;q=-2"[j..j + 3][0] == "gzip;q=-2"[j] != ';';
    }
    IndexOfIsFirst("gzip;q=-2", ";q=", 4);
    assert "gzip;q=-2"[4..] == ";q=-2" && "gzip;q=-2"[..4] == "gzip";
    MinusTwoText();
    MinusTwoValue();
    assert QualityText("gzip;q=-2") == "-2";
    NegativeCodingUsableAsWritten("gzip;q=-2");
  }

  /** `field` ends with the coding `c`. */
  predicate LastCoding(field: string, c: string) {
    |field| >= |c| && field[|field| - |c|..] == c
  }

  /** The Transfer-Encoding field: the coding, if any, then "chunked", which always comes last. */
  function TransferEncoding(coding: Option<string>): (r: string)
    ensures LastCoding(r, "chunked")
    ensures coding.None? ==> r == "chunked"
    ensures coding.Some? ==> |r| > |coding.value| && r[..|coding.value|] == coding.value
  {
    match coding
    case None => "chunked"
    case Some(c) => c + ", chunked"
  }

  // ---------------------------------------------------------------------------
  // Relaying the output

  /**
   * The chunks the relay loop sends: the output left after the header is
   * sent together with the first read, every later non-empty read on its
   * own, empty reads not at all. If the pipe is already at end of file the
   * loop does not run and the leftover output is not sent.
   */
  function RelayChunks(buffer: string, pipe: seq<string>): (chunks: seq<string>)
    ensures forall i | 0 <= i < |chunks| :: chunks[i] != ""
    ensures pipe != [] ==> Concat(chunks) == buffer + Concat(pipe)
    decreases |pipe|
  {
    if pipe == [] then []
    else
      var b := buffer + pipe[0];
      var more := RelayChunks("", pipe[1..]);
      assert pipe[1..] == [] ==> more == [];
      if b == "" then more else [b] + more
  }

  /**
   * The relay loop of `send_script` without a transfer coding: each chunk is
   * framed as hex size, CRLF, data, CRLF, and the relay ends with the last
   * chunk "0" and an empty trailer.
   */
  method Relay(buffer: string, pipe: seq<string>) returns (out: string)
    ensures out == EncodeChunks(RelayChunks(buffer, pipe)) + CRLF
  {
    out := "";
    var buf, rest := buffer, pipe;
    while rest != []
      invariant out + EncodeChunks(RelayChunks(buf, rest)) == EncodeChunks(RelayChunks(buffer, pipe))
      decreases |rest|
    {
      RelayStep(buf, rest);
      buf := buf + rest[0];
      rest := rest[1..];
      if buf != "" {
        AppendAssoc(out, Frame(buf), EncodeChunks(RelayChunks("", rest)));
        out := out + Frame(buf);
        buf := "";
      }
    }
    AppendAssoc(out, "0" + CRLF, CRLF);
    out := out + ("0" + CRLF) + CRLF;
  }

  lemma AppendAssoc(a: string, b: string, c: string)
    ensures (a + b) + c == a + (b + c)
  {
  }

  /** One turn of the relay loop: the first read, joined to the leftover, goes out as a frame unless both are empty. */
  lemma RelayStep(buf: string, rest: seq<string>)
    requires rest != []
    ensures var b := buf + rest[0];
      EncodeChunks(RelayChunks(buf, rest))
        == (if b == "" then "" else Frame(b)) + EncodeChunks(RelayChunks("", rest[1..]))
  {
    var b := buf + rest[0];
    var more := RelayChunks("", rest[1..]);
    if b != "" {
      assert RelayChunks(buf, rest) == [b] + more;
      assert ([b] + more)[1..] == more;
    }
  }

  /**
   * What the client's chunked decoder makes of the relayed output: exactly
   * the script's output after its header, with the empty trailer's CRLF left
   * over.
   */
  lemma RelayDecodes(buffer: string, pipe: seq<string>)
    requires pipe != []
    ensures Dechunk(EncodeChunks(RelayChunks(buffer, pipe)) + CRLF) == Decoded(buffer + Concat(pipe), CRLF)
  {
    DechunkEncode(RelayChunks(buffer, pipe), CRLF);
  }

  /**
   * How `send_script` reads the script's header block: below HTTP/1.1 it
   * reads the whole output and splits it; for HTTP/1.1 it reads the pipe
   * only until the header is complete. Both use the split that cuts at the
   * first terminator.
   */
  function ReadScriptOutput(chunked: bool, output: seq<string>): (r: ScriptRead)
    ensures !chunked ==> r.rest == [] && (r.header.Some? <==> Terminated(Concat(output)))
    ensures chunked ==> r == PipeScriptHeaderIntended("", output)
  {
    if chunked then PipeScriptHeaderIntended("", output)
    else
      var all := Concat(output);
      match SplitScriptOutput(all)
      case None => ScriptRead(None, all, [])
      case Some((h, after)) => ScriptRead(Some(h), after, [])
  }

  /**
   * End to end for HTTP/1.1: when the pipe ends with the empty read that
   * finds end of file and the output has a complete header, the client's
   * chunked decoder recovers exactly the script's output after the header's
   * blank line.
   */
  lemma ChunkedOutputIntact(output: seq<string>)
    requires output != [] && output[|output| - 1] == ""
    requires ReadScriptOutput(true, output).header.Some?
    ensures var r := ReadScriptOutput(true, output);
      var all := Drain("", output).0;
      r.rest != []
      && Dechunk(EncodeChunks(RelayChunks(r.buffer, r.rest)) + CRLF)
         == Decoded(Concat(output)[HeaderEnd(all).value..], CRLF)
  {
    var r := ReadScriptOutput(true, output);
    var d := Drain("", output);
    var e := HeaderAfterDrain(output);
    EofReadLeftUnread("", output);
    RelayDecodes(r.buffer, r.rest);
    DropAppend(d.0, Concat(d.1), e);
  }

  /** Where the pipe-mode header ends, and what of the output the reading loop leaves. */
  lemma HeaderAfterDrain(output: seq<string>) returns (e: nat)
    requires ReadScriptOutput(true, output).header.Some?
    ensures var r := ReadScriptOutput(true, output); var d := Drain("", output);
      && output != [] && Terminated(d.0) && !Terminated("")
      && HeaderEnd(d.0) == Some(e) && e <= |d.0|
      && r.buffer == d.0[e..] && r.rest == d.1
      && d.0 + Concat(d.1) == Concat(output)
  {
    var d := Drain("", output);
    e := HeaderEnd(d.0).value;
    assert "" + Concat(output) == Concat(output);
  }

  /** With a transfer coding, the whole encoded output goes out as one chunk and the last chunk. */
  function CodedBody(encoded: string): string {
    Hex(|encoded|) + CRLF + encoded + CRLF + "0" + CRLF + CRLF
  }

  /** The single coded chunk decodes back to the encoded output. */
  lemma CodedBodyDecodes(encoded: string)
    requires encoded != ""
    ensures Dechunk(CodedBody(encoded)) == Decoded(encoded, CRLF)
  {
    var chunks := [encoded];
    assert chunks[1..] == [];
    assert EncodeChunks(chunks) == Frame(encoded) + "0" + CRLF;
    assert CodedBody(encoded) == EncodeChunks(chunks) + CRLF;
    assert Concat(chunks) == encoded + Concat([]);
    DechunkEncode(chunks, CRLF);
  }
}
