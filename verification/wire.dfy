/**
 * Reading an HTTP request off a connection (utility.php `read_header`,
 * `read_body`, `read_chunk_length`, `read_chunk`).
 *
 * The socket is a sequence of pieces: each `socket_read` either returns the
 * bytes of the next piece (at most the number of bytes asked for; the rest of
 * the piece stays for the next read) or fails. A connection with no pieces left
 * fails too. The by-reference `$buffer` is an in/out parameter: every method
 * takes the buffer and the pending pieces and returns the new buffer and the
 * pieces still unread.
 *
 * Each method is specified against the whole stream: `buffer + Available(input)`,
 * the bytes a reader can get before the first failure.
 */
module Wire {
  import opened Wrappers
  import opened Strings

  datatype Piece = Data(bytes: string) | Fail

  /** The bytes the connection delivers before its first failing read. */
  function Available(input: seq<Piece>): string {
    if input == [] then ""
    else match input[0]
      case Fail => ""
      case Data(d) => d + Available(input[1..])
  }

  /** A measure that every read decreases. */
  function Weight(input: seq<Piece>): nat {
    if input == [] then 0
    else (match input[0] case Fail => 1 case Data(d) => |d| + 1) + Weight(input[1..])
  }

  datatype Received = Received(got: Option<string>, rest: seq<Piece>)

  /** `socket_read(socket, max)`. */
  function SocketRead(input: seq<Piece>, max: nat): (r: Received)
    requires max > 0
    ensures r.got.None? <==> input == [] || input[0].Fail?
    ensures r.got.None? ==> Available(input) == ""
    ensures r.got.Some? ==> |r.got.value| <= max && Available(input) == r.got.value + Available(r.rest)
    ensures input != [] ==> Weight(r.rest) < Weight(input)
  {
    if input == [] then Received(None, [])
    else match input[0]
      case Fail => Received(None, input[1..])
      case Data(d) =>
        if |d| <= max then Received(Some(d), input[1..])
        else
          var rest := [Data(d[max..])] + input[1..];
          assert rest[0] == Data(d[max..]) && rest[1..] == input[1..];
          assert d == d[..max] + d[max..];
          Received(Some(d[..max]), rest)
  }

  // ---------------------------------------------------------------------------
  // read_header

  /**
   * `read_header`: strips leading CR/LF from the buffer, reads until the buffer
   * holds "\r\n\r\n" and cuts the header (terminator included) off the front.
   * The header is exactly the prefix of the trimmed stream through its first
   * "\r\n\r\n"; the read fails (None) exactly when the stream fails first.
   */
  method ReadHeader(buffer: string, input: seq<Piece>) returns (header: Option<string>, buffer': string, rest: seq<Piece>)
    ensures var all := LTrim(buffer + Available(input), CRLF_CHARS);
      header.Some? <==> Contains(all, DOUBLE_CRLF)
    ensures var all := LTrim(buffer + Available(input), CRLF_CHARS);
      header.Some? ==>
        var p := IndexOf(all, DOUBLE_CRLF).value;
        header.value == all[..p + 4] && buffer' + Available(rest) == all[p + 4..]
    ensures header.None? ==> buffer' == LTrim(buffer + Available(input), CRLF_CHARS)
  {
    ghost var all := LTrim(buffer + Available(input), CRLF_CHARS);
    var buf, inp := buffer, input;
    while true
      invariant LTrim(buf + Available(inp), CRLF_CHARS) == all
      decreases Weight(inp)
    {
      LTrimConcat(buf, Available(inp), CRLF_CHARS);
      buf := LTrim(buf, CRLF_CHARS);
      var pos := IndexOf(buf, DOUBLE_CRLF);
      if pos.Some? {
        var p := pos.value;
        TrimmedStreamFound(buf, Available(inp), all);
        assert IndexOf(all, DOUBLE_CRLF) == Some(p);
        header, buffer', rest := Some(buf[..p + 4]), buf[p + 4..], inp;
        assert header.value == all[..p + 4] && buffer' + Available(rest) == all[p + 4..];
        return;
      }
      var r := SocketRead(inp, 1024);
      if r.got.None? {
        TrimmedStreamEnds(buf, Available(inp), all);
        return None, buf, r.rest;
      }
      ReadKeepsStream(buf, inp, r);
      buf, inp := buf + r.got.value, r.rest;
    }
  }

  /** Appending what a read got to the buffer leaves buffer-plus-stream unchanged. */
  lemma ReadKeepsStream(buf: string, inp: seq<Piece>, r: Received)
    requires r.got.Some? && Available(inp) == r.got.value + Available(r.rest)
    ensures buf + Available(inp) == (buf + r.got.value) + Available(r.rest)
  {
  }

  /** A trimmed buffer with nothing more to come is the whole trimmed stream. */
  lemma TrimmedStreamEnds(b: string, a: string, all: string)
    requires LTrim(b + a, CRLF_CHARS) == all && a == ""
    requires b == LTrim(b, CRLF_CHARS)
    ensures all == b
  {
    assert b + a == b;
  }

  /** Once the trimmed buffer holds the terminator, the trimmed stream is the buffer followed by the rest. */
  lemma TrimmedStreamFound(b: string, a: string, all: string)
    requires LTrim(b + a, CRLF_CHARS) == all
    requires b == LTrim(b, CRLF_CHARS) && Contains(b, DOUBLE_CRLF)
    ensures all == b + a && IndexOf(all, DOUBLE_CRLF) == IndexOf(b, DOUBLE_CRLF)
    ensures var p := IndexOf(b, DOUBLE_CRLF).value;
      all[..p + 4] == b[..p + 4] && all[p + 4..] == b[p + 4..] + a
  {
    assert b != "";
    assert (b + a)[0] == b[0];
    IndexOfPrefix(b, a, DOUBLE_CRLF);
    var p := IndexOf(b, DOUBLE_CRLF).value;
    assert OccursAt(b, DOUBLE_CRLF, p);
    assert (b + a)[p + 4..] == b[p + 4..] + a;
  }

  // ---------------------------------------------------------------------------
  // read_body with a Content-Length

  /**
   * `read_body` with a non-zero length: reads until the buffer holds `length`
   * bytes and cuts exactly those off the front. It fails exactly when the
   * stream fails before `length` bytes.
   */
  method ReadFixedBody(length: nat, buffer: string, input: seq<Piece>) returns (body: Option<string>, buffer': string, rest: seq<Piece>)
    requires length > 0
    ensures var all := buffer + Available(input);
      body.Some? <==> |all| >= length
    ensures var all := buffer + Available(input);
      body.Some? ==> |body.value| == length && body.value == all[..length] && buffer' + Available(rest) == all[length..]
  {
    ghost var all := buffer + Available(input);
    var buf, inp := buffer, input;
    while true
      invariant buf + Available(inp) == all
      decreases Weight(inp)
    {
      if |buf| < length {
        var r := SocketRead(inp, length - |buf|);
        if r.got.None? {
          assert all == buf;
          return None, buf, r.rest;
        }
        assert buf + Available(inp) == (buf + r.got.value) + Available(r.rest);
        buf, inp := buf + r.got.value, r.rest;
      } else {
        assert all[..length] == buf[..length];
        assert all[length..] == buf[length..] + Available(inp);
        return Some(buf[..length]), buf[length..], inp;
      }
    }
  }

  // ---------------------------------------------------------------------------
  // Chunked transfer coding (section 3.6.1 of RFC 2616)

  /** What `read_chunk` gives: a chunk's data, -1 (syntax error) or null (read failure). */
  datatype ChunkRead = Chunk(data: string) | Malformed | Broken

  /**
   * `read_chunk_length`: the line before the first CRLF of the stream, which
   * is consumed with its CRLF; None when the stream fails before a CRLF.
   */
  method ReadChunkLength(buffer: string, input: seq<Piece>) returns (line: Option<string>, buffer': string, rest: seq<Piece>)
    ensures var all := buffer + Available(input);
      line.Some? <==> Contains(all, CRLF)
    ensures var all := buffer + Available(input);
      line.Some? ==>
        var p := IndexOf(all, CRLF).value;
        line.value == all[..p] && buffer' + Available(rest) == all[p + 2..]
  {
    ghost var all := buffer + Available(input);
    var buf, inp := buffer, input;
    while true
      invariant buf + Available(inp) == all
      decreases Weight(inp)
    {
      var pos := IndexOf(buf, CRLF);
      if pos.Some? {
        var p := pos.value;
        IndexOfPrefix(buf, Available(inp), CRLF);
        assert all[..p] == buf[..p];
        assert all[p + 2..] == buf[p + 2..] + Available(inp);
        return Some(buf[..p]), buf[p + 2..], inp;
      }
      var r := SocketRead(inp, 1024);
      if r.got.None? {
        assert all == buf;
        return None, buf, r.rest;
      }
      assert buf + Available(inp) == (buf + r.got.value) + Available(r.rest);
      buf, inp := buf + r.got.value, r.rest;
    }
  }

  /**
   * `read_chunk`: reads until `n + 2` bytes are buffered; the data must be
   * followed immediately by CRLF. On a syntax error nothing is consumed.
   */
  method ReadChunk(n: nat, buffer: string, input: seq<Piece>) returns (r: ChunkRead, buffer': string, rest: seq<Piece>)
    ensures var all := buffer + Available(input);
      && (r.Broken? <==> |all| < n + 2)
      && (r.Malformed? <==> |all| >= n + 2 && all[n..n + 2] != CRLF)
      && (r.Malformed? ==> buffer' + Available(rest) == all)
      && (r.Chunk? ==> r.data == all[..n] && buffer' + Available(rest) == all[n + 2..])
  {
    ghost var all := buffer + Available(input);
    var buf, inp := buffer, input;
    while true
      invariant buf + Available(inp) == all
      decreases Weight(inp)
    {
      if n + 2 <= |buf| {
        assert all[..n + 2] == buf[..n + 2];
        assert all[n..n + 2] == buf[n..n + 2];
        if buf[n..n + 2] != CRLF {
          return Malformed, buf, inp;
        }
        assert all[n + 2..] == buf[n + 2..] + Available(inp);
        return Chunk(buf[..n]), buf[n + 2..], inp;
      }
      var got := SocketRead(inp, 1024);
      if got.got.None? {
        assert all == buf;
        return Broken, buf, got.rest;
      }
      assert buf + Available(inp) == (buf + got.got.value) + Available(got.rest);
      buf, inp := buf + got.got.value, got.rest;
    }
  }

  /** The outcome of decoding a chunked body from a complete stream. */
  datatype Dechunked = Decoded(body: string, rest: string) | SyntaxError | TransportError

  function Prepend(data: string, d: Dechunked): Dechunked {
    match d
    case Decoded(b, r) => Decoded(data + b, r)
    case _ => d
  }

  /**
   * Chunked decoding of a complete stream, as `read_body` does it: a size line
   * of hex digits, the data, CRLF, and so on until a size of zero. After the
   * zero-size line the stream is left as it is, so the final CRLF stays in it.
   * A stream that ends early is a transport error, distinct from a syntax error.
   */
  function Dechunk(s: string): (r: Dechunked)
    ensures r.Decoded? ==> |r.body| + |r.rest| <= |s| && s[|s| - |r.rest|..] == r.rest
    decreases |s|
  {
    match IndexOf(s, CRLF)
    case None => TransportError
    case Some(p) =>
      var line, after := s[..p], s[p + 2..];
      if !IsHex(line) then SyntaxError
      else
        var n := HexValue(line);
        if n == 0 then Decoded("", after)
        else if |after| < n + 2 then TransportError
        else if after[n..n + 2] != CRLF then SyntaxError
        else Prepend(after[..n], Dechunk(after[n + 2..]))
  }

  /**
   * `read_body` with length 0: chunked decoding. The result and the leftover
   * stream are exactly those of `Dechunk` on the whole stream.
   */
  method ReadChunkedBody(buffer: string, input: seq<Piece>) returns (body: Dechunked, buffer': string, rest: seq<Piece>)
    ensures var d := Dechunk(buffer + Available(input));
      match d
      case Decoded(b, r) => body == Decoded(b, "") && buffer' + Available(rest) == r
      case _ => body == d
  {
    var acc := "";
    var buf, inp := buffer, input;
    while true
      invariant Dechunk(buffer + Available(input)) == Prepend(acc, Dechunk(buf + Available(inp)))
      decreases |buf + Available(inp)|
    {
      var step;
      step, buf, inp := NextChunk(buf, inp);
      match step {
        case Failed(e) =>
          assert Dechunk(buffer + Available(input)) == e;
          return e, buf, inp;
        case Last =>
          assert acc + "" == acc;
          assert Dechunk(buffer + Available(input)) == Decoded(acc, buf + Available(inp));
          return Decoded(acc, ""), buf, inp;
        case More(_) =>
      }
      PrependAssoc(acc, step.data, Dechunk(buf + Available(inp)));
      acc := acc + step.data;
    }
  }

  /** One turn of the decoding loop: a size line, then the chunk it announces. */
  datatype ChunkStep = Failed(error: Dechunked) | Last | More(data: string)

  /**
   * One turn of `read_body`'s chunked loop: `read_chunk_length`, then
   * `read_chunk`. A failure is what the whole stream decodes to; after the
   * last chunk the stream left over is the decoder's leftover; otherwise the
   * stream decodes to the chunk's data followed by what the rest decodes to.
   */
  method NextChunk(buffer: string, input: seq<Piece>) returns (step: ChunkStep, buffer': string, rest: seq<Piece>)
    ensures step.Failed? ==> Dechunk(buffer + Available(input)) == step.error && !step.error.Decoded?
    ensures step.Last? ==> Dechunk(buffer + Available(input)) == Decoded("", buffer' + Available(rest))
    ensures step.More? ==>
      && Dechunk(buffer + Available(input)) == Prepend(step.data, Dechunk(buffer' + Available(rest)))
      && |buffer' + Available(rest)| < |buffer + Available(input)|
  {
    ghost var s := buffer + Available(input);
    var line, buf, inp := ReadChunkLength(buffer, input);
    if line.None? {
      DechunkNoLine(s);
      return Failed(TransportError), buf, inp;
    }
    ghost var p := IndexOf(s, CRLF).value;
    if !IsHex(line.value) {
      DechunkBadLine(s, p);
      return Failed(SyntaxError), buf, inp;
    }
    var n := HexValue(line.value);
    if n == 0 {
      DechunkLastChunk(s, p);
      return Last, buf, inp;
    }
    var chunk;
    chunk, buf, inp := ReadChunk(n, buf, inp);
    if chunk.Broken? {
      DechunkShort(s, p, n);
      return Failed(TransportError), buf, inp;
    }
    if chunk.Malformed? {
      DechunkUnterminated(s, p, n);
      return Failed(SyntaxError), buf, inp;
    }
    DechunkStep(s, p, n, chunk.data, buf + Available(inp));
    return More(chunk.data), buf, inp;
  }

  lemma DechunkNoLine(s: string)
    requires !Contains(s, CRLF)
    ensures Dechunk(s) == TransportError
  {
  }

  lemma DechunkBadLine(s: string, p: nat)
    requires IndexOf(s, CRLF) == Some(p) && !IsHex(s[..p])
    ensures Dechunk(s) == SyntaxError
  {
  }

  lemma DechunkLastChunk(s: string, p: nat)
    requires IndexOf(s, CRLF) == Some(p) && IsHex(s[..p]) && HexValue(s[..p]) == 0
    ensures Dechunk(s) == Decoded("", s[p + 2..])
  {
  }

  lemma DechunkShort(s: string, p: nat, n: nat)
    requires IndexOf(s, CRLF) == Some(p) && IsHex(s[..p]) && HexValue(s[..p]) == n && n != 0
    requires |s[p + 2..]| < n + 2
    ensures Dechunk(s) == TransportError
  {
  }

  lemma DechunkUnterminated(s: string, p: nat, n: nat)
    requires IndexOf(s, CRLF) == Some(p) && IsHex(s[..p]) && HexValue(s[..p]) == n && n != 0
    requires |s[p + 2..]| >= n + 2 && s[p + 2..][n..n + 2] != CRLF
    ensures Dechunk(s) == SyntaxError
  {
  }

  /** A stream that starts with a well-formed nonempty chunk decodes to that chunk, then the rest. */
  lemma DechunkStep(s: string, p: nat, n: nat, data: string, rest: string)
    requires IndexOf(s, CRLF) == Some(p) && IsHex(s[..p]) && HexValue(s[..p]) == n && n != 0
    requires var after := s[p + 2..];
      |after| >= n + 2 && after[n..n + 2] == CRLF && data == after[..n] && rest == after[n + 2..]
    ensures Dechunk(s) == Prepend(data, Dechunk(rest))
  {
  }

  lemma PrependAssoc(a: string, b: string, d: Dechunked)
    ensures Prepend(a, Prepend(b, d)) == Prepend(a + b, d)
  {
    if d.Decoded? {
      assert a + (b + d.body) == (a + b) + d.body;
    }
  }

  /** The outcome of `read_body`: the body, -1 (syntax error) or null (read failure). */
  datatype BodyRead = Body(data: string) | BodySyntaxError | BodyReadFailure

  /** `read_body(socket, length, buffer)`: a length of 0 means a chunked body. */
  method ReadBody(length: nat, buffer: string, input: seq<Piece>) returns (body: BodyRead, buffer': string, rest: seq<Piece>)
    ensures var all := buffer + Available(input);
      length > 0 ==>
        && (body.BodyReadFailure? <==> |all| < length)
        && (body.Body? ==> body.data == all[..length] && buffer' + Available(rest) == all[length..])
        && !body.BodySyntaxError?
    ensures var all := buffer + Available(input);
      length == 0 ==>
        match Dechunk(all)
        case Decoded(b, r) => body == Body(b) && buffer' + Available(rest) == r
        case SyntaxError => body == BodySyntaxError
        case TransportError => body == BodyReadFailure
  {
    if length != 0 {
      var b;
      b, buffer', rest := ReadFixedBody(length, buffer, input);
      body := if b.Some? then Body(b.value) else BodyReadFailure;
    } else {
      var d;
      d, buffer', rest := ReadChunkedBody(buffer, input);
      body := match d
        case Decoded(b, _) => Body(b)
        case SyntaxError => BodySyntaxError
        case TransportError => BodyReadFailure;
    }
  }

  // ---------------------------------------------------------------------------
  // Encoding: the framing a client (or the script relay) produces

  /** One chunk: lower-case hex size, CRLF, data, CRLF. */
  function Frame(data: string): string {
    Hex(|data|) + CRLF + data + CRLF
  }

  /** Non-empty chunks followed by the last-chunk line "0" CRLF. */
  function EncodeChunks(chunks: seq<string>): string {
    if chunks == [] then "0" + CRLF else Frame(chunks[0]) + EncodeChunks(chunks[1..])
  }

  /**
   * Decoding a well-formed chunk sequence gives exactly the concatenated data;
   * whatever follows the last-chunk line is left in the stream.
   */
  lemma {:induction false} DechunkEncode(chunks: seq<string>, tail: string)
    requires forall i | 0 <= i < |chunks| :: chunks[i] != ""
    ensures Dechunk(EncodeChunks(chunks) + tail) == Decoded(Concat(chunks), tail)
    decreases |chunks|
  {
    if chunks == [] {
      assert EncodeChunks(chunks) + tail == "0" + CRLF + tail;
      LastChunkDecoded(tail);
    } else {
      var c := chunks[0];
      var more := EncodeChunks(chunks[1..]) + tail;
      assert EncodeChunks(chunks) + tail == Hex(|c|) + CRLF + (c + CRLF + more);
      ChunkDecoded(c, more);
      DechunkEncode(chunks[1..], tail);
      assert Concat(chunks) == c + Concat(chunks[1..]);
    }
  }

  /** The last-chunk line ends decoding, leaving what follows it. */
  lemma LastChunkDecoded(tail: string)
    ensures Dechunk("0" + CRLF + tail) == Decoded("", tail)
  {
    var s := "0" + CRLF + tail;
    IndexOfCrlfAfter("0", tail);
    assert s[..1] == "0" && s[3..] == tail;
    assert HexValue("0") == 0 by { assert "0"[..0] == ""; }
    DechunkLastChunk(s, 1);
  }

  /** One encoded chunk decodes to its data, then decoding goes on after it. */
  lemma ChunkDecoded(c: string, more: string)
    requires c != ""
    ensures Dechunk(Hex(|c|) + CRLF + (c + CRLF + more)) == Prepend(c, Dechunk(more))
  {
    var h := Hex(|c|);
    var s := h + CRLF + (c + CRLF + more);
    IndexOfCrlfAfter(h, c + CRLF + more);
    var after := s[|h| + 2..];
    assert s[..|h|] == h;
    assert after == c + CRLF + more;
    HexRoundTrip(|c|);
    assert after[..|c|] == c;
    assert after[|c|..|c| + 2] == CRLF;
    assert after[|c| + 2..] == more;
    DechunkStep(s, |h|, |c|, c, more);
  }

  /** A size line that is not all hex digits (an empty one included) is a syntax error. */
  lemma BadSizeLine(line: string, tail: string)
    requires !IsHex(line) && !Contains(line, CRLF)
    requires forall i | 0 <= i < |line| :: line[i] != '\r'
    ensures Dechunk(line + CRLF + tail) == SyntaxError
  {
    IndexOfCrlfAfter(line, tail);
    assert (line + CRLF + tail)[..|line|] == line;
  }
}
