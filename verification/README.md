# PHP Web Server: protocol engine and CGI gateway in Dafny

This project models the core of PHP Web Server, a small HTTP/1.x server. The
model covers:

- reading a request off the connection: the header block, a fixed-length
  body, and a chunked body;
- validating the request line and the header fields, and mapping each defect
  to its status code (300, 400, 411, 500, 501);
- resolving the requested path to files on disk, with host aliases and
  directory index pages;
- content negotiation: scoring each candidate file against the Accept,
  Accept-Language, Accept-Charset and Accept-Encoding preferences;
- the response headers and the CGI environment handed to scripts;
- the decisions `send_script` makes from a script's reply: the command line,
  non-parsed-header (nph) scripts, Status, Location, the transfer coding, and
  chunked relay of the output.

## Modules

- `wrappers.dfy` (`Wrappers`): `Option`.
- `strings.dfy` (`Strings`): models of the PHP string primitives the source
  relies on: `strpos`, `explode`, `implode`, `str_replace`, `ltrim`, `rtrim`,
  `trim`, case mapping, `dechex`/`hexdec`, and decimal printing. Their
  round-trip lemmas are here too.
- `utility.dfy` (`Utility`): the pure functions of `utility.php`:
  - `get_version` and `parse_uri`;
  - `set_file_features` and `parse_accept`;
  - `read_script_header` and `parse_script_header`;
  - `find_resource` over an abstract file system.
- `wire.dfy` (`Wire`): the socket-reading loops of `utility.php`
  (`read_header`, `read_body`, `read_chunk_length`, `read_chunk`). They are
  methods with `while` loops over a buffer and a sequence of socket reads.
  Each is proved against the chunked-decoding function `Dechunk`, with the
  round trip `Dechunk(EncodeChunks(c) + t) == Decoded(Concat(c), t)`.
- `requests.dfy` (`Requests`): the `Request` class of `Request.php` and a
  `Connection` class holding the by-reference read buffer.
- `negotiation.dfy` (`Negotiation`): `accept_parsing`,
  `get_resource_value` and the scoring and ranking loop of
  `content_negotiation`, as functions.
- `responses.dfy` (`Responses`): the `Response` class of `Response.php`:
  - the constructor;
  - `get_resource`, `content_negotiation` and `set_headers`;
  - `set_env`;
  - the header updates `send_script` makes.
- `gateway.dfy` (`Gateway`): the pure parts of `send_script`:
  - the command line and the nph test;
  - the reply decision and the transfer-coding choice;
  - chunked relay of the script output.

## Modelling choices

- **Socket input.** The socket is a sequence of `Piece`s: `Data(bytes)` for a
  read that returns bytes, `Fail` for a read that returns false. A read takes
  at most the requested number of bytes from the next piece. `Available(input)`
  is everything readable before the first failure. Running out of pieces
  counts as a failed read. The source would keep reading on a silent end of
  stream.
- **Configuration.** The host table, the MIME, language, charset and encoding
  tables, and the index pages form one immutable `Config`. The constants
  follow `globals.php`.
- **`parse_url`.** It is a parameter of the `Request` constructor: a function
  from the request target to the URL's parts. `parse_uri` is modelled on its
  result.
- **File system.** It is a value `FileSystem`, with a table for what `glob`
  returns per pattern.
- **Numbers.** Qualities are exact reals. PHP's loose `!=` in `get_version`
  is modelled on a decimal reading of the version (`Numeric`), so
  `HTTP/1` is accepted with version "1".
- **Script output.** A script's stdout is the sequence of what each `fread`
  returns. End of file is reached after the last read, and an empty last
  read stands for the read that meets it. When the pipe is already at end of
  file after the header, the relay loop does not run, and the output left
  after the header is not sent. `RelayChunks` keeps that behaviour.
- **Response reading the request.** `Response` takes the request through
  `RequestView` (host, version, path, header fields) and `CgiRequest` (what
  `set_env` asks of the request).

## Where the code is followed over its design notes

- `set_file_features` stores a charset extension's value under "language"
  (utility.php:398-402), so a file's features never carry a charset. The
  model does the same; `NoCharsetFeature` and `CharsetSetsLanguage` state it.
- `content_negotiation` writes the plain-text default of a lone
  feature-less file under the key "mime-type" (Response.php:337), so that file
  gets no Content-Type header. `SingleOptions` keeps that key.
- `content_negotiation` reads the undeclared `absolute_uri` (Response.php:342).
  Its features are therefore empty, and all four Accept-family headers are
  always parsed.
- A POST with `Content-Length: 0` is read as a chunked body, because
  `intval` gives 0 and `read_body` takes 0 to mean chunked.
  `ZeroLengthReadsChunked` states this.
- After the last chunk, the CRLF that ends the chunked body stays in the
  buffer (utility.php:216-217). `ReadChunkedBody` states this.

## Where the model departs from the code (see Findings)

- `parse_uri` removes ".." and then percent-decodes. The model uses the
  decode-first order instead.
- `parse_accept` caps a quality above 1 but keeps a negative one
  (utility.php:436-440). The model's `ParseEntry` also raises a negative
  quality to 0, so scores stay in [0, 1]. This also changes the TE coding
  choice: in the source, "TE: gzip;q=-2" chooses gzip, because -2 passes
  the `$value != 0` test (Response.php:841); the model's `ChooseCoding`
  chooses no coding for it.
- The header cut of a script's output follows the blank line the code
  evidently means to find, in the two cases listed under Findings.

## Model

| member | source | states |
|---|---|---|
| Utility.GetVersion | utility.php:140-151 | a version is returned only for a token "HTTP/" + v with no further "/", where v is loosely equal to 0.9, 1.0 or 1.1 |
| Utility.GetVersionAccepts | utility.php:144-150 | "HTTP/0.9", "HTTP/1.0" and "HTTP/1.1" give their version |
| Utility.GetVersionRefuses | utility.php:142-147 | a token that does not split at "/" into "HTTP" and one more part gives no version |
| Utility.GetVersionLoose | utility.php:148-150 | because the comparison is loose, any numeric spelling of 1 is accepted and returned as written |
| Utility.UrlDecode | utility.php:129 | decoding never lengthens the text |
| Utility.UrlDecodePlain | utility.php:129 | text without '+' or '%' decodes to itself |
| Utility.CleanPath | utility.php:126-129 | the cleaned path holds no ".." whatever the target was (decode-first order, see Findings) |
| Utility.EncodedDotsSurvive | utility.php:126-129 | with the clean-up as written, "/%2e%2e/x" comes out as "/../x" |
| Utility.ParseUri | utility.php:108-131 | accepted iff `parse_url` succeeded, a path is present, and an absolute target is http with a host; scheme, host and query are kept, the path is cleaned and holds no "..", and a host without a port gets port "80" |
| Utility.FeatureLoopKeys | utility.php:385-410 | the extension loop only ever sets the mime_type, language and encoding keys |
| Utility.NoCharsetFeature | utility.php:376-412 | a file's features never hold a charset |
| Utility.NoExtensionNoFeatures | utility.php:381-384 | a file name without a dot has no features |
| Utility.FirstMimeWins | utility.php:386-391 | the MIME type comes from the first extension found in the MIME table, and an earlier one is never overwritten |
| Utility.MimeOfFirstExtension | utility.php:376-391 | a file's MIME type is that of its first extension in the MIME table, and it has none when no extension is in it |
| Utility.CharsetSetsLanguage | utility.php:398-402 | a charset extension that is not also a MIME extension leaves a language set |
| Utility.LanguageStays | utility.php:392-402 | once set, the language is never removed by later extensions |
| Utility.SetFileFeatures | utility.php:376-412 | a file's features use only the mime_type, language and encoding keys |
| Utility.EncodingStays | utility.php:403-408 | once set, the encoding is never overwritten by later extensions |
| Utility.FirstEncodingWins | utility.php:385-408 | when no earlier extension is an encoding, the first encoding extension that is in no other table sets the encoding |
| Utility.NoEncodingExtension | utility.php:385-408 | a file with no encoding extension gets no encoding |
| Utility.ParseEntry | utility.php:427-440 | an entry is refused iff ";q=" opens it; without ";q=" it is the whole entry with quality 1; otherwise its token is the non-empty text before ";q=", and its quality is 0.01 when not numeric, 1 above 1, 0 below 0 (the corrected lower bound, see Findings), and the value itself in [0, 1] |
| Utility.ParseEntryAsWritten | utility.php:427-440 | as written: refused iff ";q=" opens the entry; the quality is never above 1, and a numeric quality at most 1 is kept as it is, negative ones included |
| Utility.NegativeQualityKept | utility.php:436-440 | as written "a;q=-2" keeps quality -2; the corrected entry gets 0 |
| Utility.Put | utility.php:429 | storing a token keeps every other token's entry and holds the new pair |
| Utility.SortDesc | utility.php:443 | the preferences come out in descending quality and are a permutation of the input |
| Utility.ParseAccept | utility.php:420-445 | an empty header gives no preferences; an accepted header is sorted by descending quality, and every quality lies in [0, 1] |
| Utility.CollectedBound | utility.php:426-442 | entries whose qualities lie in [0, 1] are collected into preferences whose qualities lie in [0, 1] |
| Utility.MalformedEntryRejected | utility.php:430-431 | one malformed entry makes the whole header fail |
| Utility.EmptyTokenRejected | utility.php:424-431 | a header with an entry starting ";q=" is refused |
| Utility.LastEntryWins | utility.php:426-442 | when a token is listed several times, its last quality is the one kept |
| Utility.ParseAcceptEntry | utility.php:420-445 | an entry whose token does not recur later is in the parsed preferences with its own quality |
| Utility.CollectAccepted | utility.php:426-432 | the entries collect into preferences iff none of them is malformed |
| Utility.ParseAcceptRejects | utility.php:420-432 | a header is refused iff it is non-empty and one of its comma-separated entries opens with ";q=" |
| Utility.PutLookup | utility.php:429-440 | storing under a token makes its lookup the stored quality and changes no other token's lookup |
| Utility.PutUnique | utility.php:429-440 | storing keeps every token listed once, as in a PHP array |
| Utility.CollectLookup | utility.php:426-442 | the collected preferences list each token once, with the quality of its last entry |
| Utility.SameLookup | utility.php:443 | reordering preferences whose tokens are unique changes no lookup |
| Utility.ParseAcceptLookup | utility.php:420-445 | in a parsed non-empty header, each token has the quality of its last entry, and a token with no entry is absent |
| Utility.ReadScriptHeader | utility.php:469-487 | no header iff the output holds both or neither of CRLF CRLF and LF LF; with CRLF the header is the output up to the first blank line; with LF the header is rewritten to CRLF and the rest follows the blank line |
| Utility.NoBareLf | utility.php:478 | after the LF-to-CRLF rewrite no LF stands alone |
| Utility.HeaderEnd | utility.php:470-485 | the end of the header block is found iff the output holds a blank line; it lies just after the first CRLF CRLF or LF LF |
| Utility.SplitScriptOutput | utility.php:469-487 | corrected cut: a header is found iff the output holds a blank line, and the rest is exactly what follows the first one |
| Utility.ScriptHeaderShape | utility.php:475-485 | the corrected header ends in a blank line, and it is the output prefix, or the prefix rewritten to CRLF |
| Utility.ReadScriptHeaderAgrees | utility.php:470-485 | when only one kind of blank line occurs, the cut as written and the corrected cut agree |
| Utility.BodyBlankLineRejected | utility.php:470-473 | a body holding LF LF after a CRLF-terminated header makes the cut as written fail, where the corrected cut succeeds |
| Utility.Drain | utility.php:456-467 | the pipe is read until a blank line has arrived or the pipe ends; nothing is lost, and only the unread suffix of the pipe remains |
| Utility.ReadScriptHeaderFromPipe | utility.php:454-488 | the loop computes the pipe reading of `read_script_header` |
| Utility.PipeMatchesBufferMode | utility.php:456-485 | once the drained output holds a blank line, the pipe reading cuts it as the buffer reading does |
| Utility.UnterminatedOutputAccepted | utility.php:457-479 | output "k:v" that ends without a blank line gives header "k:" as written, which `parse_script_header` accepts |
| Utility.PipeScriptHeaderIntended | utility.php:456-487 | corrected pipe reading: a header is returned iff a blank line arrived before the pipe ended, and it ends in a blank line |
| Utility.EofReadLeftUnread | utility.php:457-467 | when the output ends with an empty end-of-file read, a header found while draining leaves at least that read to the relay loop |
| Utility.LineWithoutColonRejected | utility.php:503-505 | a script header line without ':' makes the header invalid |
| Utility.LastScriptHeaderWins | utility.php:503-508 | a script field gets the trimmed value of its last line |
| Utility.ScriptLinesAccepted | utility.php:503-508 | the script header lines fold into fields iff every line has a ":" |
| Utility.ScriptLinesKeys | utility.php:503-508 | the folded field names are the earlier ones and the text before each line's first ":" |
| Utility.ParseScriptHeader | utility.php:496-510 | a header is refused iff it is empty after trimming or one of its CRLF-separated lines has no ":"; an accepted header has exactly the names of its lines |
| Utility.IndexSearch | utility.php:348-359 | an index search that succeeds finds at least one file |
| Utility.FindResource | utility.php:338-368 | a file is found as itself; a path that is neither a file nor a directory is found iff `path.*` matches something; a found resource is never empty |
| Utility.DirectoryIndex | utility.php:345-358 | a directory is served by its first index page, in the configured order, that exists when no earlier page or its variants do |
| Utility.DirectoryWithoutIndex | utility.php:345-359 | a directory without index pages or index variants is not found |
| Strings.HexRoundTrip | Response.php:914-915 | `hexdec(dechex(n)) == n`, so a chunk's size line reads back as its length |
| Wire.SocketRead | utility.php:171-174 | a read fails iff the connection fails or has ended; otherwise it returns at most the requested bytes and loses nothing |
| Wire.ReadHeader | utility.php:161-176 | a header is returned iff CRLF CRLF occurs in the left-trimmed stream; it is the stream up to and including the first one, and the rest stays unread |
| Wire.ReadFixedBody | utility.php:189-206 | a body is read iff the stream holds the declared length; it is exactly the first `length` bytes, and the rest stays unread |
| Wire.ReadChunkLength | utility.php:235-249 | a size line is read iff the stream holds CRLF; it is the text before the first CRLF, and the rest follows it |
| Wire.ReadChunk | utility.php:259-276 | too few bytes is a read failure; bytes not followed by CRLF is a syntax error and consumes nothing; otherwise the chunk is the first n bytes and its CRLF is consumed |
| Wire.NextChunk | utility.php:210-223 | one pass of the chunk loop either fails as `Dechunk` says, ends at the last chunk, or takes a chunk off the front of what `Dechunk` decodes |
| Wire.ReadChunkedBody | utility.php:207-225 | the chunk loop decodes exactly what `Dechunk` decodes; what follows the last chunk stays unread |
| Wire.ReadBody | utility.php:187-226 | a nonzero length reads that many bytes or fails; length 0 decodes chunks, with a syntax error and a read failure kept apart |
| Wire.Dechunk | utility.php:207-225 | what is decoded and what is left never exceed the input, and what is left is the input's suffix |
| Wire.DechunkEncode | utility.php:207-225 | decoding the chunked framing of non-empty chunks gives back their concatenation, with the tail untouched |
| Wire.LastChunkDecoded | utility.php:215-217 | the size line "0" ends the body and leaves what follows unread |
| Wire.BadSizeLine | utility.php:213-214 | a size line that is not hexadecimal is a syntax error |
| Requests.SplitRequestLine | Request.php:148-150 | the header splits at its first CRLF into the request line and the header fields |
| Requests.RequestLineFields | Request.php:146-167 | a well-formed "METHOD target HTTP/v" line gives those three fields and version v |
| Requests.NormalizeLineNormalized | Request.php:189-191 | a normalised header line holds no spaces, tabs or upper-case letters |
| Requests.BadHeaderLineRejected | Request.php:193-198 | a line without ':', or one starting with ':', rejects the whole block |
| Requests.LastHeaderWins | Request.php:199-200 | a repeated field keeps the value of its last line |
| Requests.HeadersNormalized | Request.php:188-201 | every stored field name and value is normalised |
| Requests.BlockNormalized | Request.php:175-202 | parsing a header block stores only normalised fields |
| Requests.FoldHeadersAccepted | Request.php:188-198 | the header loop runs to the end iff every line, once normalised, has a ":" after its first character |
| Requests.FoldHeadersKeys | Request.php:188-201 | the stored field names are the earlier ones and the text before each normalised line's first ":" |
| Requests.HeaderBlockAccepted | Request.php:175-202 | a header block is accepted iff it is empty after trimming or every line is well formed; an accepted non-empty block stores exactly its lines' names |
| Requests.RequestHost | Request.php:389-396 | the host is "host:port" of an absolute URI, else the Host field, else none |
| Requests.BadHeaderCode | Request.php:209-306 | the code is 0, 300, 400, 411 or 501; an unsupported method gives 501; an accepted POST with Content-Length has a digit-only length |
| Requests.AcceptableIffNoError | Request.php:209-306 | a request passes the checks iff its method is supported, its host is known, and its body framing fits its method |
| Requests.MissingHostCode | Request.php:221-234 | a request without a host gives 400 for HTTP/1.1 and 300 otherwise |
| Requests.PostWithBothFramings | Request.php:278-284 | a POST with both Content-Length and Transfer-Encoding gives 400 |
| Requests.PostWithoutLength | Request.php:257-266 | a POST with neither Content-Length nor Transfer-Encoding gives 411 |
| Requests.UnknownHostCode | Request.php:236-252 | a host, from the URI or the Host field, that the host table does not know gives 400 |
| Requests.PostWithUnchunkedCoding | Request.php:268-273 | a POST with Transfer-Encoding alone, other than "chunked", gives 400 |
| Requests.PostWithBadLength | Request.php:286-292 | a POST with Content-Length alone that is not all digits gives 400 |
| Requests.BodiedGetOrHead | Request.php:298-302 | a GET or HEAD with Content-Length or Transfer-Encoding gives 400 |
| Requests.AcceptedHostHasHome | Request.php:236-252 | an accepted request names a host with a home directory |
| Requests.ParseHead | Request.php:97-118 | a rejected head has code 300, 400, 411 or 501; an accepted head passes the checks, has normalised fields and a version `get_version` accepts |
| Requests.ZeroLengthReadsChunked | Request.php:121-126 | "Content-Length: 0" makes the body read as chunked |
| Requests.SplitHeader | Request.php:89-95 | the header and what follows it make up the left-trimmed stream |
| Requests.Request.constructor | Request.php:79-139 | no peer gives 500; otherwise the peer is stored; a missing header gives 500; the head and body are handled as `HeadHandled` states |
| Requests.Request.Receive | Request.php:89-139 | the header is read, then the head and body are handled as `HeadHandled` states |
| Requests.Request.HandleHead | Request.php:97-138 | a bad head sets its code; a good POST reads its body, with 500 for a read failure and 400 for a syntax error |
| Requests.Request.ReceiveHeader | Request.php:90-95 | reading the header leaves the connection exactly after it |
| Requests.Request.ReceiveBody | Request.php:120-138 | the body is read with the declared length, or chunked when there is none or it is 0 |
| Requests.Request.ReadHead | Request.php:97-118 | the fields set match `ParseHead`: the request line, the URI, the header fields, and the error code of the first check that fails |
| Requests.Request.ReadHeaderLines | Request.php:111-118 | a malformed block gives 400; otherwise the fields are stored and the header checks decide |
| Requests.Request.SetRequestLine | Request.php:146-167 | a line without three space-separated parts gives 400 and sets nothing; otherwise the method and target are set, and an unknown version gives 400 |
| Requests.Request.SetRequestHeaders | Request.php:175-202 | the stored fields are the parsed block over the old ones; a malformed line gives 400 |
| Requests.Request.IsBadHeader | Request.php:209-306 | an earlier error stays; otherwise the result is true iff a check fails, and the error code is that check's code |
| Requests.Request.GetHeader | Request.php:346-362 | a field is returned iff it is set, with its stored value |
| Requests.Request.GetHost | Request.php:389-396 | the host is that of `RequestHost` |
| Negotiation.WithIdentity | Response.php:411-412 | "identity" is acceptable with quality 1 unless the client gave it a quality; other codings are untouched |
| Negotiation.ParsePreferences | Response.php:390-415 | parsing succeeds iff all four headers parse; the type, language and charset preferences are the parsed ones, the encodings add identity, and every quality lies in [0, 1] |
| Negotiation.TypeFactor | Response.php:432-460 | scripts and an empty Accept score 1; an exact type scores its quality; an unlisted type scores "type/*"'s quality if listed, else "*/*"'s; it is refused iff none of the three is listed |
| Negotiation.FeatureFactor | Response.php:462-535 | no preferences score 1; a listed value scores its quality; an unlisted value scores "*"'s quality and is refused iff "*" is unlisted; a missing feature scores "*"'s quality, or 1 when "*" is unlisted, and is never refused |
| Negotiation.Defaulted | Response.php:427-431 | a missing MIME type becomes cgi-script or text/plain, a missing encoding becomes identity, and nothing else changes |
| Negotiation.ProductZero | Response.php:423-538 | a score is 0 iff some factor refuses or has quality 0 |
| Negotiation.ScoreZero | Response.php:423-538 | a score is 0 iff one of the four axes has no match or matches with quality 0 |
| Negotiation.ScoreBounded | Response.php:417-538 | when every preference quality lies in [0, 1], the score lies in [0, 1] |
| Negotiation.ParsedScoreBounded | Response.php:417-538 | a score computed from parsed Accept-family headers lies in [0, 1] |
| Negotiation.NegativeQualitiesMultiply | Response.php:417-538 | as written, a type and a language both given quality -2 score 4; with the corrected entries they score 0 |
| Negotiation.NoAcceptHeaders | Response.php:407-412 | without Accept-family headers a file scores 1, unless it carries an encoding other than identity |
| Negotiation.SingleOptions | Response.php:330-339 | a lone file keeps its features; with none it gets cgi-script, or text/plain under the key "mime-type" |
| Negotiation.Candidates | Response.php:354-356 | each found file is scored with its own features |
| Negotiation.Survivors | Response.php:354-361 | exactly the candidates with a nonzero score survive |
| Negotiation.NoSurvivors | Response.php:357-364 | nothing survives iff every candidate scores 0 |
| Negotiation.AllScoredZero | Response.php:354-364 | nothing survives iff every found file scores 0 |
| Negotiation.Ranking | Response.php:378-379 | the survivors, sorted by descending score, with nothing added or lost |
| Negotiation.RankedPair | Response.php:378-379 | a (path, score) pair is in the ranking iff it belongs to a survivor |
| Negotiation.SurvivorOf | Response.php:354-361 | a candidate survives iff it is some found file's score and that score is nonzero |
| Negotiation.Tied | Response.php:267-282 | the tied group holds exactly the ranked paths with the top score |
| Negotiation.TiedAreTheBest | Response.php:266-289 | in a sorted ranking the tied group starts with the best path, and no score beats it |
| Responses.AliasesUntouched | Response.php:166-175 | a path containing no alias pattern is left as it is and is not a script |
| Responses.CgiBinMarksScript | Response.php:166-175 | a path becomes a script iff the "/cgi-bin/" alias applies to it |
| Responses.Unaliased | Response.php:308-314 | a virtual path with no alias target is left as it is |
| Responses.VirtualPathUnderHome | Response.php:305-315 | a script under the home directory gets "/" plus its path relative to home |
| Responses.ConnectionFor | Response.php:197-209 | a client's Connection field is used; without one HTTP/1.1 keeps the connection alive and older versions close it |
| Responses.SingleCandidateServed | Response.php:329-339 | a lone candidate is served whatever the Accept-family headers say |
| Responses.NotAcceptableWhenAllZero | Response.php:253-259 | with several candidates, 406 iff the headers parse and every candidate scores 0 |
| Responses.NegotiateOutcome | Response.php:327-382 | negotiation fails iff there are several candidates and an Accept-family header is malformed; a chosen path is a found one; a ranking is best first and holds only found paths with nonzero scores |
| Responses.PickOutcome | Response.php:245-290 | 400 iff negotiation failed; 406 iff the ranking is empty; 300 lists more than one path, each tied at the top score; otherwise the single candidate or the best ranked path is served |
| Responses.Select | Response.php:231-290 | 404 iff no file is found; a served or listed path is always a found file |
| Responses.MultipleChoicesAreTheBest | Response.php:266-289 | 300 lists more than one path, all with the top score, and every path with that score |
| Responses.PickMultiple | Response.php:266-289 | for any sorted ranking, a 300 choice lists more than one path, all with the top score, and every path with that score |
| Responses.RankingHoldsSurvivors | Response.php:354-381 | the ranking holds exactly the found files with their nonzero scores |
| Responses.HeadersFor | Response.php:546-559 | Content-Type is set iff the type is not a script type, with any charset appended; Content-Language and Content-Encoding are set iff those features are; nothing else is set |
| Responses.NoCharsetInContentType | Response.php:551-552 | a file's Content-Type never carries a charset, because `set_file_features` stores none |
| Responses.ServerName | Response.php:569-571 | the server name is the host up to its first ':', and empty when there is none |
| Responses.HeaderVarsApart | Response.php:621-625 | an HTTP_ variable never collides with a fixed CGI variable |
| Responses.HttpVarExact | Response.php:621-625 | a field whose HTTP_ name is its own gets its value in the environment |
| Responses.SplitQuery | Response.php:586-611 | PATH_INFO and PATH_TRANSLATED are set iff the query has '/'; the text before it is QUERY_STRING iff it holds '=', else the '+'-separated arguments; nothing is lost |
| Responses.QuerySplitsAtSlash | Response.php:587-590 | the query splits at its first '/' into a slash-free part and a path starting with '/' |
| Responses.BaseEnv | Response.php:578-620 | the base environment uses only the fixed CGI variables |
| Responses.BaseEnvValues | Response.php:578-620 | the value of each fixed CGI variable, with CONTENT_TYPE and CONTENT_LENGTH exactly for POST |
| Responses.PhpEnv | Response.php:626-632 | the five PHP variables and their values |
| Responses.ServerVarsKept | Response.php:567-633 | base variables, the HTTP_ variables and, for PHP, the PHP variables all reach the environment unchanged |
| Responses.Response.constructor | Response.php:147-210 | with no request the connection closes; otherwise host, path, the alias rewrite, the Accept-family fields, TE and the connection are set |
| Responses.Response.ApplyAliases | Response.php:165-175 | the path is rewritten by every alias it contains, and "/cgi-bin/" marks a script |
| Responses.Response.AcceptParsing | Response.php:390-415 | success iff all four headers parse, storing the parsed preferences |
| Responses.Response.ContentNegotiation | Response.php:327-382 | the result is `Negotiate`; the resource becomes the chosen path, or the ranking's paths |
| Responses.Response.ScoreCandidates | Response.php:351-361 | the loop keeps exactly the nonzero-scored candidates, in order |
| Responses.Response.GroupTies | Response.php:267-282 | the loop collects exactly the paths tied at the top score |
| Responses.Response.GetResource | Response.php:231-319 | the status is 404, 400, 406, 300 or 200 as `Select` decides; errors close the connection; a served file sets its headers, script kind and virtual path |
| Responses.Response.NegotiateAndSettle | Response.php:243-319 | the negotiated outcome is applied as `Settled` states |
| Responses.Response.Settle | Response.php:245-319 | each outcome of negotiation sets status, error and connection as `Settled` states |
| Responses.Response.SettleRanked | Response.php:253-319 | a ranking gives 406 when empty, 300 when tied, else 200 for its best path |
| Responses.Response.Serve | Response.php:295-318 | a served file sets the resource, headers, script kind and virtual path |
| Responses.Response.ChooseScriptKind | Response.php:295-302 | cgi-script and the PHP type set the script kind, and other types leave it |
| Responses.Response.SetVirtualPath | Response.php:305-315 | the virtual path is the resource relative to home, with aliases restored |
| Responses.Response.SetHeaders | Response.php:546-559 | the headers are the old ones updated with `HeadersFor` |
| Responses.Response.SetEnv | Response.php:567-633 | the environment gets the CGI variables; arguments are set for a query without '='; the request body is kept for POST |
| Responses.Response.HttpLoop | Response.php:621-625 | every header field gets an HTTP_ variable with its value |
| Responses.Response.HandleScriptReply | Response.php:771-856 | an invalid reply gives 500 and a Status reply its code, both closing; a Location gives 302; otherwise the fields are added, with Transfer-Encoding for HTTP/1.1 |
| Gateway.NphByName | Response.php:734-748 | a CGI script is nph iff its file name starts with "nph-" |
| Gateway.LastSlash | Response.php:734 | the position of the last "/" in a path, none when it has no "/" |
| Gateway.DirName | Response.php:734 | a path without "/" has directory "."; one with "/" only at the start has "/"; otherwise the directory is the path up to its last "/" |
| Gateway.ScriptFileName | Response.php:734-735 | a path without "/" is its own file name |
| Gateway.IsNph | Response.php:746-748 | a script is nph iff it is CGI and its file name starts with "nph-" |
| Gateway.Command | Response.php:711-728 | without arguments the command is "php-cgi" for PHP and the script path otherwise |
| Gateway.CommandWords | Response.php:711-728 | the command splits at spaces into the script path and its arguments |
| Gateway.StatusLineCode | Response.php:793-796 | the code of a Status field is its text up to the first space |
| Gateway.Decide | Response.php:771-823 | 500 iff there is no header, it is invalid, or its Status code is not all digits; a Status reply has that code; a Location reply redirects; otherwise the fields are forwarded |
| Gateway.FirstUsable | Response.php:841-846 | the first supported coding with nonzero quality, and none when there is no such coding |
| Gateway.ChooseCoding | Response.php:837-848 | a coding is chosen only from the supported set and only from a TE field that parses; it is the first usable one |
| Gateway.ChosenCodingIsPreferred | Response.php:837-848 | the chosen coding has a positive quality, the highest of the usable ones |
| Gateway.FirstUsableIsBest | Response.php:837-848 | in a sorted list of non-negative qualities, the first usable coding has a positive quality, the highest of the usable ones |
| Gateway.NegativeCodingUsableAsWritten | Response.php:837-848 | as written, a known coding with a negative quality passes the nonzero test; the corrected entry has quality 0 and fails it |
| Gateway.GzipMinusTwo | Response.php:837-848 | as written "gzip;q=-2" is a usable TE entry of quality -2; the corrected entry has quality 0 and is not usable |
| Gateway.TransferEncoding | Response.php:853-856 | the field always ends in "chunked"; it is "chunked" alone without a coding, and starts with the coding otherwise |
| Gateway.RelayChunks | Response.php:908-925 | no relayed chunk is empty, and together they are the buffer and all the pipe output |
| Gateway.Relay | Response.php:908-926 | the relay loop writes the chunk framing of the relayed chunks and the final zero chunk |
| Gateway.RelayDecodes | Response.php:908-926 | decoding what the relay writes gives back the buffer and the pipe output |
| Gateway.ReadScriptOutput | Response.php:759-769 | before HTTP/1.1 a header is found iff the whole output holds a blank line; for HTTP/1.1 the pipe is read as the corrected reading says |
| Gateway.ChunkedOutputIntact | Response.php:766-768 | for HTTP/1.1 a client decodes exactly the script output after its header |
| Gateway.CodedBodyDecodes | Response.php:897-899 | a transfer-coded body is one chunk and the last chunk, and it decodes to the encoded body |

## Left out

- The listener, worker processes, keep-alive looping and idle timeouts
  (`server.php`). They are concurrency and I/O outside the protocol core.
- `send_error`, `write_to_socket`, `Response::send` and `Response::error`:
  they format canned responses from template files and write to the socket.
  What a script's reply decides is modelled; the bytes written for it are
  not.
- The gzip, deflate and compress encoders: `CodedBody` takes the encoded text
  as given.
- Starting, feeding and reaping the script process: its output is a sequence
  of pipe reads. A POST body written to the script's stdin is not modelled.
- `parse_url`, `is_numeric`, `floatval` and `glob` are not modelled as
  functions:
  - `parse_url` is a parameter;
  - `is_numeric` and `floatval` are a decimal reading without exponents or
    surrounding white space;
  - `glob` is a table in the file system value, and its results are taken as
    given, with no duplicates removed.
- A path that exists but is neither a regular file nor a directory: the file
  system has only files and directories, so such a path is searched as
  `path.*`.
- Exact float behaviour: qualities and scores are reals. The `!== 0` test at
  Response.php:357 and the `===` test on scores at Response.php:275 compare
  PHP ints and floats by type as well as value; the model compares values.
  So a candidate whose float score is 0.0 survives in the source but not in
  the model. Such a score comes from an explicit "q=0", or from a later axis
  refusing after a fractional quality (for example `Accept: text/html;q=0.5`
  with an unmatched Accept-Language). The source then serves that candidate
  (200) or lists it (300), where the model's `NotAcceptableWhenAllZero` gives
  406.
- The order of PHP arrays where it only matters for output order:
  - the environment is a map;
  - when two header fields give the same HTTP_ name, the model does not say
    which one wins (`Responses.Response.HttpLoop`);
  - among equal scores, the ranking is in `SortDesc`'s order, which need not
    be `arsort`'s. `Negotiation.Ranking` states the ranking only up to that
    order: sorted, and a permutation of the survivors.
- `Responses.Response.AcceptParsing`: when one header fails to parse, the
  source has already replaced the earlier fields with their parsed form. The
  model keeps the preferences unchanged, since the response is then 400 and
  they are never read.
- CONTENT_TYPE for a POST without a Content-Type field is the empty string.
  The source reads an unset array key there.
- `Utility.UrlDecode`: its contract bounds only the length. `UrlDecodePlain`
  and `EncodedDot` pin down its behaviour on plain text and on "%2e".
- `Utility.IndexSearch`: its contract says only that a result is non-empty.
  The page order is stated by `DirectoryIndex` and `DirectoryWithoutIndex`.
- `Gateway.Command`: its contract covers the no-argument case. The argument
  words are stated by `CommandWords`.
- `Requests.BadHeaderCode`: its own contract lists only the possible codes,
  the 501 case and the digit-only length of an accepted POST. Each other
  rule is a lemma next to it: `MissingHostCode`, `UnknownHostCode`,
  `PostWithoutLength`, `PostWithUnchunkedCoding`, `PostWithBothFramings`,
  `PostWithBadLength` and `BodiedGetOrHead`.

## Findings

| source | as written | input that shows it | evidently intended | confidence | as-written member | corrected member |
|---|---|---|---|---|---|---|
| utility.php:126-129 | ".." is removed before the path is percent-decoded, so an encoded ".." is decoded after the check | request target "/%2e%2e/x" gives path "/../x" | the path holds no ".." after the clean-up (the comment says it removes "one dir up"s) | high, not executed | Utility.EncodedDotsSurvive | Utility.CleanPath |
| utility.php:470-487 | the header cut fails whenever the output holds both CRLF CRLF and LF LF, even when the second is inside the body | script output "A: b\r\n\r\nx\n\ny" | cut at the first blank line of either kind | high, not executed | Utility.BodyBlankLineRejected | Utility.SplitScriptOutput |
| utility.php:456-487 | when the pipe ends before a blank line, `lfpos` is false and the header becomes the first two bytes of the output | script output "k:v" with no blank line | no header, so the reply is 500 | high, not executed | Utility.UnterminatedOutputAccepted | Utility.PipeScriptHeaderIntended |
| utility.php:436-440 | only qualities above 1 are capped, so a negative quality is kept | "Accept: a;q=-2" and "Accept-Language: a;q=-2" give a file of type a in language a the score 4 | qualities and scores lie between 0 and 1, as the `get_resource_value` docblock says (Response.php:421) | medium, not executed | Negotiation.NegativeQualitiesMultiply | Utility.ParseEntry |
| Response.php:837-848 | a TE coding is usable when its quality is not 0, and `parse_accept` keeps negative qualities, so a negative one is usable | "TE: gzip;q=-2" makes the reply gzip-coded | a coding with a quality of 0 or less is refused | medium, not executed | Gateway.GzipMinusTwo | Gateway.ChosenCodingIsPreferred |
