/** Handling of one connection: read the header section line by line, decode it, read the
    body that `Content-Length` announces, route the request, negotiate gzip with the client,
    and write the encoded response back. */
module Server {
  import opened Wrappers
  import opened Errors
  import opened Text
  import opened StartLines
  import opened Messages
  import opened Routes

  const BlankLineEnd: string := "\r\n\r\n"
  const AcceptEncoding: string := "Accept-Encoding"
  const ContentEncoding: string := "Content-Encoding"
  const EncodingListSeparator: string := ", "
  const Gzip: string := "gzip"

  // ---------------------------------------------------------------------------
  // Reading the request

  /** Where a line that starts at `p` ends: just after the next line feed, or at the end of
      the input. At the end of the input the line is empty. */
  function LineEnd(s: string, p: nat): (q: nat)
    requires p <= |s|
    ensures p <= q <= |s|
    ensures p < |s| ==> p < q
    ensures q < |s| ==> s[q - 1] == '\n'
    ensures forall j :: p <= j < q - 1 ==> s[j] != '\n'
    decreases |s| - p
  {
    if p == |s| then p
    else if s[p] == '\n' then p + 1
    else LineEnd(s, p + 1)
  }

  /** The text read from `from` up to `e` ends in an empty line. */
  predicate EndsBlank(s: string, from: nat, e: nat) {
    from + |BlankLineEnd| <= e <= |s| && s[e - |BlankLineEnd|..e] == BlankLineEnd
  }

  /** The first position at or after `e` where the text read from `from` ends in an empty
      line, if any. */
  function HeaderEnd(s: string, from: nat, e: nat): (r: Option<nat>)
    requires e <= |s|
    ensures r.Some? ==> e <= r.value <= |s| && EndsBlank(s, from, r.value)
    ensures r.Some? ==> forall j :: e <= j < r.value ==> !EndsBlank(s, from, j)
    ensures r.None? ==> forall j :: e <= j <= |s| ==> !EndsBlank(s, from, j)
    decreases |s| - e
  {
    if EndsBlank(s, from, e) then Some(e)
    else if e == |s| then None
    else HeaderEnd(s, from, e + 1)
  }

  /** The text read so far ends in an empty line. */
  predicate EndsWithBlankLine(text: string) {
    |text| >= |BlankLineEnd| && text[|text| - |BlankLineEnd|..] == BlankLineEnd
  }

  lemma BlankTextAt(s: string, from: nat, e: nat)
    requires from <= e <= |s|
    ensures EndsWithBlankLine(s[from..e]) <==> EndsBlank(s, from, e)
  {
    if from + |BlankLineEnd| <= e {
      assert s[from..e][e - from - |BlankLineEnd|..] == s[e - |BlankLineEnd|..e];
    }
  }

  /** No text read from `from` can end in an empty line strictly inside a line. */
  lemma NoBlankInsideLine(s: string, from: nat, p: nat)
    requires p <= |s|
    ensures forall j :: p < j < LineEnd(s, p) ==> !EndsBlank(s, from, j)
  {
    var q := LineEnd(s, p);
    forall j | p < j < q
      ensures !EndsBlank(s, from, j)
    {
      assert s[j - 1] != '\n';
      if from + |BlankLineEnd| <= j <= |s| {
        assert s[j - |BlankLineEnd|..j][3] == s[j - 1];
      }
    }
  }

  lemma {:induction false} HeaderEndSkip(s: string, from: nat, e: nat, e': nat)
    requires e <= e' <= |s|
    requires forall j :: e <= j < e' ==> !EndsBlank(s, from, j)
    ensures HeaderEnd(s, from, e) == HeaderEnd(s, from, e')
    decreases e' - e
  {
    if e < e' {
      HeaderEndSkip(s, from, e + 1, e');
    }
  }

  /** The request a client's input yields, with the position up to which it is read: the
      header section up to the first empty line, decoded, then as many characters as its
      `Content-Length` announces as the body. */
  function ReceivedRequest(input: string, start: nat): (r: Result<(Message, nat), Error>)
    requires start <= |input|
    ensures r.Ok? ==> r.value.0.startLine.Request? && start <= r.value.1 <= |input|
  {
    match HeaderEnd(input, start, start)
    case None => Err(StreamEnded)
    case Some(e) =>
      match Decoded(RequestKind, input[start..e])
      case Err(err) => Err(err)
      case Ok(req) =>
        if ContentLength !in req.headers then Ok((req, e))
        else
          match ParseUsize(req.headers[ContentLength])
          case None => Err(ContentLengthNotANumber)
          case Some(n) =>
            if e + n > |input| then Err(BodyTruncated)
            else Ok((req.(body := Some(input[e..e + n])), e + n))
  }

  /** The client's side of the connection: what it sends, how far the server has read, and
      what the server has written back. */
  class Connection {
    const input: string
    var pos: nat
    var output: string

    constructor (input: string)
      ensures this.input == input && pos == 0 && output == ""
    {
      this.input := input;
      pos := 0;
      output := "";
    }

    /** Reads one line, up to and including its line feed; at the end of the input nothing. */
    method ReadLine() returns (line: string)
      requires pos <= |input|
      modifies this
      ensures pos == LineEnd(input, old(pos)) && line == input[old(pos)..pos]
      ensures output == old(output)
    {
      var q := pos;
      while q < |input| && input[q] != '\n'
        invariant pos <= q <= |input|
        invariant LineEnd(input, pos) == LineEnd(input, q)
        decreases |input| - q
      {
        q := q + 1;
      }
      if q < |input| {
        q := q + 1;
      }
      line := input[pos..q];
      pos := q;
    }

    /** Reads lines until the text read ends in an empty line, and returns that text. The
        end of the input before that is an error. */
    method ReadHeaderSection() returns (r: Result<string, Error>)
      requires pos <= |input|
      modifies this
      ensures output == old(output)
      ensures HeaderEnd(input, old(pos), old(pos)).None? ==> r == Err(StreamEnded)
      ensures HeaderEnd(input, old(pos), old(pos)).Some? ==>
        var e := HeaderEnd(input, old(pos), old(pos)).value;
        r == Ok(input[old(pos)..e]) && pos == e
    {
      var start := pos;
      var text := "";
      while true
        invariant start <= pos <= |input|
        invariant text == input[start..pos]
        invariant output == old(output)
        invariant !EndsBlank(input, start, pos)
        invariant HeaderEnd(input, start, start) == HeaderEnd(input, start, pos)
        decreases |input| - pos
      {
        ghost var before := pos;
        var line := ReadLine();
        if line == "" {
          return Err(StreamEnded);
        }
        text := text + line;
        assert text == input[start..pos];
        NoBlankInsideLine(input, start, before);
        HeaderEndSkip(input, start, before, pos);
        BlankTextAt(input, start, pos);
        if EndsWithBlankLine(text) {
          return Ok(text);
        }
      }
    }

    /** Reads the header section, decodes it, and reads the body its `Content-Length`
        announces in place of the decoded one. */
    method ReadRequest() returns (r: Result<Message, Error>)
      requires pos <= |input|
      modifies this
      ensures output == old(output)
      ensures ReceivedRequest(input, old(pos)).Err? ==> r == Err(ReceivedRequest(input, old(pos)).error)
      ensures ReceivedRequest(input, old(pos)).Ok? ==>
        r == Ok(ReceivedRequest(input, old(pos)).value.0) && pos == ReceivedRequest(input, old(pos)).value.1
    {
      var text :- ReadHeaderSection();
      var request :- Decode(RequestKind, text);
      if ContentLength in request.headers {
        var contentLength := ParseUsize(request.headers[ContentLength]);
        if contentLength.None? {
          return Err(ContentLengthNotANumber);
        }
        var body :- ReadExact(contentLength.value);
        request := request.(body := Some(body));
      }
      return Ok(request);
    }

    /** Reads exactly `n` characters; fewer left in the input is an error. */
    method ReadExact(n: nat) returns (r: Result<string, Error>)
      requires pos <= |input|
      modifies this
      ensures output == old(output)
      ensures old(pos) + n <= |input| ==> r == Ok(input[old(pos)..old(pos) + n]) && pos == old(pos) + n
      ensures old(pos) + n > |input| ==> r == Err(BodyTruncated)
    {
      if pos + n > |input| {
        pos := |input|;
        return Err(BodyTruncated);
      }
      r := Ok(input[pos..pos + n]);
      pos := pos + n;
    }

    method WriteAll(s: string)
      modifies this
      ensures output == old(output) + s && pos == old(pos)
    {
      output := output + s;
    }
  }

  // ---------------------------------------------------------------------------
  // Content negotiation

  /** The client accepts gzip: one of its `", "`-separated `Accept-Encoding` entries is
      exactly `gzip`. */
  predicate AcceptsGzip(req: Message) {
    AcceptEncoding in req.headers && Gzip in Split(req.headers[AcceptEncoding], EncodingListSeparator)
  }

  /** The response after negotiation: a response with a body, to a client that accepts gzip,
      is marked `Content-Encoding: gzip` and its body replaced by the hex text of the
      compressed body. */
  function Negotiated(req: Message, resp: Message, gzip: string -> seq<byte>): Message {
    if resp.body.Some? && AcceptsGzip(req) then
      WithBody(resp.(headers := resp.headers[ContentEncoding := Gzip]), Hex(gzip(resp.body.value)))
    else resp
  }

  /** Walks the client's accepted encodings and compresses the body at the first `gzip`. */
  method Negotiate(req: Message, resp: HttpMessage, gzip: string -> seq<byte>)
    modifies resp
    ensures resp.Value() == Negotiated(req, old(resp.Value()), gzip)
  {
    if resp.body.Some? {
      if AcceptEncoding in req.headers {
        var encodings := Split(req.headers[AcceptEncoding], EncodingListSeparator);
        var i := 0;
        while i < |encodings|
          invariant 0 <= i <= |encodings|
          invariant Gzip !in encodings[..i]
          invariant resp.Value() == old(resp.Value())
          decreases |encodings| - i
        {
          if encodings[i] == Gzip {
            resp.headers := resp.headers[ContentEncoding := Gzip];
            var compressed := gzip(resp.body.value);
            resp.SetBody(Hex(compressed));
            return;
          }
          assert encodings[..i + 1] == encodings[..i] + [encodings[i]];
          i := i + 1;
        }
        assert encodings[..i] == encodings;
      }
    }
  }

  // ---------------------------------------------------------------------------
  // The connection

  /** The response a request gets: the router's answer, negotiated; and the directory after. */
  function Answer(files: map<string, string>, req: Message, gzip: string -> seq<byte>)
    : Result<(Message, map<string, string>), Error>
    requires req.startLine.Request?
  {
    match Routed(files, req)
    case Err(e) => Err(e)
    case Ok((resp, after)) => Ok((Negotiated(req, resp, gzip), after))
  }

  /** Routes a request, negotiates the response and returns its encoding. */
  method HandleRequest(router: Router, req: Message, gzip: string -> seq<byte>)
    returns (r: Result<string, Error>, ghost resp: Message, ghost order: seq<string>)
    requires req.startLine.Request?
    modifies router
    ensures Answer(old(router.files), req, gzip).Err? ==>
      r.Err? && r.error == Answer(old(router.files), req, gzip).error && router.files == old(router.files)
    ensures Answer(old(router.files), req, gzip).Ok? ==>
      && (resp, router.files) == Answer(old(router.files), req, gzip).value
      && IsKeyOrder(order, resp.headers.Keys)
      && r == Ok(Encoding(resp, order))
  {
    resp, order := DefaultResponse(), [];
    var response :- router.Handle(req);
    ghost var routed := response.Value();
    assert Answer(old(router.files), req, gzip) == Ok((Negotiated(req, routed, gzip), router.files));
    Negotiate(req, response, gzip);
    var buf := new StringBuffer();
    order := response.Encode(buf);
    resp := response.Value();
    assert resp == Negotiated(req, routed, gzip);
    assert buf.content == Encoding(resp, order);
    return Ok(buf.content), resp, order;
  }

  /** Serves one connection: reads the request, answers it and writes the answer. Nothing is
      written when reading, decoding or routing fails. */
  method HandleConnection(conn: Connection, router: Router, gzip: string -> seq<byte>)
    returns (r: Result<(), Error>, ghost resp: Message, ghost order: seq<string>)
    requires conn.pos <= |conn.input|
    modifies conn, router
    ensures r.Err? ==> conn.output == old(conn.output)
    ensures ReceivedRequest(conn.input, old(conn.pos)).Err? ==>
      r == Err(ReceivedRequest(conn.input, old(conn.pos)).error) && router.files == old(router.files)
    ensures ReceivedRequest(conn.input, old(conn.pos)).Ok? ==>
      var req := ReceivedRequest(conn.input, old(conn.pos)).value.0;
      match Answer(old(router.files), req, gzip)
      case Err(e) => r == Err(e) && router.files == old(router.files)
      case Ok((answer, after)) =>
        && r == Ok(()) && resp == answer && router.files == after
        && conn.pos == ReceivedRequest(conn.input, old(conn.pos)).value.1
        && IsKeyOrder(order, resp.headers.Keys)
        && conn.output == old(conn.output) + Encoding(resp, order)
  {
    resp, order := DefaultResponse(), [];
    var request :- conn.ReadRequest();
    var encoded;
    encoded, resp, order := HandleRequest(router, request, gzip);
    if encoded.Err? {
      return Err(encoded.error), resp, order;
    }
    conn.WriteAll(encoded.value);
    return Ok(()), resp, order;
  }

  // ---------------------------------------------------------------------------
  // Properties of the connection handling

  /** A response without a body passes through negotiation unchanged. */
  lemma NoBodyNotNegotiated(req: Message, resp: Message, gzip: string -> seq<byte>)
    requires resp.body.None?
    ensures Negotiated(req, resp, gzip) == resp
  {
  }

  /** Without an exact `gzip` entry in `Accept-Encoding`, or without that header, the
      response is unchanged. */
  lemma NoGzipNotNegotiated(req: Message, resp: Message, gzip: string -> seq<byte>)
    requires AcceptEncoding !in req.headers
          || Gzip !in Split(req.headers[AcceptEncoding], EncodingListSeparator)
    ensures Negotiated(req, resp, gzip) == resp
  {
  }

  /** With a body and a `gzip` entry, the response gains `Content-Encoding: gzip`, its body
      becomes the hex text of the compressed body, `Content-Type` becomes `text/plain` and
      `Content-Length` the length of the hex text, twice the compressed length; the status line
      and every other header stay as they were. */
  lemma GzipNegotiated(req: Message, resp: Message, gzip: string -> seq<byte>)
    requires resp.body.Some? && AcceptsGzip(req)
    ensures var n := Negotiated(req, resp, gzip);
      && n.startLine == resp.startLine
      && n.body == Some(Hex(gzip(resp.body.value)))
      && UnHex(n.body.value) == Some(gzip(resp.body.value))
      && n.headers[ContentEncoding] == Gzip
      && n.headers[ContentType] == "text/plain"
      && n.headers[ContentLength] == Decimal(2 * |gzip(resp.body.value)|)
      && n.headers.Keys == resp.headers.Keys + {ContentEncoding, ContentType, ContentLength}
      && (forall k :: k in resp.headers && k !in {ContentEncoding, ContentType, ContentLength} ==>
            n.headers[k] == resp.headers[k])
  {
    UnHexHex(gzip(resp.body.value));
    assert ContentEncoding != ContentType && ContentEncoding != ContentLength;
  }

  /** Negotiation never touches the status line. */
  lemma NegotiationKeepsStatus(req: Message, resp: Message, gzip: string -> seq<byte>)
    ensures Negotiated(req, resp, gzip).startLine == resp.startLine
  {
  }

  /** A quality value keeps an entry from matching. */
  lemma QualityValueNotGzip()
    ensures Gzip !in Split("gzip;q=1", EncodingListSeparator)
  {
    FreeWithout("gzip;q=1", EncodingListSeparator, 1);
    SplitWhole("gzip;q=1", EncodingListSeparator);
  }

  /** Entries separated without the space are one entry. */
  lemma UnspacedListNotGzip()
    ensures Gzip !in Split("deflate,gzip", EncodingListSeparator)
  {
    FreeWithout("deflate,gzip", EncodingListSeparator, 1);
    SplitWhole("deflate,gzip", EncodingListSeparator);
  }

  /** A `gzip` entry after another well-separated entry matches. */
  lemma SecondEntryGzip()
    ensures Gzip in Split("identity, gzip", EncodingListSeparator)
  {
    FreeWithout("identity", EncodingListSeparator, 0);
    FreeWithout("gzip", EncodingListSeparator, 0);
    SplitFirst("identity", EncodingListSeparator, "gzip");
    SplitWhole("gzip", EncodingListSeparator);
    assert "identity, gzip" == "identity" + EncodingListSeparator + "gzip";
  }

  /** Without `Content-Length` the request is the decoded header section, body included. */
  lemma NoContentLengthKeepsBody(input: string, start: nat)
    requires start <= |input|
    requires HeaderEnd(input, start, start).Some?
    requires var e := HeaderEnd(input, start, start).value;
      Decoded(RequestKind, input[start..e]).Ok? && ContentLength !in Decoded(RequestKind, input[start..e]).value.headers
    ensures var e := HeaderEnd(input, start, start).value;
      ReceivedRequest(input, start) == Ok((Decoded(RequestKind, input[start..e]).value, e))
  {
  }

  /** With a numeric `Content-Length`, exactly that many characters after the header section
      become the body, and nothing else of the request changes. */
  lemma ContentLengthBody(input: string, start: nat)
    requires start <= |input|
    requires ReceivedRequest(input, start).Ok?
    requires HeaderEnd(input, start, start).Some?
    requires var e := HeaderEnd(input, start, start).value;
      ContentLength in Decoded(RequestKind, input[start..e]).value.headers
    ensures var e := HeaderEnd(input, start, start).value;
      var decoded := Decoded(RequestKind, input[start..e]).value;
      var (req, p) := ReceivedRequest(input, start).value;
      && ParseUsize(decoded.headers[ContentLength]) == Some(p - e)
      && req == decoded.(body := Some(input[e..p]))
  {
  }

  /** A request whose header section never ends fails, as does one whose `Content-Length` is
      not a number or announces more than the input holds. */
  lemma ReceiveFailures(input: string, start: nat)
    requires start <= |input|
    ensures HeaderEnd(input, start, start).None? ==> ReceivedRequest(input, start) == Err(StreamEnded)
    ensures HeaderEnd(input, start, start).Some? ==>
      var e := HeaderEnd(input, start, start).value;
      var d := Decoded(RequestKind, input[start..e]);
      && (d.Err? ==> ReceivedRequest(input, start) == Err(d.error))
      && (d.Ok? && ContentLength in d.value.headers && ParseUsize(d.value.headers[ContentLength]).None? ==>
            ReceivedRequest(input, start) == Err(ContentLengthNotANumber))
      && (d.Ok? && ContentLength in d.value.headers && ParseUsize(d.value.headers[ContentLength]).Some? &&
          e + ParseUsize(d.value.headers[ContentLength]).value > |input| ==>
            ReceivedRequest(input, start) == Err(BodyTruncated))
  {
  }
}
