/** The first line of a message: the Request-Line of section 5.1 of RFC 2616, which is
    encoded and decoded, and the Status-Line of section 6.1, which is only ever encoded. */
module StartLines {
  import opened Wrappers
  import opened Errors
  import opened Text
  import Methods
  import Versions
  import StatusCodes
  import opened RequestUris

  datatype RequestLine = RequestLine(
    requestMethod: Methods.Method,
    requestUri: RequestUri,
    protocolVersion: Versions.Version)

  /** The reason phrase is not stored: it is looked up from the status code when encoding. */
  datatype StatusLine = StatusLine(
    protocolVersion: Versions.Version,
    statusCode: StatusCodes.StatusCode)

  /** The start line a message carries: requests carry a request line, responses a status line. */
  datatype StartLine = Request(requestLine: RequestLine) | Status(statusLine: StatusLine)

  /** Which start line a decoder expects. */
  datatype LineKind = RequestKind | StatusKind

  /** A request line built with only its method given. */
  function DefaultRequestLine(m: Methods.Method): RequestLine {
    RequestLine(m, AbsolutePath("/"), Versions.DefaultVersion)
  }

  /** A status line built with nothing given. */
  const DefaultStatusLine: StatusLine := StatusLine(Versions.DefaultVersion, StatusCodes.DefaultStatusCode)

  /** `METHOD SP Request-URI SP HTTP-Version` */
  function RequestLineText(rl: RequestLine): string {
    Methods.Token(rl.requestMethod) + " " + ToStr(rl.requestUri) + " " + Versions.Token(rl.protocolVersion)
  }

  /** `HTTP-Version SP Status-Code SP Reason-Phrase` */
  function StatusLineText(sl: StatusLine): string {
    Versions.Token(sl.protocolVersion) + " " + Decimal(StatusCodes.Code(sl.statusCode)) + " "
      + StatusCodes.ReasonPhrase(sl.statusCode)
  }

  function StartLineText(sl: StartLine): string {
    match sl
    case Request(rl) => RequestLineText(rl)
    case Status(st) => StatusLineText(st)
  }

  /** Decodes a request line: the text is split on single spaces; the first token must be a
      method name, the second is classified as a request URI, the third must be a version
      token. A missing token fails with the name of its field; tokens after the third are
      ignored. */
  function DecodeRequestLine(s: string): Result<RequestLine, Error> {
    var parts := Split(s, " ");
    match Methods.Parse(parts[0])
    case None => Err(UnknownMethod)
    case Some(m) =>
      if |parts| < 2 then Err(RequestUriNotFound)
      else
        var u := FromStr(parts[1]);
        if |parts| < 3 then Err(ProtocolVersionNotFound)
        else
          match Versions.Parse(parts[2])
          case None => Err(UnknownProtocolVersion)
          case Some(v) => Ok(RequestLine(m, u, v))
  }

  /** Decoding a status line is not supported: it always fails. */
  function DecodeStatusLine(s: string): Result<StatusLine, Error> {
    Err(StatusLineDecodeUnimplemented)
  }

  /** Decodes the start line a message of the given kind carries. */
  function DecodeStartLine(kind: LineKind, s: string): Result<StartLine, Error> {
    match kind
    case RequestKind =>
      (match DecodeRequestLine(s)
       case Ok(rl) => Ok(Request(rl))
       case Err(e) => Err(e))
    case StatusKind =>
      (match DecodeStatusLine(s)
       case Ok(st) => Ok(Status(st))
       case Err(e) => Err(e))
  }

  /** Appends a request line to `buf`, as `write!` does. */
  method EncodeRequestLine(rl: RequestLine, buf: StringBuffer)
    modifies buf
    ensures buf.content == old(buf.content) + RequestLineText(rl)
  {
    buf.PushStr(Methods.Token(rl.requestMethod));
    buf.PushStr(" ");
    buf.PushStr(ToStr(rl.requestUri));
    buf.PushStr(" ");
    buf.PushStr(Versions.Token(rl.protocolVersion));
  }

  /** Appends a status line to `buf` in one formatted write; the code is printed in decimal
      and the reason phrase is the one the table gives for it. */
  method EncodeStatusLine(sl: StatusLine, buf: StringBuffer)
    modifies buf
    ensures buf.content == old(buf.content) + StatusLineText(sl)
  {
    buf.PushStr(StatusLineText(sl));
  }

  method EncodeStartLine(sl: StartLine, buf: StringBuffer)
    modifies buf
    ensures buf.content == old(buf.content) + StartLineText(sl)
  {
    match sl
    case Request(rl) => EncodeRequestLine(rl, buf);
    case Status(st) => EncodeStatusLine(st, buf);
  }

  // ---------------------------------------------------------------------------
  // Properties

  /** Space-separated words that hold no space split back into those words. */
  lemma SplitWords(words: seq<string>)
    requires |words| >= 1
    requires forall j :: 0 <= j < |words| ==> ' ' !in words[j]
    ensures Split(Join(words, " "), " ") == words
  {
    forall j | 0 <= j < |words| ensures Free(words[j], " ") {
      FreeWithout(words[j], " ", 0);
    }
    SplitJoin(words, " ");
  }

  /** A request line is three words. */
  lemma RequestLineWords(rl: RequestLine)
    ensures RequestLineText(rl)
         == Join([Methods.Token(rl.requestMethod), ToStr(rl.requestUri), Versions.Token(rl.protocolVersion)], " ")
  {
    var m, u, v := Methods.Token(rl.requestMethod), ToStr(rl.requestUri), Versions.Token(rl.protocolVersion);
    assert Join([m, u, v], " ") == m + " " + Join([u, v], " ");
    assert Join([u, v], " ") == u + " " + v;
  }

  /** Decoding the text of a request line gives it back, provided its URI text holds no
      space and is classified as itself. */
  lemma RequestLineRoundTrip(rl: RequestLine)
    requires WellFormed(rl.requestUri) && ' ' !in ToStr(rl.requestUri)
    ensures DecodeRequestLine(RequestLineText(rl)) == Ok(rl)
  {
    Methods.TokenShape(rl.requestMethod);
    Versions.TokenShape(rl.protocolVersion);
    RequestLineWords(rl);
    SplitWords([Methods.Token(rl.requestMethod), ToStr(rl.requestUri), Versions.Token(rl.protocolVersion)]);
    Methods.ParseToken(rl.requestMethod);
    Versions.ParseToken(rl.protocolVersion);
    FromStrToStr(rl.requestUri);
  }

  /** A request line decodes exactly when it has at least three space-separated tokens, the
      first naming a method and the third a version; the result is built from those tokens. */
  lemma DecodeRequestLineOk(s: string, rl: RequestLine)
    ensures DecodeRequestLine(s) == Ok(rl) <==>
      var parts := Split(s, " ");
      && |parts| >= 3
      && Methods.Parse(parts[0]) == Some(rl.requestMethod)
      && rl.requestUri == FromStr(parts[1])
      && Versions.Parse(parts[2]) == Some(rl.protocolVersion)
  {
  }

  /** Tokens after the third are ignored: a request line followed by a space and any text
      decodes to that request line. */
  lemma DecodeIgnoresExtraTokens(rl: RequestLine, extra: string)
    requires WellFormed(rl.requestUri) && ' ' !in ToStr(rl.requestUri)
    ensures DecodeRequestLine(RequestLineText(rl) + " " + extra) == Ok(rl)
  {
    var m, u, v := Methods.Token(rl.requestMethod), ToStr(rl.requestUri), Versions.Token(rl.protocolVersion);
    var s := RequestLineText(rl) + " " + extra;
    Methods.TokenShape(rl.requestMethod);
    Versions.TokenShape(rl.protocolVersion);
    assert s == m + " " + (u + " " + (v + " " + extra));
    LeadingWords(m, u, v, extra);
    Methods.ParseToken(rl.requestMethod);
    Versions.ParseToken(rl.protocolVersion);
    FromStrToStr(rl.requestUri);
    DecodeRequestLineOk(s, rl);
  }

  /** Three space-free words before a space and any text are the first three tokens. */
  lemma LeadingWords(m: string, u: string, v: string, extra: string)
    requires ' ' !in m && ' ' !in u && ' ' !in v
    ensures Split(m + " " + (u + " " + (v + " " + extra)), " ") == [m, u, v] + Split(extra, " ")
  {
    FreeWithout(m, " ", 0);
    FreeWithout(u, " ", 0);
    FreeWithout(v, " ", 0);
    SplitFirst(v, " ", extra);
    SplitFirst(u, " ", v + " " + extra);
    SplitFirst(m, " ", u + " " + (v + " " + extra));
  }

  /** After a method, a missing token is refused with the name of the field it stands for. */
  lemma DecodeMissingTokens(s: string)
    requires Methods.Parse(Split(s, " ")[0]).Some?
    ensures |Split(s, " ")| == 1 ==> DecodeRequestLine(s) == Err(RequestUriNotFound)
    ensures |Split(s, " ")| == 2 ==> DecodeRequestLine(s) == Err(ProtocolVersionNotFound)
  {
  }

  /** `GET` lacks its URI and `GET /` its version. */
  lemma DecodeMissingTokensExamples()
    ensures DecodeRequestLine("GET") == Err(RequestUriNotFound)
    ensures DecodeRequestLine("GET /") == Err(ProtocolVersionNotFound)
  {
    assert "GET" == Join(["GET"], " ");
    SplitWords(["GET"]);
    DecodeMissingTokens("GET");
    assert "GET /" == Join(["GET", "/"], " ");
    SplitWords(["GET", "/"]);
    DecodeMissingTokens("GET /");
  }

  /** A first word outside the nine method names (`PATCH`, say) is refused rather than mapped
      to UNKNOWN, whatever follows it. */
  lemma DecodeUnknownMethod(w: string, rest: string)
    requires ' ' !in w && Methods.Parse(w) == None
    ensures DecodeRequestLine(w) == Err(UnknownMethod)
    ensures DecodeRequestLine(w + " " + rest) == Err(UnknownMethod)
  {
    FreeWithout(w, " ", 0);
    SplitWhole(w, " ");
    SplitFirst(w, " ", rest);
  }

  /** In `GET  / HTTP/1.1` the doubled space yields an empty URI token, which pushes `/` into
      the version slot, so the version check fails. */
  lemma DecodeDoubledSpace()
    ensures DecodeRequestLine("GET  / HTTP/1.1") == Err(UnknownProtocolVersion)
  {
    assert "GET  / HTTP/1.1" == Join(["GET", "", "/", "HTTP/1.1"], " ");
    SplitWords(["GET", "", "/", "HTTP/1.1"]);
  }

  /** With no URI between the two spaces, the URI token is empty and the line decodes with an
      empty path. */
  lemma DecodeEmptyUri(m: Methods.Method)
    ensures DecodeRequestLine(Methods.Token(m) + "  HTTP/1.1")
         == Ok(RequestLine(m, AbsolutePath(""), Versions.One))
  {
    var words := [Methods.Token(m), "", "HTTP/1.1"];
    Methods.TokenShape(m);
    Methods.ParseToken(m);
    assert Join(words[1..], " ") == " HTTP/1.1";
    assert Join(words, " ") == Methods.Token(m) + "  HTTP/1.1";
    SplitWords(words);
  }

  /** Only HTTP/1.1 is accepted. */
  lemma DecodeOtherVersion()
    ensures DecodeRequestLine("GET / HTTP/1.0") == Err(UnknownProtocolVersion)
  {
    assert "GET / HTTP/1.0" == Join(["GET", "/", "HTTP/1.0"], " ");
    SplitWords(["GET", "/", "HTTP/1.0"]);
  }

  /** The status line of a response built with nothing given. */
  lemma DefaultStatusLineText()
    ensures StatusLineText(DefaultStatusLine) == "HTTP/1.1 200 OK"
  {
  }

  /** A status line is the version token, the three-digit code and the reason phrase. */
  lemma StatusLineShape(sl: StatusLine)
    ensures StatusLineText(sl)
         == "HTTP/1.1 " + Decimal(StatusCodes.Code(sl.statusCode)) + " " + StatusCodes.ReasonPhrase(sl.statusCode)
    ensures |Decimal(StatusCodes.Code(sl.statusCode))| == 3
  {
    StatusCodes.CodeInClass(sl.statusCode);
    var n := StatusCodes.Code(sl.statusCode);
    assert Decimal(n) == Decimal(n / 10) + [DigitChar(n % 10)];
    assert Decimal(n / 10) == Decimal(n / 100) + [DigitChar(n / 10 % 10)];
  }

  /** Status lines are never decoded. */
  lemma StatusLineNeverDecodes(s: string)
    ensures DecodeStartLine(StatusKind, s) == Err(StatusLineDecodeUnimplemented)
  {
  }

  /** Neither kind of start line holds CR LF when its URI text does not. */
  lemma StartLineFree(sl: StartLine)
    requires sl.Request? ==> Free(ToStr(sl.requestLine.requestUri), CRLF)
    ensures Free(StartLineText(sl), CRLF)
  {
    match sl
    case Request(rl) =>
      Methods.TokenShape(rl.requestMethod);
      Versions.TokenShape(rl.protocolVersion);
      FreeWithout(Methods.Token(rl.requestMethod), CRLF, 0);
      FreeWithout(Versions.Token(rl.protocolVersion), CRLF, 0);
      FreeConcat(Methods.Token(rl.requestMethod), " ", ToStr(rl.requestUri), CRLF);
      FreeConcat(Methods.Token(rl.requestMethod) + " " + ToStr(rl.requestUri), " ",
                 Versions.Token(rl.protocolVersion), CRLF);
    case Status(st) =>
      var v, d, r := Versions.Token(st.protocolVersion), Decimal(StatusCodes.Code(st.statusCode)),
                     StatusCodes.ReasonPhrase(st.statusCode);
      Versions.TokenShape(st.protocolVersion);
      StatusCodes.ReasonPhraseShape(st.statusCode);
      assert '\r' !in d;
      FreeWithout(v, CRLF, 0);
      FreeWithout(d, CRLF, 0);
      FreeWithout(r, CRLF, 0);
      FreeConcat(v, " ", d, CRLF);
      FreeConcat(v + " " + d, " ", r, CRLF);
  }
}
