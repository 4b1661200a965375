/** The generic message of section 4.1 of RFC 2616 (start line, header fields, optional body)
    and its codec. A message is a value (`Message`); `HttpMessage` is the object whose
    fields the handlers and the content negotiation update in place. */
module Messages {
  import opened Wrappers
  import opened Errors
  import opened Text
  import opened StartLines
  import opened RequestUris
  import Methods
  import Versions
  import StatusCodes

  const ContentType: string := "Content-Type"
  const ContentLength: string := "Content-Length"
  const HeaderSeparator: string := ": "

  datatype Message = Message(startLine: StartLine, headers: map<string, string>, body: Option<string>)

  // ---------------------------------------------------------------------------
  // Encoding

  function HeaderLine(key: string, value: string): string {
    key + HeaderSeparator + value
  }

  /** `order` lists each header key exactly once: the order in which the map yields them. */
  ghost predicate IsKeyOrder(order: seq<string>, keys: set<string>) {
    && (forall i, j :: 0 <= i < j < |order| ==> order[i] != order[j])
    && (forall k :: k in order <==> k in keys)
  }

  /** The header section's lines, each followed by CR LF, in the given key order. */
  function HeaderLines(headers: map<string, string>, order: seq<string>): string
    requires forall k :: k in order ==> k in headers
  {
    if |order| == 0 then ""
    else HeaderLine(order[0], headers[order[0]]) + CRLF + HeaderLines(headers, order[1..])
  }

  lemma {:induction false} HeaderLinesSnoc(headers: map<string, string>, order: seq<string>, k: string)
    requires forall x :: x in order ==> x in headers
    requires k in headers
    ensures HeaderLines(headers, order + [k]) == HeaderLines(headers, order) + HeaderLine(k, headers[k]) + CRLF
    decreases |order|
  {
    if |order| > 0 {
      assert (order + [k])[1..] == order[1..] + [k];
      HeaderLinesSnoc(headers, order[1..], k);
    }
  }

  lemma EncodingSteps(before: string, afterStart: string, afterHeaders: string, beforeBody: string,
                      after: string, m: Message, order: seq<string>)
    requires forall k :: k in order ==> k in m.headers
    requires afterStart == before + StartLineText(m.startLine) + CRLF
    requires afterHeaders == afterStart + HeaderLines(m.headers, order)
    requires beforeBody == afterHeaders + CRLF
    requires after == beforeBody + BodyText(m.body)
    ensures after == before + Encoding(m, order)
  {
  }

  function BodyText(body: Option<string>): string {
    match body
    case None => ""
    case Some(b) => b
  }

  /** The wire text of a message whose headers the map yields in `order`. */
  function Encoding(m: Message, order: seq<string>): string
    requires forall k :: k in order ==> k in m.headers
  {
    StartLineText(m.startLine) + CRLF + HeaderLines(m.headers, order) + CRLF + BodyText(m.body)
  }

  // ---------------------------------------------------------------------------
  // Decoding

  /** A header fragment split on `": "`: the key is the first piece and the value the second;
      anything after a second separator is dropped. */
  function DecodeHeaderLine(h: string): Result<(string, string), Error> {
    var parts := Split(h, HeaderSeparator);
    if |parts| < 2 then Err(HeaderValueNotFound) else Ok((parts[0], parts[1]))
  }

  /** The header loop over the fragments that follow the start line. It stops at the first
      empty fragment, consuming it, or when the fragments run out; it returns the headers,
      later keys overwriting earlier ones, and the fragments left after the stop. */
  function DecodeHeaders(frags: seq<string>, acc: map<string, string>)
    : Result<(map<string, string>, seq<string>), Error>
    decreases |frags|
  {
    if |frags| == 0 then Ok((acc, []))
    else if frags[0] == "" then Ok((acc, frags[1..]))
    else
      match DecodeHeaderLine(frags[0])
      case Err(e) => Err(e)
      case Ok((k, v)) => DecodeHeaders(frags[1..], acc[k := v])
  }

  /** The message a text decodes to. After the header loop one more fragment must exist (it is
      consumed and dropped); the body is the fragment after that one, if there is one. */
  function Decoded(kind: LineKind, text: string): (r: Result<Message, Error>)
    ensures r.Ok? ==> kind == RequestKind && r.value.startLine.Request?
  {
    var parts := Split(text, CRLF);
    match DecodeStartLine(kind, parts[0])
    case Err(e) => Err(e)
    case Ok(sl) =>
      match DecodeHeaders(parts[1..], map[])
      case Err(e) => Err(e)
      case Ok((headers, rest)) =>
        if |rest| == 0 then Err(HeaderSectionEndedUnexpectedly)
        else Ok(Message(sl, headers, if |rest| >= 2 then Some(rest[1]) else None))
  }

  /** Decodes a message by walking the CR LF fragments of the text. */
  method Decode(kind: LineKind, text: string) returns (r: Result<Message, Error>)
    ensures r == Decoded(kind, text)
  {
    var parts := Split(text, CRLF);
    var startLine :- DecodeStartLine(kind, parts[0]);
    var headers: map<string, string> := map[];
    var i := 1;
    while i < |parts| && parts[i] != ""
      invariant 1 <= i <= |parts|
      invariant DecodeHeaders(parts[i..], headers) == DecodeHeaders(parts[1..], map[])
      decreases |parts| - i
    {
      var header :- DecodeHeaderLine(parts[i]);
      assert parts[i..][1..] == parts[i + 1..];
      headers := headers[header.0 := header.1];
      i := i + 1;
    }
    // The loop consumed the fragment that stopped it, if there was one; the next fragment
    // must exist, and the one after it is the body.
    assert i < |parts| ==> parts[i..][1..] == parts[i + 1..];
    if i + 1 >= |parts| {
      return Err(HeaderSectionEndedUnexpectedly);
    }
    var body := if i + 2 < |parts| then Some(parts[i + 2]) else None;
    return Ok(Message(startLine, headers, body));
  }

  // ---------------------------------------------------------------------------
  // Updates

  /** The message with `b` as body and the two headers describing it overwritten. */
  function WithBody(m: Message, b: string): Message {
    m.(body := Some(b), headers := m.headers[ContentType := "text/plain"][ContentLength := Decimal(|b|)])
  }

  /** The response with another status code. */
  function WithStatusCode(m: Message, code: StatusCodes.StatusCode): Message
    requires m.startLine.Status?
  {
    m.(startLine := Status(m.startLine.statusLine.(statusCode := code)))
  }

  class HttpMessage {
    var startLine: StartLine
    var headers: map<string, string>
    var body: Option<string>

    function Value(): Message
      reads this
    {
      Message(startLine, headers, body)
    }

    constructor (m: Message)
      ensures Value() == m
    {
      startLine := m.startLine;
      headers := m.headers;
      body := m.body;
    }

    /** Sets the body and overwrites `Content-Type` and `Content-Length`. */
    method SetBody(b: string)
      modifies this
      ensures Value() == WithBody(old(Value()), b)
    {
      body := Some(b);
      headers := headers[ContentType := "text/plain"];
      headers := headers[ContentLength := Decimal(|b|)];
    }

    /** Replaces the status code of a response. */
    method SetStatusCode(code: StatusCodes.StatusCode)
      requires startLine.Status?
      modifies this
      ensures Value() == WithStatusCode(old(Value()), code)
    {
      startLine := Status(startLine.statusLine.(statusCode := code));
    }

    /** Appends the message to `buf`: the start line and CR LF, one `key: value` CR LF per
        header in the order the map yields them (`order`), a blank CR LF, then the body, of
        which nothing at all is written when there is none. */
    method Encode(buf: StringBuffer) returns (ghost order: seq<string>)
      modifies buf
      ensures IsKeyOrder(order, headers.Keys)
      ensures buf.content == old(buf.content) + Encoding(Value(), order)
    {
      ghost var before := buf.content;
      EncodeStartLine(startLine, buf);
      buf.PushStr(CRLF);
      ghost var afterStart := buf.content;
      order := EncodeHeaders(headers, buf);
      ghost var afterHeaders := buf.content;
      buf.PushStr(CRLF);
      ghost var beforeBody := buf.content;
      match body {
        case Some(b) => buf.PushStr(b);
        case None =>
      }
      EncodingSteps(before, afterStart, afterHeaders, beforeBody, buf.content, Value(), order);
    }
  }

  /** Appends one `key: value` CR LF line per header, in the order the map yields the keys. */
  method EncodeHeaders(headers: map<string, string>, buf: StringBuffer) returns (ghost order: seq<string>)
    modifies buf
    ensures IsKeyOrder(order, headers.Keys)
    ensures buf.content == old(buf.content) + HeaderLines(headers, order)
  {
    ghost var prefix := buf.content;
    var keys := headers.Keys;
    order := [];
    while keys != {}
      invariant keys <= headers.Keys
      invariant forall k :: k in headers <==> k in keys || k in order
      invariant forall k :: k in order ==> k !in keys
      invariant forall i, j :: 0 <= i < j < |order| ==> order[i] != order[j]
      invariant buf.content == prefix + HeaderLines(headers, order)
      decreases keys
    {
      var k :| k in keys;
      buf.PushStr(HeaderLine(k, headers[k]) + CRLF);
      HeaderLinesSnoc(headers, order, k);
      order := order + [k];
      keys := keys - {k};
    }
  }

  // ---------------------------------------------------------------------------
  // Properties of the codec

  /** A header key or value the codec can carry: no `": "` and no CR LF inside. */
  predicate Carriable(s: string) {
    Free(s, HeaderSeparator) && Free(s, CRLF)
  }

  lemma HeadInSeq(s: seq<string>)
    ensures |s| > 0 ==> s[0] in s
  {
  }

  /** The key order the loop of `Encode` can produce for an empty map is the empty one. */
  lemma NoHeadersNoOrder(order: seq<string>)
    requires IsKeyOrder(order, {})
    ensures order == []
  {
    HeadInSeq(order);
  }

  /** The response built with nothing given: status 200, no headers, no body. */
  function DefaultResponse(): Message {
    Message(Status(DefaultStatusLine), map[], None)
  }

  lemma DefaultResponseEncoding(order: seq<string>)
    requires IsKeyOrder(order, {})
    ensures order == []
    ensures Encoding(DefaultResponse(), order) == "HTTP/1.1 200 OK\r\n\r\n"
  {
    NoHeadersNoOrder(order);
    DefaultStatusLineText();
  }

  lemma DecodeDefaultRequest()
    ensures Decoded(RequestKind, "GET / HTTP/1.1\r\n\r\n")
         == Ok(Message(Request(DefaultRequestLine(Methods.GET)), map[], None))
  {
    var m := Message(Request(DefaultRequestLine(Methods.GET)), map[], None);
    assert StartLineText(m.startLine) == "GET / HTTP/1.1";
    assert Encoding(m, []) == "GET / HTTP/1.1\r\n\r\n";
    assert Free("/", CRLF);
    RequestRoundTrip(m, []);
  }

  /** A header fragment fails exactly when it holds no `": "`. */
  lemma HeaderLineFails(h: string)
    ensures DecodeHeaderLine(h).Err? <==> Free(h, HeaderSeparator)
    ensures DecodeHeaderLine(h).Err? ==> DecodeHeaderLine(h).error == HeaderValueNotFound
  {
    SplitSingle(h, HeaderSeparator);
  }

  /** A decoded header: the key is the text before the first `": "`, the value the text up to
      the next one, and whatever follows a second separator is dropped. */
  lemma {:induction false} HeaderLineSound(h: string)
    requires DecodeHeaderLine(h).Ok?
    ensures var (k, v) := DecodeHeaderLine(h).value;
      && Free(k, HeaderSeparator) && Free(v, HeaderSeparator)
      && (h == HeaderLine(k, v) || StartsWith(h, HeaderLine(k, v) + HeaderSeparator))
  {
    var sep := HeaderSeparator;
    var parts := Split(h, sep);
    JoinSplit(h, sep);
    SplitFree(h, sep);
    assert Join(parts, sep) == parts[0] + sep + Join(parts[1..], sep);
    if |parts| > 2 {
      assert Join(parts[1..], sep) == parts[1] + sep + Join(parts[2..], sep);
      assert h == (parts[0] + sep + parts[1] + sep) + Join(parts[2..], sep);
    }
  }

  /** Conversely, a key and a value without `": "`, followed by nothing or by a separator,
      decode to that key and value. */
  lemma {:induction false} HeaderLineComplete(k: string, v: string, tail: string)
    requires Free(k, HeaderSeparator) && Free(v, HeaderSeparator)
    ensures DecodeHeaderLine(HeaderLine(k, v)) == Ok((k, v))
    ensures DecodeHeaderLine(HeaderLine(k, v) + HeaderSeparator + tail) == Ok((k, v))
  {
    var sep := HeaderSeparator;
    assert BorderFree(sep);
    SplitFirst(k, sep, v);
    SplitWhole(v, sep);
    assert HeaderLine(k, v) + sep + tail == k + sep + (v + sep + tail);
    SplitFirst(k, sep, v + sep + tail);
    SplitFirst(v, sep, tail);
  }

  lemma HeaderLineCarried(k: string, v: string)
    requires Carriable(k) && Carriable(v)
    ensures HeaderLine(k, v) != "" && Free(HeaderLine(k, v), CRLF)
    ensures DecodeHeaderLine(HeaderLine(k, v)) == Ok((k, v))
  {
    HeaderLineComplete(k, v, "");
    FreeConcat(k, HeaderSeparator, v, CRLF);
  }

  /** The headers after assigning each key of `order`, front to back, its value in `headers`. */
  function Assigned(acc: map<string, string>, headers: map<string, string>, order: seq<string>)
    : (r: map<string, string>)
    requires forall k :: k in order ==> k in headers
    ensures forall k :: k in r <==> k in acc || k in order
    ensures forall k :: k in order ==> r[k] == headers[k]
    ensures forall k :: k in acc && k !in order ==> r[k] == acc[k]
    decreases |order|
  {
    if |order| == 0 then acc
    else Assigned(acc[order[0] := headers[order[0]]], headers, order[1..])
  }

  /** Assigning every key of a map from that map rebuilds it. */
  lemma AssignedAll(headers: map<string, string>, order: seq<string>)
    requires forall k :: k in order <==> k in headers
    ensures Assigned(map[], headers, order) == headers
  {
  }

  /** The header loop reads back exactly the lines the encoder wrote, stops at the blank line
      and leaves the fragments of what follows it. */
  lemma {:induction false} DecodeHeaderLines(headers: map<string, string>, order: seq<string>,
                                             acc: map<string, string>, tail: string)
    requires forall k :: k in order ==> k in headers && Carriable(k) && Carriable(headers[k])
    ensures DecodeHeaders(Split(HeaderLines(headers, order) + CRLF + tail, CRLF), acc)
         == Ok((Assigned(acc, headers, order), Split(tail, CRLF)))
    decreases |order|
  {
    CrlfBorderFree();
    if |order| == 0 {
      assert Free("", CRLF);
      SplitFirst("", CRLF, tail);
      assert "" + CRLF + tail == HeaderLines(headers, order) + CRLF + tail;
    } else {
      var k := order[0];
      var line := HeaderLine(k, headers[k]);
      var rest := HeaderLines(headers, order[1..]) + CRLF + tail;
      HeaderLineCarried(k, headers[k]);
      assert HeaderLines(headers, order) + CRLF + tail == line + CRLF + rest;
      SplitFirst(line, CRLF, rest);
      assert ([line] + Split(rest, CRLF))[1..] == Split(rest, CRLF);
      DecodeHeaderLines(headers, order[1..], acc[k := headers[k]], tail);
    }
  }

  /** The fragments of an encoded message: its start line, then what the header loop reads
      back as the message's own headers, leaving the body as the one fragment after the end. */
  lemma EncodingFragments(m: Message, order: seq<string>)
    requires forall k :: k in order ==> k in m.headers
    requires forall k :: k in m.headers ==> Carriable(k) && Carriable(m.headers[k])
    requires Free(StartLineText(m.startLine), CRLF) && Free(BodyText(m.body), CRLF)
    ensures var parts := Split(Encoding(m, order), CRLF);
      && parts[0] == StartLineText(m.startLine)
      && DecodeHeaders(parts[1..], map[]) == Ok((Assigned(map[], m.headers, order), [BodyText(m.body)]))
  {
    var start := StartLineText(m.startLine);
    var tail := BodyText(m.body);
    var rest := HeaderLines(m.headers, order) + CRLF + tail;
    CrlfBorderFree();
    assert Encoding(m, order) == start + CRLF + rest;
    SplitFirst(start, CRLF, rest);
    assert ([start] + Split(rest, CRLF))[1..] == Split(rest, CRLF);
    DecodeHeaderLines(m.headers, order, map[], tail);
    SplitWhole(tail, CRLF);
  }

  /** Decoding an encoded request gives it back, except for its body, which the check for the
      end of the header section consumes: a request without a body comes back unchanged. */
  lemma RequestRoundTrip(m: Message, order: seq<string>)
    requires m.startLine.Request?
    requires WellFormed(m.startLine.requestLine.requestUri)
    requires ' ' !in ToStr(m.startLine.requestLine.requestUri)
    requires Free(ToStr(m.startLine.requestLine.requestUri), CRLF)
    requires IsKeyOrder(order, m.headers.Keys)
    requires forall k :: k in m.headers ==> Carriable(k) && Carriable(m.headers[k])
    requires Free(BodyText(m.body), CRLF)
    ensures Decoded(RequestKind, Encoding(m, order)) == Ok(m.(body := None))
    ensures m.body == None ==> Decoded(RequestKind, Encoding(m, order)) == Ok(m)
  {
    StartLineFree(m.startLine);
    RequestLineRoundTrip(m.startLine.requestLine);
    EncodingFragments(m, order);
    AssignedAll(m.headers, order);
  }

  /** A body after the blank line is consumed by the end-of-headers check and lost. */
  lemma DecodeDropsBody()
    ensures Decoded(RequestKind, "GET / HTTP/1.1\r\n\r\nhello")
         == Ok(Message(Request(DefaultRequestLine(Methods.GET)), map[], None))
  {
    var m := Message(Request(DefaultRequestLine(Methods.GET)), map[], Some("hello"));
    assert StartLineText(m.startLine) == "GET / HTTP/1.1";
    assert Encoding(m, []) == "GET / HTTP/1.1\r\n\r\nhello";
    assert Free("/", CRLF);
    FreeWithout("hello", CRLF, 0);
    RequestRoundTrip(m, []);
  }

  /** The fragments of a text with a start line, two header lines and an empty header section end. */
  lemma {:induction false} TwoHeaderFragments(start: string, h1: string, h2: string)
    requires Free(start, CRLF) && Free(h1, CRLF) && Free(h2, CRLF)
    ensures Split(start + CRLF + h1 + CRLF + h2 + CRLF + CRLF, CRLF) == [start, h1, h2, "", ""]
  {
    var r2 := h2 + CRLF + CRLF;
    var r1 := h1 + CRLF + r2;
    assert start + CRLF + h1 + CRLF + h2 + CRLF + CRLF == start + CRLF + r1;
    CrlfBorderFree();
    SplitFirst(start, CRLF, r1);
    SplitFirst(h1, CRLF, r2);
    SplitFirst(h2, CRLF, CRLF);
    SplitAppendSep("", CRLF);
    assert "" + CRLF == CRLF;
  }

  lemma RepeatedKeyHeaders(k: string, v1: string, v2: string, extra: string)
    requires Carriable(k) && Carriable(v1) && Carriable(v2)
    ensures DecodeHeaders([HeaderLine(k, v1), HeaderLine(k, v2) + HeaderSeparator + extra, "", ""], map[])
         == Ok((map[k := v2], [""]))
  {
    HeaderLineComplete(k, v1, "");
    HeaderLineComplete(k, v2, extra);
    var frags := [HeaderLine(k, v1), HeaderLine(k, v2) + HeaderSeparator + extra, "", ""];
    assert frags[1..][1..] == ["", ""];
    assert DecodeHeaders(frags[1..][1..], map[k := v2]) == Ok((map[k := v2], [""]));
    assert map[k := v1][k := v2] == map[k := v2];
  }

  /** A repeated key keeps its last value, and a value stops at the next `": "`. */
  lemma DecodeRepeatedKey(rl: RequestLine, k: string, v1: string, v2: string, extra: string)
    requires WellFormed(rl.requestUri) && ' ' !in ToStr(rl.requestUri) && Free(ToStr(rl.requestUri), CRLF)
    requires Carriable(k) && Carriable(v1) && Carriable(v2) && Free(extra, CRLF)
    ensures Decoded(RequestKind, RequestLineText(rl) + CRLF + HeaderLine(k, v1) + CRLF
                                 + HeaderLine(k, v2) + HeaderSeparator + extra + CRLF + CRLF)
         == Ok(Message(Request(rl), map[k := v2], None))
  {
    var start, h1, h2 := RequestLineText(rl), HeaderLine(k, v1), HeaderLine(k, v2) + HeaderSeparator + extra;
    StartLineFree(Request(rl));
    RequestLineRoundTrip(rl);
    HeaderLineCarried(k, v1);
    HeaderLineCarried(k, v2);
    FreeConcat(HeaderLine(k, v2), HeaderSeparator, extra, CRLF);
    TwoHeaderFragments(start, h1, h2);
    assert start + CRLF + h1 + CRLF + HeaderLine(k, v2) + HeaderSeparator + extra + CRLF + CRLF
        == start + CRLF + h1 + CRLF + h2 + CRLF + CRLF;
    RepeatedKeyHeaders(k, v1, v2, extra);
    var parts := [start, h1, h2, "", ""];
    assert parts[1..] == [h1, h2, "", ""];
    assert DecodeStartLine(RequestKind, parts[0]) == Ok(Request(rl));
    assert DecodeHeaders(parts[1..], map[]) == Ok((map[k := v2], [""]));
  }

  /** The index of the first empty fragment at or after `i`, or `|parts|` when there is none. */
  function FirstBlank(parts: seq<string>, i: nat): (b: nat)
    requires i <= |parts|
    ensures i <= b <= |parts|
    ensures b < |parts| ==> parts[b] == ""
    ensures forall j :: i <= j < b ==> parts[j] != ""
    decreases |parts| - i
  {
    if i == |parts| || parts[i] == "" then i else FirstBlank(parts, i + 1)
  }

  /** The header loop succeeds exactly when every fragment before the first empty one holds a
      `": "`, and it then leaves the fragments after that empty one. */
  lemma {:induction false} DecodeHeadersOutcome(parts: seq<string>, i: nat, acc: map<string, string>)
    requires i <= |parts|
    ensures var r := DecodeHeaders(parts[i..], acc);
      var b := FirstBlank(parts, i);
      && (r.Ok? <==> forall j :: i <= j < b ==> !Free(parts[j], HeaderSeparator))
      && (r.Ok? ==> r.value.1 == if b < |parts| then parts[b + 1..] else [])
      && (r.Err? ==> r.error == HeaderValueNotFound)
    decreases |parts| - i
  {
    if i == |parts| {
      assert parts[i..] == [];
    } else if parts[i] == "" {
      assert parts[i..][1..] == parts[i + 1..];
    } else {
      HeaderLineFails(parts[i]);
      assert parts[i..][1..] == parts[i + 1..];
      match DecodeHeaderLine(parts[i]) {
        case Err(_) =>
        case Ok((k, v)) => DecodeHeadersOutcome(parts, i + 1, acc[k := v]);
      }
    }
  }

  /** Fragment `j` is a header line whose key is `k`. */
  predicate Keyed(parts: seq<string>, j: nat, k: string)
    requires j < |parts|
  {
    DecodeHeaderLine(parts[j]).Ok? && DecodeHeaderLine(parts[j]).value.0 == k
  }

  /** The headers a successful header loop returns: every fragment before the first empty one
      is a header line; a key is present exactly when it was already there or one of those
      lines names it; a key takes the value of the last line that names it, and keeps its
      earlier value when no line does. */
  lemma {:induction false} DecodeHeadersLastWins(parts: seq<string>, i: nat, acc: map<string, string>)
    requires i <= |parts|
    ensures var r := DecodeHeaders(parts[i..], acc); var b := FirstBlank(parts, i);
      r.Ok? ==> forall j :: i <= j < b ==> DecodeHeaderLine(parts[j]).Ok?
    ensures var r := DecodeHeaders(parts[i..], acc); var b := FirstBlank(parts, i);
      r.Ok? ==> forall k :: k in r.value.0 <==> k in acc || exists j :: i <= j < b && Keyed(parts, j, k)
    ensures var r := DecodeHeaders(parts[i..], acc); var b := FirstBlank(parts, i);
      r.Ok? ==> forall j, k :: i <= j < b && Keyed(parts, j, k) && (forall j' :: j < j' < b ==> !Keyed(parts, j', k))
                  ==> k in r.value.0 && r.value.0[k] == DecodeHeaderLine(parts[j]).value.1
    ensures var r := DecodeHeaders(parts[i..], acc); var b := FirstBlank(parts, i);
      r.Ok? ==> forall k :: k in acc && (forall j :: i <= j < b ==> !Keyed(parts, j, k))
                  ==> k in r.value.0 && r.value.0[k] == acc[k]
  {
    var r := DecodeHeaders(parts[i..], acc);
    var b := FirstBlank(parts, i);
    if r.Ok? {
      forall j | i <= j < b ensures DecodeHeaderLine(parts[j]).Ok? {
        DecodeHeadersParsed(parts, i, acc, j);
      }
      forall k ensures k in r.value.0 <==> k in acc || exists j :: i <= j < b && Keyed(parts, j, k) {
        DecodeHeadersKey(parts, i, acc, k);
      }
      forall j, k | i <= j < b && Keyed(parts, j, k) && (forall j' :: j < j' < b ==> !Keyed(parts, j', k))
        ensures k in r.value.0 && r.value.0[k] == DecodeHeaderLine(parts[j]).value.1
      {
        DecodeHeadersLast(parts, i, acc, j, k);
      }
      forall k | k in acc && (forall j :: i <= j < b ==> !Keyed(parts, j, k))
        ensures k in r.value.0 && r.value.0[k] == acc[k]
      {
        DecodeHeadersKept(parts, i, acc, k);
      }
    }
  }

  /** One step of the header loop: a header line at `i` is inserted and the loop goes on. */
  lemma DecodeHeadersStep(parts: seq<string>, i: nat, acc: map<string, string>)
    requires i < |parts| && parts[i] != "" && DecodeHeaderLine(parts[i]).Ok?
    ensures var (k0, v0) := DecodeHeaderLine(parts[i]).value;
      && DecodeHeaders(parts[i..], acc) == DecodeHeaders(parts[i + 1..], acc[k0 := v0])
      && FirstBlank(parts, i) == FirstBlank(parts, i + 1)
      && Keyed(parts, i, k0)
  {
    assert parts[i..][1..] == parts[i + 1..];
  }

  /** A key is present after the loop exactly when it was before or a line names it. */
  lemma {:induction false} DecodeHeadersKey(parts: seq<string>, i: nat, acc: map<string, string>, k: string)
    requires i <= |parts|
    ensures var r := DecodeHeaders(parts[i..], acc);
      r.Ok? ==> (k in r.value.0 <==> k in acc || exists j :: i <= j < FirstBlank(parts, i) && Keyed(parts, j, k))
    decreases |parts| - i
  {
    if i == |parts| {
      assert parts[i..] == [];
    } else if parts[i] != "" && DecodeHeaderLine(parts[i]).Ok? {
      DecodeHeadersStep(parts, i, acc);
      var (k0, v0) := DecodeHeaderLine(parts[i]).value;
      DecodeHeadersKey(parts, i + 1, acc[k0 := v0], k);
    } else if parts[i] == "" {
      assert parts[i..][1..] == parts[i + 1..];
    }
  }

  /** A key named by no line keeps the value it had. */
  lemma {:induction false} DecodeHeadersKept(parts: seq<string>, i: nat, acc: map<string, string>, k: string)
    requires i <= |parts| && k in acc
    requires forall j :: i <= j < FirstBlank(parts, i) ==> !Keyed(parts, j, k)
    ensures var r := DecodeHeaders(parts[i..], acc);
      r.Ok? ==> k in r.value.0 && r.value.0[k] == acc[k]
    decreases |parts| - i
  {
    if i == |parts| {
      assert parts[i..] == [];
    } else if parts[i] != "" && DecodeHeaderLine(parts[i]).Ok? {
      DecodeHeadersStep(parts, i, acc);
      var (k0, v0) := DecodeHeaderLine(parts[i]).value;
      DecodeHeadersKept(parts, i + 1, acc[k0 := v0], k);
    } else if parts[i] == "" {
      assert parts[i..][1..] == parts[i + 1..];
    }
  }

  /** Every fragment the loop passes over before succeeding is a header line. */
  lemma {:induction false} DecodeHeadersParsed(parts: seq<string>, i: nat, acc: map<string, string>, j: nat)
    requires i <= |parts| && i <= j < FirstBlank(parts, i)
    ensures DecodeHeaders(parts[i..], acc).Ok? ==> DecodeHeaderLine(parts[j]).Ok?
    decreases |parts| - i
  {
    assert parts[i..][1..] == parts[i + 1..];
    if j > i && DecodeHeaderLine(parts[i]).Ok? {
      DecodeHeadersStep(parts, i, acc);
      var (k0, v0) := DecodeHeaderLine(parts[i]).value;
      DecodeHeadersParsed(parts, i + 1, acc[k0 := v0], j);
    }
  }

  /** A key takes the value of the last line that names it. */
  lemma {:induction false} DecodeHeadersLast(parts: seq<string>, i: nat, acc: map<string, string>, j: nat, k: string)
    requires i <= |parts| && i <= j < FirstBlank(parts, i) && Keyed(parts, j, k)
    requires forall j' :: j < j' < FirstBlank(parts, i) ==> !Keyed(parts, j', k)
    ensures var r := DecodeHeaders(parts[i..], acc);
      r.Ok? ==> k in r.value.0 && r.value.0[k] == DecodeHeaderLine(parts[j]).value.1
    decreases |parts| - i
  {
    assert parts[i..][1..] == parts[i + 1..];
    if DecodeHeaderLine(parts[i]).Err? {
      return;
    }
    DecodeHeadersStep(parts, i, acc);
    var (k0, v0) := DecodeHeaderLine(parts[i]).value;
    if j == i {
      DecodeHeadersKept(parts, i + 1, acc[k0 := v0], k);
    } else {
      DecodeHeadersLast(parts, i + 1, acc[k0 := v0], j, k);
    }
  }

  /** When decoding fails and why, and where the body comes from when it succeeds: the text
      fails on a bad start line, on a header fragment without `": "`, or when no fragment
      follows the empty one that ends the headers; the body is the fragment two places after
      that empty one. */
  lemma DecodeOutcome(kind: LineKind, text: string)
    ensures var parts := Split(text, CRLF);
      var b := FirstBlank(parts, 1);
      var r := Decoded(kind, text);
      && (r.Ok? <==>
            && DecodeStartLine(kind, parts[0]).Ok?
            && (forall j :: 1 <= j < b ==> !Free(parts[j], HeaderSeparator))
            && b + 1 < |parts|)
      && (r.Ok? ==> r.value.startLine == DecodeStartLine(kind, parts[0]).value)
      && (r.Ok? ==> r.value.body == if b + 2 < |parts| then Some(parts[b + 2]) else None)
      && (r.Err? && DecodeStartLine(kind, parts[0]).Err? ==> r.error == DecodeStartLine(kind, parts[0]).error)
      && (r.Err? && DecodeStartLine(kind, parts[0]).Ok? && (exists j :: 1 <= j < b && Free(parts[j], HeaderSeparator))
          ==> r.error == HeaderValueNotFound)
      && (r.Err? && DecodeStartLine(kind, parts[0]).Ok? && (forall j :: 1 <= j < b ==> !Free(parts[j], HeaderSeparator))
          ==> r.error == HeaderSectionEndedUnexpectedly)
  {
    var parts := Split(text, CRLF);
    DecodeHeadersOutcome(parts, 1, map[]);
    var b := FirstBlank(parts, 1);
    if b < |parts| {
      assert b + 1 < |parts| ==> parts[b + 1..][1..] == parts[b + 2..];
    }
  }

  /** A request text that ends in a blank line right after its headers has no body. */
  lemma {:induction false} HeaderBlockHasNoBody(kind: LineKind, head: string)
    requires forall j :: 1 <= j < |Split(head, CRLF)| ==> Split(head, CRLF)[j] != ""
    ensures Decoded(kind, head + CRLF + CRLF).Ok? ==> Decoded(kind, head + CRLF + CRLF).value.body == None
  {
    var u := Split(head, CRLF);
    CrlfBorderFree();
    SplitAppendSep(head, CRLF);
    SplitAppendSep(head + CRLF, CRLF);
    var parts := Split(head + CRLF + CRLF, CRLF);
    assert parts == u + ["", ""];
    FirstBlankAt(parts, 1, |u|);
    DecodeOutcome(kind, head + CRLF + CRLF);
  }

  lemma {:induction false} FirstBlankAt(parts: seq<string>, i: nat, b: nat)
    requires i <= b < |parts| && parts[b] == ""
    requires forall j :: i <= j < b ==> parts[j] != ""
    ensures FirstBlank(parts, i) == b
    decreases b - i
  {
    if i < b {
      FirstBlankAt(parts, i + 1, b);
    }
  }

  lemma ExtraBlankLineFragments(start: string)
    requires Free(start, CRLF)
    ensures Split(start + CRLF + CRLF + CRLF, CRLF) == [start, "", "", ""]
  {
    CrlfBorderFree();
    SplitAppendSep("", CRLF);
    assert "" + CRLF == CRLF;
    SplitAppendSep(CRLF, CRLF);
    assert start + CRLF + CRLF + CRLF == start + CRLF + (CRLF + CRLF);
    SplitFirst(start, CRLF, CRLF + CRLF);
  }

  /** An extra blank line after a request line is read as an empty body, even though the text
      ends in a blank line. */
  lemma DecodeExtraBlankLine(rl: RequestLine)
    requires WellFormed(rl.requestUri) && ' ' !in ToStr(rl.requestUri) && Free(ToStr(rl.requestUri), CRLF)
    ensures Decoded(RequestKind, RequestLineText(rl) + CRLF + CRLF + CRLF)
         == Ok(Message(Request(rl), map[], Some("")))
  {
    var start := RequestLineText(rl);
    StartLineFree(Request(rl));
    ExtraBlankLineFragments(start);
    RequestLineRoundTrip(rl);
    var parts := [start, "", "", ""];
    assert parts[1..] == ["", "", ""];
    assert parts[1..][1..] == ["", ""];
  }

  // ---------------------------------------------------------------------------
  // Properties of the updates

  /** `setBody` sets the body, `Content-Type` to `text/plain` and `Content-Length` to the
      decimal length of the body, and leaves the start line and every other header alone. */
  lemma SetBodyFrame(m: Message, b: string)
    ensures var r := WithBody(m, b);
      && r.startLine == m.startLine
      && r.body == Some(b)
      && r.headers.Keys == m.headers.Keys + {ContentType, ContentLength}
      && r.headers[ContentType] == "text/plain"
      && r.headers[ContentLength] == Decimal(|b|)
      && (forall k :: k in m.headers && k != ContentType && k != ContentLength ==> r.headers[k] == m.headers[k])
  {
    assert ContentType != ContentLength;
  }

  /** The `Content-Length` that `setBody` writes reads back as the length of the body. */
  lemma SetBodyContentLength(m: Message, b: string)
    requires |b| <= UsizeMax
    ensures ParseUsize(WithBody(m, b).headers[ContentLength]) == Some(|b|)
  {
    ParseDecimal(|b|);
  }

  /** Setting a body twice is setting the second one. */
  lemma SetBodyTwice(m: Message, b1: string, b2: string)
    ensures WithBody(WithBody(m, b1), b2) == WithBody(m, b2)
  {
    assert ContentType != ContentLength;
    assert WithBody(WithBody(m, b1), b2).headers == WithBody(m, b2).headers;
  }

  /** `setStatusCode` changes the status code and nothing else. */
  lemma SetStatusCodeFrame(m: Message, code: StatusCodes.StatusCode)
    requires m.startLine.Status?
    ensures var r := WithStatusCode(m, code);
      && r.startLine.Status?
      && r.startLine.statusLine.statusCode == code
      && r.startLine.statusLine.protocolVersion == m.startLine.statusLine.protocolVersion
      && r.headers == m.headers
      && r.body == m.body
      && (code == m.startLine.statusLine.statusCode ==> r == m)
  {
  }
}
