/** The example application's router: an ordered dispatch on the request path to an echo
    handler, a user-agent handler, a files handler over a directory, the root and a
    not-found fallback. The directory is the map from file name to contents it holds. */
module Routes {
  import opened Wrappers
  import opened Errors
  import opened Text
  import opened RequestUris
  import opened StartLines
  import opened Messages
  import Methods
  import Versions
  import StatusCodes

  const EchoPrefix: string := "/echo/"
  const UserAgentPath: string := "/user-agent"
  const FilesPrefix: string := "/files/"
  const UserAgent: string := "User-Agent"
  const OctetStream: string := "application/octet-stream"

  /** Which handler a path goes to. */
  datatype Route = Echo | UserAgentRoute | Files | Root | NotFoundRoute

  /** The arms of the dispatch, tried in order: echo prefix, user-agent path, files prefix,
      the root path, anything else. */
  function RouteOf(path: string): Route {
    if StartsWith(path, EchoPrefix) then Echo
    else if path == UserAgentPath then UserAgentRoute
    else if StartsWith(path, FilesPrefix) then Files
    else if path == "/" then Root
    else NotFoundRoute
  }

  function PathOf(req: Message): string
    requires req.startLine.Request?
  {
    ToStr(req.startLine.requestLine.requestUri)
  }

  /** A response with the given status code, no headers and no body. */
  function StatusResponse(code: StatusCodes.StatusCode): (r: Message)
    ensures r.startLine.Status? && r.startLine.statusLine.statusCode == code
    ensures r.startLine.statusLine.protocolVersion == Versions.DefaultVersion
    ensures r.headers == map[] && r.body == None
  {
    WithStatusCode(DefaultResponse(), code)
  }

  /** The echo handler: the rest of the path after the prefix, as a plain-text body. */
  function EchoResponse(path: string): Message
    requires StartsWith(path, EchoPrefix)
  {
    WithBody(DefaultResponse(), path[|EchoPrefix|..])
  }

  /** The user-agent handler: the request's `User-Agent` value as a plain-text body; a request
      without one aborts the connection. */
  function UserAgentResponse(req: Message): Result<Message, Error> {
    if UserAgent in req.headers then Ok(WithBody(DefaultResponse(), req.headers[UserAgent]))
    else Err(UserAgentMissing)
  }

  /** The files handler, as the response and the directory afterwards: a GET of a stored file
      returns it as an octet stream, a GET of anything else is 404, a POST stores the body (the
      empty text when there is none) and is 201, any other method is 405. */
  function FilesResponse(files: map<string, string>, req: Message): (Message, map<string, string>)
    requires req.startLine.Request? && StartsWith(PathOf(req), FilesPrefix)
  {
    var name := PathOf(req)[|FilesPrefix|..];
    match req.startLine.requestLine.requestMethod
    case GET =>
      if name in files then
        var r := WithBody(DefaultResponse(), files[name]);
        (r.(headers := r.headers[ContentType := OctetStream]), files)
      else (StatusResponse(StatusCodes.NotFound), files)
    case POST => (StatusResponse(StatusCodes.Created), files[name := BodyText(req.body)])
    case _ => (StatusResponse(StatusCodes.MethodNotAllowed), files)
  }

  /** The response to a request and the directory after it. */
  function Routed(files: map<string, string>, req: Message): (r: Result<(Message, map<string, string>), Error>)
    requires req.startLine.Request?
    ensures r.Ok? ==> r.value.0.startLine.Status?
    ensures r.Err? <==> RouteOf(PathOf(req)) == UserAgentRoute && UserAgent !in req.headers
  {
    var path := PathOf(req);
    match RouteOf(path)
    case Echo => Ok((EchoResponse(path), files))
    case UserAgentRoute =>
      (match UserAgentResponse(req)
       case Ok(r) => Ok((r, files))
       case Err(e) => Err(e))
    case Files => Ok(FilesResponse(files, req))
    case Root => Ok((DefaultResponse(), files))
    case NotFoundRoute => Ok((StatusResponse(StatusCodes.NotFound), files))
  }

  /** The router and the directory it serves files from. */
  class Router {
    var files: map<string, string>

    constructor (files: map<string, string>)
      ensures this.files == files
    {
      this.files := files;
    }

    /** Dispatches a request to its handler. */
    method Handle(req: Message) returns (r: Result<HttpMessage, Error>)
      requires req.startLine.Request?
      modifies this
      ensures Routed(old(files), req).Err? ==> r.Err? && r.error == Routed(old(files), req).error && files == old(files)
      ensures Routed(old(files), req).Ok? ==>
        && r.Ok? && fresh(r.value)
        && r.value.Value() == Routed(old(files), req).value.0
        && files == Routed(old(files), req).value.1
    {
      var path := ToStr(req.startLine.requestLine.requestUri);
      if StartsWith(path, EchoPrefix) {
        var resp := EchoHandler(req);
        return Ok(resp);
      } else if path == UserAgentPath {
        var resp :- UserAgentHandler(req);
        return Ok(resp);
      } else if StartsWith(path, FilesPrefix) {
        var resp := FilesHandler(req);
        return Ok(resp);
      } else if path == "/" {
        var resp := new HttpMessage(DefaultResponse());
        return Ok(resp);
      } else {
        var resp := new HttpMessage(StatusResponse(StatusCodes.NotFound));
        return Ok(resp);
      }
    }

    method FilesHandler(req: Message) returns (resp: HttpMessage)
      requires req.startLine.Request? && StartsWith(PathOf(req), FilesPrefix)
      modifies this
      ensures fresh(resp)
      ensures (resp.Value(), files) == FilesResponse(old(files), req)
    {
      var path := ToStr(req.startLine.requestLine.requestUri);
      var name := path[|FilesPrefix|..];
      resp := new HttpMessage(DefaultResponse());
      match req.startLine.requestLine.requestMethod {
        case GET =>
          if name in files {
            resp.SetBody(files[name]);
            resp.headers := resp.headers[ContentType := OctetStream];
          } else {
            resp.startLine := Status(resp.startLine.statusLine.(statusCode := StatusCodes.NotFound));
          }
        case POST =>
          files := files[name := BodyText(req.body)];
          resp.startLine := Status(resp.startLine.statusLine.(statusCode := StatusCodes.Created));
        case _ =>
          resp.startLine := Status(resp.startLine.statusLine.(statusCode := StatusCodes.MethodNotAllowed));
      }
    }
  }

  method EchoHandler(req: Message) returns (resp: HttpMessage)
    requires req.startLine.Request? && StartsWith(PathOf(req), EchoPrefix)
    ensures fresh(resp)
    ensures resp.Value() == EchoResponse(PathOf(req))
  {
    var path := ToStr(req.startLine.requestLine.requestUri);
    var echoMessage := path[|EchoPrefix|..];
    resp := new HttpMessage(DefaultResponse());
    resp.SetBody(echoMessage);
  }

  method UserAgentHandler(req: Message) returns (r: Result<HttpMessage, Error>)
    ensures UserAgentResponse(req).Err? ==> r == Err(UserAgentMissing)
    ensures UserAgentResponse(req).Ok? ==> r.Ok? && fresh(r.value) && r.value.Value() == UserAgentResponse(req).value
  {
    if UserAgent !in req.headers {
      return Err(UserAgentMissing);
    }
    var resp := new HttpMessage(DefaultResponse());
    resp.SetBody(req.headers[UserAgent]);
    return Ok(resp);
  }

  // ---------------------------------------------------------------------------
  // Properties of the router

  /** Only origin-server paths can reach a handler: `*` and absolute URIs are not found. */
  lemma NonPathNotFound(u: RequestUri)
    requires WellFormed(u) && !u.AbsolutePath?
    ensures RouteOf(ToStr(u)) == NotFoundRoute
  {
    var s := ToStr(u);
    if u.AbsoluteUri? {
      assert s[..7] == "http://" || s[..8] == "https://";
      assert s[0] == 'h';
    }
    assert !StartsWith(s, EchoPrefix) && !StartsWith(s, FilesPrefix);
  }

  /** The dispatch examples around the arms' boundaries: a prefix needs its trailing slash,
      the user-agent path must match exactly, and the echo arm wins over the others. */
  lemma RouteExamples()
    ensures RouteOf("/echo/abc") == Echo
    ensures RouteOf("/echo/") == Echo
    ensures RouteOf("/echo") == NotFoundRoute
    ensures RouteOf("/user-agent") == UserAgentRoute
    ensures RouteOf("/user-agent/") == NotFoundRoute
    ensures RouteOf("/files/a.txt") == Files
    ensures RouteOf("/files") == NotFoundRoute
    ensures RouteOf("/") == Root
    ensures RouteOf("") == NotFoundRoute
  {
    assert "/echo/abc"[..6] == EchoPrefix;
    assert "/echo/"[..6] == EchoPrefix;
    assert "/files/a.txt"[..7] == FilesPrefix;
    assert "/user-agent/"[1] != EchoPrefix[1] && "/user-agent/"[1] != FilesPrefix[1];
    assert "/user-agent"[1] != EchoPrefix[1];
    assert "/files/a.txt"[1] != EchoPrefix[1];
    assert "/files"[1] != EchoPrefix[1];
  }

  /** The echo response: 200, the rest of the path as a plain-text body, and the two headers
      that describe it; the path is the prefix followed by the body. */
  lemma EchoResponseShape(path: string)
    requires StartsWith(path, EchoPrefix)
    ensures var r := EchoResponse(path);
      && r.startLine == Status(DefaultStatusLine)
      && r.body.Some? && path == EchoPrefix + r.body.value
      && r.headers == map[ContentType := "text/plain", ContentLength := Decimal(|path| - |EchoPrefix|)]
  {
    PrefixRest(path, EchoPrefix);
    DefaultWithBody(path[|EchoPrefix|..]);
  }

  /** A text that starts with a prefix is that prefix followed by the rest. */
  lemma PrefixRest(s: string, prefix: string)
    requires StartsWith(s, prefix)
    ensures s == prefix + s[|prefix|..] && |s[|prefix|..]| == |s| - |prefix|
  {
    assert s == s[..|prefix|] + s[|prefix|..];
  }

  /** The default response with a body: 200 and the two headers that describe the body. */
  lemma DefaultWithBody(b: string)
    ensures WithBody(DefaultResponse(), b)
      == Message(Status(DefaultStatusLine), map[ContentType := "text/plain", ContentLength := Decimal(|b|)], Some(b))
  {
  }

  /** The user-agent response carries the request's `User-Agent` value, and fails without one. */
  lemma UserAgentResponseShape(req: Message)
    ensures UserAgentResponse(req).Ok? <==> UserAgent in req.headers
    ensures UserAgentResponse(req).Ok? ==>
      var r := UserAgentResponse(req).value;
      && r.startLine == Status(DefaultStatusLine)
      && r.body == Some(req.headers[UserAgent])
      && r.headers[ContentType] == "text/plain"
  {
  }

  /** A GET of a stored file returns its contents as an octet stream of the right length and
      leaves the directory alone; a GET of anything else is 404 with nothing else. */
  lemma FilesGet(files: map<string, string>, req: Message)
    requires req.startLine.Request? && StartsWith(PathOf(req), FilesPrefix)
    requires req.startLine.requestLine.requestMethod == Methods.GET
    ensures var name := PathOf(req)[|FilesPrefix|..];
      var (r, after) := FilesResponse(files, req);
      && after == files
      && (name in files ==>
            && r.startLine == Status(DefaultStatusLine)
            && r.body == Some(files[name])
            && r.headers == map[ContentType := OctetStream, ContentLength := Decimal(|files[name]|)])
      && (name !in files ==> r == StatusResponse(StatusCodes.NotFound))
  {
    var name := PathOf(req)[|FilesPrefix|..];
    if name in files {
      var w := WithBody(DefaultResponse(), files[name]);
      assert w.headers[ContentType := OctetStream] == map[ContentType := OctetStream, ContentLength := Decimal(|files[name]|)];
    }
  }

  /** A POST stores the body, or the empty text when there is none, under the file name,
      leaves every other file alone and answers 201 with nothing else. */
  lemma FilesPost(files: map<string, string>, req: Message)
    requires req.startLine.Request? && StartsWith(PathOf(req), FilesPrefix)
    requires req.startLine.requestLine.requestMethod == Methods.POST
    ensures var name := PathOf(req)[|FilesPrefix|..];
      var (r, after) := FilesResponse(files, req);
      && r == StatusResponse(StatusCodes.Created)
      && after.Keys == files.Keys + {name}
      && after[name] == (if req.body.Some? then req.body.value else "")
      && (forall f :: f in files && f != name ==> after[f] == files[f])
  {
  }

  /** Any method other than GET and POST is 405 and changes nothing. */
  lemma FilesOtherMethod(files: map<string, string>, req: Message)
    requires req.startLine.Request? && StartsWith(PathOf(req), FilesPrefix)
    requires req.startLine.requestLine.requestMethod !in {Methods.GET, Methods.POST}
    ensures FilesResponse(files, req) == (StatusResponse(StatusCodes.MethodNotAllowed), files)
  {
  }

  /** Only a POST on the files route changes the directory. */
  lemma RoutedDirectoryFrame(files: map<string, string>, req: Message)
    requires req.startLine.Request?
    requires Routed(files, req).Ok?
    requires RouteOf(PathOf(req)) != Files || req.startLine.requestLine.requestMethod != Methods.POST
    ensures Routed(files, req).value.1 == files
  {
  }

  /** The root path answers 200 with no headers and no body, whatever the request. */
  lemma RootResponse(files: map<string, string>, req: Message)
    requires req.startLine.Request? && PathOf(req) == "/"
    ensures Routed(files, req) == Ok((Message(Status(StatusLine(Versions.One, StatusCodes.OK)), map[], None), files))
  {
    assert !StartsWith("/", EchoPrefix) && !StartsWith("/", FilesPrefix);
  }

  /** A path that matches no arm answers 404 with no headers and no body. */
  lemma UnmatchedNotFound(files: map<string, string>, req: Message)
    requires req.startLine.Request? && RouteOf(PathOf(req)) == NotFoundRoute
    ensures Routed(files, req) == Ok((Message(Status(StatusLine(Versions.One, StatusCodes.NotFound)), map[], None), files))
  {
  }
}
