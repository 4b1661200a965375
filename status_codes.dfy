/** The status codes of an HTTP/1.1 Status-Line, with their three-digit codes and the
    reason phrases of section 6.1.1 of RFC 2616. */
module StatusCodes {
  import opened Wrappers

  datatype StatusCode =
    | Continue | SwitchingProtocols
    | OK | Created | Accepted | NonAuthoritativeInformation | NoContent | ResetContent
    | PartialContent
    | MultipleChoices | MovedPermanently | Found | SeeOther | NotModified | UseProxy
    | TemporaryRedirect
    | BadRequest | Unauthorized | PaymentRequired | Forbidden | NotFound | MethodNotAllowed
    | NotAcceptable | ProxyAuthenticationRequired | RequestTimeout | Conflict | Gone
    | LengthRequired | PreconditionFailed | RequestEntityTooLarge | RequestURITooLong
    | UnsupportedMediaType | RequestedRangeNotSatisfiable | ExpectationFailed
    | InternalServerError | NotImplemented | BadGateway | ServiceUnavailable | GatewayTimeout
    | HTTPVersionNotSupported

  /** The status a status line gets when none is given. */
  const DefaultStatusCode: StatusCode := OK

  /** The numeric code of a status (its enum discriminant). */
  function Code(s: StatusCode): nat {
    match s
    case Continue => 100
    case SwitchingProtocols => 101
    case OK => 200
    case Created => 201
    case Accepted => 202
    case NonAuthoritativeInformation => 203
    case NoContent => 204
    case ResetContent => 205
    case PartialContent => 206
    case MultipleChoices => 300
    case MovedPermanently => 301
    case Found => 302
    case SeeOther => 303
    case NotModified => 304
    case UseProxy => 305
    case TemporaryRedirect => 307
    case BadRequest => 400
    case Unauthorized => 401
    case PaymentRequired => 402
    case Forbidden => 403
    case NotFound => 404
    case MethodNotAllowed => 405
    case NotAcceptable => 406
    case ProxyAuthenticationRequired => 407
    case RequestTimeout => 408
    case Conflict => 409
    case Gone => 410
    case LengthRequired => 411
    case PreconditionFailed => 412
    case RequestEntityTooLarge => 413
    case RequestURITooLong => 414
    case UnsupportedMediaType => 415
    case RequestedRangeNotSatisfiable => 416
    case ExpectationFailed => 417
    case InternalServerError => 500
    case NotImplemented => 501
    case BadGateway => 502
    case ServiceUnavailable => 503
    case GatewayTimeout => 504
    case HTTPVersionNotSupported => 505
  }

  /** The reason phrase of a status. */
  function ReasonPhrase(s: StatusCode): string {
    match s
    case Continue => "Continue"
    case SwitchingProtocols => "Switching Protocols"
    case OK => "OK"
    case Created => "Created"
    case Accepted => "Accepted"
    case NonAuthoritativeInformation => "Non-Authoritative Information"
    case NoContent => "No Content"
    case ResetContent => "Reset Content"
    case PartialContent => "Partial Content"
    case MultipleChoices => "Multiple Choices"
    case MovedPermanently => "Moved Permanently"
    case Found => "Found"
    case SeeOther => "See Other"
    case NotModified => "Not Modified"
    case UseProxy => "Use Proxy"
    case TemporaryRedirect => "Temporary Redirect"
    case BadRequest => "Bad Request"
    case Unauthorized => "Unauthorized"
    case PaymentRequired => "Payment Required"
    case Forbidden => "Forbidden"
    case NotFound => "Not Found"
    case MethodNotAllowed => "Method Not Allowed"
    case NotAcceptable => "Not Acceptable"
    case ProxyAuthenticationRequired => "Proxy Authentication Required"
    case RequestTimeout => "Request Time-out"
    case Conflict => "Conflict"
    case Gone => "Gone"
    case LengthRequired => "Length Required"
    case PreconditionFailed => "Precondition Failed"
    case RequestEntityTooLarge => "Request Entity Too Large"
    case RequestURITooLong => "Request-URI Too Large"
    case UnsupportedMediaType => "Unsupported Media Type"
    case RequestedRangeNotSatisfiable => "Requested range Not Satisfiable"
    case ExpectationFailed => "Expectation Failed"
    case InternalServerError => "Internal Server Error"
    case NotImplemented => "Not Implemented"
    case BadGateway => "Bad Gateway"
    case ServiceUnavailable => "Service Unavailable"
    case GatewayTimeout => "Gateway Time-out"
    case HTTPVersionNotSupported => "HTTP Version not supported"
  }

  /** The status with a given numeric code, if any: the inverse of `Code`. */
  function FromCode(n: nat): Option<StatusCode> {
    if n == 100 then Some(Continue)
    else if n == 101 then Some(SwitchingProtocols)
    else if n == 200 then Some(OK)
    else if n == 201 then Some(Created)
    else if n == 202 then Some(Accepted)
    else if n == 203 then Some(NonAuthoritativeInformation)
    else if n == 204 then Some(NoContent)
    else if n == 205 then Some(ResetContent)
    else if n == 206 then Some(PartialContent)
    else if n == 300 then Some(MultipleChoices)
    else if n == 301 then Some(MovedPermanently)
    else if n == 302 then Some(Found)
    else if n == 303 then Some(SeeOther)
    else if n == 304 then Some(NotModified)
    else if n == 305 then Some(UseProxy)
    else if n == 307 then Some(TemporaryRedirect)
    else if n == 400 then Some(BadRequest)
    else if n == 401 then Some(Unauthorized)
    else if n == 402 then Some(PaymentRequired)
    else if n == 403 then Some(Forbidden)
    else if n == 404 then Some(NotFound)
    else if n == 405 then Some(MethodNotAllowed)
    else if n == 406 then Some(NotAcceptable)
    else if n == 407 then Some(ProxyAuthenticationRequired)
    else if n == 408 then Some(RequestTimeout)
    else if n == 409 then Some(Conflict)
    else if n == 410 then Some(Gone)
    else if n == 411 then Some(LengthRequired)
    else if n == 412 then Some(PreconditionFailed)
    else if n == 413 then Some(RequestEntityTooLarge)
    else if n == 414 then Some(RequestURITooLong)
    else if n == 415 then Some(UnsupportedMediaType)
    else if n == 416 then Some(RequestedRangeNotSatisfiable)
    else if n == 417 then Some(ExpectationFailed)
    else if n == 500 then Some(InternalServerError)
    else if n == 501 then Some(NotImplemented)
    else if n == 502 then Some(BadGateway)
    else if n == 503 then Some(ServiceUnavailable)
    else if n == 504 then Some(GatewayTimeout)
    else if n == 505 then Some(HTTPVersionNotSupported)
    else None
  }

  /** The five classes of status, as the enum groups its variants. */
  datatype StatusClass = Informational | Success | Redirection | ClientError | ServerError

  /** The class a status is declared under. */
  function ClassOf(s: StatusCode): StatusClass {
    match s
    case Continue | SwitchingProtocols => Informational
    case OK | Created | Accepted | NonAuthoritativeInformation | NoContent | ResetContent
      | PartialContent => Success
    case MultipleChoices | MovedPermanently | Found | SeeOther | NotModified | UseProxy
      | TemporaryRedirect => Redirection
    case BadRequest | Unauthorized | PaymentRequired | Forbidden | NotFound | MethodNotAllowed
      | NotAcceptable | ProxyAuthenticationRequired | RequestTimeout | Conflict | Gone
      | LengthRequired | PreconditionFailed | RequestEntityTooLarge | RequestURITooLong
      | UnsupportedMediaType | RequestedRangeNotSatisfiable | ExpectationFailed => ClientError
    case InternalServerError | NotImplemented | BadGateway | ServiceUnavailable | GatewayTimeout
      | HTTPVersionNotSupported => ServerError
  }

  /** The leading digit the codes of a class share. */
  function ClassDigit(c: StatusClass): nat {
    match c
    case Informational => 1
    case Success => 2
    case Redirection => 3
    case ClientError => 4
    case ServerError => 5
  }

  /** `FromCode` and `Code` are inverse: a number names a status exactly when it is its code. */
  lemma FromCodeExact(n: nat, s: StatusCode)
    ensures FromCode(n) == Some(s) <==> Code(s) == n
  {
    FromCodeCode(s);
    FromCodeSound(n);
  }

  /** Every status is found again from its code. */
  lemma FromCodeCode(s: StatusCode)
    ensures FromCode(Code(s)) == Some(s)
  {
    match ClassOf(s)
    case Informational => FromCodeCodeOf(s, Informational);
    case Success => FromCodeCodeOf(s, Success);
    case Redirection => FromCodeCodeOf(s, Redirection);
    case ClientError => FromCodeCodeOf(s, ClientError);
    case ServerError => FromCodeCodeOf(s, ServerError);
  }

  /** `FromCodeCode` for the statuses of one class. */
  lemma FromCodeCodeOf(s: StatusCode, c: StatusClass)
    ensures ClassOf(s) == c ==> FromCode(Code(s)) == Some(s)
  {
  }

  /** A number that names a status is that status's code. */
  lemma FromCodeSound(n: nat)
    ensures FromCode(n).Some? ==> Code(FromCode(n).value) == n
  {
  }

  /** Codes are pairwise distinct. */
  lemma CodeInjective(a: StatusCode, b: StatusCode)
    ensures Code(a) == Code(b) ==> a == b
  {
    FromCodeExact(Code(a), a);
    FromCodeExact(Code(b), b);
  }

  /** Every code is a three-digit number in 100..505 whose leading digit is its class. */
  lemma CodeInClass(s: StatusCode)
    ensures 100 <= Code(s) <= 505
    ensures Code(s) / 100 == ClassDigit(ClassOf(s))
  {
  }

  /** The default status is 200 OK. */
  lemma DefaultIsOK()
    ensures DefaultStatusCode == OK && Code(DefaultStatusCode) == 200
    ensures ReasonPhrase(DefaultStatusCode) == "OK"
  {
  }

  /** Only characters between a space and a tilde. */
  predicate Printable(s: string) {
    forall i :: 0 <= i < |s| ==> ' ' <= s[i] <= '~'
  }

  /** Every reason phrase is a non-empty printable text, so it holds no CR or LF. */
  lemma ReasonPhraseShape(s: StatusCode)
    ensures |ReasonPhrase(s)| > 0 && Printable(ReasonPhrase(s))
    ensures '\r' !in ReasonPhrase(s) && '\n' !in ReasonPhrase(s)
  {
    var n := Code(s);
    CodeInClass(s);
    if n < 203 {
      PhrasesPrintable100To203(s);
    } else if n < 204 {
      PhrasesPrintable203To204(s);
    } else if n < 300 {
      PhrasesPrintable204To300(s);
    } else if n < 304 {
      PhrasesPrintable300To304(s);
    } else if n < 400 {
      PhrasesPrintable304To400(s);
    } else if n < 403 {
      PhrasesPrintable400To403(s);
    } else if n < 406 {
      PhrasesPrintable403To406(s);
    } else if n < 407 {
      PhrasesPrintable406To407(s);
    } else if n < 409 {
      PhrasesPrintable407To409(s);
    } else if n < 412 {
      PhrasesPrintable409To412(s);
    } else if n < 414 {
      PhrasesPrintable412To414(s);
    } else if n < 415 {
      PhrasesPrintable414To415(s);
    } else if n < 416 {
      PhrasesPrintable415To416(s);
    } else if n < 417 {
      PhrasesPrintable416To417(s);
    } else if n < 418 {
      PhrasesPrintable417To418(s);
    } else if n < 503 {
      PhrasesPrintable500To503(s);
    } else if n < 505 {
      PhrasesPrintable503To505(s);
    } else {
      PhrasesPrintable505To506(s);
    }
  }

  // The table is checked a few entries at a time to keep each proof small.

  lemma PhrasesPrintable100To203(s: StatusCode)
    requires 100 <= Code(s) < 203
    ensures |ReasonPhrase(s)| > 0 && Printable(ReasonPhrase(s))
  {
  }

  lemma PhrasesPrintable203To204(s: StatusCode)
    requires 203 <= Code(s) < 204
    ensures |ReasonPhrase(s)| > 0 && Printable(ReasonPhrase(s))
  {
  }

  lemma PhrasesPrintable204To300(s: StatusCode)
    requires 204 <= Code(s) < 300
    ensures |ReasonPhrase(s)| > 0 && Printable(ReasonPhrase(s))
  {
  }

  lemma PhrasesPrintable300To304(s: StatusCode)
    requires 300 <= Code(s) < 304
    ensures |ReasonPhrase(s)| > 0 && Printable(ReasonPhrase(s))
  {
  }

  lemma PhrasesPrintable304To400(s: StatusCode)
    requires 304 <= Code(s) < 400
    ensures |ReasonPhrase(s)| > 0 && Printable(ReasonPhrase(s))
  {
  }

  lemma PhrasesPrintable400To403(s: StatusCode)
    requires 400 <= Code(s) < 403
    ensures |ReasonPhrase(s)| > 0 && Printable(ReasonPhrase(s))
  {
  }

  lemma PhrasesPrintable403To406(s: StatusCode)
    requires 403 <= Code(s) < 406
    ensures |ReasonPhrase(s)| > 0 && Printable(ReasonPhrase(s))
  {
  }

  lemma PhrasesPrintable406To407(s: StatusCode)
    requires 406 <= Code(s) < 407
    ensures |ReasonPhrase(s)| > 0 && Printable(ReasonPhrase(s))
  {
  }

  lemma PhrasesPrintable407To409(s: StatusCode)
    requires 407 <= Code(s) < 409
    ensures |ReasonPhrase(s)| > 0 && Printable(ReasonPhrase(s))
  {
  }

  lemma PhrasesPrintable409To412(s: StatusCode)
    requires 409 <= Code(s) < 412
    ensures |ReasonPhrase(s)| > 0 && Printable(ReasonPhrase(s))
  {
  }

  lemma PhrasesPrintable412To414(s: StatusCode)
    requires 412 <= Code(s) < 414
    ensures |ReasonPhrase(s)| > 0 && Printable(ReasonPhrase(s))
  {
  }

  lemma PhrasesPrintable414To415(s: StatusCode)
    requires 414 <= Code(s) < 415
    ensures |ReasonPhrase(s)| > 0 && Printable(ReasonPhrase(s))
  {
  }

  lemma PhrasesPrintable415To416(s: StatusCode)
    requires 415 <= Code(s) < 416
    ensures |ReasonPhrase(s)| > 0 && Printable(ReasonPhrase(s))
  {
  }

  lemma PhrasesPrintable416To417(s: StatusCode)
    requires 416 <= Code(s) < 417
    ensures |ReasonPhrase(s)| > 0 && Printable(ReasonPhrase(s))
  {
  }

  lemma PhrasesPrintable417To418(s: StatusCode)
    requires 417 <= Code(s) < 418
    ensures |ReasonPhrase(s)| > 0 && Printable(ReasonPhrase(s))
  {
  }

  lemma PhrasesPrintable500To503(s: StatusCode)
    requires 500 <= Code(s) < 503
    ensures |ReasonPhrase(s)| > 0 && Printable(ReasonPhrase(s))
  {
  }

  lemma PhrasesPrintable503To505(s: StatusCode)
    requires 503 <= Code(s) < 505
    ensures |ReasonPhrase(s)| > 0 && Printable(ReasonPhrase(s))
  {
  }

  lemma PhrasesPrintable505To506(s: StatusCode)
    requires 505 <= Code(s) < 506
    ensures |ReasonPhrase(s)| > 0 && Printable(ReasonPhrase(s))
  {
  }

  /** Two entries of the table, by example. */
  lemma ReasonPhraseExamples()
    ensures ReasonPhrase(NotFound) == "Not Found" && Code(NotFound) == 404
    ensures ReasonPhrase(MethodNotAllowed) == "Method Not Allowed" && Code(MethodNotAllowed) == 405
  {
  }
}
