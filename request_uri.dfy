/** The three shapes of a Request-URI (section 5.1.2 of RFC 2616) and the total
    classification of a request-line token into one of them. */
module RequestUris {
  import opened Text

  datatype RequestUri =
    | Asterisk                      // the request applies to the server itself, "*"
    | AbsoluteUri(uri: string)      // a full URI, as sent to proxies
    | AbsolutePath(path: string)    // a path on the origin server

  /** Whether a token is an absolute URI: it starts with `http://` or `https://`, case-sensitively. */
  predicate IsAbsoluteUri(s: string) {
    StartsWith(s, "http://") || StartsWith(s, "https://")
  }

  /** Classifies a request-line token; never fails. */
  function FromStr(s: string): RequestUri {
    if s == "*" then Asterisk
    else if IsAbsoluteUri(s) then AbsoluteUri(s)
    else AbsolutePath(s)
  }

  /** The text of a request URI. */
  function ToStr(u: RequestUri): string {
    match u
    case Asterisk => "*"
    case AbsoluteUri(uri) => uri
    case AbsolutePath(path) => path
  }

  /** A request URI whose payload agrees with the prefix rule of its variant. */
  predicate WellFormed(u: RequestUri) {
    match u
    case Asterisk => true
    case AbsoluteUri(uri) => IsAbsoluteUri(uri)
    case AbsolutePath(path) => path != "*" && !IsAbsoluteUri(path)
  }

  /** The classification of a token keeps the token's text. */
  lemma ToStrFromStr(s: string)
    ensures ToStr(FromStr(s)) == s
  {
  }

  /** Classification picks the variant by the rules above: `*`, then the two URI schemes,
      and everything else, the empty token included, is a path. */
  lemma FromStrCases(s: string)
    ensures s == "*" <==> FromStr(s) == Asterisk
    ensures s != "*" && IsAbsoluteUri(s) <==> FromStr(s) == AbsoluteUri(s)
    ensures s != "*" && !IsAbsoluteUri(s) <==> FromStr(s) == AbsolutePath(s)
    ensures FromStr("") == AbsolutePath("")
  {
  }

  /** Every classification is well formed. */
  lemma FromStrWellFormed(s: string)
    ensures WellFormed(FromStr(s))
  {
  }

  /** Re-classifying the text of a request URI gives it back exactly when it is well formed. */
  lemma FromStrToStr(u: RequestUri)
    ensures FromStr(ToStr(u)) == u <==> WellFormed(u)
  {
  }
}
