/** The protocol versions a request line may carry: only HTTP/1.1. */
module Versions {
  import opened Wrappers

  datatype Version = One

  /** The version a start line gets when none is given. */
  const DefaultVersion: Version := One

  /** The wire token of a version. */
  function Token(v: Version): string {
    match v
    case One => "HTTP/1.1"
  }

  /** Parsing a wire token: exact, case-sensitive match. */
  function Parse(s: string): Option<Version> {
    if s == "HTTP/1.1" then Some(One) else None
  }

  /** Parsing a version's token gives the version back. */
  lemma ParseToken(v: Version)
    ensures Parse(Token(v)) == Some(v)
  {
  }

  /** Parsing accepts exactly the token `HTTP/1.1`; `HTTP/1.0` is refused. */
  lemma ParseExact(s: string)
    ensures Parse(s).Some? <==> s == "HTTP/1.1"
    ensures Parse("HTTP/1.0") == None
  {
  }

  /** The default version is the only one, HTTP/1.1. */
  lemma DefaultIsOne(v: Version)
    ensures v == DefaultVersion && Token(DefaultVersion) == "HTTP/1.1"
  {
  }

  /** The token holds no space, CR or LF. */
  lemma TokenShape(v: Version)
    ensures |Token(v)| > 0
    ensures ' ' !in Token(v) && '\r' !in Token(v) && '\n' !in Token(v)
  {
  }
}
