/** The request methods of an HTTP/1.1 request line. Each method's wire token is exactly its
    variant name, and parsing is a case-sensitive exact match against those names. */
module Methods {
  import opened Wrappers

  datatype Method = OPTIONS | GET | HEAD | POST | PUT | DELETE | TRACE | CONNECT | UNKNOWN

  /** Every method, in declaration order. */
  const AllMethods: seq<Method> := [OPTIONS, GET, HEAD, POST, PUT, DELETE, TRACE, CONNECT, UNKNOWN]

  /** The wire token of a method. */
  function Token(m: Method): string {
    match m
    case OPTIONS => "OPTIONS"
    case GET => "GET"
    case HEAD => "HEAD"
    case POST => "POST"
    case PUT => "PUT"
    case DELETE => "DELETE"
    case TRACE => "TRACE"
    case CONNECT => "CONNECT"
    case UNKNOWN => "UNKNOWN"
  }

  /** Parsing a wire token; any text other than the nine names fails. */
  function Parse(s: string): Option<Method> {
    if s == "OPTIONS" then Some(OPTIONS)
    else if s == "GET" then Some(GET)
    else if s == "HEAD" then Some(HEAD)
    else if s == "POST" then Some(POST)
    else if s == "PUT" then Some(PUT)
    else if s == "DELETE" then Some(DELETE)
    else if s == "TRACE" then Some(TRACE)
    else if s == "CONNECT" then Some(CONNECT)
    else if s == "UNKNOWN" then Some(UNKNOWN)
    else None
  }

  /** There are exactly nine methods. */
  lemma NineMethods()
    ensures |AllMethods| == 9
    ensures forall m: Method :: m in AllMethods
    ensures forall i, j :: 0 <= i < j < |AllMethods| ==> AllMethods[i] != AllMethods[j]
  {
    forall m: Method ensures m in AllMethods {
      assert AllMethods[Ordinal(m)] == m;
    }
  }

  /** The position of a method in declaration order. */
  function Ordinal(m: Method): nat {
    match m
    case OPTIONS => 0
    case GET => 1
    case HEAD => 2
    case POST => 3
    case PUT => 4
    case DELETE => 5
    case TRACE => 6
    case CONNECT => 7
    case UNKNOWN => 8
  }

  /** Parsing a method's token gives the method back, UNKNOWN included. */
  lemma ParseToken(m: Method)
    ensures Parse(Token(m)) == Some(m)
  {
  }

  /** Parsing accepts a text exactly when it is the token of the method it returns. */
  lemma ParseExact(s: string, m: Method)
    ensures Parse(s) == Some(m) <==> s == Token(m)
  {
  }

  /** No two methods share a token. */
  lemma TokensDistinct(a: Method, b: Method)
    ensures Token(a) == Token(b) ==> a == b
  {
    ParseToken(a);
    ParseToken(b);
  }

  /** Parsing is case-sensitive and knows no extension methods. */
  lemma ParseRejects()
    ensures Parse("get") == None && Parse("PATCH") == None
  {
  }

  /** A token is non-empty and holds no space, CR or LF, so it survives request-line framing. */
  lemma TokenShape(m: Method)
    ensures |Token(m)| > 0
    ensures ' ' !in Token(m) && '\r' !in Token(m) && '\n' !in Token(m)
  {
  }
}
