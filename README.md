# HTTP/1.1 message codec and single-request server, modelled in Dafny

This project models the core of a small HTTP/1.1 server written in Rust:

- the generic message codec of section 4.1 of RFC 2616. An encoded message is a start line, CR LF, one `key: value` CR LF per header, an empty line, then the body. Decoding splits the text on CR LF.
- the Request-Line (section 5.1 of RFC 2616) and the Status-Line (section 6.1 of RFC 2616). A Request-Line can be encoded and decoded; a Status-Line can only be encoded.
- the closed vocabularies: methods, the protocol version, Request-URI classification (section 5.1.2 of RFC 2616), and the status codes with their reason phrases (section 6.1.1 of RFC 2616).
- the handling of one connection. The server reads the header section line by line and reads the body that `Content-Length` announces. It routes the request and negotiates gzip through `Accept-Encoding` (sections 14.3 and 14.11 of RFC 2616). Then it writes back the encoded response.
- the example application's router: an echo route, a user-agent route, a files route over a directory, the root, and a not-found fallback.

The model follows the code's own structure:

- Pure parts are datatypes and functions: the vocabularies, the URI classification, and request-line decoding.
- Appending encoders are methods on a `StringBuffer` class. This class stands for the caller's `&mut String`.
- A message whose fields the handlers update is a class, `Messages.HttpMessage`. Its value is `Messages.Message`.
- The header loop of the decoder and the `Accept-Encoding` loop are `while` loops. Each is proved against a specification function.
- The client's stream is a `Server.Connection` object. It holds the text the client sends, how far the server has read, and what the server has written.
- The directory the files route serves is the `files` map of a `Routes.Router` object.

Files:

| file | module | models |
|---|---|---|
| wrappers.dfy | `Wrappers`, `Errors` | `Option`/`Result`; the error messages and panics |
| text.dfy | `Text` | `str::split`, join, decimal formatting, `usize` parsing, hex, `StringBuffer` |
| methods.dfy | `Methods` | rust/src/method.rs |
| versions.dfy | `Versions` | rust/src/version.rs |
| status_codes.dfy | `StatusCodes` | rust/src/status_code.rs |
| request_uri.dfy | `RequestUris` | rust/src/request_uri.rs |
| start_line.dfy | `StartLines` | rust/src/start_line.rs |
| message.dfy | `Messages` | rust/src/message.rs |
| router.dfy | `Routes` | rust/src/cmd/main.rs (the router) |
| server.dfy | `Server` | rust/src/server.rs (`handleConnection`, `handleRequest`) |

Decoding follows the code, not the framing it suggests:

- The header loop ends at the first empty fragment and consumes it.
- The "header section ended unexpectedly" check then consumes the next fragment.
- So the body is the fragment two places after the empty line. A body written right after the empty line is lost (`Messages.DecodeDropsBody`).
- A text that ends in an empty line decodes without a body only when that empty line is the first one after the start line (`Messages.HeaderBlockHasNoBody`). With one more empty line the body is `Some("")` (`Messages.DecodeExtraBlankLine`).

The encoder writes the headers in the `HashMap`'s iteration order. The model leaves that order open: `Encode` returns a ghost `order`, which lists each key exactly once (`IsKeyOrder`), and the text written is `Encoding(m, order)`.

## Model

| member | source | states |
|---|---|---|
| Text.Split | rust/src/message.rs:66 | `str::split` always yields at least one fragment |
| Text.JoinSplit | rust/src/message.rs:66 | joining the fragments of a split with the separator gives back the text |
| Text.SplitJoin | rust/src/message.rs:66 | splitting a join of separator-free parts gives back the parts, for a separator that cannot overlap itself |
| Text.SplitFirst | rust/src/message.rs:66 | the first fragment of `x + sep + y` is `x` when `x` holds no separator; the rest are the fragments of `y` |
| Text.SplitWhole | rust/src/message.rs:66 | a text without the separator is its own single fragment |
| Text.SplitAppendSep | rust/src/message.rs:66 | a trailing separator adds one empty fragment |
| Text.SplitFree | rust/src/message.rs:66 | no fragment of a split contains the separator |
| Text.SplitSingle | rust/src/message.rs:77-85 | a split has one fragment exactly when the text holds no separator |
| Text.SplitAtOccurrence | rust/src/message.rs:77-85 | a text holding the separator splits into at least two fragments |
| Text.SplitFirstIsPrefix | rust/src/start_line.rs:44-50 | the first fragment is a prefix of the text |
| Text.FreeWithout | rust/src/server.rs:138 | a text missing one character of the separator holds no separator |
| Text.FreeConcat | rust/src/message.rs:54 | gluing two separator-free texts with characters foreign to the separator keeps them separator-free |
| Text.CrlfBorderFree | rust/src/message.rs:11 | CR LF cannot overlap itself |
| Text.Decimal | rust/src/message.rs:112 | `usize::to_string` yields at least one digit, all digits, with no leading zero |
| Text.DigitsValueDecimal | rust/src/message.rs:112 | the digits of the decimal text of `n` have the value `n` |
| Text.ParseUsize | rust/src/server.rs:112 | `usize::from_str`: an optional `+` and decimal digits; what it yields never exceeds the 64-bit `usize` maximum (`ParseDecimal` reads printed lengths back) |
| Text.ParseDecimal | rust/src/server.rs:112 | `usize` parsing reads back the decimal text of any `usize` |
| Text.Hex | rust/src/server.rs:151 | hex text has two characters per byte |
| Text.UnHexHex | rust/src/server.rs:151 | hex decoding inverts hex encoding |
| Text.StringBuffer.PushStr | rust/src/message.rs:48 | `push_str` appends its argument and nothing else |
| Methods.Token | rust/src/method.rs:3-14 | the `AsRefStr` name of each variant; `TokenShape`, `TokensDistinct` and `ParseToken` state its properties |
| Methods.Parse | rust/src/method.rs:3-14 | the `EnumString` parse, an exact match on the nine names; `ParseExact` and `ParseToken` state it |
| Methods.NineMethods | rust/src/method.rs:3-14 | there are exactly nine methods, each listed once |
| Methods.ParseToken | rust/src/method.rs:3-14 | parsing a method's token gives the method back, UNKNOWN included |
| Methods.ParseExact | rust/src/method.rs:3 | parsing succeeds with `m` exactly on `m`'s token (case-sensitive) |
| Methods.TokensDistinct | rust/src/method.rs:4-14 | distinct methods have distinct tokens |
| Methods.ParseRejects | rust/src/method.rs:3 | `get` and `PATCH` are not methods |
| Methods.TokenShape | rust/src/method.rs:4-14 | a method token is non-empty and free of spaces and line breaks |
| Versions.Token | rust/src/version.rs:3-8 | the serialisation `HTTP/1.1` of the single version; `TokenShape` states its shape |
| Versions.Parse | rust/src/version.rs:3-8 | accepts only `HTTP/1.1`; `ParseExact` and `ParseToken` state it |
| Versions.ParseToken | rust/src/version.rs:3-8 | parsing the version's token gives it back |
| Versions.ParseExact | rust/src/version.rs:3-8 | only `HTTP/1.1` parses; `HTTP/1.0` does not |
| Versions.DefaultIsOne | rust/src/version.rs:3-6 | the single version is the default and its token is `HTTP/1.1` |
| Versions.TokenShape | rust/src/version.rs:6 | the version token is non-empty and free of spaces and line breaks |
| StatusCodes.Code | rust/src/status_code.rs:3-59 | the discriminant of each status, written by `as u16`; `CodeInClass` and `CodeInjective` state its properties |
| StatusCodes.FromCode | rust/src/status_code.rs:3-59 | the status with a given discriminant, if any; `FromCodeExact` states it inverts `Code` |
| StatusCodes.ReasonPhrase | rust/src/status_code.rs:61-105 | `getReasonPhrase`; `ReasonPhraseShape` and `ReasonPhraseExamples` state its properties |
| StatusCodes.FromCodeExact | rust/src/status_code.rs:3-59 | a number names status `s` exactly when it is `s`'s discriminant |
| StatusCodes.FromCodeCode | rust/src/status_code.rs:3-59 | every status is found again from its discriminant |
| StatusCodes.FromCodeSound | rust/src/status_code.rs:3-59 | a number that names a status is that status's discriminant |
| StatusCodes.CodeInjective | rust/src/status_code.rs:3-59 | discriminants are pairwise distinct |
| StatusCodes.CodeInClass | rust/src/status_code.rs:4-58 | every code lies in 100..505 and its first digit is its group's class |
| StatusCodes.DefaultIsOK | rust/src/status_code.rs:11-12 | the default status is OK, code 200, phrase `OK` |
| StatusCodes.ReasonPhraseShape | rust/src/status_code.rs:62-105 | every reason phrase is non-empty, printable and free of CR and LF |
| StatusCodes.ReasonPhraseExamples | rust/src/status_code.rs:84-85 | 404 is `Not Found` and 405 is `Method Not Allowed` |
| RequestUris.IsAbsoluteUri | rust/src/request_uri.rs:55-57 | a URI starting with `http://` or `https://` |
| RequestUris.FromStr | rust/src/request_uri.rs:44-52 | classifies a request-line token; `FromStrCases` and `FromStrWellFormed` state how |
| RequestUris.ToStr | rust/src/request_uri.rs:59-67 | the text of a URI; `ToStrFromStr` and `FromStrToStr` state it inverts `FromStr` |
| RequestUris.ToStrFromStr | rust/src/request_uri.rs:44-66 | classification keeps the token's text |
| RequestUris.FromStrCases | rust/src/request_uri.rs:44-57 | `*` is Asterisk; `http://` or `https://` text is an absolute URI; all else, the empty text included, is a path |
| RequestUris.FromStrWellFormed | rust/src/request_uri.rs:44-51 | classification is total and always well formed |
| RequestUris.FromStrToStr | rust/src/request_uri.rs:44-66 | re-classifying a URI's text gives it back exactly when it is well formed |
| StartLines.DefaultRequestLine | rust/src/start_line.rs:11-28 | a request line built with only a method: URI `/` and HTTP/1.1 |
| StartLines.RequestLineText | rust/src/start_line.rs:31-41 | the text `EncodeRequestLine` writes; `RequestLineWords` and `RequestLineRoundTrip` state its properties |
| StartLines.StatusLineText | rust/src/start_line.rs:87-97 | the text `EncodeStatusLine` writes; `StatusLineShape` states its shape |
| StartLines.DecodeRequestLine | rust/src/start_line.rs:43-69 | the request-line decoder; `DecodeRequestLineOk`, `RequestLineRoundTrip` and the `Decode*` lemmas state its outcomes |
| StartLines.EncodeRequestLine | rust/src/start_line.rs:31-41 | appends method token, space, URI text, space, version token |
| StartLines.EncodeStatusLine | rust/src/start_line.rs:87-97 | appends version token, space, decimal code, space, reason phrase |
| StartLines.EncodeStartLine | rust/src/message.rs:47 | appends the text of whichever start line the message carries |
| StartLines.SplitWords | rust/src/start_line.rs:44 | splitting space-free words joined by single spaces gives the words back |
| StartLines.RequestLineWords | rust/src/start_line.rs:31-41 | a request line's text is its three tokens joined by single spaces |
| StartLines.RequestLineRoundTrip | rust/src/start_line.rs:31-69 | decoding an encoded request line gives it back when the URI is well formed and space-free |
| StartLines.DecodeRequestLineOk | rust/src/start_line.rs:43-69 | decoding yields `rl` exactly when there are three or more tokens, the first parses to the method, the second classifies to the URI and the third is the version |
| StartLines.DecodeIgnoresExtraTokens | rust/src/start_line.rs:58-68 | tokens after the third are ignored: a request line followed by a space and any text decodes to that request line |
| StartLines.DecodeMissingTokens | rust/src/start_line.rs:52-62 | after a token that names a method, a line of one token fails with "request URI not found" and a line of two with "protocol version not found" |
| StartLines.DecodeMissingTokensExamples | rust/src/start_line.rs:52-62 | `GET` lacks its URI and `GET /` its version |
| StartLines.DecodeUnknownMethod | rust/src/start_line.rs:46-50 | a first word that is no method (such as `PATCH`) fails with "Unknown method", alone or whatever follows it |
| StartLines.DecodeDoubledSpace | rust/src/start_line.rs:44-62 | in `GET  / HTTP/1.1` the doubled space yields an empty URI token, `/` lands in the version slot and the version check fails |
| StartLines.DecodeEmptyUri | rust/src/start_line.rs:44-68 | with nothing between the two spaces of `GET  HTTP/1.1` the URI is the empty path and the line decodes |
| StartLines.DecodeOtherVersion | rust/src/start_line.rs:58-62 | `HTTP/1.0` fails as an unsupported version |
| StartLines.DefaultStatusLineText | rust/src/start_line.rs:73-97 | the default status line reads `HTTP/1.1 200 OK` |
| StartLines.StatusLineShape | rust/src/start_line.rs:87-97 | a status line is `HTTP/1.1`, a three-digit code and the phrase, separated by single spaces |
| StartLines.StatusLineNeverDecodes | rust/src/start_line.rs:99-101 | decoding a status line always fails |
| StartLines.StartLineFree | rust/src/message.rs:45-48 | a start line holds no CR LF when its URI holds none |
| Messages.HeaderLines | rust/src/message.rs:50-54 | the header lines in a given key order; `HeaderLinesSnoc` and `DecodeHeaderLines` state their properties |
| Messages.Encoding | rust/src/message.rs:45-63 | the whole text `Encode` writes for a key order; `RequestRoundTrip`, `EncodingFragments` and `DefaultResponseEncoding` state its properties |
| Messages.HeaderLinesSnoc | rust/src/message.rs:50-54 | writing one more header appends `key: value` CR LF |
| Messages.EncodeHeaders | rust/src/message.rs:50-54 | writes `key: value` CR LF once per key, in an order that lists each key exactly once |
| Messages.HttpMessage.Encode | rust/src/message.rs:45-63 | appends start line, CR LF, the header lines, CR LF and the body (nothing for no body) |
| Messages.Decode | rust/src/message.rs:65-101 | the fragment-walking loop computes `Decoded` |
| Messages.Decoded | rust/src/message.rs:65-101 | only request lines decode, so a decoded message always carries one |
| Messages.HttpMessage.constructor | rust/src/message.rs:17-29 | a message object holds the given start line, headers and body |
| Messages.HttpMessage.SetBody | rust/src/message.rs:108-117 | sets the body and overwrites `Content-Type` and `Content-Length` |
| Messages.HttpMessage.SetStatusCode | rust/src/message.rs:121-123 | replaces the status code |
| Messages.NoHeadersNoOrder | rust/src/message.rs:51-54 | a map without keys is written with no header lines |
| Messages.DefaultResponseEncoding | rust/src/message.rs:143-152 | the default response encodes to `HTTP/1.1 200 OK` CR LF CR LF |
| Messages.DecodeDefaultRequest | rust/src/message.rs:131-140 | `GET / HTTP/1.1` CR LF CR LF decodes to GET `/` HTTP/1.1 with no headers and no body |
| Messages.DecodeHeaderLine | rust/src/message.rs:77-85 | one header fragment split on `": "`; `HeaderLineFails`, `HeaderLineSound` and `HeaderLineComplete` state its outcomes |
| Messages.DecodeHeaders | rust/src/message.rs:76-88 | the header loop; `DecodeHeadersOutcome` and `DecodeHeaderLines` state its outcomes |
| Messages.HeaderLineFails | rust/src/message.rs:77-85 | a header fragment fails, with "header value not found", exactly when it holds no `": "` |
| Messages.HeaderLineSound | rust/src/message.rs:77-85 | a decoded key and value hold no `": "`; the fragment is `key: value`, or that followed by a separator and dropped text |
| Messages.HeaderLineComplete | rust/src/message.rs:77-85 | a separator-free key and value, followed by nothing or by a separator, decode to that key and value |
| Messages.HeaderLineCarried | rust/src/message.rs:54 | a written header line is non-empty, has no CR LF and decodes back to its key and value |
| Messages.Assigned | rust/src/message.rs:87 | inserting the keys of an order from a map gives every listed key the map's value and keeps the others |
| Messages.AssignedAll | rust/src/message.rs:87 | inserting every key of a map from that map rebuilds the map |
| Messages.DecodeHeaderLines | rust/src/message.rs:76-88 | the header loop reads back exactly the written header lines, stops at the empty line and leaves what follows |
| Messages.EncodingFragments | rust/src/message.rs:45-101 | an encoded message splits into its start line, then its own headers, then its body text |
| Messages.RequestRoundTrip | rust/src/message.rs:45-101 | decoding an encoded request gives it back with no body (unchanged when it had none), given a well-formed space-free URI and keys/values without `": "` or CR LF |
| Messages.DecodeDropsBody | rust/src/message.rs:89-94 | a body right after the empty line is consumed by the end check and lost |
| Messages.TwoHeaderFragments | rust/src/message.rs:66 | the fragments of a start line, two header lines and an empty line |
| Messages.RepeatedKeyHeaders | rust/src/message.rs:76-88 | of two equal keys the later value wins, and text after a second `": "` is dropped |
| Messages.DecodeRepeatedKey | rust/src/message.rs:76-88 | for a whole request with two adjacent headers of the same key, the key keeps the second value, cut at the next `": "` |
| Messages.FirstBlank | rust/src/message.rs:76 | finds the first empty fragment at or after a position |
| Messages.DecodeHeadersOutcome | rust/src/message.rs:76-88 | the header loop succeeds exactly when every fragment before the first empty one holds `": "`, and then leaves the fragments after it |
| Messages.Keyed | rust/src/message.rs:77-87 | a fragment is a header line naming a given key |
| Messages.DecodeHeadersLastWins | rust/src/message.rs:76-88 | on success of the header loop: every fragment before the first empty one is a header line; a key is present exactly when it was before or one of those lines names it; it holds the value of the last line naming it, or its earlier value when none does |
| Messages.DecodeHeadersStep | rust/src/message.rs:76-87 | a header line inserts its key and value and the loop goes on from the next fragment, with the same first empty fragment |
| Messages.DecodeHeadersKey | rust/src/message.rs:76-88 | a key is present after the loop exactly when it was before or a line names it |
| Messages.DecodeHeadersKept | rust/src/message.rs:76-88 | a key no line names keeps its earlier value |
| Messages.DecodeHeadersParsed | rust/src/message.rs:76-88 | a successful loop passed only header lines before the first empty fragment |
| Messages.DecodeHeadersLast | rust/src/message.rs:76-88 | a key takes the value of the last line that names it |
| Messages.DecodeOutcome | rust/src/message.rs:65-101 | decoding succeeds exactly when the start line decodes, every header has `": "` and a fragment follows the ending empty one; each failure gives its own error; the body is the fragment two after the empty one |
| Messages.FirstBlankAt | rust/src/message.rs:76 | the first empty fragment is the one before which all are non-empty |
| Messages.HeaderBlockHasNoBody | rust/src/message.rs:89-94 | a text whose first empty line ends it decodes with no body |
| Messages.ExtraBlankLineFragments | rust/src/message.rs:66 | a start line and three CR LF split into the line and three empty fragments |
| Messages.DecodeExtraBlankLine | rust/src/message.rs:89-94 | one more empty line decodes as the body `Some("")` |
| Messages.WithBody | rust/src/message.rs:108-117 | the value `setBody` leaves; `SetBodyFrame`, `SetBodyContentLength` and `SetBodyTwice` state its properties |
| Messages.WithStatusCode | rust/src/message.rs:121-123 | the value `setStatusCode` leaves; `SetStatusCodeFrame` states it |
| Messages.SetBodyFrame | rust/src/message.rs:108-117 | `setBody` sets the body, `text/plain` and the decimal length, and keeps the start line and every other header |
| Messages.SetBodyContentLength | rust/src/message.rs:112-116 | the `Content-Length` written reads back as the body's length |
| Messages.SetBodyTwice | rust/src/message.rs:108-117 | setting two bodies in turn is setting the second |
| Messages.SetStatusCodeFrame | rust/src/message.rs:121-123 | `setStatusCode` changes the code and nothing else |
| Routes.RouteOf | rust/src/cmd/main.rs:49-68 | which arm of the router's `match` a path takes, in source order; `RouteExamples` and `NonPathNotFound` state its boundaries |
| Routes.EchoResponse | rust/src/cmd/main.rs:72-82 | the echo handler's response; `EchoResponseShape` states it |
| Routes.UserAgentResponse | rust/src/cmd/main.rs:84-92 | the user-agent handler's response, or the failure its `unwrap` stands for; `UserAgentResponseShape` states it |
| Routes.FilesResponse | rust/src/cmd/main.rs:94-132 | the files handler's response and the directory afterwards; `FilesGet`, `FilesPost` and `FilesOtherMethod` state it |
| Routes.StatusResponse | rust/src/cmd/main.rs:61-67 | a response built with only a status code has version HTTP/1.1, no headers and no body |
| Routes.Routed | rust/src/cmd/main.rs:48-69 | routing always yields a response, except on the user-agent path without a `User-Agent` header |
| Routes.Router.constructor | rust/src/cmd/main.rs:42-45 | the router serves the given directory |
| Routes.Router.Handle | rust/src/cmd/main.rs:48-69 | dispatches as `Routed` does, returning a new response object and the directory afterwards |
| Routes.Router.FilesHandler | rust/src/cmd/main.rs:94-132 | builds the files response and updates the directory as `FilesResponse` does |
| Routes.EchoHandler | rust/src/cmd/main.rs:72-82 | builds the echo response of the path |
| Routes.UserAgentHandler | rust/src/cmd/main.rs:84-92 | builds the user-agent response, or fails without the header |
| Routes.NonPathNotFound | rust/src/cmd/main.rs:49-68 | `*` and absolute URIs reach no handler |
| Routes.RouteExamples | rust/src/cmd/main.rs:49-68 | dispatch order and boundaries: prefixes need their trailing slash, and `/user-agent` must match exactly |
| Routes.EchoResponseShape | rust/src/cmd/main.rs:72-82 | echo answers 200 with the rest of the path as body, plus `text/plain` and its length; the path is the prefix followed by the body |
| Routes.UserAgentResponseShape | rust/src/cmd/main.rs:84-92 | user-agent succeeds exactly when the header is present, with its value as a plain-text body |
| Routes.FilesGet | rust/src/cmd/main.rs:104-114 | a GET of a stored file answers 200 with its contents, `application/octet-stream` and the length; a GET of anything else answers 404; the directory is unchanged |
| Routes.FilesPost | rust/src/cmd/main.rs:116-126 | a POST stores the body (or the empty text) under the name, keeps the other files and answers 201 |
| Routes.FilesOtherMethod | rust/src/cmd/main.rs:128 | any other method answers 405 and changes nothing |
| Routes.RoutedDirectoryFrame | rust/src/cmd/main.rs:48-132 | only a POST on the files route changes the directory |
| Routes.RootResponse | rust/src/cmd/main.rs:57-59 | `/` answers 200 with no headers and no body |
| Routes.UnmatchedNotFound | rust/src/cmd/main.rs:61-67 | an unmatched path answers 404 with no headers and no body |
| Server.LineEnd | rust/src/server.rs:102 | a line runs to just after the next line feed, or to the end of the input |
| Server.HeaderEnd | rust/src/server.rs:101-106 | finds the first point at which the text read ends in an empty line, or reports that there is none |
| Server.BlankTextAt | rust/src/server.rs:103 | the suffix test on the text read is the test at its end position in the input |
| Server.NoBlankInsideLine | rust/src/server.rs:101-106 | the text read cannot end in an empty line strictly inside a line |
| Server.HeaderEndSkip | rust/src/server.rs:101-106 | skipping positions where no empty line ends does not move the first one |
| Server.ReceivedRequest | rust/src/server.rs:100-119 | a received request is a decoded request line, read no further than the input |
| Server.Connection.constructor | rust/src/server.rs:95-98 | a new connection has read and written nothing |
| Server.Connection.ReadLine | rust/src/server.rs:102 | reads up to and including the next line feed; at the end of the input it reads nothing |
| Server.Connection.ReadHeaderSection | rust/src/server.rs:100-106 | reads lines until the text read first ends in an empty line and returns that text; the end of the input first is an error |
| Server.Connection.ReadRequest | rust/src/server.rs:100-119 | reads, decodes and reads the announced body exactly as `ReceivedRequest` says, and stops reading where it says |
| Server.Connection.ReadExact | rust/src/server.rs:114-115 | reads exactly `n` characters, or fails when fewer are left |
| Server.Connection.WriteAll | rust/src/server.rs:126 | appends to what was written and reads nothing |
| Server.AcceptsGzip | rust/src/server.rs:137-142 | `Accept-Encoding` is present and one of its `", "`-separated entries is exactly `gzip` |
| Server.Negotiated | rust/src/server.rs:136-160 | the response after negotiation; `GzipNegotiated`, `NoGzipNotNegotiated`, `NoBodyNotNegotiated` and `NegotiationKeepsStatus` state it |
| Server.Answer | rust/src/server.rs:130-160 | the routed, then negotiated, response and the directory afterwards; `HandleRequest` and `HandleConnection` are proved against it |
| Server.Negotiate | rust/src/server.rs:136-160 | the loop over the accepted encodings computes `Negotiated` |
| Server.HandleRequest | rust/src/server.rs:130-165 | returns the encoding of the negotiated router response, or the router's failure |
| Server.HandleConnection | rust/src/server.rs:95-128 | a failure writes nothing; otherwise the received request is consumed up to the end of its body and exactly the encoding of the negotiated response to it is written |
| Server.NoBodyNotNegotiated | rust/src/server.rs:136 | a response without a body passes through negotiation unchanged |
| Server.NoGzipNotNegotiated | rust/src/server.rs:137-158 | without `Accept-Encoding`, or without an exact `gzip` entry, the response is unchanged |
| Server.GzipNegotiated | rust/src/server.rs:142-153 | on a `gzip` entry the response gets `Content-Encoding: gzip` and the hex of the compressed body, `text/plain` and twice the compressed length; the status line and other headers are kept |
| Server.NegotiationKeepsStatus | rust/src/server.rs:134-160 | negotiation never touches the status line |
| Server.QualityValueNotGzip | rust/src/server.rs:138-142 | `gzip;q=1` does not match |
| Server.UnspacedListNotGzip | rust/src/server.rs:138-142 | `deflate,gzip` does not match |
| Server.SecondEntryGzip | rust/src/server.rs:138-142 | `identity, gzip` matches |
| Server.NoContentLengthKeepsBody | rust/src/server.rs:111 | without `Content-Length` the request is exactly as decoded |
| Server.ContentLengthBody | rust/src/server.rs:111-118 | with `Content-Length` the body is exactly that many characters after the header section |
| Server.ReceiveFailures | rust/src/server.rs:100-118 | a header section that never ends, a decode failure, a non-numeric length or a short body each fail with their own error |

## Left out

- The TCP listener, the accept loop, `tokio::spawn` and the join handles (rust/src/server.rs:33-77) are not modelled. One connection is modelled as the text the client sends and the text the server writes.
- Server.Connection.ReadHeaderSection: at the end of the input the source calls `read_line` forever, because nothing more is appended. The model returns a `StreamEnded` error instead of diverging.
- Server.Connection.ReadExact: after a short read, how much of the stream was consumed is not modelled. The source panics there, and the model returns `BodyTruncated`.
- The input is characters, not bytes: a byte length is the character count, and `String::from_utf8_lossy` is the identity. This is exact for ASCII input.
- `flate2` gzip is a function parameter from the body text to bytes. Hex encoding is modelled concretely, in lowercase.
- Panics (`unimplemented!()` in status-line decoding, and `unwrap` on a missing `User-Agent`, a non-numeric `Content-Length`, or a short body) become `Err` results. Like the source's failed task, they write nothing.
- The "start-line section not found", "method not found" and "header key not found" errors cannot happen, because a split always yields a first fragment. They have no counterpart in the model.
- `write!` into a `String` cannot fail, so the model's encoders do not return a `Result`.
- The files route uses the file name after `/files/` directly as a key of the directory map. `Path::join`, directories, permissions and I/O errors are not modelled. A failed read is a missing key; a failed write cannot happen.
- The router is the example application's concrete router. The `HTTPRouter` trait (rust/src/router.rs) is not modelled as an abstraction.
- `println!`/`eprintln!` logging, clap argument parsing and `#[tokio::main]` are not modelled.
- Lifetimes and `.leak()` are not modelled: all values are owned.
- `HashMap` iteration order is not modelled. The encoder's ghost `order` stands for it.
- `utils::ToStr` is not part of this model beyond `to_str` of a Request-URI.
