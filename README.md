# moowee back-end core, modelled in Dafny

The moowee back-end lets a small group watch one video file together. This
project models its core in Dafny and proves properties of that model. The core has four parts:

- **The relay hub** (`server.js`, the `connection` handler of the real-time
  server). A connection authenticates with an optional token and joins rooms. The
  host or an admin may send play/pause/seek; chat and WebRTC signalling payloads are relayed to the
  other members. On leaving, the other members get the new head count and a
  `user-left` notice. It is modelled as the class `Hub.RelayHub`, with a
  method per handler and an outbox of emits. Each emit is a `Delivery`: the
  set of receiving sockets and the event. Connection and room state must stay
  consistent, and `Hub.Consistent` is that invariant.
- **The media endpoint** `GET /api/stream/:id`
  (`controller/routes/streamRoutes.js`). It sets permissive CORS headers, then
  runs its checks in order: id format, movie record, file path, file on disk. It then
  answers with the whole file, or with a byte range parsed from the `Range`
  header. It is modelled as the pure function `Stream.Serve` from the
  handler's inputs to a response descriptor: status, header fields, and body.
- **The upload rules** (`middleware/upload.js`): the stored file name, the
  media-type filter and the 2 GiB size cap. These are in module `Upload`.
- **The bearer-token gate** (`middleware/auth.js`), modelled as
  `Auth.Decide` and as the class `Auth.Exchange`. The class holds the request
  fields the middleware writes, the reply it sends and its calls to `next`.
  The same token decoding on socket handshakes is `Auth.SocketIdentity`.

The JavaScript the core relies on is modelled explicitly. That means `trim`,
`slice`, `split`, `indexOf`, first-match `replace` (module `JsText`),
`parseInt(s, 10)` and the rendering of integers (`JsNumber`), and truthiness,
`||` and `String(v)` (`JsValues`).

Everything outside the process becomes an input of the step that uses it:
- the token verifier, `jwt.verify` with the server secret;
- the result of `Room.findById` or `Movie.findById`;
- `ObjectId.isValid`;
- what is on disk at the resolved path;
- the clock, for upload names.

One behaviour of a library the core calls is modelled as part of the core:
the argument check `fs.createReadStream` makes on `{ start, end }`
(`Stream.StreamAccepts`). Both bounds must be integers from 0 to
`Number.MAX_SAFE_INTEGER` (2^53 - 1) with `start <= end`, otherwise the call
throws.

Three behaviours of the code depart from usual HTTP range handling (RFC 9110).
This model follows the code:
- A malformed or unsatisfiable `Range` header is not treated as "no range".
  Bounds that `fs.createReadStream` refuses make it throw, so the answer is 500
  "Server error" (`Stream.UnsatisfiableRangeFails`, `Stream.RefusedRangeFails`).
  A syntactically odd header that still parses to acceptable bounds gets a 206.
  No 416 is ever sent.
- The whole-file answer declares no `Accept-Ranges`; only partial answers do
  (`Stream.FullHeaderFields`).
- The end of a range is never compared with the file size. An end past the last
  byte declares a `Content-Length` larger than what the stream delivers
  (`Stream.EndPastFileOverstatesLength`).

## Model

| member | source | states |
|---|---|---|
| JsText.TrimStartShape | server.js:107 | the white space `trim` skips at the front is exactly the leading run: what is kept is a suffix and starts with a non-white-space unit |
| JsText.TrimEnd | server.js:107 | keeps a prefix, drops only white space after it, and ends in a non-white-space unit |
| JsText.Trim | server.js:107 | the result is no longer than the input and has no white space at either end |
| JsText.TrimIsInnerSlice | server.js:107 | `trim` returns one contiguous slice of its input with only white space on either side |
| JsText.TrimEmptyIff | server.js:107-108 | `trim` gives the empty string exactly when the input is all white space |
| JsText.TrimOfTrimmed | server.js:107 | text with no white space at either end is its own trim |
| JsText.Take | server.js:107 | `slice(0, n)` is the first n code units, or the whole string when it is shorter |
| JsText.Split | controller/routes/streamRoutes.js:37 | `split` yields at least one field and no field contains the separator |
| JsText.JoinSplit | controller/routes/streamRoutes.js:37 | joining the fields of a split with the separator restores the input |
| JsText.SplitJoin | middleware/auth.js:7 | separator-free fields survive a join followed by a split |
| JsText.SplitWithoutSep | middleware/auth.js:7 | a string without the separator is a single field |
| JsText.SplitAtFirst | controller/routes/streamRoutes.js:37 | the first field ends at the first separator and the rest is split on its own |
| JsText.SplitPrefixField | controller/routes/streamRoutes.js:37 | a separator-free prefix extends the first field and leaves the later fields alone |
| JsText.IndexOf | controller/routes/streamRoutes.js:37 | the result is the leftmost occurrence of the pattern, or -1 when there is none |
| JsText.ReplaceFirst | controller/routes/streamRoutes.js:37 | a pattern occurring at the front is what gets replaced |
| JsText.ReplaceFirstSpec | controller/routes/streamRoutes.js:37 | a string without the pattern is left alone; otherwise exactly the leftmost occurrence is replaced, wherever it is |
| JsNumber.Decimal | controller/routes/streamRoutes.js:45 | the rendering of a natural number is a non-empty digit string with no leading zero |
| JsNumber.DecimalValue | controller/routes/streamRoutes.js:45 | the value of the rendered digits is the number |
| JsNumber.DigitsValue | controller/routes/streamRoutes.js:38-39 | the value of a digit string is never negative |
| JsNumber.ParseInt | controller/routes/streamRoutes.js:38-39 | text without a minus sign parses to NaN or to a non-negative integer |
| JsNumber.NumToString | controller/routes/streamRoutes.js:45 | the rendering is never empty and starts with a minus sign exactly when the number is a negative integer |
| JsNumber.LeadingDigitsShape | controller/routes/streamRoutes.js:38-39 | `parseInt` reads the longest run of digits at the front |
| JsNumber.ParseIntDecimalPrefix | controller/routes/streamRoutes.js:38-39 | a numeral followed by a non-digit parses to its value: `parseInt` stops at the first non-digit |
| JsNumber.ParseIntRoundTrip | controller/routes/streamRoutes.js:38-45 | `parseInt(String(i), 10)` is `i` for every integer |
| JsNumber.ParseNegativeNumeral | controller/routes/streamRoutes.js:38 | a minus sign before a numeral parses to the negated value |
| JsNumber.ParseIntNoDigits | controller/routes/streamRoutes.js:38 | text that starts with no space, sign or digit parses to NaN |
| JsValues.Truthy | server.js:53 | the falsy values are exactly undefined, null, false, NaN, 0 and the empty string |
| JsValues.ToString | server.js:82 | `String(v)` is empty exactly for the empty string, and a string renders as itself |
| JsValues.Or | server.js:107 | the JavaScript "or" of `v` and `d` is `v` when `v` is truthy and `d` otherwise |
| JsValues.ToStringOrEmpty | server.js:107 | rendering `v`, with the empty string standing in for a falsy `v`, gives the empty text exactly when `v` is falsy, and otherwise the rendering of `v` |
| Auth.IdentityOf | middleware/auth.js:11-12 | the identity carries the decoded id; `isAdmin` is `!!isAdmin`: set exactly when the claim is not undefined, null, false, NaN, 0 or the empty string |
| Auth.BearerToken | middleware/auth.js:7-8 | a token that is found is non-empty and contains no space |
| Auth.BearerTokenOf | middleware/auth.js:7 | whatever the first word, the second space-separated field is the token |
| Auth.BearerTokenShape | middleware/auth.js:7 | conversely, a found token is always the second field, right after the first space |
| Auth.NoSpaceNoToken | middleware/auth.js:7-8 | a header without a space carries no token |
| Auth.DoubleSpaceNoToken | middleware/auth.js:7-8 | two spaces after the first word leave an empty second field, which is no token |
| Auth.Decide | middleware/auth.js:5-17 | every refusal is a 401, and a missing header is refused with "Unauthorized" |
| Auth.ProceedsOnlyWithToken | middleware/auth.js:7-13 | a request proceeds only if its second field is a token the verifier accepts, and then with that token's identity |
| Auth.AcceptedTokenProceeds | middleware/auth.js:10-13 | a token the verifier accepts lets the request through with the decoded id and `!!isAdmin` |
| Auth.RefusedTokenRejected | middleware/auth.js:7-16 | a token the verifier refuses gets 401 "Invalid or expired token", whatever fields follow it |
| Auth.NoTokenUnauthorized | middleware/auth.js:7-8 | a header that yields no token is refused with 401 "Unauthorized" whatever the verifier would say |
| Auth.SocketIdentity | server.js:52-61 | a falsy handshake token leaves the connection anonymous |
| Auth.SocketAndRequestAgree | server.js:52-61 | the handshake decodes a token like the HTTP gate does; where the gate refuses, the connection stays anonymous instead of being closed |
| Auth.Exchange.constructor | middleware/auth.js:5 | a request starts with no user fields, no reply and no `next` call |
| Auth.Exchange.Authenticate | middleware/auth.js:5-17 | a refusal sends the 401 reply and leaves `userId`, `isAdmin` and `next` alone; acceptance sets both fields from the token and calls `next` once without replying |
| Upload.SanitizeName | middleware/upload.js:11 | every code unit outside the allowed set becomes `_`, one for one, and the others are kept |
| Upload.SanitizedIsSafe | middleware/upload.js:11 | a sanitised name holds only allowed characters, so no path separator |
| Upload.SanitizeFixedPoint | middleware/upload.js:11 | the sanitiser leaves a name unchanged exactly when it is already all allowed |
| Upload.SanitizeIdempotent | middleware/upload.js:11 | sanitising twice is sanitising once |
| Upload.StoredName | middleware/upload.js:10-13 | a stored name holds only allowed characters |
| Upload.StoredNameParts | middleware/upload.js:11 | the stored name splits back into the upload time (read by `parseInt`), a `-`, and the sanitised original name |
| Upload.FileFilter | middleware/upload.js:16-20 | a file is accepted exactly when its media type is one of the four allowed; otherwise it is refused with "Invalid file type" |
| Upload.FilterExamples | middleware/upload.js:17-19 | matching is exact: a different case or a parameter suffix is refused |
| Upload.WithinSizeLimit | middleware/upload.js:22 | a file is within the cap exactly when it has at most 2^31 bytes, the boundary taken as inclusive |
| Upload.SizeLimitValue | middleware/upload.js:22 | the cap is 2 * 1024 * 1024 * 1024 = 2147483648 bytes; a file of exactly that size is taken to be within it |
| Stream.RangeFields | controller/routes/streamRoutes.js:37 | the unit-stripped `Range` header splits into at least one field |
| Stream.ParseRange | controller/routes/streamRoutes.js:37-39 | a numeric start is never negative, and a numeric end is never below -1, the end given for an empty file |
| Stream.StreamAccepts | controller/routes/streamRoutes.js:41-42 | bounds the stream accepts have a numeric chunk size of at least one byte and at most 2^53 |
| Stream.ChunkSize | controller/routes/streamRoutes.js:41 | the chunk size is a number exactly when both bounds are, and at least one exactly when the start is not after the end |
| Stream.PartialHeaders | controller/routes/streamRoutes.js:44-50 | a 206 answer carries the cross-origin fields and exactly the four range fields besides them |
| Stream.FullHeaders | controller/routes/streamRoutes.js:54-58 | a 200 answer carries the cross-origin fields, the length and the media type, and nothing else |
| Stream.FieldValue.Wire | controller/routes/streamRoutes.js:45-47 | only an empty text field renders empty, and a span renders with the `bytes ` unit in front |
| Stream.ReadSpan | controller/routes/streamRoutes.js:42 | the stream delivers the inclusive span, cut short at the end of the file, and nothing for a start past the end |
| Stream.Serve | controller/routes/streamRoutes.js:9-66 | every answer carries the CORS fields and has status 200, 206, 400, 404 or 500; it has a byte body exactly when it is 200 or 206 |
| Stream.ValidationOrder | controller/routes/streamRoutes.js:16-31 | a bad id is refused with 400 before any lookup; a failing lookup is 500; a missing record, path or file each get their own 404 |
| Stream.StripUnit | controller/routes/streamRoutes.js:37 | a leading `bytes=` unit is removed and nothing else |
| Stream.NumeralThenTail | controller/routes/streamRoutes.js:37 | after the unit, the first field is the start numeral and the remaining fields come from the text after its dash |
| Stream.ParseNumeral | controller/routes/streamRoutes.js:38-39 | a bound's numeral parses to its value |
| Stream.RangeOfNumerals | controller/routes/streamRoutes.js:37-39 | `bytes=S-E` parses to the bounds `S` and `E` |
| Stream.RangeOpenEnded | controller/routes/streamRoutes.js:39 | `bytes=S-` ends at the last byte of the file |
| Stream.RangeIgnoresTrailer | controller/routes/streamRoutes.js:37-39 | anything after the end numeral that starts with a non-digit is ignored, so a range list serves its first range |
| Stream.NumeralLetters | controller/routes/streamRoutes.js:37 | a rendered number holds neither a dash nor a `b`, so neither the unit match nor the split can cut into it |
| Stream.RangeWithoutUnit | controller/routes/streamRoutes.js:37 | a header in which `bytes=` occurs nowhere is split as it stands |
| Stream.NoUnitWithoutB | controller/routes/streamRoutes.js:37 | text without a lower-case `b` holds no `bytes=` |
| Stream.UnitlessFields | controller/routes/streamRoutes.js:37 | without the unit, the text before the first dash is the first field and the rest is split on its own |
| Stream.UnitlessRange | controller/routes/streamRoutes.js:37-39 | `S-E` without the unit parses to the bounds `S` and `E`, like `bytes=S-E` |
| Stream.NonNumericFirstField | controller/routes/streamRoutes.js:37-38 | without the unit, a first field that cannot start a number gives a NaN start |
| Stream.CapitalisedUnitIsNaN | controller/routes/streamRoutes.js:37-38 | the unit is matched case-sensitively: `Bytes=S-E` has a NaN start |
| Stream.CapitalisedUnitFails | controller/routes/streamRoutes.js:37-65 | so `Bytes=S-E` ends in 500 "Server error" |
| Stream.SuffixRangeIsNaN | controller/routes/streamRoutes.js:37-38 | a suffix range `bytes=-N` has a NaN start |
| Stream.SuffixRangeRefused | controller/routes/streamRoutes.js:38-42 | the stream refuses the bounds of a suffix range |
| Stream.UnsatisfiableRangesRefused | controller/routes/streamRoutes.js:38-42 | the stream refuses a start after the end, and an open range starting at or past the file size |
| Stream.ServeFromFile | controller/routes/streamRoutes.js:32-60 | with every check passed, no or an empty `Range` header gives 200 with the whole file; otherwise 206 with the span when the stream accepts the bounds, else 500 |
| Stream.RefusedRangeFails | controller/routes/streamRoutes.js:42-65 | bounds the stream refuses end in 500 "Server error" |
| Stream.ServeSpan | controller/routes/streamRoutes.js:36-52 | bounds `[S, E]` with `S <= E <= 2^53 - 1` give 206 with the partial fields for them and the bytes of that span |
| Stream.ServeToEnd | controller/routes/streamRoutes.js:39-52 | a span ending at the last byte of a file of at most 2^53 bytes sends the rest of the file from its start |
| Stream.EndPastFileOverstatesLength | controller/routes/streamRoutes.js:41-47 | an end past the last byte, but within 2^53 - 1, is answered with 206 declaring a length of `E - S + 1` and delivering fewer bytes |
| Stream.PartialResponse | controller/routes/streamRoutes.js:36-52 | `bytes=S-E` with `S <= E <= 2^53 - 1` gives 206 with the span fields and the bytes of `[S, E]` that exist |
| Stream.OversizedEndFails | controller/routes/streamRoutes.js:37-65 | `bytes=S-E` with `E` above 2^53 - 1 makes the stream throw, so the answer is 500 "Server error" |
| Stream.OpenEndedResponse | controller/routes/streamRoutes.js:36-52 | `bytes=S-` with `S` inside a file of at most 2^53 bytes gives 206 with the span `[S, size-1]` and the rest of the file |
| Stream.UnsatisfiableRangeFails | controller/routes/streamRoutes.js:36-65 | a suffix range, a start after the end, or an open range starting past the file gives 500, never 416 |
| Stream.FullHeaderFields | controller/routes/streamRoutes.js:54-58 | the whole-file answer declares the file size and `video/mp4`, and no range fields |
| Stream.PartialHeaderFields | controller/routes/streamRoutes.js:44-50 | the partial answer declares the span and file size, the length `E - S + 1`, `Accept-Ranges: bytes` and `video/mp4` |
| Stream.SpanWire | controller/routes/streamRoutes.js:45 | `Content-Range` renders as `bytes S-E/size` in decimal |
| Stream.LengthWire | controller/routes/streamRoutes.js:47 | a rendered `Content-Length` reads back as the same number |
| Hub.HandlerFor | server.js:74-117 | each handler is reached by its own event names and no other: both spellings of the join event, `play`, `pause`, `seek`, `chat`, the three signalling names and `disconnecting` |
| Hub.HandlerNames | server.js:74-75 | event names are matched exactly: other casings reach no handler |
| Hub.MayControl | server.js:80-82 | control needs a found room, and then an admin, or a user whose id renders like the room's host |
| Hub.HostControls | server.js:82 | the host controls its room; another non-admin user does not |
| Hub.AnonymousControl | server.js:82 | since both sides go through `String(...)`, an anonymous socket controls a hostless room but not a room with a host |
| Hub.ChatText | server.js:107 | the relayed text is at most 1000 code units with no white space at either end |
| Hub.ChatDroppedIffBlank | server.js:107-108 | a message is dropped exactly when it is falsy or its first 1000 code units are all white space |
| Hub.ChatVerbatim | server.js:107 | short text without white space at either end is relayed unchanged |
| Hub.ChatTruncated | server.js:107 | longer text is cut to its first 1000 code units |
| Hub.ChatIdempotent | server.js:107 | sanitising relayed text again changes nothing |
| Hub.JoinNotices | server.js:63-72 | no emit when the lookup throws, or when no room is found and the socket is signed in; otherwise `user-joined` to the others and the new head count to the whole room |
| Hub.Enlist | server.js:66 | joining adds the room to the socket's rooms, keeping a room it is already in at its first place |
| Hub.Vacate | server.js:117-125 | after leaving, the socket is in no room and rooms left empty disappear |
| Hub.LeaveNotices | server.js:120-123 | each room left yields two emits, the head count and then `user-left` to the same sockets less the leaver; while the leaver is still a member the head count goes to the whole room and is its size less one |
| Hub.CountAfterLeave | server.js:120-121 | the count sent is never negative; for a non-empty room it is the size less the leaver, and 0 for a missing room |
| Hub.DepartureNotices | server.js:118-124 | at most two emits per room, and exactly two per room when the socket's own room is not among them |
| Hub.DepartureCountWithOwnRoom | server.js:118-124 | with the socket's own room listed once, as the hub keeps it, the leaver's n rooms give exactly 2(n - 1) emits |
| Hub.DeparturesReachRooms | server.js:118-124 | every room of the leaver except its own gets the head count and the `user-left` notice for its other members |
| Hub.DeparturesComeFromRooms | server.js:118-124 | every departure emit goes to one of the leaver's rooms other than its own |
| Hub.DepartureFacts | server.js:117-125 | each room of the leaver except its own gets the head count without the leaver, and its other members get `user-left`; nothing goes anywhere else |
| Hub.AddMember | server.js:66 | the socket is in the room afterwards, and the room is created when missing |
| Hub.ConnectKeepsConsistent | server.js:48-61 | a new socket in its own room keeps the state consistent |
| Hub.JoinKeepsConsistent | server.js:66 | joining a room keeps the state consistent |
| Hub.RejoinChangesNothing | server.js:66 | joining a room twice changes nothing |
| Hub.LeaveKeepsConsistent | server.js:117-125 | removing a socket from every room and forgetting it keeps the state consistent |
| Hub.RelayHub.Others | server.js:83 | `socket.to(room)` reaches the members of the room except the sender |
| Hub.RelayHub.constructor | server.js:48 | the hub starts with no connections, rooms or emits, and consistent |
| Hub.RelayHub.Connect | server.js:48-61 | a new connection gets the handshake identity and its own room, and the state stays consistent |
| Hub.RelayHub.Join | server.js:63-75 | a throwing lookup changes nothing; otherwise the socket joins the room and the join notices are emitted; the state stays consistent |
| Hub.RelayHub.Control | server.js:78-103 | the time goes to the other members exactly when the sender may control the room; otherwise nothing is emitted |
| Hub.RelayHub.Chat | server.js:105-110 | the sanitised text and the sender-supplied `user` go to the other members unless the text is empty |
| Hub.RelayHub.Relay | server.js:113-115 | a signalling payload goes unchanged and unchecked to the other members |
| Hub.RelayHub.AnnounceDeparture | server.js:117-125 | the emits are the departure notices of the socket's rooms, in the order it joined them |
| Hub.RelayHub.Disconnect | server.js:117-125 | the departure notices are emitted while the socket is still a member; then it leaves every room and is forgotten; the state stays consistent |

## Left out

- Concurrency: each handler is one atomic step. The interleaving of the awaited room lookups with other handlers is not modelled.
- The database: `Room.findById` and `Movie.findById` are inputs of each step, and so is `ObjectId.isValid`. `Room.findById` may also throw. The room registry itself (create, find by token or code) is not part of this model.
- Hub.JoinNotices: the `name` field of `user-joined` is not represented. It compares a string id with the populated host document by `===`, so it is always undefined.
- Hub.RelayHub.Disconnect: the socket leaving its rooms is done by the real-time library after the `disconnecting` handler, not by server.js. It is modelled as `Vacate`.
- Malformed event payloads: destructuring an `undefined` payload throws outside any `try`. Such payloads are not modelled, and every handler receives its fields.
- Numbers: only NaN and integers are modelled. Fractional values, exponents, precision and `Infinity` in `parseInt`, `String(n)` or playback times are not. For range bounds this loses nothing: `parseInt` reads every numeral up to 2^53 - 1 exactly, and a larger one is rounded to a number that is still above 2^53 - 1, which the stream refuses either way.
- Stream.ServeToEnd: stated for files of at most 2^53 bytes. For a larger file `fileSize - 1` would be above `Number.MAX_SAFE_INTEGER`, and the size reported by `fs.statSync` would not be exact.
- Stream.OpenEndedResponse: stated for files of at most 2^53 bytes, for the same reason.
- Text is assumed to lie in the Basic Multilingual Plane. A Dafny `char` is a Unicode scalar value, so a character outside that plane is one unit here where JavaScript counts two UTF-16 code units. For such text, lengths, the 1000-unit cut of chat messages and the `_` count of `Upload.SanitizeName` differ from the code.
- `String(v)` on an object is `"[object Object]"`. Custom `toString` methods, such as the one an ObjectId host field has, are represented by the `Str` value they render to.
- Stream I/O: `pathLib.resolve`, `existsSync` and `statSync` are the `Disk` input. Read errors after the headers are sent, partial streaming and back-pressure are not modelled, and logging is left out.
- Token cryptography: `jwt.verify` with the server secret is the `Verifier` parameter.
- Auth.Exchange.Authenticate: an exception thrown synchronously by `next()` lands in the same `catch` and sends the second 401. This is not modelled.
- Upload.WithinSizeLimit: the enforcement of the cap by the multipart parser, and the writing of the file, are not modelled. Whether a file of exactly 2147483648 bytes is accepted is decided by the parser, whose source is not part of this model; the predicate assumes the cap is inclusive, and a parser that rejects a file on reaching the cap would refuse that one size.
- Application bootstrap, middleware registration, rate limiting and the CRUD routes are not part of this model.
