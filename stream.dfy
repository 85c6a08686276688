/**
 * The media endpoint `GET /api/stream/:id` (controller/routes/streamRoutes.js):
 * a chain of checks followed by a whole-file or byte-range response.
 *
 * The outside world is given as inputs: whether the id is a well-formed
 * ObjectId, what the movie lookup returned, and what is on disk at the
 * resolved path (absent, or present with its bytes). The response is a
 * descriptor: status, the headers the handler sets, and the body.
 */
module Stream {
  import opened Wrappers
  import opened JsText
  import opened JsNumber

  type byte = bv8

  /** The outcome of `Movie.findById(id)`. */
  datatype MovieLookup = LookupThrows | NoMovie | Movie(filePath: Option<string>)

  /** What `fs.existsSync` and `fs.statSync` see at the resolved path; the size is the length of the bytes. */
  datatype Disk = Absent | Present(content: seq<byte>)

  /** The response header fields the handler sets. */
  datatype HeaderName =
    | AllowOrigin | AllowMethods | ResourcePolicy
    | ContentRange | AcceptRanges | ContentLength | ContentType
  {
    /** The field name on the wire. */
    function Name(): string {
      match this
      case AllowOrigin => "Access-Control-Allow-Origin"
      case AllowMethods => "Access-Control-Allow-Methods"
      case ResourcePolicy => "Cross-Origin-Resource-Policy"
      case ContentRange => "Content-Range"
      case AcceptRanges => "Accept-Ranges"
      case ContentLength => "Content-Length"
      case ContentType => "Content-Type"
    }
  }

  /** A header field value as the handler sets it; `Wire()` is its rendering on the wire. */
  datatype FieldValue =
    | Text(text: string)
    | Length(n: Num)
    | Span(start: Num, end: Num, size: nat)
  {
    function Wire(): (w: string)
      ensures w == [] <==> this == Text([])
      ensures Span? ==> |w| > 6 && w[..6] == "bytes "
    {
      match this
      case Text(t) => t
      case Length(n) => NumToString(n)
      case Span(a, b, size) => "bytes " + NumToString(a) + "-" + NumToString(b) + "/" + Decimal(size)
    }
  }

  type Headers = map<HeaderName, FieldValue>

  /** A JSON `{ message }` body, or the bytes a read stream pipes into the response. */
  datatype Body = Json(message: string) | Bytes(data: seq<byte>)

  datatype Response = Response(status: nat, headers: Headers, body: Body)

  /** Set on every response before any check runs. */
  const CorsHeaders: Headers := map[
    AllowOrigin := Text("*"),
    AllowMethods := Text("GET, OPTIONS"),
    ResourcePolicy := Text("cross-origin")
  ]

  /** The permissive cross-origin fields are present with their values. */
  predicate CarriesCors(h: Headers) {
    && AllowOrigin in h && h[AllowOrigin] == Text("*")
    && AllowMethods in h && h[AllowMethods] == Text("GET, OPTIONS")
    && ResourcePolicy in h && h[ResourcePolicy] == Text("cross-origin")
  }

  function Error(status: nat, message: string): Response {
    Response(status, CorsHeaders, Json(message))
  }

  /** The start and inclusive end read from a `Range` header; either may be NaN. */
  datatype ByteRange = ByteRange(start: Num, end: Num)

  /**
   * `range.replace(/bytes=/, "").split("-")`, then `parseInt` of the first field,
   * and of the second field when it is non-empty (otherwise the last byte).
   */
  function ParseRange(range: string, size: nat): (r: ByteRange)
    ensures r.start.Int? ==> r.start.i >= 0
    ensures r.end.Int? ==> r.end.i >= -1
  {
    var parts := RangeFields(range);
    var start := ParseInt(parts[0]);
    var end := if |parts| > 1 && parts[1] != [] then ParseInt(parts[1]) else Int(size - 1);
    ByteRange(start, end)
  }

  /** `range.replace(/bytes=/, "").split("-")` */
  function RangeFields(range: string): (parts: seq<string>)
    ensures |parts| >= 1
  {
    Split(ReplaceFirst(range, "bytes=", ""), '-')
  }

  /**
   * The argument check `fs.createReadStream` makes on `{ start, end }`: both must
   * be integers between 0 and `Number.MAX_SAFE_INTEGER`, and `start <= end`, or it throws.
   */
  predicate StreamAccepts(r: ByteRange): (ok: bool)
    ensures ok ==> ChunkSize(r).Int? && 1 <= ChunkSize(r).i <= MaxSafeInteger + 1
  {
    r.start.Int? && r.end.Int? && 0 <= r.start.i <= r.end.i <= MaxSafeInteger
  }

  /** What a read stream over the inclusive span `[start, end]` delivers: it stops early at the end of the file. */
  function ReadSpan(content: seq<byte>, start: nat, end: nat): (data: seq<byte>)
    requires start <= end
    ensures |data| <= end - start + 1
    ensures end < |content| ==> data == content[start..end + 1]
    ensures start < |content| <= end ==> data == content[start..]
    ensures |content| <= start ==> data == []
  {
    var from := if start < |content| then start else |content|;
    var to := if end + 1 < |content| then end + 1 else |content|;
    content[from..to]
  }

  /** The fields of a 206 answer: the cross-origin fields and four range fields. */
  function PartialHeaders(r: ByteRange, size: nat): (h: Headers)
    ensures CarriesCors(h)
    ensures h.Keys == {AllowOrigin, AllowMethods, ResourcePolicy, ContentRange, AcceptRanges, ContentLength, ContentType}
  {
    CorsHeaders[ContentRange := Span(r.start, r.end, size)][AcceptRanges := Text("bytes")]
               [ContentLength := Length(ChunkSize(r))][ContentType := Text("video/mp4")]
  }

  /** The fields of a 200 answer: the cross-origin fields, the length and the media type. */
  function FullHeaders(size: nat): (h: Headers)
    ensures CarriesCors(h)
    ensures h.Keys == {AllowOrigin, AllowMethods, ResourcePolicy, ContentLength, ContentType}
  {
    CorsHeaders[ContentLength := Length(Int(size))][ContentType := Text("video/mp4")]
  }

  /** `end - start + 1`, NaN when either is NaN. */
  function ChunkSize(r: ByteRange): (n: Num)
    ensures n.Int? <==> r.start.Int? && r.end.Int?
    ensures (n.Int? && n.i >= 1) <==> (r.start.Int? && r.end.Int? && r.start.i <= r.end.i)
  {
    if r.start.Int? && r.end.Int? then Int(r.end.i - r.start.i + 1) else NaN
  }

  /** The whole handler. A throw inside its `try` becomes 500 "Server error". */
  function Serve(idValid: bool, movie: MovieLookup, disk: Disk, range: Option<string>): (r: Response)
    ensures CarriesCors(r.headers)
    ensures r.status in {200, 206, 400, 404, 500}
    ensures r.body.Bytes? <==> r.status in {200, 206}
  {
    if !idValid then Error(400, "Invalid movie id")
    else if movie.LookupThrows? then Error(500, "Server error")
    else if movie.NoMovie? then Error(404, "Movie not found")
    else if movie.filePath.None? || movie.filePath.value == [] then Error(404, "Movie file path missing")
    else if disk.Absent? then Error(404, "Movie file not found on disk")
    else
      var size := |disk.content|;
      if range.Some? && range.value != [] then
        var r := ParseRange(range.value, size);
        if !StreamAccepts(r) then Error(500, "Server error")
        else Response(206, PartialHeaders(r, size), Bytes(ReadSpan(disk.content, r.start.i, r.end.i)))
      else Response(200, FullHeaders(size), Bytes(disk.content))
  }

  /** The order of the checks: a malformed id is refused before any lookup, then each missing piece gets its own 404. */
  lemma ValidationOrder(idValid: bool, movie: MovieLookup, disk: Disk, range: Option<string>)
    ensures !idValid ==> Serve(idValid, movie, disk, range) == Error(400, "Invalid movie id")
    ensures idValid && movie.LookupThrows? ==> Serve(idValid, movie, disk, range) == Error(500, "Server error")
    ensures idValid && movie.NoMovie? ==> Serve(idValid, movie, disk, range) == Error(404, "Movie not found")
    ensures idValid && movie == Movie(None) ==> Serve(idValid, movie, disk, range) == Error(404, "Movie file path missing")
    ensures idValid && movie == Movie(Some("")) ==> Serve(idValid, movie, disk, range) == Error(404, "Movie file path missing")
    ensures idValid && movie.Movie? && movie.filePath.Some? && movie.filePath.value != [] && disk.Absent? ==>
              Serve(idValid, movie, disk, range) == Error(404, "Movie file not found on disk")
  {
  }

  /** The first occurrence of the unit is at the front, so exactly the front goes. */
  lemma StripUnit(x: string)
    ensures ReplaceFirst("bytes=" + x, "bytes=", "") == x
  {
    var h := "bytes=" + x;
    assert h[0..6] == "bytes=";
    assert OccursAt(h, "bytes=", 0);
    assert h[6..] == x;
  }

  /** A numeral holds neither a dash nor a `b`. */
  lemma NumeralLetters(n: nat)
    ensures '-' !in Decimal(n) && 'b' !in Decimal(n)
  {
    var d := Decimal(n);
    assert forall i :: 0 <= i < |d| ==> IsDigit(d[i]);
  }

  lemma NumeralThenTail(a: nat, tail: string)
    ensures RangeFields("bytes=" + Decimal(a) + "-" + tail) == [Decimal(a)] + Split(tail, '-')
  {
    var x := Decimal(a) + ['-'] + tail;
    assert "bytes=" + Decimal(a) + "-" + tail == "bytes=" + x;
    StripUnit(x);
    NumeralLetters(a);
    SplitAtFirst(Decimal(a), tail, '-');
  }

  lemma ParseNumeral(n: nat)
    ensures ParseInt(Decimal(n)) == Int(n)
  {
    ParseIntDecimalPrefix(n, []);
    assert Decimal(n) + [] == Decimal(n);
  }

  /** A header in which the `bytes=` unit occurs nowhere is split as it stands. */
  lemma RangeWithoutUnit(range: string)
    requires forall j: nat :: !OccursAt(range, "bytes=", j)
    ensures RangeFields(range) == Split(range, '-')
  {
    ReplaceFirstSpec(range, "bytes=", "");
  }

  /** Text without a lower-case `b` cannot hold the unit. */
  lemma NoUnitWithoutB(h: string)
    requires 'b' !in h
    ensures forall j: nat :: !OccursAt(h, "bytes=", j)
  {
    forall j: nat
      ensures !OccursAt(h, "bytes=", j)
    {
      if j + 6 <= |h| {
        assert h[j..j + 6][0] == h[j];
      }
    }
  }

  /** Without the unit, the text before the first dash is the first field. */
  lemma UnitlessFields(first: string, rest: string)
    requires '-' !in first && 'b' !in first && 'b' !in rest
    ensures RangeFields(first + "-" + rest) == [first] + Split(rest, '-')
  {
    var h := first + ['-'] + rest;
    assert 'b' !in h;
    NoUnitWithoutB(h);
    RangeWithoutUnit(h);
    SplitAtFirst(first, rest, '-');
  }

  /** `S-E` without the unit is read like `bytes=S-E`. */
  lemma UnitlessRange(a: nat, b: nat, size: nat)
    ensures ParseRange(Decimal(a) + "-" + Decimal(b), size) == ByteRange(Int(a), Int(b))
  {
    var da, db := Decimal(a), Decimal(b);
    NumeralLetters(a);
    NumeralLetters(b);
    UnitlessFields(da, db);
    SplitWithoutSep(db, '-');
    ParseNumeral(a);
    ParseNumeral(b);
  }

  /** A first field that cannot start a number, in a header without the unit, gives a NaN start. */
  lemma NonNumericFirstField(first: string, rest: string, size: nat)
    requires first != [] && !IsWhitespace(first[0]) && first[0] != '-' && first[0] != '+' && !IsDigit(first[0])
    requires '-' !in first && 'b' !in first && 'b' !in rest
    ensures ParseRange(first + "-" + rest, size).start == NaN
  {
    UnitlessFields(first, rest);
    ParseIntNoDigits(first);
  }

  /** The unit is matched case-sensitively: in `Bytes=S-E` it stays in the first field, so the start is NaN. */
  lemma CapitalisedUnitIsNaN(a: nat, b: nat, size: nat)
    ensures ParseRange("Bytes=" + Decimal(a) + "-" + Decimal(b), size).start == NaN
  {
    var unit := "Bytes=";
    var first := unit + Decimal(a);
    NumeralLetters(a);
    NumeralLetters(b);
    assert '-' !in unit && 'b' !in unit;
    assert first[0] == 'B';
    NonNumericFirstField(first, Decimal(b), size);
  }

  /** So `Bytes=S-E` ends in 500 "Server error". */
  lemma CapitalisedUnitFails(path: string, content: seq<byte>, a: nat, b: nat)
    requires path != []
    ensures Serve(true, Movie(Some(path)), Present(content), Some("Bytes=" + Decimal(a) + "-" + Decimal(b))) == Error(500, "Server error")
  {
    var h := "Bytes=" + Decimal(a) + "-" + Decimal(b);
    assert h != [] by { assert h[0] == 'B'; }
    CapitalisedUnitIsNaN(a, b, |content|);
    RefusedRangeFails(path, content, h);
  }

  /** The unit prefix goes and the two numerals are read. */
  lemma RangeOfNumerals(a: nat, b: nat, size: nat)
    ensures ParseRange("bytes=" + Decimal(a) + "-" + Decimal(b), size) == ByteRange(Int(a), Int(b))
  {
    NumeralThenTail(a, Decimal(b));
    NumeralLetters(b);
    SplitWithoutSep(Decimal(b), '-');
    ParseNumeral(a);
    ParseNumeral(b);
  }

  /** `bytes=S-` leaves the end at the last byte of the file. */
  lemma RangeOpenEnded(a: nat, size: nat)
    ensures ParseRange("bytes=" + Decimal(a) + "-", size) == ByteRange(Int(a), Int(size - 1))
  {
    NumeralThenTail(a, []);
    assert "bytes=" + Decimal(a) + "-" + [] == "bytes=" + Decimal(a) + "-";
    ParseNumeral(a);
  }

  /** Only the first two fields count: anything after the end numeral that is not a digit is ignored, so a multi-range list serves its first range's start and end. */
  lemma RangeIgnoresTrailer(a: nat, b: nat, trailer: string, size: nat)
    requires trailer == [] || !IsDigit(trailer[0])
    ensures ParseRange("bytes=" + Decimal(a) + "-" + Decimal(b) + trailer, size) == ByteRange(Int(a), Int(b))
  {
    var tail := Decimal(b) + trailer;
    assert "bytes=" + Decimal(a) + "-" + Decimal(b) + trailer == "bytes=" + Decimal(a) + "-" + tail;
    NumeralThenTail(a, tail);
    NumeralLetters(b);
    SplitPrefixField(Decimal(b), trailer, '-');
    var first := Split(trailer, '-')[0];
    FirstFieldStart(trailer, '-');
    assert RangeFields("bytes=" + Decimal(a) + "-" + tail)[1] == Decimal(b) + first;
    ParseNumeral(a);
    ParseIntDecimalPrefix(b, first);
  }

  /** A suffix range `bytes=-N` has an empty first field, so its start is NaN. */
  lemma SuffixRangeIsNaN(n: nat, size: nat)
    ensures ParseRange("bytes=-" + Decimal(n), size).start == NaN
  {
    var x := [] + ['-'] + Decimal(n);
    assert "bytes=-" + Decimal(n) == "bytes=" + x;
    StripUnit(x);
    SplitAtFirst([], Decimal(n), '-');
  }

  /** A suffix range is therefore refused by the stream. */
  lemma SuffixRangeRefused(n: nat, size: nat)
    ensures !StreamAccepts(ParseRange("bytes=-" + Decimal(n), size))
  {
    SuffixRangeIsNaN(n, size);
  }

  /** A start past the end, and `bytes=S-` with `S` at or beyond the file size, are refused by the stream. */
  lemma UnsatisfiableRangesRefused(a: nat, b: nat, size: nat)
    ensures b < a ==> !StreamAccepts(ParseRange("bytes=" + Decimal(a) + "-" + Decimal(b), size))
    ensures size <= a ==> !StreamAccepts(ParseRange("bytes=" + Decimal(a) + "-", size))
  {
    RangeOfNumerals(a, b, size);
    RangeOpenEnded(a, size);
  }

  /** A request that passes every check is answered from the file: a partial answer when a non-empty Range header is present. */
  lemma ServeFromFile(path: string, content: seq<byte>, range: Option<string>)
    requires path != []
    ensures var r := Serve(true, Movie(Some(path)), Present(content), range);
      if range.None? || range == Some("") then r == Response(200, FullHeaders(|content|), Bytes(content))
      else
        var br := ParseRange(range.value, |content|);
        r == if StreamAccepts(br) then Response(206, PartialHeaders(br, |content|), Bytes(ReadSpan(content, br.start.i, br.end.i)))
             else Error(500, "Server error")
  {
  }

  /** A Range header whose bounds the stream refuses (NaN, negative, or start after end) ends in 500 "Server error", never 416. */
  lemma RefusedRangeFails(path: string, content: seq<byte>, h: string)
    requires path != [] && h != []
    requires !StreamAccepts(ParseRange(h, |content|))
    ensures Serve(true, Movie(Some(path)), Present(content), Some(h)) == Error(500, "Server error")
  {
    ServeFromFile(path, content, Some(h));
  }

  /** A Range header that parses to an acceptable span `[S, E]` is served as that span. */
  lemma ServeSpan(path: string, content: seq<byte>, h: string, a: nat, b: nat)
    requires path != [] && h != [] && a <= b <= MaxSafeInteger
    requires ParseRange(h, |content|) == ByteRange(Int(a), Int(b))
    ensures Serve(true, Movie(Some(path)), Present(content), Some(h))
            == Response(206, PartialHeaders(ByteRange(Int(a), Int(b)), |content|), Bytes(ReadSpan(content, a, b)))
  {
    ServeFromFile(path, content, Some(h));
  }

  /** A span that ends at the last byte sends the rest of the file from its start. */
  lemma ServeToEnd(path: string, content: seq<byte>, h: string, a: nat)
    requires path != [] && h != [] && a < |content| <= MaxSafeInteger + 1
    requires ParseRange(h, |content|) == ByteRange(Int(a), Int(|content| - 1))
    ensures Serve(true, Movie(Some(path)), Present(content), Some(h))
            == Response(206, PartialHeaders(ByteRange(Int(a), Int(|content| - 1)), |content|), Bytes(content[a..]))
  {
    ServeSpan(path, content, h, a, |content| - 1);
    assert ReadSpan(content, a, |content| - 1) == content[a..];
  }

  /** Nothing checks the end against the file size: an end past the last byte declares more bytes than the stream delivers. */
  lemma EndPastFileOverstatesLength(path: string, content: seq<byte>, h: string, a: nat, b: nat)
    requires path != [] && h != [] && a <= b <= MaxSafeInteger && |content| <= b
    requires ParseRange(h, |content|) == ByteRange(Int(a), Int(b))
    ensures var r := Serve(true, Movie(Some(path)), Present(content), Some(h));
      && r.status == 206 && r.body.Bytes?
      && r.headers[ContentLength] == Length(Int(b - a + 1))
      && |r.body.data| < b - a + 1
  {
    ServeSpan(path, content, h, a, b);
    PartialHeaderFields(a, b, |content|);
  }

  /** `bytes=S-E` with `S <= E`: 206 with the fields of the span `[S, E]` and the bytes of it that exist in the file. */
  lemma PartialResponse(path: string, content: seq<byte>, a: nat, b: nat)
    requires path != [] && a <= b <= MaxSafeInteger
    ensures Serve(true, Movie(Some(path)), Present(content), Some("bytes=" + Decimal(a) + "-" + Decimal(b)))
            == Response(206, PartialHeaders(ByteRange(Int(a), Int(b)), |content|), Bytes(ReadSpan(content, a, b)))
  {
    RangeOfNumerals(a, b, |content|);
    ServeSpan(path, content, "bytes=" + Decimal(a) + "-" + Decimal(b), a, b);
  }

  /** An end above `Number.MAX_SAFE_INTEGER` makes the stream throw, so `bytes=S-E` then ends in 500 "Server error". */
  lemma OversizedEndFails(path: string, content: seq<byte>, a: nat, b: nat)
    requires path != [] && MaxSafeInteger < b
    ensures Serve(true, Movie(Some(path)), Present(content), Some("bytes=" + Decimal(a) + "-" + Decimal(b))) == Error(500, "Server error")
  {
    var h := "bytes=" + Decimal(a) + "-" + Decimal(b);
    assert h != [] by { assert h[0] == 'b'; }
    RangeOfNumerals(a, b, |content|);
    RefusedRangeFails(path, content, h);
  }

  /** `bytes=S-` with `S` inside the file: the span runs to the last byte and the rest of the file is sent. */
  lemma OpenEndedResponse(path: string, content: seq<byte>, a: nat)
    requires path != [] && a < |content| <= MaxSafeInteger + 1
    ensures Serve(true, Movie(Some(path)), Present(content), Some("bytes=" + Decimal(a) + "-"))
            == Response(206, PartialHeaders(ByteRange(Int(a), Int(|content| - 1)), |content|), Bytes(content[a..]))
  {
    var h := "bytes=" + Decimal(a) + "-";
    assert h != [] by { assert h[0] == 'b'; }
    assert ParseRange(h, |content|) == ByteRange(Int(a), Int(|content| - 1)) by {
      RangeOpenEnded(a, |content|);
    }
    ServeToEnd(path, content, h, a);
  }

  /** A suffix range `bytes=-N`, a start after the end, or an open range starting at or past the end of the file: 500, not 416. */
  lemma UnsatisfiableRangeFails(path: string, content: seq<byte>, a: nat, b: nat)
    requires path != []
    ensures Serve(true, Movie(Some(path)), Present(content), Some("bytes=-" + Decimal(b))) == Error(500, "Server error")
    ensures b < a ==> Serve(true, Movie(Some(path)), Present(content), Some("bytes=" + Decimal(a) + "-" + Decimal(b))) == Error(500, "Server error")
    ensures |content| <= a ==> Serve(true, Movie(Some(path)), Present(content), Some("bytes=" + Decimal(a) + "-")) == Error(500, "Server error")
  {
    SuffixRangeRefused(b, |content|);
    UnsatisfiableRangesRefused(a, b, |content|);
    RefusedRangeFails(path, content, "bytes=-" + Decimal(b));
    if b < a {
      RefusedRangeFails(path, content, "bytes=" + Decimal(a) + "-" + Decimal(b));
    }
    if |content| <= a {
      RefusedRangeFails(path, content, "bytes=" + Decimal(a) + "-");
    }
  }

  /** The fields of a whole-file answer: its length and media type, and no range fields. */
  lemma FullHeaderFields(size: nat)
    ensures var h := FullHeaders(size);
      && CarriesCors(h)
      && h[ContentLength] == Length(Int(size))
      && h[ContentType] == Text("video/mp4")
      && AcceptRanges !in h && ContentRange !in h
  {
  }

  /** The fields of a partial answer: the span, its length, range support and the media type. */
  lemma PartialHeaderFields(a: nat, b: nat, size: nat)
    requires a <= b
    ensures var h := PartialHeaders(ByteRange(Int(a), Int(b)), size);
      && CarriesCors(h)
      && h[ContentRange] == Span(Int(a), Int(b), size)
      && h[ContentLength] == Length(Int(b - a + 1))
      && h[AcceptRanges] == Text("bytes")
      && h[ContentType] == Text("video/mp4")
  {
  }

  /** The rendered `Content-Range` names the span and the file size in decimal. */
  lemma SpanWire(a: nat, b: nat, size: nat)
    ensures Span(Int(a), Int(b), size).Wire() == "bytes " + Decimal(a) + "-" + Decimal(b) + "/" + Decimal(size)
  {
    assert NumToString(Int(a)) == Decimal(a);
    assert NumToString(Int(b)) == Decimal(b);
  }

  /** A rendered length reads back as the same number. */
  lemma LengthWire(n: nat)
    ensures ParseInt(Length(Int(n)).Wire()) == Int(n)
  {
    ParseNumeral(n);
  }
}
