/**
 * The upload storage rules of middleware/upload.js: the name a stored file gets,
 * which media types are accepted, and the size cap.
 */
module Upload {
  import opened JsNumber

  /** The characters the filename pattern `[^a-zA-Z0-9.\-_( )]` leaves alone. */
  predicate IsSafeChar(c: char) {
    || ('a' <= c <= 'z') || ('A' <= c <= 'Z') || ('0' <= c <= '9')
    || c == '.' || c == '-' || c == '_' || c == '(' || c == ')' || c == ' '
  }

  predicate AllSafe(s: string) {
    forall i :: 0 <= i < |s| ==> IsSafeChar(s[i])
  }

  /** `name.replace(/[^a-zA-Z0-9.\-_( )]/g, "_")`: every other code unit becomes `_`, one for one. */
  function SanitizeName(name: string): (r: string)
    ensures |r| == |name|
    ensures forall i :: 0 <= i < |name| ==> r[i] == if IsSafeChar(name[i]) then name[i] else '_'
  {
    if name == [] then []
    else [if IsSafeChar(name[0]) then name[0] else '_'] + SanitizeName(name[1..])
  }

  /** Every code unit of a sanitised name is safe; in particular no path separator survives. */
  lemma SanitizedIsSafe(name: string)
    ensures AllSafe(SanitizeName(name))
    ensures '/' !in SanitizeName(name) && '\\' !in SanitizeName(name)
  {
    var r := SanitizeName(name);
    assert forall i :: 0 <= i < |r| ==> IsSafeChar(r[i]);
  }

  /** A name is left unchanged exactly when it is already all safe. */
  lemma SanitizeFixedPoint(name: string)
    ensures SanitizeName(name) == name <==> AllSafe(name)
  {
    if SanitizeName(name) == name {
      SanitizedIsSafe(name);
    }
  }

  /** Sanitising twice is sanitising once. */
  lemma SanitizeIdempotent(name: string)
    ensures SanitizeName(SanitizeName(name)) == SanitizeName(name)
  {
    SanitizedIsSafe(name);
    SanitizeFixedPoint(SanitizeName(name));
  }

  /** The name a stored file gets: the upload time in milliseconds, `-`, then the sanitised original name. */
  function StoredName(now: nat, originalName: string): (r: string)
    ensures AllSafe(r)
  {
    var r := Decimal(now) + "-" + SanitizeName(originalName);
    SanitizedIsSafe(originalName);
    assert forall i :: 0 <= i < |Decimal(now)| ==> IsSafeChar(r[i]);
    r
  }

  /** The stored name can be taken apart again: its leading number is the upload time and the text after the first `-` is the sanitised original name. */
  lemma StoredNameParts(now: nat, originalName: string)
    ensures ParseInt(StoredName(now, originalName)) == Int(now)
    ensures '-' !in Decimal(now)
    ensures StoredName(now, originalName)[|Decimal(now)|] == '-'
    ensures StoredName(now, originalName)[|Decimal(now)| + 1..] == SanitizeName(originalName)
  {
    var d := Decimal(now);
    var tail := "-" + SanitizeName(originalName);
    assert StoredName(now, originalName) == d + tail;
    assert forall i :: 0 <= i < |d| ==> IsDigit(d[i]);
    ParseIntDecimalPrefix(now, tail);
    assert (d + tail)[|d| + 1..] == tail[1..];
  }

  /** The media types `fileFilter` lets through. */
  const AllowedTypes: seq<string> := ["video/mp4", "video/webm", "video/ogg", "video/x-matroska"]

  /** The callback outcome of `fileFilter`: accepted, or refused with an error message. */
  datatype FilterResult = Accept | Refuse(message: string)

  function FileFilter(mimetype: string): (r: FilterResult)
    ensures r == Accept <==> mimetype in AllowedTypes
    ensures r.Refuse? ==> r.message == "Invalid file type"
  {
    if mimetype in AllowedTypes then Accept else Refuse("Invalid file type")
  }

  /** The four video types are accepted and nothing else is, whatever its case or parameters. */
  lemma FilterExamples()
    ensures FileFilter("video/mp4") == Accept && FileFilter("video/x-matroska") == Accept
    ensures FileFilter("video/MP4") == Refuse("Invalid file type")
    ensures FileFilter("video/mp4; codecs=avc1") == Refuse("Invalid file type")
    ensures FileFilter("image/png") == Refuse("Invalid file type")
  {
  }

  /** The upload size cap: 2 GiB. */
  const MaxFileSize: nat := 2 * 1024 * 1024 * 1024

  /** A file of `size` bytes stays within the cap. */
  predicate WithinSizeLimit(size: nat): (ok: bool)
    ensures ok <==> size <= 0x8000_0000
  {
    size <= MaxFileSize
  }

  lemma SizeLimitValue()
    ensures MaxFileSize == 2147483648
    ensures WithinSizeLimit(2147483648) && !WithinSizeLimit(2147483649)
  {
  }
}
