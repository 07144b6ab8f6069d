/** Recovering the session cookie from a request's `Cookie` header. */
module SessionCookie {
  import opened Wrappers
  import opened Machine
  import opened Text

  /** The text a segment must contain to be taken as the session cookie. */
  const AUTH_MARKER: string := "Authorization"

  /** The three ways extraction fails, each answered with its own HTTP response. */
  datatype CookieError =
    | NoHeader          // no `Cookie` header at all
    | NotVisibleAscii   // the header's bytes are not all visible ASCII
    | NoAuthCookie      // no segment mentions the session cookie

  /** The HTTP status of the response built for each error. */
  function StatusCode(e: CookieError): (code: int)
    ensures code == 500 <==> e.NotVisibleAscii?
    ensures code != 500 ==> code == 401
  {
    match e
    case NoHeader => 401
    case NotVisibleAscii => 500
    case NoAuthCookie => 401
  }

  /** The message of the JSON body built for each error; for `NotVisibleAscii`
      it is the text of the header library's conversion error. No message is
      empty. */
  function Message(e: CookieError): (m: string)
    ensures m != ""
  {
    match e
    case NoHeader => "Cookie is not set"
    case NotVisibleAscii => "failed to convert header to a str"
    case NoAuthCookie => "Auth Cookie is not set"
  }

  /** No two errors share a message, so the two 401 responses can be told apart
      by their bodies. */
  lemma MessagesDistinguishErrors(a: CookieError, b: CookieError)
    requires Message(a) == Message(b)
    ensures a == b
  {
  }

  /** The bytes `HeaderValue::to_str` accepts: printable ASCII and tab. */
  predicate IsVisibleAscii(b: byte) {
    (32 <= b < 127) || b == 9
  }

  /** `HeaderValue::to_str`: the header as text when every byte is visible
      ASCII, one character per byte. */
  function HeaderText(header: seq<byte>): (r: Option<string>)
    ensures r.Some? <==> forall k :: 0 <= k < |header| ==> IsVisibleAscii(header[k])
    ensures r.Some? ==> |r.value| == |header|
    ensures r.Some? ==> forall k :: 0 <= k < |header| ==> r.value[k] as int == header[k]
  {
    if forall k :: 0 <= k < |header| ==> IsVisibleAscii(header[k])
    then Some(seq(|header|, k requires 0 <= k < |header| => header[k] as char))
    else None
  }

  /** Segment `i` is the first of `segments` that contains the marker. */
  predicate FirstMarked(segments: seq<string>, i: int) {
    && 0 <= i < |segments|
    && Contains(segments[i], AUTH_MARKER)
    && forall j :: 0 <= j < i ==> !Contains(segments[j], AUTH_MARKER)
  }

  /** `r` is what searching `segments` must give: the trimmed first segment
      that contains the marker, or `NoAuthCookie` when none does. */
  ghost predicate SearchResult(segments: seq<string>, r: Result<string, CookieError>) {
    && (r.Ok? ==> exists i :: FirstMarked(segments, i) && r.value == Trim(segments[i]))
    && (r.Err? ==> r.error == NoAuthCookie
                   && forall i :: 0 <= i < |segments| ==> !Contains(segments[i], AUTH_MARKER))
  }

  /** A result of extraction never loses the marker to trimming. */
  lemma TrimKeepsMarker(segment: string)
    requires Contains(segment, AUTH_MARKER)
    ensures Contains(Trim(segment), AUTH_MARKER)
  {
    var i: nat :| i <= |segment| && OccursAt(segment, AUTH_MARKER, i);
    TrimKeepsOccurrence(segment, AUTH_MARKER, i);
  }

  /** `extract_auth_cookie`: split the header text on `;` and return the first
      segment that contains "Authorization", trimmed. Matching is by substring,
      so the segment found need not be the cookie named `Authorization`. */
  method ExtractAuthCookie(header: Option<seq<byte>>) returns (r: Result<string, CookieError>)
    ensures header.None? ==> r == Err(NoHeader)
    ensures header.Some? && HeaderText(header.value).None? ==> r == Err(NotVisibleAscii)
    ensures header.Some? && HeaderText(header.value).Some? ==>
      SearchResult(Split(HeaderText(header.value).value, ';'), r)
    ensures r.Ok? ==> Contains(r.value, AUTH_MARKER) && ';' !in r.value && Trimmed(r.value)
  {
    if header.None? {
      return Err(NoHeader);
    }
    var text := HeaderText(header.value);
    if text.None? {
      return Err(NotVisibleAscii);
    }
    var segments := Split(text.value, ';');
    var i := 0;
    while i < |segments|
      invariant 0 <= i <= |segments|
      invariant forall j :: 0 <= j < i ==> !Contains(segments[j], AUTH_MARKER)
    {
      if Contains(segments[i], AUTH_MARKER) {
        TrimKeepsMarker(segments[i]);
        r := Ok(Trim(segments[i]));
        assert FirstMarked(segments, i) && r.value == Trim(segments[i]);
        assert SearchResult(segments, r);
        return;
      }
      i := i + 1;
    }
    return Err(NoAuthCookie);
  }

  /** Matching is by containment: a segment whose value merely mentions the
      marker is taken, and so is one whose name embeds it. */
  lemma SubstringMatchAccepted()
    ensures Contains("foo=xAuthorizationy", AUTH_MARKER)
    ensures Contains("xAuthorizationy=1", AUTH_MARKER)
  {
    assert OccursAt("foo=xAuthorizationy", AUTH_MARKER, 5);
    assert OccursAt("xAuthorizationy=1", AUTH_MARKER, 1);
  }
}
