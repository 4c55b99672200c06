/**
 * `dataURLtoBlob`: a data URL is split on `,`; the media type is the
 * first capture of the regular expression `:(.*?);` in the header,
 * falling back to `image/png`; the payload is base64-decoded (the host's
 * `atob`, injected here) and copied code unit by code unit into a
 * `Uint8Array` by a count-down loop.
 */
module DataUrl {
  import opened Wrappers
  import opened JsString

  /** An element of a `Uint8Array`. */
  newtype Byte = x: int | 0 <= x < 256

  /** A `Blob` of bytes with its media type. */
  datatype Blob = Blob(bytes: seq<Byte>, mime: string)

  /** The host's `atob`: `None` when it throws on a string that is not base64. */
  type Atob = string -> Option<string>

  const DefaultMime := "image/png"

  /** Name of the exception `atob` throws on malformed input. */
  const InvalidCharacterError := "InvalidCharacterError"

  /** Storing `charCodeAt(k)` into a `Uint8Array` keeps its low eight bits. */
  function ToUint8(c: char): (b: Byte)
    ensures c as int < 256 ==> b as int == c as int
    ensures (c as int - b as int) % 256 == 0
  {
    (c as int % 256) as Byte
  }

  /** The bytes of the `Uint8Array` filled from the decoded string `bstr`, one per character. */
  function BlobBytes(bstr: string): (bytes: seq<Byte>)
    ensures |bytes| == |bstr|
    ensures forall k :: 0 <= k < |bstr| ==> bytes[k] == ToUint8(bstr[k])
  {
    seq(|bstr|, k requires 0 <= k < |bstr| => ToUint8(bstr[k]))
  }

  /** `arr[0]` of `dataUrl.split(",")`: all of the text before the first comma. */
  function Header(dataUrl: string): (h: string)
    ensures StartsWith(dataUrl, h) && ',' !in h
    ensures |h| == |dataUrl| <==> ',' !in dataUrl
    ensures |h| < |dataUrl| ==> dataUrl[|h|] == ','
  {
    SplitFirst(dataUrl, ',');
    Split(dataUrl, ',')[0]
  }

  /**
   * `arr[1]` of `dataUrl.split(",")`: the text between the first comma and the next one (or the
   * end). When there is no comma, `arr[1]` is undefined and `atob` receives the text "undefined".
   */
  function Payload(dataUrl: string): (p: string)
    ensures ',' !in dataUrl ==> p == "undefined"
    ensures ',' in dataUrl ==>
              var start := |Header(dataUrl)| + 1;
              start <= |dataUrl| && StartsWith(dataUrl[start..], p) && ',' !in p &&
              (start + |p| == |dataUrl| || dataUrl[start + |p|] == ',')
  {
    var arr := Split(dataUrl, ',');
    SplitFirst(dataUrl, ',');
    if |arr| > 1 then
      SplitFirst(dataUrl[|arr[0]| + 1..], ',');
      assert arr[1] == arr[1..][0];
      arr[1]
    else "undefined"
  }

  /** Whether `dataURLtoBlob` returns rather than throws: `atob` accepts the payload. */
  predicate Decodes(dataUrl: string, atob: Atob) {
    atob(Payload(dataUrl)).Some?
  }

  // ---------------------------------------------------------------------
  // The regular expression /:(.*?);/

  /** The characters `.` does not match. */
  predicate IsLineTerminator(c: char) {
    c == '\n' || c == '\r' || c == '\U{2028}' || c == '\U{2029}'
  }

  /** `.*?;` started at `k` stops at the semicolon `j`: no semicolon and no line terminator lies before it. */
  ghost predicate LazyReach(h: string, k: nat, j: nat) {
    k <= j < |h| && h[j] == ';' &&
    forall m :: k <= m < j ==> h[m] != ';' && !IsLineTerminator(h[m])
  }

  /** `:(.*?);` matches at `p` and its capture ends before `j`. */
  ghost predicate CaptureAt(h: string, p: nat, j: nat) {
    p < |h| && h[p] == ':' && LazyReach(h, p + 1, j)
  }

  /** The lazy `.*?;` run from `k`: the first `;` before any line terminator, if there is one. */
  function ScanToSemicolon(h: string, k: nat): (r: Option<nat>)
    ensures r.Some? ==> LazyReach(h, k, r.value)
    ensures forall j: nat :: LazyReach(h, k, j) ==> r == Some(j)
    decreases |h| - k
  {
    if k >= |h| then None
    else if h[k] == ';' then Some(k)
    else if IsLineTerminator(h[k]) then None
    else
      var r := ScanToSemicolon(h, k + 1);
      assert forall j: nat :: LazyReach(h, k, j) ==> LazyReach(h, k + 1, j);
      r
  }

  /** Where the first match of the expression starts (the colon) and where its capture ends (the semicolon). */
  datatype Span = Span(colon: nat, semicolon: nat)

  /** Leftmost-match search for `:(.*?);` from position `from`. */
  function FirstCapture(h: string, from: nat): (r: Option<Span>)
    ensures r.Some? ==> from <= r.value.colon && CaptureAt(h, r.value.colon, r.value.semicolon)
    ensures forall p: nat, j: nat :: from <= p && CaptureAt(h, p, j) ==> r.Some? && r.value.colon <= p
    decreases |h| - from
  {
    if from >= |h| then None
    else if h[from] == ':' && ScanToSemicolon(h, from + 1).Some? then
      Some(Span(from, ScanToSemicolon(h, from + 1).value))
    else
      FirstCapture(h, from + 1)
  }

  /** The regular expression's match at a given colon is unique: the capture ends at one semicolon only. */
  lemma CaptureUnique(h: string, p: nat, j: nat, j': nat)
    requires CaptureAt(h, p, j) && CaptureAt(h, p, j')
    ensures j == j'
  {
  }

  /** `arr[0].match(/:(.*?);/)?.[1] || "image/png"`: an absent or empty capture gives `image/png`. */
  function MimeOf(header: string): (mime: string)
    ensures mime != ""
    ensures (forall p: nat, j: nat :: !CaptureAt(header, p, j)) ==> mime == DefaultMime
    ensures forall p: nat, j: nat ::
              CaptureAt(header, p, j) && (forall p': nat, j': nat :: p' < p ==> !CaptureAt(header, p', j')) ==>
              mime == if p + 1 == j then DefaultMime else header[p + 1..j]
  {
    var first := FirstCapture(header, 0);
    forall p: nat, j: nat | CaptureAt(header, p, j) && (forall p': nat, j': nat :: p' < p ==> !CaptureAt(header, p', j'))
      ensures first == Some(Span(p, j))
    {
      CaptureUnique(header, p, j, first.value.semicolon);
    }
    match first
    case None => DefaultMime
    case Some(span) =>
      var captured := header[span.colon + 1..span.semicolon];
      if captured == "" then DefaultMime else captured
  }

  /**
   * The data URL a canvas produces, `data:{mime};base64,{payload}`, is read
   * back as that media type and that payload.
   */
  lemma {:induction false} CanvasDataUrl(mime: string, payload: string)
    requires ';' !in mime && ',' !in mime
    requires forall k :: 0 <= k < |mime| ==> !IsLineTerminator(mime[k])
    requires ',' !in payload
    ensures Header("data:" + mime + ";base64," + payload) == "data:" + mime + ";base64"
    ensures Payload("data:" + mime + ";base64," + payload) == payload
    ensures MimeOf(Header("data:" + mime + ";base64," + payload)) == if mime == "" then DefaultMime else mime
  {
    var header := "data:" + mime + ";base64";
    var url := "data:" + mime + ";base64," + payload;
    assert url == header + [','] + payload;
    assert ',' !in header by {
      forall k | 0 <= k < |header| ensures header[k] != ',' {
        if 5 <= k < 5 + |mime| { assert header[k] == mime[k - 5]; }
      }
    }
    SplitAfterPiece(header, ',', payload);
    SplitWithoutSeparator(payload, ',');
    assert Split(url, ',') == [header, payload];
    var j := 5 + |mime|;
    assert LazyReach(header, 5, j) by {
      forall m | 5 <= m < j ensures header[m] != ';' && !IsLineTerminator(header[m]) {
        assert header[m] == mime[m - 5];
      }
    }
    assert CaptureAt(header, 4, j);
    assert FirstCapture(header, 0) == Some(Span(4, j)) by {
      var r := FirstCapture(header, 0);
      assert forall p :: 0 <= p < 4 ==> header[p] != ':';
      assert r.value.colon == 4;
      CaptureUnique(header, 4, j, r.value.semicolon);
    }
    assert header[5..j] == mime;
  }

  /** A zero-size canvas encodes as `data:,`: the blob type falls back to `image/png` and the payload is empty. */
  lemma EmptyCanvasDataUrl()
    ensures MimeOf(Header("data:,")) == DefaultMime
    ensures Payload("data:,") == ""
  {
  }

  /** `dataURLtoBlob`, throwing (a `Failure`) exactly when `atob` does. */
  method DataUrlToBlob(dataUrl: string, atob: Atob) returns (r: Result<Blob, string>)
    ensures r.Failure? <==> !Decodes(dataUrl, atob)
    ensures r.Failure? ==> r.error == InvalidCharacterError
    ensures r.Success? ==> r.value.mime == MimeOf(Header(dataUrl))
    ensures r.Success? ==> r.value.bytes == BlobBytes(atob(Payload(dataUrl)).value)
  {
    var arr := Split(dataUrl, ',');
    var mime := MimeOf(arr[0]);
    var decoded := atob(if |arr| > 1 then arr[1] else "undefined");
    if decoded.None? {
      return Failure(InvalidCharacterError);
    }
    var bstr := decoded.value;
    var n := |bstr|;
    var u8arr := new Byte[n];
    while n != 0
      invariant 0 <= n <= u8arr.Length == |bstr|
      invariant forall k :: n <= k < u8arr.Length ==> u8arr[k] == ToUint8(bstr[k])
    {
      n := n - 1;
      u8arr[n] := ToUint8(bstr[n]);
    }
    assert u8arr[..] == BlobBytes(bstr);
    return Success(Blob(u8arr[..], mime));
  }
}
