/**
 * The server's check of an image message: the payload must be a data URI of
 * an image with a base64 section, and the size it decodes to, estimated from
 * the length of the base64 text and its `=` padding, must not exceed 5 MiB.
 * The payload is never decoded; a valid one is relayed as it came.
 */
module ImagePayload {
  import opened Wrappers
  import opened Text

  const MaxImageBytes: nat := 5 * 1024 * 1024
  const ImagePrefix: string := "data:image/"
  const Base64Marker: string := "base64,"
  const InvalidImage: string := "Invalid image payload."
  const ImageTooLarge: string := "Image too large. Max 5MB."

  /** `data.split('base64,')[1] || ''`: the text after the first marker, up
      to the next marker. */
  function Base64Part(data: string): string {
    match IndexOf(data, Base64Marker)
    case None => ""
    case Some(i) => UpToMarker(data[i + |Base64Marker|..])
  }

  /** The text before the first marker, or all of it. */
  function UpToMarker(rest: string): string {
    match IndexOf(rest, Base64Marker)
    case None => rest
    case Some(j) => rest[..j]
  }

  /** What is kept is a prefix that holds no marker and ends at a marker or
      at the end. */
  lemma UpToMarkerSpec(rest: string)
    ensures var b := UpToMarker(rest);
            && |b| <= |rest| && b == rest[..|b|]
            && !Contains(b, Base64Marker)
            && (|b| == |rest| || OccursAt(rest, Base64Marker, |b|))
  {
    if IndexOf(rest, Base64Marker).Some? {
      var j := IndexOf(rest, Base64Marker).value;
      forall k: nat | OccursAt(rest[..j], Base64Marker, k)
        ensures OccursAt(rest, Base64Marker, k)
      {
        assert rest[..j][k..k + |Base64Marker|] == rest[k..k + |Base64Marker|];
      }
    } else {
      assert rest[..|rest|] == rest;
    }
  }

  /** The base64 section is the text after the first marker, up to the next
      marker or the end, and holds no marker; it is empty when there is no
      marker. */
  lemma Base64PartSpec(data: string)
    ensures IndexOf(data, Base64Marker).None? ==> Base64Part(data) == ""
    ensures IndexOf(data, Base64Marker).Some? ==>
              var b := Base64Part(data);
              var start := IndexOf(data, Base64Marker).value + |Base64Marker|;
              && start + |b| <= |data| && b == data[start..start + |b|]
              && !Contains(b, Base64Marker)
              && (start + |b| == |data| || OccursAt(data, Base64Marker, start + |b|))
  {
    if IndexOf(data, Base64Marker).Some? {
      var start := IndexOf(data, Base64Marker).value + |Base64Marker|;
      var rest := data[start..];
      var b := UpToMarker(rest);
      UpToMarkerSpec(rest);
      assert rest == data[start..|data|];
      SliceOfSlice(data, start, |data|, 0, |b|);
      assert b == rest[0..|b|];
      if start + |b| < |data| {
        SliceOfSlice(data, start, |data|, |b|, |b| + |Base64Marker|);
      }
    }
  }

  /** Two for a trailing `==`, one for a trailing `=`, else none. */
  function Padding(b: string): nat {
    if EndsWith(b, "==") then 2 else if EndsWith(b, "=") then 1 else 0
  }

  /** `Math.max(0, Math.floor(len * 3 / 4) - padding)`. */
  function ApproxBytes(b: string): nat {
    var q := |b| * 3 / 4;
    if q >= Padding(b) then q - Padding(b) else 0
  }

  /** The image branch of `send_message`: an error string, or the payload to
      relay unchanged. */
  function CheckImage(data: string): Result<string, string> {
    if !StartsWith(data, ImagePrefix) || !Contains(data, Base64Marker) then Err(InvalidImage)
    else if ApproxBytes(Base64Part(data)) > MaxImageBytes then Err(ImageTooLarge)
    else Ok(data)
  }

  /** A payload is relayed exactly as it came, or refused as invalid when it
      is not an image data URI with a base64 marker, or refused as too large
      when it is one and its estimated size exceeds 5 MiB. */
  lemma CheckImageSpec(data: string)
    ensures CheckImage(data).Ok? ==> CheckImage(data).value == data
    ensures CheckImage(data) == Err(InvalidImage) <==> !StartsWith(data, ImagePrefix) || !Contains(data, Base64Marker)
    ensures CheckImage(data) == Err(ImageTooLarge) <==>
              StartsWith(data, ImagePrefix) && Contains(data, Base64Marker)
              && ApproxBytes(Base64Part(data)) > MaxImageBytes
    ensures CheckImage(data).Ok? || CheckImage(data) == Err(InvalidImage) || CheckImage(data) == Err(ImageTooLarge)
  {
  }

  /** The base64 alphabet of section 4 of RFC 4648. */
  predicate IsBase64Char(c: char) {
    'A' <= c <= 'Z' || 'a' <= c <= 'z' || '0' <= c <= '9' || c == '+' || c == '/'
  }

  /** Section 4 of RFC 4648: `n` bytes encode to four characters per started
      group of three bytes, the last group padded with `=` to four. */
  function EncodedLength(n: nat): nat {
    4 * ((n + 2) / 3)
  }

  function PadCount(n: nat): nat {
    (3 - n % 3) % 3
  }

  /** `b` has the shape of the base64 encoding of `n` bytes. */
  ghost predicate IsEncodingOf(b: string, n: nat) {
    && |b| == EncodedLength(n)
    && PadCount(n) <= |b|
    && (forall i :: 0 <= i < |b| - PadCount(n) ==> IsBase64Char(b[i]))
    && (forall i :: |b| - PadCount(n) <= i < |b| ==> b[i] == '=')
  }

  /** On a well-formed encoding the estimate is exact: it is the number of
      bytes that were encoded. */
  lemma ApproxBytesOfEncoding(b: string, n: nat)
    requires IsEncodingOf(b, n)
    ensures ApproxBytes(b) == n
  {
    var q, r := n / 3, n % 3;
    assert n == 3 * q + r;
    var len := |b|;
    if r == 0 {
      assert len == 4 * q;
      assert len * 3 / 4 == 3 * q;
      if len > 0 {
        assert IsBase64Char(b[len - 1]);
        assert b[len - 1..] == [b[len - 1]];
        assert b[len - 2..][1] == b[len - 1];
      }
      assert Padding(b) == 0;
    } else if r == 1 {
      assert len == 4 * q + 4;
      assert len * 3 / 4 == 3 * q + 3;
      assert b[len - 2..] == "==";
      assert Padding(b) == 2;
    } else {
      assert len == 4 * q + 4;
      assert len * 3 / 4 == 3 * q + 3;
      assert IsBase64Char(b[len - 2]);
      assert b[len - 2..][0] == b[len - 2];
      assert b[len - 1..] == "=";
      assert Padding(b) == 1;
    }
  }

  /** The data URI a browser builds for an image file of type `mime`. */
  function DataUri(mime: string, b: string): string {
    "data:" + mime + ";" + Base64Marker + b
  }

  lemma NoMarkerBeforeBase64(mime: string, b: string, j: nat)
    requires !Contains(mime, Base64Marker)
    requires j < |"data:" + mime + ";"|
    ensures !OccursAt(DataUri(mime, b), Base64Marker, j)
  {
    var data := DataUri(mime, b);
    var p := |"data:" + mime|;
    if j + 7 <= |data| {
      if j + 7 <= p {
        if j < 5 {
          assert data[j..j + 7][0] == "data:"[j] != Base64Marker[0];
        } else {
          ContainsIffOccurs(mime, Base64Marker);
          assert !OccursAt(mime, Base64Marker, j - 5);
          assert mime[j - 5..j + 2] == data[j..j + 7];
        }
      } else {
        assert data[j..j + 7][p - j] == data[p] == ';';
      }
    }
  }

  /** In a browser data URI the base64 section is exactly the encoded text. */
  lemma Base64PartOfDataUri(mime: string, b: string)
    requires !Contains(mime, Base64Marker)
    requires forall i :: 0 <= i < |b| ==> IsBase64Char(b[i]) || b[i] == '='
    ensures Base64Part(DataUri(mime, b)) == b
  {
    var data := DataUri(mime, b);
    var p := |"data:" + mime + ";"|;
    assert data[p..p + 7] == Base64Marker;
    assert OccursAt(data, Base64Marker, p);
    forall j: nat | j < p
      ensures !OccursAt(data, Base64Marker, j)
    {
      NoMarkerBeforeBase64(mime, b, j);
    }
    assert IndexOf(data, Base64Marker) == Some(p);
    assert data[p + 7..] == b;
    forall k: nat | k + 7 <= |b|
      ensures !OccursAt(b, Base64Marker, k)
    {
      assert b[k..k + 7][6] == b[k + 6] != ',';
    }
    ContainsIffOccurs(b, Base64Marker);
  }

  /** A browser-encoded image of `n` bytes passes the server's check exactly
      when `n` is at most 5 MiB; a larger one is refused as too large. */
  lemma CheckImageOfEncodedFile(mime: string, b: string, n: nat)
    requires StartsWith(mime, "image/")
    requires !Contains(mime, Base64Marker)
    requires IsEncodingOf(b, n)
    ensures CheckImage(DataUri(mime, b)) ==
              if n <= MaxImageBytes then Ok(DataUri(mime, b)) else Err(ImageTooLarge)
  {
    var data := DataUri(mime, b);
    assert data[..|ImagePrefix|] == ImagePrefix;
    Base64PartOfDataUri(mime, b);
    ApproxBytesOfEncoding(b, n);
    var p := |"data:" + mime + ";"|;
    assert data[p..p + 7] == Base64Marker;
    assert OccursAt(data, Base64Marker, p);
  }

  /** The boundary: exactly 5 MiB is relayed, one byte more is refused. */
  lemma CheckImageBoundary(mime: string, b: string, b': string)
    requires StartsWith(mime, "image/") && !Contains(mime, Base64Marker)
    requires IsEncodingOf(b, MaxImageBytes) && IsEncodingOf(b', MaxImageBytes + 1)
    ensures CheckImage(DataUri(mime, b)).Ok?
    ensures CheckImage(DataUri(mime, b')) == Err(ImageTooLarge)
  {
    CheckImageOfEncodedFile(mime, b, MaxImageBytes);
    CheckImageOfEncodedFile(mime, b', MaxImageBytes + 1);
  }
}
