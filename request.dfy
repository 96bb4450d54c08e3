/** WiFiQRCodeImageProvider.requestImage: choose the image size, split the
    id "ssid/password", build the payload, encode it and paint the image.
    qr-metadata.py builds the payload with str.format, qr-stats.py with an
    f-string; Variant says which. */
module Request {
  import opened Layout
  import opened Raster
  import opened Payload

  /** Width and height used when the requested size is not valid. */
  const DefaultSide: nat := 29

  /** The requested size (a QSize): valid when neither side is negative. */
  datatype Size = Size(width: int, height: int) {
    predicate IsValid() { width >= 0 && height >= 0 }
  }

  /** Which of the two scripts builds the payload. */
  datatype Variant = Metadata | Stats

  /** What requestImage derives from its arguments before encoding. */
  datatype Decoded = Decoded(payload: string, width: nat, height: nat)

  /** width = height = 29, replaced by requestedSize's when that is valid. */
  function ImageDimensions(requested: Size): (r: (nat, nat)) {
    if requested.IsValid() then (requested.width, requested.height) else (DefaultSide, DefaultSide)
  }

  /** QR_DATA_FORMAT_STR.format(*ssid_pw), or the f-string over
      ssid_pw[0] and ssid_pw[1]. */
  function BuildPayload(v: Variant, ssidPw: seq<string>): (r: Result<string>) {
    match v
    case Metadata => Format(QrDataFormat, ssidPw)
    case Stats => FStringPayload(ssidPw)
  }

  function DecodeRequest(v: Variant, id: string, requested: Size): (r: Result<Decoded>) {
    var (width, height) := ImageDimensions(requested);
    match BuildPayload(v, SplitOnce(id, '/'))
    case Ok(text) => Ok(Decoded(text, width, height))
    case Err(e) => Err(e)
  }

  // ---------------------------------------------------------------------
  // Properties of request decoding

  /** An id fails exactly when it has no '/', and then with IndexError; the
      size is 29 x 29 unless the requested size is valid. */
  lemma DecodeRequestOutcome(v: Variant, id: string, requested: Size)
    ensures DecodeRequest(v, id, requested).Err? <==> '/' !in id
    ensures DecodeRequest(v, id, requested).Err? ==> DecodeRequest(v, id, requested).error == IndexError
    ensures DecodeRequest(v, id, requested).Ok? ==>
      var d := DecodeRequest(v, id, requested).value;
      if requested.IsValid() then d.width == requested.width && d.height == requested.height
      else d.width == DefaultSide && d.height == DefaultSide
  {
    FormatPayload(SplitOnce(id, '/'));
  }

  /** The payload is the Wi-Fi text of the SSID before the first '/' and the
      password after it, for any split of the id whose SSID has no '/'. */
  lemma DecodeRequestPayload(v: Variant, id: string, requested: Size, ssid: string, pw: string)
    requires '/' !in ssid && ssid + "/" + pw == id
    ensures DecodeRequest(v, id, requested).Ok?
    ensures DecodeRequest(v, id, requested).value.payload == WifiPayload(ssid, pw)
  {
    SplitOnceUnique(ssid, pw, '/');
    FormatPayload([ssid, pw]);
  }

  /** Both scripts decode every request the same way. */
  lemma VariantsAgree(id: string, requested: Size)
    ensures DecodeRequest(Metadata, id, requested) == DecodeRequest(Stats, id, requested)
  {
    PayloadStylesAgree(SplitOnce(id, '/'));
  }

  // ---------------------------------------------------------------------
  // The provider entry point

  /** requestImage with the QR encoder as a parameter: a malformed id is
      reported as the error it raises, a payload the encoder rejects as the
      encoder's error, and otherwise the result is the image that createImage
      paints from the encoder's grid for the payload. */
  method RequestImage(v: Variant, id: string, requested: Size, encode: string -> Result<ModuleGrid>)
    returns (r: Result<array2<Color>>)
    ensures DecodeRequest(v, id, requested).Err? ==> r == Err(DecodeRequest(v, id, requested).error)
    ensures DecodeRequest(v, id, requested).Ok? && encode(DecodeRequest(v, id, requested).value.payload).Err? ==>
      r == Err(encode(DecodeRequest(v, id, requested).value.payload).error)
    ensures DecodeRequest(v, id, requested).Ok? && encode(DecodeRequest(v, id, requested).value.payload).Ok? ==>
      var d := DecodeRequest(v, id, requested).value;
      var grid := encode(d.payload).value;
      r.Ok? && fresh(r.value) && r.value.Length0 == d.height && r.value.Length1 == d.width &&
      forall py, px :: 0 <= py < d.height && 0 <= px < d.width ==>
        r.value[py, px] == PixelColor(grid, d.width, d.height, px, py)
  {
    var (width, height) := ImageDimensions(requested);
    var ssidPw := SplitOnce(id, '/');
    var text := BuildPayload(v, ssidPw);
    if text.Err? {
      return Err(text.error);
    }
    var qr := encode(text.value);
    if qr.Err? {
      return Err(qr.error);
    }
    var img := CreateImage(qr.value, width, height);
    return Ok(img);
  }
}
