/**
 * The decisions around the two filters: the server handler `onRequestPost`
 * in functions/api/remove-metadata.js (which filter to run, the output type,
 * the download name and the error statuses) and the client entry point
 * `processImage` in metadata-remover/client-processor.js (which filter to run
 * from the leading bytes alone).
 *
 * Form parsing, buffers, Blob and Response objects are left out: an upload
 * is its bytes, its declared MIME type and its file name, and a response is
 * either the cleaned bytes with their headers or an error status with a
 * message. A thrown filter error is the filter's `Failure`.
 */
module ImageDispatch {
  import opened Wrappers
  import opened Bytes
  import Png
  import Jpeg

  const MissingImageMessage: string := "画像ファイルが見つかりません"
  const UnsupportedMessage: string := "この形式は処理できません。PNG または JPEG を使用してください。"
  const ClientUnsupportedMessage: string := "PNG または JPEG 形式のファイルを使用してください"

  /** The `image` form field: its bytes, `type` and `name` (either may be ""). */
  datatype Upload = Upload(bytes: seq<byte>, mimeType: string, name: string)

  /** What the handler answers. */
  datatype Response =
    | Cleaned(body: seq<byte>, contentType: string, filename: string)
    | ErrorResponse(status: int, message: string)

  /** The two filters. */
  datatype Filter = PngFilter | JpegFilter

  /** The first four bytes of the PNG signature, which is all the sniff compares. */
  predicate LooksLikePng(data: seq<byte>)
  {
    |data| >= 4 && data[0] == 137 && data[1] == 80 && data[2] == 78 && data[3] == 71
  }

  /** The two bytes of SOI. */
  predicate LooksLikeJpeg(data: seq<byte>)
  {
    |data| >= 2 && data[0] == 0xFF && data[1] == 0xD8
  }

  /** The handler's choice: the declared type first, then the leading bytes. */
  function ChooseFilter(u: Upload): (f: Option<Filter>)
    ensures u.mimeType == "image/png" ==> f == Some(PngFilter)
    ensures u.mimeType == "image/jpeg" || u.mimeType == "image/jpg" ==> f == Some(JpegFilter)
    ensures f == None <==>
              u.mimeType !in {"image/png", "image/jpeg", "image/jpg"} &&
              !LooksLikePng(u.bytes) && !LooksLikeJpeg(u.bytes)
  {
    if u.mimeType == "image/png" then Some(PngFilter)
    else if u.mimeType == "image/jpeg" || u.mimeType == "image/jpg" then Some(JpegFilter)
    else if LooksLikePng(u.bytes) then Some(PngFilter)
    else if LooksLikeJpeg(u.bytes) then Some(JpegFilter)
    else None
  }

  /** Runs a filter. */
  function RunFilter(f: Filter, data: seq<byte>): Result<seq<byte>, string>
  {
    match f
    case PngFilter => Png.StripPng(data)
    case JpegFilter => Jpeg.StripJpeg(data)
  }

  /** The output type a filter's result is served as. */
  function OutputType(f: Filter): string
  {
    match f
    case PngFilter => "image/png"
    case JpegFilter => "image/jpeg"
  }

  /** The download name: the upload's name, or "image" when it has none, after "cleaned_". */
  function CleanedFilename(name: string): (r: string)
    ensures |r| > |"cleaned_"| && r[..|"cleaned_"|] == "cleaned_"
    ensures name != "" ==> r[|"cleaned_"|..] == name
    ensures name == "" ==> r[|"cleaned_"|..] == "image"
  {
    "cleaned_" + (if name == "" then "image" else name)
  }

  /**
   * `onRequestPost` as a decision: 400 without an image, 400 for a type it
   * cannot recognise, 500 with the filter's message when the filter throws,
   * and otherwise the cleaned bytes under the output type and the new name.
   */
  function OnRequestPost(upload: Option<Upload>): (r: Response)
    ensures upload.None? ==> r == ErrorResponse(400, MissingImageMessage)
    ensures r.ErrorResponse? ==> r.status == 400 || r.status == 500
    ensures r.Cleaned? ==> upload.Some? && r.filename == CleanedFilename(upload.value.name)
  {
    match upload
    case None => ErrorResponse(400, MissingImageMessage)
    case Some(u) =>
      match ChooseFilter(u)
      case None => ErrorResponse(400, UnsupportedMessage)
      case Some(f) =>
        match RunFilter(f, u.bytes)
        case Failure(message) => ErrorResponse(500, message)
        case Success(cleaned) => Cleaned(cleaned, OutputType(f), CleanedFilename(u.name))
  }

  /** `processImage`: the leading bytes alone choose the filter; anything else throws. */
  function ProcessImage(data: seq<byte>): (r: Result<(seq<byte>, string), string>)
    ensures !LooksLikePng(data) && !LooksLikeJpeg(data) ==> r == Failure(ClientUnsupportedMessage)
    ensures r.Success? ==> r.value.1 == "image/png" || r.value.1 == "image/jpeg"
    ensures LooksLikePng(data) ==>
              (r.Success? <==> Png.StripPng(data).Success?) &&
              (r.Success? ==> r.value == (Png.StripPng(data).value, "image/png")) &&
              (r.Failure? ==> r.error == Png.StripPng(data).error)
    ensures !LooksLikePng(data) && LooksLikeJpeg(data) ==>
              Jpeg.StripJpeg(data).Success? && r == Success((Jpeg.StripJpeg(data).value, "image/jpeg"))
  {
    if LooksLikePng(data) then
      match Png.StripPng(data)
      case Failure(message) => Failure(message)
      case Success(cleaned) => Success((cleaned, "image/png"))
    else if LooksLikeJpeg(data) then
      match Jpeg.StripJpeg(data)
      case Failure(message) => Failure(message)
      case Success(cleaned) => Success((cleaned, "image/jpeg"))
    else Failure(ClientUnsupportedMessage)
  }

  /* ---------------------------------------------------------------------- */
  /* Outcomes                                                               */
  /* ---------------------------------------------------------------------- */

  /**
   * A declared `image/png` always runs the PNG filter, whatever the bytes:
   * the cleaned PNG when the signature is there, otherwise 500 with the PNG
   * filter's message.
   */
  lemma DeclaredPng(u: Upload)
    requires u.mimeType == "image/png"
    ensures Png.HasSignature(u.bytes) ==>
              OnRequestPost(Some(u)) == Cleaned(Png.StripPng(u.bytes).value, "image/png", CleanedFilename(u.name))
    ensures !Png.HasSignature(u.bytes) ==> OnRequestPost(Some(u)) == ErrorResponse(500, Png.NotPngMessage)
  {
  }

  /** A declared `image/jpeg` or `image/jpg` always runs the JPEG filter and is served as `image/jpeg`. */
  lemma DeclaredJpeg(u: Upload)
    requires u.mimeType == "image/jpeg" || u.mimeType == "image/jpg"
    ensures Jpeg.HasSoi(u.bytes) ==>
              OnRequestPost(Some(u)) == Cleaned(Jpeg.StripJpeg(u.bytes).value, "image/jpeg", CleanedFilename(u.name))
    ensures !Jpeg.HasSoi(u.bytes) ==> OnRequestPost(Some(u)) == ErrorResponse(500, Jpeg.NotJpegMessage)
  {
  }

  /**
   * Under any other declared type the leading bytes decide: 137 80 78 71
   * selects PNG, FF D8 selects JPEG, and anything else is refused with 400.
   */
  lemma SniffedType(u: Upload)
    requires u.mimeType !in {"image/png", "image/jpeg", "image/jpg"}
    ensures LooksLikePng(u.bytes) ==> ChooseFilter(u) == Some(PngFilter)
    ensures !LooksLikePng(u.bytes) && LooksLikeJpeg(u.bytes) ==> ChooseFilter(u) == Some(JpegFilter)
    ensures !LooksLikePng(u.bytes) && !LooksLikeJpeg(u.bytes) ==>
              OnRequestPost(Some(u)) == ErrorResponse(400, UnsupportedMessage)
  {
  }

  /** A 500 answer happens exactly when the chosen filter rejects the bytes. */
  lemma ServerErrorIffFilterFails(u: Upload)
    ensures OnRequestPost(Some(u)).ErrorResponse? && OnRequestPost(Some(u)).status == 500
            <==> ChooseFilter(u).Some? && RunFilter(ChooseFilter(u).value, u.bytes).Failure?
  {
  }

  /**
   * The body of a successful answer is the upload's bytes with bytes deleted,
   * so it is never longer than the upload.
   */
  lemma CleanedIsSubsequence(u: Upload)
    requires OnRequestPost(Some(u)).Cleaned?
    ensures IsSubsequence(OnRequestPost(Some(u)).body, u.bytes)
    ensures |OnRequestPost(Some(u)).body| <= |u.bytes|
  {
    var f := ChooseFilter(u).value;
    if f == PngFilter {
      Png.PngOutputSubsequence(u.bytes);
    } else {
      Jpeg.JpegOutputSubsequence(u.bytes);
    }
  }

  /** Once the sniff has picked PNG, a mismatch in signature bytes 4..7 makes the filter throw. */
  lemma SniffPassesFilterFails(data: seq<byte>)
    requires LooksLikePng(data) && !Png.HasSignature(data)
    ensures ProcessImage(data) == Failure(Png.NotPngMessage)
    ensures OnRequestPost(Some(Upload(data, "", ""))) == ErrorResponse(500, Png.NotPngMessage)
  {
  }

  /** Four bytes that pass the sniff are still not a PNG. */
  lemma ShortPngPrefixFails()
    ensures LooksLikePng([137, 80, 78, 71])
    ensures ProcessImage([137, 80, 78, 71]) == Failure(Png.NotPngMessage)
  {
    SniffPassesFilterFails([137, 80, 78, 71]);
  }

  /** `processImage` and the handler agree whenever the declared type says nothing. */
  lemma ClientMatchesServer(data: seq<byte>, name: string)
    requires LooksLikePng(data) || LooksLikeJpeg(data)
    ensures ProcessImage(data).Success? <==> OnRequestPost(Some(Upload(data, "", name))).Cleaned?
    ensures ProcessImage(data).Success? ==>
              OnRequestPost(Some(Upload(data, "", name))).body == ProcessImage(data).value.0 &&
              OnRequestPost(Some(Upload(data, "", name))).contentType == ProcessImage(data).value.1
  {
  }
}
