/**
 * The upload validators: an allowlist of content types and an upper
 * bound on the byte size. Both return the file unchanged on acceptance.
 */
module ImageValidations {
  import opened Results

  /** What the upload handler knows of an uploaded file. */
  datatype UploadedFile = UploadedFile(name: string, contentType: string, size: nat)

  datatype ImageError =
    | NoFile
    | TooLarge(limit: int)
    | UnsupportedType
  {
    /** The fixed messages; the size error's text renders its limit and is not modelled. */
    function FixedMessage(): Option<string> {
      match this
      case NoFile => Some("No file provided.")
      case UnsupportedType => Some("Unsupported file type. Only JPEG, PNG, and GIF are allowed.")
      case TooLarge(_) => None
    }
  }

  /**
   * The accepted content types, compared as exact strings against the file's
   * `content_type`, which field decoding sets to the detected format's MIME type.
   */
  const AllowedContentTypes: seq<string> := ["image/jpeg", "image/png", "image/jpg", "image/gif"]

  const MiB: nat := 1024 * 1024

  /** The default size bound: 5 MiB. */
  const DefaultMaxSize: int := 5 * MiB

  lemma DefaultMaxSizeIsFiveMiB()
    ensures DefaultMaxSize == 5_242_880
  {
  }

  function ValidateImageType(f: UploadedFile): (r: Result<UploadedFile, ImageError>)
    ensures r.Ok? <==>
      f.contentType == "image/jpeg" || f.contentType == "image/png" ||
      f.contentType == "image/jpg" || f.contentType == "image/gif"
    ensures r.Ok? ==> r.value == f
    ensures r.Err? ==> r.error == UnsupportedType
  {
    if f.contentType !in AllowedContentTypes then Err(UnsupportedType) else Ok(f)
  }

  /** Accepts sizes up to and including `maxSize`. */
  function ValidateImageSize(f: UploadedFile, maxSize: int): (r: Result<UploadedFile, ImageError>)
    ensures r.Ok? <==> f.size <= maxSize
    ensures r.Ok? ==> r.value == f
    ensures r.Err? ==> r.error == TooLarge(maxSize)
  {
    if f.size > maxSize then Err(TooLarge(maxSize)) else Ok(f)
  }

  /** Acceptance by size is downward closed: a smaller file of an accepted one is accepted. */
  lemma SizeAcceptanceDownwardClosed(f: UploadedFile, g: UploadedFile, maxSize: int)
    requires ValidateImageSize(f, maxSize).Ok?
    requires g.size <= f.size
    ensures ValidateImageSize(g, maxSize).Ok?
  {
  }

  /** Matching is case sensitive and exact. */
  lemma ContentTypeMatchIsExact(name: string, size: nat)
    ensures ValidateImageType(UploadedFile(name, "image/JPEG", size)).Err?
    ensures ValidateImageType(UploadedFile(name, "application/pdf", size)).Err?
    ensures ValidateImageType(UploadedFile(name, "image/png ", size)).Err?
  {
  }
}
