/**
 * The image upload serializer: the validation order of an upload and the
 * owner-attachment rule of its creation.
 */
module ImageSerializers {
  import opened Results
  import opened Accounts
  import opened ImageValidations

  /** The validated attributes of an upload: the `original` file, if one came. */
  datatype UploadAttrs = UploadAttrs(original: Option<UploadedFile>)

  /** The user attached to a request: a signed-in member or an anonymous visitor. */
  datatype RequestUser = Member(id: UserId) | AnonymousVisitor {
    predicate IsAuthenticated() { Member? }
  }

  /** The arguments the image row is created with. */
  datatype ImageCreate = ImageCreate(owner: Option<UserId>, original: Option<UploadedFile>)

  /** A missing file first, then the size bound, then the content type. */
  function ValidateUpload(attrs: UploadAttrs): (r: Result<UploadAttrs, ImageError>)
    ensures attrs.original.None? ==> r == Err(NoFile)
    ensures r.Err? && r.error != TooLarge(DefaultMaxSize) ==>
      r.error.FixedMessage() == Some(if attrs.original.None? then "No file provided."
                                     else "Unsupported file type. Only JPEG, PNG, and GIF are allowed.")
    ensures attrs.original.Some? && attrs.original.value.size > DefaultMaxSize ==> r == Err(TooLarge(DefaultMaxSize))
    ensures r.Ok? <==> (attrs.original.Some? &&
                        ValidateImageSize(attrs.original.value, DefaultMaxSize).Ok? &&
                        ValidateImageType(attrs.original.value).Ok?)
    ensures r.Ok? ==> r.value == attrs
    ensures r.Err? && attrs.original.Some? && attrs.original.value.size <= DefaultMaxSize ==>
      r.error == UnsupportedType
  {
    match attrs.original
    case None => Err(NoFile)
    case Some(file) =>
      match ValidateImageSize(file, DefaultMaxSize)
      case Err(e) => Err(e)
      case Ok(_) =>
        match ValidateImageType(file)
        case Err(e) => Err(e)
        case Ok(_) => Ok(attrs)
  }

  /** The owner is the requester exactly when a requester is present and signed in. */
  function CreateImage(validated: UploadAttrs, requester: Option<RequestUser>): (c: ImageCreate)
    ensures c.original == validated.original
    ensures c.owner.Some? <==> requester.Some? && requester.value.IsAuthenticated()
    ensures c.owner.Some? ==> requester.value == Member(c.owner.value)
  {
    if requester.Some? && requester.value.IsAuthenticated() then
      ImageCreate(Some(requester.value.id), validated.original)
    else
      ImageCreate(None, validated.original)
  }

  /** Validation then creation: an upload that fails validation creates nothing. */
  function Upload(attrs: UploadAttrs, requester: Option<RequestUser>): (r: Result<ImageCreate, ImageError>)
    ensures r.Ok? <==> ValidateUpload(attrs).Ok?
    ensures r.Ok? ==> r.value.original == attrs.original && r.value == CreateImage(attrs, requester)
  {
    match ValidateUpload(attrs)
    case Err(e) => Err(e)
    case Ok(v) => Ok(CreateImage(v, requester))
  }

  /** An oversized file of a disallowed type reports the size error. */
  lemma SizeCheckedBeforeType(f: UploadedFile)
    requires f.size > DefaultMaxSize
    ensures ValidateUpload(UploadAttrs(Some(f))) == Err(TooLarge(DefaultMaxSize))
  {
  }

  /** A PDF is rejected, a 6 MiB JPEG is rejected, a 100 KiB PNG under any name passes `validate`. */
  lemma UploadExamples(name: string)
    ensures ValidateUpload(UploadAttrs(Some(UploadedFile(name, "application/pdf", 1024)))) == Err(UnsupportedType)
    ensures ValidateUpload(UploadAttrs(Some(UploadedFile(name, "image/jpeg", 6 * MiB)))) == Err(TooLarge(DefaultMaxSize))
    ensures ValidateUpload(UploadAttrs(Some(UploadedFile(name, "image/png", 100 * 1024)))).Ok?
  {
  }
}
