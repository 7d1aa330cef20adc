/** The `Metadata` response model and how pydantic builds it from keyword arguments. */
module Models {
  import opened Errors
  import opened Clock

  /** The fields of a `Metadata` record. `modifiedTime` is kept as a clock reading: its
      rendering with `UTC_FORMAT` on serialisation is not part of this model. */
  datatype Metadata = Metadata(original: string, savedAs: string, contentType: Option<string>,
                               sha256: Option<string>, size: int, modifiedTime: Option<DateTime>)

  /** A keyword argument of a call: left out, or given with a value (possibly `None`). */
  datatype Arg<T> = Omitted | Given(value: T)

  /** `Metadata(original=..., saved_as=..., type=..., sha256=..., size=..., modified_time=...)`.
      Pydantic (version 2, the one `field_serializer` belongs to) treats a field without a
      default as required even when its annotation admits `None`; only `modified_time`
      declares a default. */
  function NewMetadata(original: Arg<string>, savedAs: Arg<string>,
                       contentType: Arg<Option<string>>, sha256: Arg<Option<string>>,
                       size: Arg<int>, modifiedTime: Arg<Option<DateTime>>): (r: Result<Metadata>)
    ensures r.Ok? <==> original.Given? && savedAs.Given? && contentType.Given?
                         && sha256.Given? && size.Given?
    ensures r.Err? ==> r.error == ValidationError
    ensures r.Ok? ==> r.value.original == original.value && r.value.savedAs == savedAs.value
                      && r.value.contentType == contentType.value
                      && r.value.sha256 == sha256.value && r.value.size == size.value
    ensures r.Ok? && modifiedTime.Given? ==> r.value.modifiedTime == modifiedTime.value
    ensures r.Ok? && modifiedTime.Omitted? ==> r.value.modifiedTime == None
  {
    match (original, savedAs, contentType, sha256, size)
    case (Given(o), Given(s), Given(t), Given(h), Given(n)) =>
      Ok(Metadata(o, s, t, h, n, if modifiedTime.Given? then modifiedTime.value else None))
    case _ => Err(ValidationError)
  }
}
