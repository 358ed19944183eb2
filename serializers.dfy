/**
 * `FileUploadSerializer`: the fields of an upload request, the checks the
 * REST framework's `FileField`, `CharField` and `ListField` make on them,
 * their defaults, and the two field validators. A field that fails
 * produces a `FieldError` for that field; the form is valid when no field
 * failed.
 */
module Serializers {
  import opened Wrappers
  import opened PyStr
  import opened Validators

  /** The raw form: a field that was not sent is `None`. */
  datatype UploadForm = UploadForm(
    file: Option<UploadedFile>,
    langIso: Option<string>,
    detectIcuPlurals: Option<bool>,
    tags: Option<seq<string>>)

  /** `serializer.validated_data`. */
  datatype UploadParams = UploadParams(
    file: UploadedFile,
    langIso: string,
    detectIcuPlurals: bool,
    tags: seq<string>)

  /** A missing field, a refused field, or a refused item of a list field. */
  datatype FieldError =
    | Required(field: string)
    | Invalid(field: string, message: string)
    | InvalidItem(field: string, index: nat, message: string)

  /** `10 * 1024 * 1024` */
  const UploadLimitBytes: int := 10 * 1024 * 1024

  const FileSizeMessage: string := "File size cannot exceed 10MB"

  /** The REST framework's messages for a file without a name and for an empty file. */
  const NoFilenameMessage: string := "No filename could be determined."
  const EmptyFileMessage: string := "The submitted file is empty."

  /** The REST framework's messages for a blank text and for a text holding a NUL character. */
  const BlankMessage: string := "This field may not be blank."
  const NullCharMessage: string := "Null characters are not allowed."

  /** `validate_file`: the file itself, unless it is larger than 10 MiB. */
  function ValidateFile(f: UploadedFile): (r: Result<UploadedFile, string>)
    ensures r.Ok? <==> f.size <= UploadLimitBytes
    ensures r.Ok? ==> r.value == f
    ensures r.Err? ==> r.error == FileSizeMessage
  {
    if f.size > UploadLimitBytes then Err(FileSizeMessage) else Ok(f)
  }

  /** `validate_lang_iso`: the value lower-cased. */
  function ValidateLangIso(v: string): (r: string)
    ensures |r| == |v| && IsLowercase(r)
    ensures forall i :: 0 <= i < |v| ==> r[i] == LowerChar(v[i])
  {
    LowerFacts(v);
    Lower(v)
  }

  /**
   * `FileField` (empty files not allowed), then `validate_file`: a file
   * without a name, an empty file and a file over the limit are refused.
   */
  function FileFieldValue(f: UploadedFile): (r: Result<UploadedFile, string>)
    ensures r.Ok? <==> f.name != [] && f.size != 0 && f.size <= UploadLimitBytes
    ensures r.Ok? ==> r.value == f
    ensures r.Err? ==> r.error == (if f.name == [] then NoFilenameMessage
                                   else if f.size == 0 then EmptyFileMessage
                                   else FileSizeMessage)
  {
    if f.name == [] then Err(NoFilenameMessage)
    else if f.size == 0 then Err(EmptyFileMessage)
    else ValidateFile(f)
  }

  /**
   * `CharField` (blank not allowed, whitespace trimmed): a text that is
   * blank once stripped is refused, then a stripped text holding a NUL
   * character; otherwise the stripped text.
   */
  function CharFieldValue(v: string): (r: Result<string, string>)
    ensures r.Ok? <==> !AllSpace(v) && '\0' !in Strip(v)
    ensures r.Ok? ==> r.value == Strip(v) && r.value != []
    ensures r.Err? ==> r.error == (if AllSpace(v) then BlankMessage else NullCharMessage)
  {
    var s := Strip(v);
    if s == [] then Err(BlankMessage)
    else if '\0' in s then Err(NullCharMessage)
    else Ok(s)
  }

  /** The errors of the `file` field: required, then the `FileField` checks and `validate_file`. */
  function FileErrors(file: Option<UploadedFile>): seq<FieldError> {
    match file
    case None => [Required("file")]
    case Some(f) =>
      match FileFieldValue(f)
      case Err(m) => [Invalid("file", m)]
      case Ok(_) => []
  }

  /** The errors of the `lang_iso` field: required, then the `CharField` checks. */
  function LangIsoErrors(langIso: Option<string>): seq<FieldError> {
    match langIso
    case None => [Required("lang_iso")]
    case Some(v) =>
      match CharFieldValue(v)
      case Err(m) => [Invalid("lang_iso", m)]
      case Ok(_) => []
  }

  /**
   * `ListField`: the errors of the items of `field` that `child` refuses,
   * each with its position, in list order.
   */
  function ListFieldErrors(field: string, items: seq<string>, child: string -> Result<string, string>): seq<FieldError> {
    if items == [] then []
    else
      var i := |items| - 1;
      ListFieldErrors(field, items[..i], child)
      + match child(items[i])
        case Err(m) => [InvalidItem(field, i, m)]
        case Ok(_) => []
  }

  /** The errors of the `tags` list, whose items are checked as a `CharField`. */
  function TagErrors(tags: seq<string>): seq<FieldError> {
    ListFieldErrors("tags", tags, CharFieldValue)
  }

  /** The tags as validated: each one stripped. */
  function CleanTags(tags: seq<string>): (r: seq<string>)
    ensures |r| == |tags|
  {
    seq(|tags|, i requires 0 <= i < |tags| => Strip(tags[i]))
  }

  /**
   * `serializer.is_valid()` and `validated_data`: every failing field is
   * reported, in the order file, lang_iso, tags.
   */
  function Validate(form: UploadForm): Result<UploadParams, seq<FieldError>> {
    var errors := FileErrors(form.file) + LangIsoErrors(form.langIso) + TagErrors(form.tags.GetOr([]));
    if errors != [] then Err(errors)
    else
      Ok(UploadParams(
        FileFieldValue(form.file.value).value,
        ValidateLangIso(CharFieldValue(form.langIso.value).value),
        form.detectIcuPlurals.GetOr(true),
        CleanTags(form.tags.GetOr([]))))
  }

  // ---------------------------------------------------------------------
  // Properties

  /** Whether a text passes `CharField`: not blank, and without a NUL character once stripped. */
  predicate GoodText(v: string) {
    !AllSpace(v) && '\0' !in Strip(v)
  }

  /** No item error exactly when `child` accepts every item. */
  lemma {:induction false} ListFieldErrorsEmptyIff(field: string, items: seq<string>, child: string -> Result<string, string>)
    ensures ListFieldErrors(field, items, child) == [] <==> forall i :: 0 <= i < |items| ==> child(items[i]).Ok?
  {
    if items != [] {
      var init := items[..|items| - 1];
      ListFieldErrorsEmptyIff(field, init, child);
      assert forall j :: 0 <= j < |init| ==> items[j] == init[j];
    }
  }

  /** Every refused item is reported, with its position and its message. */
  lemma {:induction false} ListFieldErrorsComplete(field: string, items: seq<string>, child: string -> Result<string, string>, i: nat)
    requires i < |items| && child(items[i]).Err?
    ensures InvalidItem(field, i, child(items[i]).error) in ListFieldErrors(field, items, child)
  {
    var init := items[..|items| - 1];
    if i < |init| {
      assert items[i] == init[i];
      ListFieldErrorsComplete(field, init, child, i);
    }
  }

  /** Every item error is that of a refused item. */
  lemma {:induction false} ListFieldErrorsSound(field: string, items: seq<string>, child: string -> Result<string, string>, e: FieldError)
    requires e in ListFieldErrors(field, items, child)
    ensures e.InvalidItem? && e.index < |items| && child(items[e.index]).Err?
    ensures e == InvalidItem(field, e.index, child(items[e.index]).error)
  {
    var init := items[..|items| - 1];
    if e in ListFieldErrors(field, init, child) {
      ListFieldErrorsSound(field, init, child, e);
      assert items[e.index] == init[e.index];
    }
  }

  /**
   * The tag errors name exactly the tags that fail, each with its position
   * and its `CharField` message.
   */
  lemma TagErrorsSpec(tags: seq<string>)
    ensures TagErrors(tags) == [] <==> forall i :: 0 <= i < |tags| ==> GoodText(tags[i])
    ensures forall i :: 0 <= i < |tags| && !GoodText(tags[i]) ==>
              InvalidItem("tags", i, CharFieldValue(tags[i]).error) in TagErrors(tags)
    ensures forall e :: e in TagErrors(tags) ==>
              e.InvalidItem? && e.index < |tags| && !GoodText(tags[e.index])
              && e == InvalidItem("tags", e.index, CharFieldValue(tags[e.index]).error)
  {
    ListFieldErrorsEmptyIff("tags", tags, CharFieldValue);
    forall i | 0 <= i < |tags| && !GoodText(tags[i])
      ensures InvalidItem("tags", i, CharFieldValue(tags[i]).error) in TagErrors(tags)
    {
      ListFieldErrorsComplete("tags", tags, CharFieldValue, i);
    }
    forall e | e in TagErrors(tags)
      ensures e.InvalidItem? && e.index < |tags| && !GoodText(tags[e.index])
      ensures e == InvalidItem("tags", e.index, CharFieldValue(tags[e.index]).error)
    {
      ListFieldErrorsSound("tags", tags, CharFieldValue, e);
    }
  }

  /**
   * A form is valid exactly when a named, non-empty file of at most 10 MiB
   * and a language that is not blank were sent, and no tag is blank (none
   * holding a NUL character either). The file is kept unchanged, the
   * language is stripped and lower-cased, plural detection defaults to on
   * and the tags to none, each tag stripped.
   */
  lemma ValidateIff(form: UploadForm)
    ensures Validate(form).Ok? <==>
              && form.file.Some? && form.file.value.name != [] && form.file.value.size != 0
              && form.file.value.size <= UploadLimitBytes
              && form.langIso.Some? && GoodText(form.langIso.value)
              && (form.tags.Some? ==> forall i :: 0 <= i < |form.tags.value| ==> GoodText(form.tags.value[i]))
    ensures Validate(form).Ok? ==>
              var p := Validate(form).value;
              && p.file == form.file.value
              && p.langIso == Lower(Strip(form.langIso.value))
              && p.detectIcuPlurals == (form.detectIcuPlurals != Some(false))
              && |p.tags| == (if form.tags.Some? then |form.tags.value| else 0)
              && forall i :: 0 <= i < |p.tags| ==> p.tags[i] == Strip(form.tags.value[i])
  {
    var tags := form.tags.GetOr([]);
    FileErrorsEmptyIff(form.file);
    LangIsoErrorsEmptyIff(form.langIso);
    TagErrorsSpec(tags);
    NoErrorsIff(FileErrors(form.file), LangIsoErrors(form.langIso), TagErrors(tags));
  }

  /** The `file` field passes exactly when a named, non-empty file of at most 10 MiB was sent. */
  lemma FileErrorsEmptyIff(file: Option<UploadedFile>)
    ensures FileErrors(file) == [] <==>
              file.Some? && file.value.name != [] && file.value.size != 0 && file.value.size <= UploadLimitBytes
  {
  }

  /** The `lang_iso` field passes exactly when a language that passes `CharField` was sent. */
  lemma LangIsoErrorsEmptyIff(langIso: Option<string>)
    ensures LangIsoErrors(langIso) == [] <==> langIso.Some? && GoodText(langIso.value)
  {
  }

  lemma NoErrorsIff(a: seq<FieldError>, b: seq<FieldError>, c: seq<FieldError>)
    ensures a + b + c == [] <==> a == [] && b == [] && c == []
  {
    assert |a + b + c| == |a| + |b| + |c|;
  }

  /** Every missing required field is reported, whatever else is wrong. */
  lemma MissingFieldsReported(form: UploadForm)
    ensures form.file.None? ==> Validate(form).Err? && Required("file") in Validate(form).error
    ensures form.langIso.None? ==> Validate(form).Err? && Required("lang_iso") in Validate(form).error
  {
    var errors := FileErrors(form.file) + LangIsoErrors(form.langIso) + TagErrors(form.tags.GetOr([]));
    if form.langIso.None? {
      assert LangIsoErrors(form.langIso) == [Required("lang_iso")];
      assert errors[|FileErrors(form.file)|] == Required("lang_iso");
    }
  }

  /**
   * A file without a name, or an empty one, is refused with the REST
   * framework's message before the size is looked at.
   */
  lemma UnnamedOrEmptyFileRefused(form: UploadForm)
    requires form.file.Some? && (form.file.value.name == [] || form.file.value.size == 0)
    ensures Validate(form).Err?
    ensures Invalid("file", if form.file.value.name == [] then NoFilenameMessage else EmptyFileMessage)
            == Validate(form).error[0]
  {
  }

  /** A language that strips to "" is refused as blank. */
  lemma BlankLangIsoRefused(form: UploadForm)
    requires form.langIso.Some? && AllSpace(form.langIso.value)
    ensures Validate(form).Err? && Invalid("lang_iso", BlankMessage) in Validate(form).error
  {
    var errors := FileErrors(form.file) + LangIsoErrors(form.langIso) + TagErrors(form.tags.GetOr([]));
    assert errors[|FileErrors(form.file)|] == Invalid("lang_iso", BlankMessage);
  }

  /** The serializer's limit is the file-size validator's default limit, with the same boundary. */
  lemma ValidateFileAgreesWithValidator(f: UploadedFile)
    requires f.name != []
    ensures ValidateFile(f).Ok? <==> ValidateFileSize(Some(f), DefaultMaxSizeMb).None?
  {
    FileSizeBoundary(f, DefaultMaxSizeMb);
  }

  /** A file of exactly 10 MiB passes; one byte more is refused. */
  lemma ValidateFileBoundary(f: UploadedFile)
    ensures ValidateFile(f.(size := 10485760)) == Ok(f.(size := 10485760))
    ensures ValidateFile(f.(size := 10485761)) == Err(FileSizeMessage)
  {
  }

  /** Validating the language a second time changes nothing, and neither does passing it through `CharField` again. */
  lemma ValidateLangIsoIdempotent(v: string)
    ensures ValidateLangIso(ValidateLangIso(v)) == ValidateLangIso(v)
    ensures CharFieldValue(v).Ok? ==> CharFieldValue(CharFieldValue(v).value) == CharFieldValue(v)
  {
    LowerFacts(v);
    StripIdempotent(v);
  }
}
