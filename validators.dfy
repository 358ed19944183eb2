/**
 * Upload validation: the table of file types the Lokalise API accepts, the
 * file-type and file-size validators, and the target-language check. A
 * raised `ValidationError` is an `Err`; `None` is returned when a file
 * validator passes.
 */
module Validators {
  import opened Wrappers
  import opened PyStr
  import opened PyPath

  /** An uploaded file: its client-side name and its size in bytes. */
  datatype UploadedFile = UploadedFile(name: string, size: int)

  /**
   * The reason a validator raised `serializers.ValidationError`. Each reason
   * keeps the values its message is built from; `Text` renders the message.
   */
  datatype ValidationError =
    | NoFile
    | UnsupportedType(key: string)
    | FileTooLarge(size: int, maxSizeMb: int)
    | UnsupportedLanguage(lang: string, supported: seq<string>)
  {
    /** The message text. The size message formats a float (MiB to one decimal), so it is not rendered. */
    function Text(): Option<string> {
      match this
      case NoFile => Some(NoFileMessage)
      case UnsupportedType(key) =>
        Some("Unsupported file type '" + key + "'. Supported formats are: " + Join(", ", SortedFormatKeys))
      case FileTooLarge(_, _) => None
      case UnsupportedLanguage(lang, supported) =>
        Some("Language '" + lang + "' is not supported. Supported languages are: " + Join(", ", supported))
    }
  }

  /** `if not file`: no file, or a file object whose name is empty (a Django `File` is falsy then). */
  predicate Submitted(file: Option<UploadedFile>) {
    file.Some? && file.value.name != []
  }

  const NoFileMessage: string := "No file was submitted"

  /** The default of `max_size_mb`. */
  const DefaultMaxSizeMb: int := 10

  /** `LOKALISE_SUPPORTED_FORMATS`: extension (with its dot) to format name. */
  const SupportedFormats: map<string, string> := map[
    ".properties" := "Java Properties",
    ".strings" := "iOS Strings",
    ".stringsdict" := "iOS Stringsdict",
    ".plist" := "iOS Plist",
    ".xml" := "Android XML/XLIFF/HTML",
    ".resx" := ".NET RESX",
    ".resw" := "UWP RESW",
    ".ts" := "QT Linguist",
    ".json" := "JSON",
    ".yml" := "YAML",
    ".yaml" := "YAML",
    ".po" := "GNU gettext",
    ".pot" := "GNU gettext template",
    ".csv" := "CSV",
    ".xlsx" := "Excel",
    ".xls" := "Excel",
    ".arb" := "Flutter ARB",
    ".ini" := "INI",
    ".toml" := "TOML",
    ".nested.json" := "Nested JSON",
    ".nested.yml" := "Nested YAML",
    ".nested.yaml" := "Nested YAML"
  ]

  /** `sorted(LOKALISE_SUPPORTED_FORMATS.keys())`, listed in the rejection message. */
  const SortedFormatKeys: seq<string> := [
    ".arb", ".csv", ".ini", ".json", ".nested.json", ".nested.yaml", ".nested.yml", ".plist",
    ".po", ".pot", ".properties", ".resw", ".resx", ".strings", ".stringsdict", ".toml",
    ".ts", ".xls", ".xlsx", ".xml", ".yaml", ".yml"
  ]

  /** The listed keys are exactly the table's keys, each once, in sorted order. */
  lemma SortedFormatKeysSpec()
    ensures forall k :: k in SortedFormatKeys <==> k in SupportedFormats
    ensures StrictlySorted(SortedFormatKeys)
  {
    SortedFormatKeysFrom0();
    SortedFormatKeysFrom4();
    SortedFormatKeysFrom5();
    SortedFormatKeysFrom6();
    SortedFormatKeysFrom7();
    SortedFormatKeysFrom11();
    SortedFormatKeysFrom14();
  }

  lemma SortedFormatKeysFrom0()
    ensures forall i :: 0 <= i < 4 ==> StrLess(SortedFormatKeys[i], SortedFormatKeys[i + 1])
  {
    StrLessAt(SortedFormatKeys[0], SortedFormatKeys[1], 1);
    StrLessAt(SortedFormatKeys[1], SortedFormatKeys[2], 1);
    StrLessAt(SortedFormatKeys[2], SortedFormatKeys[3], 1);
    StrLessAt(SortedFormatKeys[3], SortedFormatKeys[4], 1);
  }

  lemma SortedFormatKeysFrom4()
    ensures StrLess(SortedFormatKeys[4], SortedFormatKeys[5])
  {
    StrLessAt(SortedFormatKeys[4], SortedFormatKeys[5], 8);
  }

  lemma SortedFormatKeysFrom5()
    ensures StrLess(SortedFormatKeys[5], SortedFormatKeys[6])
  {
    StrLessAt(SortedFormatKeys[5], SortedFormatKeys[6], 9);
  }

  lemma SortedFormatKeysFrom6()
    ensures StrLess(SortedFormatKeys[6], SortedFormatKeys[7])
  {
    StrLessAt(SortedFormatKeys[6], SortedFormatKeys[7], 1);
  }

  lemma SortedFormatKeysFrom7()
    ensures forall i :: 7 <= i < 11 ==> StrLess(SortedFormatKeys[i], SortedFormatKeys[i + 1])
  {
    StrLessAt(SortedFormatKeys[7], SortedFormatKeys[8], 2);
    StrLessAt(SortedFormatKeys[8], SortedFormatKeys[9], 3);
    StrLessAt(SortedFormatKeys[9], SortedFormatKeys[10], 2);
    StrLessAt(SortedFormatKeys[10], SortedFormatKeys[11], 1);
  }

  lemma SortedFormatKeysFrom11()
    ensures forall i :: 11 <= i < 14 ==> StrLess(SortedFormatKeys[i], SortedFormatKeys[i + 1])
  {
    StrLessAt(SortedFormatKeys[11], SortedFormatKeys[12], 4);
    StrLessAt(SortedFormatKeys[12], SortedFormatKeys[13], 1);
    StrLessAt(SortedFormatKeys[13], SortedFormatKeys[14], 8);
  }

  lemma SortedFormatKeysFrom14()
    ensures forall i :: 14 <= i < 21 ==> StrLess(SortedFormatKeys[i], SortedFormatKeys[i + 1])
  {
    StrLessAt(SortedFormatKeys[14], SortedFormatKeys[15], 1);
    StrLessAt(SortedFormatKeys[15], SortedFormatKeys[16], 2);
    StrLessAt(SortedFormatKeys[16], SortedFormatKeys[17], 1);
    StrLessAt(SortedFormatKeys[17], SortedFormatKeys[18], 4);
    StrLessAt(SortedFormatKeys[18], SortedFormatKeys[19], 2);
    StrLessAt(SortedFormatKeys[19], SortedFormatKeys[20], 1);
    StrLessAt(SortedFormatKeys[20], SortedFormatKeys[21], 2);
  }

  // ---------------------------------------------------------------------
  // validate_lokalise_file_type

  /**
   * The key looked up in the table: the final extension of the lower-cased
   * name, with ".nested" put in front for json/yml/yaml when the name with
   * two extensions removed ends in ".nested".
   */
  function FileTypeKey(name: string): string {
    var filename := Lower(name);
    var ext := SplitExt(filename).1;
    if ext in [".json", ".yml", ".yaml"] then
      var baseName := SplitExt(SplitExt(filename).0).0;
      if EndsWith(baseName, ".nested") then ".nested" + ext else ext
    else ext
  }

  /** `validate_lokalise_file_type(file)`: None when the file passes. */
  function ValidateLokaliseFileType(file: Option<UploadedFile>): Option<ValidationError> {
    if !Submitted(file) then Some(NoFile)
    else
      var key := FileTypeKey(file.value.name);
      if key !in SupportedFormats then Some(UnsupportedType(key)) else None
  }

  /**
   * The ".nested" prefix never changes the verdict: it is only added to
   * json/yml/yaml, which the table accepts both with and without it.
   */
  lemma NestedPrefixUnobservable(name: string)
    ensures FileTypeKey(name) in SupportedFormats <==> SplitExt(Lower(name)).1 in SupportedFormats
  {
    FileTypeKeyCases(name);
    NestedKeysSupported();
  }

  /** The key is the extension itself, or one of the three nested keys for the matching extension. */
  lemma FileTypeKeyCases(name: string)
    ensures var ext, key := SplitExt(Lower(name)).1, FileTypeKey(name);
            || key == ext
            || (ext == ".json" && key == ".nested.json")
            || (ext == ".yml" && key == ".nested.yml")
            || (ext == ".yaml" && key == ".nested.yaml")
  {
    var ext := SplitExt(Lower(name)).1;
    FileTypeKeyPrefixed(name);
    if FileTypeKey(name) != ext {
      NestedExtensions(ext);
      NestedConcatenations();
    }
  }

  lemma FileTypeKeyPrefixed(name: string)
    ensures var ext := SplitExt(Lower(name)).1;
            FileTypeKey(name) == ext || (ext in [".json", ".yml", ".yaml"] && FileTypeKey(name) == ".nested" + ext)
  {
  }

  lemma NestedExtensions(ext: string)
    requires ext in [".json", ".yml", ".yaml"]
    ensures ext == ".json" || ext == ".yml" || ext == ".yaml"
  {
  }

  lemma NestedConcatenations()
    ensures ".nested" + ".json" == ".nested.json"
    ensures ".nested" + ".yml" == ".nested.yml"
    ensures ".nested" + ".yaml" == ".nested.yaml"
  {
  }

  lemma NestedKeysSupported()
    ensures ".json" in SupportedFormats && ".yml" in SupportedFormats && ".yaml" in SupportedFormats
    ensures ".nested.json" in SupportedFormats && ".nested.yml" in SupportedFormats && ".nested.yaml" in SupportedFormats
  {
  }

  /**
   * A submitted file passes exactly when the last extension of its name,
   * in any letter case, is a key of the table; names without an extension
   * are rejected. Otherwise the message names the key that was looked up.
   */
  lemma FileTypeAcceptedIff(file: Option<UploadedFile>)
    ensures ValidateLokaliseFileType(file).None? <==>
              Submitted(file) && SplitExt(Lower(file.value.name)).1 in SupportedFormats
    ensures Submitted(file) && SplitExt(Lower(file.value.name)).1 == [] ==>
              ValidateLokaliseFileType(file) == Some(UnsupportedType([]))
    ensures !Submitted(file) ==> ValidateLokaliseFileType(file) == Some(NoFile)
  {
    if Submitted(file) {
      NestedPrefixUnobservable(file.value.name);
      if SplitExt(Lower(file.value.name)).1 == [] {
        EmptyExtensionKey(file.value.name);
      }
    }
  }

  /** Without an extension the looked-up key is "", which the table does not hold. */
  lemma EmptyExtensionKey(name: string)
    requires SplitExt(Lower(name)).1 == []
    ensures FileTypeKey(name) == [] && [] !in SupportedFormats
  {
    FileTypeKeyPrefixed(name);
  }

  /** The check is case-insensitive: lower-casing the name first changes nothing. */
  lemma FileTypeIgnoresCase(f: UploadedFile)
    ensures ValidateLokaliseFileType(Some(f.(name := Lower(f.name)))) == ValidateLokaliseFileType(Some(f))
  {
    LowerFacts(f.name);
  }

  // ---------------------------------------------------------------------
  // validate_file_size

  /** `max_size_mb * 1024 * 1024` */
  function MaxSizeBytes(maxSizeMb: int): int {
    maxSizeMb * 1024 * 1024
  }

  /** `validate_file_size(file, max_size_mb)`: None when the file passes. */
  function ValidateFileSize(file: Option<UploadedFile>, maxSizeMb: int): Option<ValidationError> {
    if !Submitted(file) then Some(NoFile)
    else if file.value.size > MaxSizeBytes(maxSizeMb) then Some(FileTooLarge(file.value.size, maxSizeMb))
    else None
  }

  /**
   * A submitted file fails exactly when it is larger than the limit: a file
   * of exactly `max_size_mb` MiB passes, one byte more fails; with the
   * default limit that is 10485760 bytes.
   */
  lemma FileSizeBoundary(f: UploadedFile, maxSizeMb: int)
    requires f.name != []
    ensures ValidateFileSize(Some(f), maxSizeMb).None? <==> f.size <= maxSizeMb * 1048576
    ensures ValidateFileSize(Some(f.(size := MaxSizeBytes(maxSizeMb))), maxSizeMb).None?
    ensures ValidateFileSize(Some(f.(size := MaxSizeBytes(maxSizeMb) + 1)), maxSizeMb)
            == Some(FileTooLarge(MaxSizeBytes(maxSizeMb) + 1, maxSizeMb))
    ensures MaxSizeBytes(DefaultMaxSizeMb) == 10485760
  {
  }

  /** A larger limit never rejects a file that a smaller one accepts. */
  lemma FileSizeMonotone(file: Option<UploadedFile>, small: int, large: int)
    requires small <= large
    requires ValidateFileSize(file, small).None?
    ensures ValidateFileSize(file, large).None?
  {
    assert MaxSizeBytes(small) <= MaxSizeBytes(large);
  }

  // ---------------------------------------------------------------------
  // validate_target_language

  /** `validate_target_language`, with `settings.SUPPORTING_LANGUAGES` as a parameter. */
  function ValidateTargetLanguage(lang: string, supported: seq<string>): Result<string, ValidationError> {
    if lang !in supported then Err(UnsupportedLanguage(lang, supported))
    else Ok(lang)
  }

  /**
   * The language comes back unchanged exactly when it is listed; otherwise
   * the message names it and lists every supported language in order.
   * Validating the result again gives the same answer.
   */
  lemma TargetLanguageIff(lang: string, supported: seq<string>)
    ensures ValidateTargetLanguage(lang, supported) == Ok(lang) <==> lang in supported
    ensures lang !in supported ==>
              ValidateTargetLanguage(lang, supported) == Err(UnsupportedLanguage(lang, supported))
    ensures ValidateTargetLanguage(lang, supported).Ok? ==>
              ValidateTargetLanguage(ValidateTargetLanguage(lang, supported).value, supported)
              == ValidateTargetLanguage(lang, supported)
  {
  }
}
