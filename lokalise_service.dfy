/**
 * `LokaliseService`: the upload options chosen from a file name, and the
 * per-key upload of translations. The Lokalise keys are objects whose
 * translation lists the translation pipeline updates in place; the HTTP
 * PUT is an oracle passed in by the caller.
 */
module LokaliseService {
  import opened Wrappers
  import opened PyStr
  import opened PyPath

  // ---------------------------------------------------------------------
  // _detect_file_format

  /** A value in the `format_options` object sent with an upload. */
  datatype OptionValue = Flag(b: bool) | Word(w: string) | Count(n: int)

  /** `s.lstrip(c)` */
  function LStrip(s: string, c: char): (r: string)
    ensures r == [] || r[0] != c
    ensures |r| <= |s| && r == s[|s| - |r|..]
  {
    if s != [] && s[0] == c then LStrip(s[1..], c) else s
  }

  /** The per-format option table, for a file that is nested or not. */
  function FormatOptions(isNested: bool): map<string, map<string, OptionValue>> {
    map[
      "json" := map["plural_format" := Word("icu"), "nested_json" := Flag(isNested)],
      "yaml" := map["plural_format" := Word("icu"), "nested_yaml" := Flag(isNested)],
      "xml" := map["extract_plurals" := Flag(true)],
      "properties" := map["escape_quotes" := Count(2)],
      "strings" := map["escape_quotes" := Count(2)]
    ]
  }

  /** The table key for an extension: its leading dots dropped, with "yml" read as "yaml". */
  function FormatKey(fileExt: string): string {
    var k := LStrip(fileExt, '.');
    if k == "yml" then "yaml" else k
  }

  /**
   * Nested detection: a json/yml/yaml extension and a name (not lower-cased)
   * whose part before the extension ends in ".nested".
   */
  predicate IsNested(filename: string) {
    SplitExt(Lower(filename)).1 in [".json", ".yml", ".yaml"] && EndsWith(SplitExt(filename).0, ".nested")
  }

  /** `format_options.get(key, {})` */
  function OptionsFor(key: string, isNested: bool): map<string, OptionValue> {
    var table := FormatOptions(isNested);
    if key in table then table[key] else map[]
  }

  /** `_detect_file_format(filename)`: the options for the file's format, or none. */
  function DetectFileFormat(filename: string): map<string, OptionValue> {
    OptionsFor(FormatKey(SplitExt(Lower(filename)).1), IsNested(filename))
  }

  /** The table's rows, and nothing for any other key. */
  lemma OptionsForKeys(key: string, isNested: bool)
    ensures key == "json" ==> OptionsFor(key, isNested) == map["plural_format" := Word("icu"), "nested_json" := Flag(isNested)]
    ensures key == "yaml" ==> OptionsFor(key, isNested) == map["plural_format" := Word("icu"), "nested_yaml" := Flag(isNested)]
    ensures key == "xml" ==> OptionsFor(key, isNested) == map["extract_plurals" := Flag(true)]
    ensures key in ["properties", "strings"] ==> OptionsFor(key, isNested) == map["escape_quotes" := Count(2)]
    ensures key !in ["json", "yaml", "xml", "properties", "strings"] ==> OptionsFor(key, isNested) == map[]
  {
  }

  /** An extension as `splitext` returns it loses exactly its one leading dot. */
  lemma FormatKeyOfExt(fileExt: string)
    requires fileExt != [] && fileExt[0] == '.' && '.' !in fileExt[1..]
    ensures LStrip(fileExt, '.') == fileExt[1..]
  {
    var rest := fileExt[1..];
    if rest != [] {
      assert rest[0] in rest;
    }
  }

  lemma FormatKeyCases(filename: string)
    ensures var ext := SplitExt(Lower(filename)).1;
            FormatKey(ext) == if ext == [] then [] else if ext[1..] == "yml" then "yaml" else ext[1..]
  {
    var ext := SplitExt(Lower(filename)).1;
    if ext != [] {
      FormatKeyOfExt(ext);
    }
  }

  /** A ".json" file gets ICU plurals and the nested flag. */
  lemma DetectJson(filename: string)
    requires SplitExt(Lower(filename)).1 == ".json"
    ensures DetectFileFormat(filename)
            == map["plural_format" := Word("icu"), "nested_json" := Flag(EndsWith(SplitExt(filename).0, ".nested"))]
  {
    FormatKeyCases(filename);
    ExtensionTails();
    OptionsForKeys("json", IsNested(filename));
    NestedFlag(filename);
  }

  /** ".yml" and ".yaml" both get the YAML options. */
  lemma DetectYaml(filename: string)
    requires SplitExt(Lower(filename)).1 in [".yml", ".yaml"]
    ensures DetectFileFormat(filename)
            == map["plural_format" := Word("icu"), "nested_yaml" := Flag(EndsWith(SplitExt(filename).0, ".nested"))]
  {
    YamlKey(SplitExt(Lower(filename)).1);
    OptionsForKeys("yaml", IsNested(filename));
    NestedFlag(filename);
  }

  /** "yml" is read as "yaml". */
  lemma YamlKey(ext: string)
    requires ext in [".yml", ".yaml"]
    ensures FormatKey(ext) == "yaml"
  {
    ExtensionTails();
    if ext == ".yml" {
      FormatKeyOfExt(".yml");
    } else {
      FormatKeyOfExt(".yaml");
    }
  }

  /** The xml, properties and strings options do not depend on the name. */
  lemma DetectFixedOptions(filename: string)
    ensures SplitExt(Lower(filename)).1 == ".xml" ==> DetectFileFormat(filename) == map["extract_plurals" := Flag(true)]
    ensures SplitExt(Lower(filename)).1 in [".properties", ".strings"] ==>
              DetectFileFormat(filename) == map["escape_quotes" := Count(2)]
  {
    FormatKeyCases(filename);
    ExtensionTails();
    var key := FormatKey(SplitExt(Lower(filename)).1);
    OptionsForKeys(key, IsNested(filename));
  }

  /** Any other extension, or none, gives no options. */
  lemma DetectOtherEmpty(filename: string)
    requires SplitExt(Lower(filename)).1 !in [".json", ".yml", ".yaml", ".xml", ".properties", ".strings"]
    ensures DetectFileFormat(filename) == map[]
  {
    var ext := SplitExt(Lower(filename)).1;
    FormatKeyCases(filename);
    var key := FormatKey(ext);
    if ext != [] {
      ExtensionHeads(ext);
    }
    OptionsForKeys(key, IsNested(filename));
  }

  /** The nested flag of a json/yml/yaml file is the case-sensitive ".nested" test on its root. */
  lemma NestedFlag(filename: string)
    requires SplitExt(Lower(filename)).1 in [".json", ".yml", ".yaml"]
    ensures IsNested(filename) == EndsWith(SplitExt(filename).0, ".nested")
  {
  }

  lemma ExtensionTails()
    ensures ".json"[1..] == "json" && ".yml"[1..] == "yml" && ".yaml"[1..] == "yaml"
    ensures ".xml"[1..] == "xml" && ".properties"[1..] == "properties" && ".strings"[1..] == "strings"
  {
  }

  /** An extension whose tail is a table key (or "yml") is that key with its dot. */
  lemma ExtensionHeads(ext: string)
    requires ext != [] && ext[0] == '.'
    ensures ext[1..] in ["json", "yml", "yaml", "xml", "properties", "strings"] ==>
              ext in [".json", ".yml", ".yaml", ".xml", ".properties", ".strings"]
  {
    var k := ext[1..];
    assert ext == "." + k;
    if k == "json" {
      assert "." + k == ".json";
    } else if k == "yml" {
      assert "." + k == ".yml";
    } else if k == "yaml" {
      assert "." + k == ".yaml";
    } else if k == "xml" {
      assert "." + k == ".xml";
    } else if k == "properties" {
      assert "." + k == ".properties";
    } else if k == "strings" {
      assert "." + k == ".strings";
    }
  }

  // ---------------------------------------------------------------------
  // Keys

  /** A key id as the Lokalise API returns it. */
  type KeyId = nat

  /** One translation of a key, as a JSON object whose members may be missing. */
  datatype Translation = Translation(
    languageIso: Option<string>,
    translation: Option<string>,
    isReviewed: Option<bool>,
    isFuzzy: Option<bool>,
    keyId: Option<KeyId>,
    words: Option<int>)

  /** A key of the project, with the list of its translations. */
  class LokaliseKey {
    const keyId: KeyId
    const keyName: string
    var translations: seq<Translation>

    constructor (keyId: KeyId, keyName: string, translations: seq<Translation>)
      ensures this.keyId == keyId && this.keyName == keyName && this.translations == translations
    {
      this.keyId := keyId;
      this.keyName := keyName;
      this.translations := translations;
    }
  }

  // ---------------------------------------------------------------------
  // upload_translation

  /** One entry of the PUT body. */
  datatype PayloadEntry = PayloadEntry(languageIso: string, translation: string, isReviewed: bool, isFuzzy: bool)

  /** What `requests.put` gave: a response, or an exception with its text. */
  datatype PutReply = Response(statusCode: int, text: string) | Raised(message: string)

  datatype UploadStatus = Uploaded | UploadFailed(error: string)

  datatype UploadResult = UploadResult(keyId: KeyId, keyName: string, status: UploadStatus)

  /** `str(KeyError(name))` */
  function MissingMember(name: string): string {
    "'" + name + "'"
  }

  /** The payload entry of one translation, or the KeyError of its first missing member. */
  function PayloadEntryOf(t: Translation): Result<PayloadEntry, string> {
    if t.languageIso.None? then Err(MissingMember("language_iso"))
    else if t.translation.None? then Err(MissingMember("translation"))
    else Ok(PayloadEntry(t.languageIso.value, t.translation.value, t.isReviewed.GetOr(false), t.isFuzzy.GetOr(true)))
  }

  /** The payload for a list of translations: stops at the first entry that raises. */
  function Payload(ts: seq<Translation>): Result<seq<PayloadEntry>, string> {
    if ts == [] then Ok([])
    else
      match Payload(ts[..|ts| - 1])
      case Err(e) => Err(e)
      case Ok(p) =>
        match PayloadEntryOf(ts[|ts| - 1])
        case Err(e) => Err(e)
        case Ok(entry) => Ok(p + [entry])
  }

  /** The outcome of uploading one key with translations `ts`. */
  function UploadOne(keyId: KeyId, ts: seq<Translation>, put: (KeyId, seq<PayloadEntry>) -> PutReply): UploadStatus {
    match Payload(ts)
    case Err(e) => UploadFailed(e)
    case Ok(p) =>
      match put(keyId, p)
      case Raised(m) => UploadFailed(m)
      case Response(code, text) => if code != 200 then UploadFailed("API error: " + text) else Uploaded
  }

  /** The results for `keys`, one per key and in order. */
  function UploadResults(keys: seq<LokaliseKey>, put: (KeyId, seq<PayloadEntry>) -> PutReply): seq<UploadResult>
    reads set k | k in keys
  {
    if keys == [] then []
    else
      var k := keys[|keys| - 1];
      UploadResults(keys[..|keys| - 1], put) + [UploadResult(k.keyId, k.keyName, UploadOne(k.keyId, k.translations, put))]
  }

  /** The inner loop that builds the PUT body of one key. */
  method BuildPayload(ts: seq<Translation>) returns (r: Result<seq<PayloadEntry>, string>)
    ensures r == Payload(ts)
  {
    var entries: seq<PayloadEntry> := [];
    var i := 0;
    while i < |ts|
      invariant 0 <= i <= |ts|
      invariant Payload(ts[..i]) == Ok(entries)
    {
      assert ts[..i + 1][..i] == ts[..i];
      var t := ts[i];
      if t.languageIso.None? {
        PayloadStopsAtError(ts, i + 1);
        return Err(MissingMember("language_iso"));
      }
      if t.translation.None? {
        PayloadStopsAtError(ts, i + 1);
        return Err(MissingMember("translation"));
      }
      entries := entries + [PayloadEntry(t.languageIso.value, t.translation.value, t.isReviewed.GetOr(false), t.isFuzzy.GetOr(true))];
      i := i + 1;
    }
    assert ts[..i] == ts;
    r := Ok(entries);
  }

  /** `upload_translation(keys)`: every key is tried, whatever happened to the ones before it. */
  method UploadTranslation(keys: seq<LokaliseKey>, put: (KeyId, seq<PayloadEntry>) -> PutReply)
    returns (results: seq<UploadResult>)
    ensures results == UploadResults(keys, put)
  {
    results := [];
    var i := 0;
    while i < |keys|
      invariant 0 <= i <= |keys|
      invariant results == UploadResults(keys[..i], put)
    {
      assert keys[..i + 1][..i] == keys[..i];
      var key := keys[i];
      var status: UploadStatus;
      var payload := BuildPayload(key.translations);
      if payload.Err? {
        status := UploadFailed(payload.error);
      } else {
        var reply := put(key.keyId, payload.value);
        if reply.Raised? {
          status := UploadFailed(reply.message);
        } else if reply.statusCode != 200 {
          status := UploadFailed("API error: " + reply.text);
        } else {
          status := Uploaded;
        }
      }
      results := results + [UploadResult(key.keyId, key.keyName, status)];
      i := i + 1;
    }
    assert keys[..i] == keys;
  }

  // ---------------------------------------------------------------------
  // Properties

  /** Once a prefix of the translations raises, the whole payload raises with that error. */
  lemma {:induction false} PayloadStopsAtError(ts: seq<Translation>, n: nat)
    requires 0 < n <= |ts|
    requires Payload(ts[..n - 1]).Ok? && PayloadEntryOf(ts[n - 1]).Err?
    ensures Payload(ts) == Err(PayloadEntryOf(ts[n - 1]).error)
    decreases |ts|
  {
    if |ts| == n {
      assert ts[..n] == ts;
      assert ts[..|ts| - 1] == ts[..n - 1];
    } else {
      assert ts[..|ts| - 1][..n - 1] == ts[..n - 1];
      PayloadStopsAtError(ts[..|ts| - 1], n);
    }
  }

  /**
   * The payload has one entry per translation, in order, with the two
   * review flags defaulting to not reviewed and fuzzy; it fails exactly
   * when some translation lacks its language or its text.
   */
  lemma {:induction false} PayloadSpec(ts: seq<Translation>)
    ensures Payload(ts).Ok? <==> forall i :: 0 <= i < |ts| ==> ts[i].languageIso.Some? && ts[i].translation.Some?
    ensures Payload(ts).Ok? ==>
              |Payload(ts).value| == |ts|
              && forall i :: 0 <= i < |ts| ==> Payload(ts).value[i] == PayloadEntryOf(ts[i]).value
  {
    if ts != [] {
      PayloadSpec(ts[..|ts| - 1]);
    }
  }

  lemma PayloadEntryDefaults(t: Translation)
    requires t.languageIso.Some? && t.translation.Some?
    ensures PayloadEntryOf(t).Ok?
    ensures var e := PayloadEntryOf(t).value;
            && e.languageIso == t.languageIso.value && e.translation == t.translation.value
            && e.isReviewed == (t.isReviewed == Some(true))
            && e.isFuzzy == (t.isFuzzy != Some(false))
  {
  }

  /**
   * One result per key, in the keys' order, carrying the key's id and name;
   * a key is uploaded exactly when its payload could be built and the PUT
   * answered 200. A failing key does not affect any other.
   */
  lemma {:induction false} UploadResultsSpec(keys: seq<LokaliseKey>, put: (KeyId, seq<PayloadEntry>) -> PutReply)
    ensures |UploadResults(keys, put)| == |keys|
    ensures forall i :: 0 <= i < |keys| ==>
              UploadResults(keys, put)[i] == UploadResult(keys[i].keyId, keys[i].keyName, UploadOne(keys[i].keyId, keys[i].translations, put))
  {
    if keys != [] {
      UploadResultsSpec(keys[..|keys| - 1], put);
    }
  }

  lemma UploadOneIff(keyId: KeyId, ts: seq<Translation>, put: (KeyId, seq<PayloadEntry>) -> PutReply)
    ensures UploadOne(keyId, ts, put).Uploaded? <==>
              (Payload(ts).Ok? && put(keyId, Payload(ts).value).Response? && put(keyId, Payload(ts).value).statusCode == 200)
    ensures Payload(ts).Ok? && put(keyId, Payload(ts).value).Response? && put(keyId, Payload(ts).value).statusCode != 200 ==>
              UploadOne(keyId, ts, put) == UploadFailed("API error: " + put(keyId, Payload(ts).value).text)
  {
  }
}
