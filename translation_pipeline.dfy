/**
 * `TranslationPipeline`: glossary lookup and prompt formatting, and
 * `process_translations`, which classifies every key, translates the
 * queued ones all-or-nothing, writes the translations into the keys in
 * place, uploads every key and marks the results whose upload failed.
 * The LLM call and the HTTP PUT are oracles passed in by the caller.
 */
module TranslationPipeline {
  import opened Wrappers
  import opened PyStr
  import opened Glossary
  import opened LokaliseService

  // ---------------------------------------------------------------------
  // _get_relevant_glossary_terms

  /** A glossary term selected for the prompt. `None` stands for a `null` member. */
  datatype RelevantTerm = RelevantTerm(
    term: string,
    translation: string,
    description: Option<string>,
    partOfSpeech: Option<string>)

  /** `next(t for t in ts if t['language_iso'] == lang)`, or None. */
  function FirstTranslationFor(ts: seq<GlossaryTranslation>, lang: string): (r: Option<GlossaryTranslation>) {
    if ts == [] then None
    else if ts[0].languageIso == lang then Some(ts[0])
    else FirstTranslationFor(ts[1..], lang)
  }

  /** `term.lower() in source.lower()` */
  predicate Mentions(source: string, term: string) {
    Contains(Lower(source), Lower(term))
  }

  /** The selected term for one glossary entry, if it is mentioned and has a translation into `lang`. */
  function TermFor(e: GlossaryEntry, source: string, lang: string): Option<RelevantTerm> {
    if !Mentions(source, e.term) then None
    else
      match FirstTranslationFor(e.translations, lang)
      case None => None
      case Some(t) => Some(RelevantTerm(e.term, t.translation, e.description.GetOrEmpty(), e.partOfSpeech.GetOrEmpty()))
  }

  /** The selected terms of the glossary, in glossary order. */
  function RelevantTerms(glossary: seq<GlossaryEntry>, source: string, lang: string): seq<RelevantTerm> {
    if glossary == [] then []
    else
      var prev := RelevantTerms(glossary[..|glossary| - 1], source, lang);
      match TermFor(glossary[|glossary| - 1], source, lang)
      case None => prev
      case Some(t) => prev + [t]
  }

  /** `_get_relevant_glossary_terms(source_text, target_language)` over the loaded glossary. */
  method GetRelevantGlossaryTerms(glossary: seq<GlossaryEntry>, source: string, lang: string)
    returns (terms: seq<RelevantTerm>)
    ensures terms == RelevantTerms(glossary, source, lang)
  {
    terms := [];
    var i := 0;
    while i < |glossary|
      invariant 0 <= i <= |glossary|
      invariant terms == RelevantTerms(glossary[..i], source, lang)
    {
      assert glossary[..i + 1][..i] == glossary[..i];
      var e := glossary[i];
      if Contains(Lower(source), Lower(e.term)) {
        var target := FirstTranslationFor(e.translations, lang);
        if target.Some? {
          terms := terms + [RelevantTerm(e.term, target.value.translation, e.description.GetOrEmpty(), e.partOfSpeech.GetOrEmpty())];
        }
      }
      i := i + 1;
    }
    assert glossary[..i] == glossary;
  }

  // ---------------------------------------------------------------------
  // _format_glossary_terms

  /**
   * The separator between a term and its translation, as line 53 writes it:
   * the three characters U+00E2 U+2020 U+2019 (a UTF-8 right arrow read as
   * Windows-1252), not the single U+2192.
   */
  const Arrow: string := "\U{00E2}\U{2020}\U{2019}"

  predicate NonEmpty(field: Option<string>) {
    field.Some? && field.value != []
  }

  /** The lines of one term's block; the optional lines appear only for non-empty values. */
  function BlockLines(t: RelevantTerm): seq<string> {
    ["- " + t.term + " " + Arrow + " " + t.translation]
    + (if NonEmpty(t.description) then ["  Description: " + t.description.value] else [])
    + (if NonEmpty(t.partOfSpeech) then ["  Part of Speech: " + t.partOfSpeech.value] else [])
  }

  function Block(t: RelevantTerm): string {
    Join("\n", BlockLines(t))
  }

  function Blocks(terms: seq<RelevantTerm>): seq<string> {
    if terms == [] then [] else Blocks(terms[..|terms| - 1]) + [Block(terms[|terms| - 1])]
  }

  const GlossaryHeader: string := "Glossary Terms:\n"

  /** The glossary section of the prompt: empty without terms, else the header and the blocks. */
  function FormatGlossary(terms: seq<RelevantTerm>): string {
    if terms == [] then "" else GlossaryHeader + Join("\n\n", Blocks(terms))
  }

  /** `_format_glossary_terms(terms)` */
  method FormatGlossaryTerms(terms: seq<RelevantTerm>) returns (r: string)
    ensures r == FormatGlossary(terms)
  {
    if terms == [] {
      return "";
    }
    var formatted: seq<string> := [];
    var i := 0;
    while i < |terms|
      invariant 0 <= i <= |terms|
      invariant formatted == Blocks(terms[..i])
    {
      assert terms[..i + 1][..i] == terms[..i];
      var t := terms[i];
      var info := ["- " + t.term + " " + Arrow + " " + t.translation];
      if NonEmpty(t.description) {
        info := info + ["  Description: " + t.description.value];
      }
      if NonEmpty(t.partOfSpeech) {
        info := info + ["  Part of Speech: " + t.partOfSpeech.value];
      }
      assert info == BlockLines(t);
      formatted := formatted + [Join("\n", info)];
      i := i + 1;
    }
    assert terms[..i] == terms;
    r := GlossaryHeader + Join("\n\n", formatted);
  }

  // ---------------------------------------------------------------------
  // process_translations: classification

  /** The index of the first translation in `lang`. A translation without a language is passed over. */
  function FindLanguage(ts: seq<Translation>, lang: string): (r: Option<nat>)
    ensures r.Some? ==> r.value < |ts|
  {
    if ts == [] then None
    else if ts[0].languageIso == Some(lang) then Some(0)
    else
      match FindLanguage(ts[1..], lang)
      case None => None
      case Some(j) => Some(j + 1)
  }

  /** `next(..., {}).get('translation', '')` */
  function TextAt(ts: seq<Translation>, at: Option<nat>): string
    requires at.Some? ==> at.value < |ts|
  {
    if at.None? then "" else ts[at.value].translation.GetOr("")
  }

  function LanguageText(ts: seq<Translation>, lang: string): string {
    TextAt(ts, FindLanguage(ts, lang))
  }

  /** What `process_translations` does with one key. `target` is the index of its target entry, if any. */
  datatype Classification =
    | NoSource
    | AlreadyTranslated(sourceText: string, existing: string)
    | ToTranslate(sourceText: string, target: Option<nat>, existing: string, hasTranslation: bool)

  function Classify(ts: seq<Translation>, source: string, target: string, force: bool): Classification {
    var sourceText := LanguageText(ts, source);
    var at := FindLanguage(ts, target);
    var existing := TextAt(ts, at);
    if sourceText == [] then NoSource
    else if existing != [] && !force then AlreadyTranslated(sourceText, existing)
    else ToTranslate(sourceText, at, existing, existing != [])
  }

  /** A key as the pipeline sees it before it changes anything. */
  datatype KeyView = KeyView(keyId: KeyId, keyName: string, translations: seq<Translation>)

  function Views(keys: seq<LokaliseKey>): (vs: seq<KeyView>)
    reads set k | k in keys
    ensures |vs| == |keys|
    ensures forall i :: 0 <= i < |keys| ==> vs[i] == KeyView(keys[i].keyId, keys[i].keyName, keys[i].translations)
  {
    if keys == [] then []
    else Views(keys[..|keys| - 1]) + [KeyView(keys[|keys| - 1].keyId, keys[|keys| - 1].keyName, keys[|keys| - 1].translations)]
  }

  datatype Status = Success | Error | Skipped

  /** The members of a result besides id, name, status and error. */
  datatype Info =
    | NoSourceText(reason: string)
    | AlreadyExists(reason: string, sourceText: string, existingTranslation: string)
    | Translated(sourceText: string, translatedText: string, existingTranslation: string, isNewTranslation: bool)
    | NotTranslated

  /** One entry of the list `process_translations` returns. */
  datatype KeyResult = KeyResult(keyId: KeyId, keyName: string, status: Status, info: Info, error: Option<string>)

  /** A key queued for translation: its position among the keys and what the classification found. */
  datatype Job = Job(index: nat, keyId: KeyId, keyName: string, sourceText: string, target: Option<nat>, existing: string, hasTranslation: bool)

  function NoSourceReason(source: string): string {
    "No " + source + " source text available"
  }

  const ExistsReason: string := "Translation already exists"

  /** The results appended while classifying: one per skipped key, in key order. */
  function SkipResults(vs: seq<KeyView>, source: string, target: string, force: bool): seq<KeyResult> {
    if vs == [] then []
    else
      var prev := SkipResults(vs[..|vs| - 1], source, target, force);
      var v := vs[|vs| - 1];
      match Classify(v.translations, source, target, force)
      case NoSource => prev + [KeyResult(v.keyId, v.keyName, Skipped, NoSourceText(NoSourceReason(source)), None)]
      case AlreadyTranslated(s, e) => prev + [KeyResult(v.keyId, v.keyName, Skipped, AlreadyExists(ExistsReason, s, e), None)]
      case ToTranslate(_, _, _, _) => prev
  }

  /** The queued keys, in key order. */
  function Jobs(vs: seq<KeyView>, source: string, target: string, force: bool): seq<Job> {
    if vs == [] then []
    else
      var prev := Jobs(vs[..|vs| - 1], source, target, force);
      var v := vs[|vs| - 1];
      match Classify(v.translations, source, target, force)
      case ToTranslate(s, at, e, has) => prev + [Job(|vs| - 1, v.keyId, v.keyName, s, at, e, has)]
      case _ => prev
  }

  /** The classification loop: skipped results are appended at once, the rest is queued. */
  method ClassifyKeys(keys: seq<LokaliseKey>, source: string, target: string, force: bool)
    returns (results: seq<KeyResult>, jobs: seq<Job>)
    ensures results == SkipResults(Views(keys), source, target, force)
    ensures jobs == Jobs(Views(keys), source, target, force)
  {
    ghost var vs := Views(keys);
    results, jobs := [], [];
    var i := 0;
    while i < |keys|
      invariant 0 <= i <= |keys|
      invariant results == SkipResults(vs[..i], source, target, force)
      invariant jobs == Jobs(vs[..i], source, target, force)
    {
      assert vs[..i + 1][..i] == vs[..i];
      var key := keys[i];
      var ts := key.translations;
      var sourceAt := FindLanguage(ts, source);
      var sourceText := TextAt(ts, sourceAt);
      var targetAt := FindLanguage(ts, target);
      var existing := TextAt(ts, targetAt);
      var hasTranslation := existing != [];
      if sourceText == [] {
        results := results + [KeyResult(key.keyId, key.keyName, Skipped, NoSourceText(NoSourceReason(source)), None)];
      } else if hasTranslation && !force {
        results := results + [KeyResult(key.keyId, key.keyName, Skipped, AlreadyExists(ExistsReason, sourceText, existing), None)];
      } else {
        jobs := jobs + [Job(i, key.keyId, key.keyName, sourceText, targetAt, existing, hasTranslation)];
      }
      i := i + 1;
    }
    assert vs[..i] == vs;
  }

  // ---------------------------------------------------------------------
  // process_translations: translation and merge

  /** What `translate_with_ai(source_text, target_language)` gave: the stripped reply, or the exception's text. */
  datatype Completion = Completed(text: string) | Failed(message: string)

  /** The translations of all jobs, or the first failure in queue order. */
  function Gather(jobs: seq<Job>, target: string, translate: (string, string) -> Completion): (r: Result<seq<string>, string>)
    ensures r.Ok? ==> |r.value| == |jobs|
  {
    if jobs == [] then Ok([])
    else
      match Gather(jobs[..|jobs| - 1], target, translate)
      case Err(e) => Err(e)
      case Ok(texts) =>
        match translate(jobs[|jobs| - 1].sourceText, target)
        case Failed(m) => Err(m)
        case Completed(t) => Ok(texts + [t])
  }

  /** `asyncio.gather(*translation_tasks)`, one task after the other. */
  method GatherTranslations(jobs: seq<Job>, target: string, translate: (string, string) -> Completion)
    returns (r: Result<seq<string>, string>)
    ensures r == Gather(jobs, target, translate)
  {
    var texts: seq<string> := [];
    var i := 0;
    while i < |jobs|
      invariant 0 <= i <= |jobs|
      invariant Gather(jobs[..i], target, translate) == Ok(texts)
    {
      assert jobs[..i + 1][..i] == jobs[..i];
      var c := translate(jobs[i].sourceText, target);
      if c.Failed? {
        GatherStopsAtError(jobs, target, translate, i + 1);
        return Err(c.message);
      }
      texts := texts + [c.text];
      i := i + 1;
    }
    assert jobs[..i] == jobs;
    r := Ok(texts);
  }

  function SuccessResult(job: Job, text: string): KeyResult {
    KeyResult(job.keyId, job.keyName, Success, Translated(job.sourceText, text, job.existing, !job.hasTranslation), None)
  }

  function SuccessResults(jobs: seq<Job>, texts: seq<string>): seq<KeyResult>
    requires |texts| == |jobs|
  {
    seq(|jobs|, i requires 0 <= i < |jobs| => SuccessResult(jobs[i], texts[i]))
  }

  function ErrorResults(jobs: seq<Job>, message: string): seq<KeyResult> {
    seq(|jobs|, i requires 0 <= i < |jobs| => KeyResult(jobs[i].keyId, jobs[i].keyName, Error, NotTranslated, Some(message)))
  }

  /** The results before the upload: the skipped keys, then every queued key as a success or every one as an error. */
  function MergedResults(vs: seq<KeyView>, source: string, target: string, force: bool, translate: (string, string) -> Completion)
    : seq<KeyResult>
  {
    var jobs := Jobs(vs, source, target, force);
    SkipResults(vs, source, target, force)
    + match Gather(jobs, target, translate)
      case Ok(texts) => SuccessResults(jobs, texts)
      case Err(e) => ErrorResults(jobs, e)
  }

  /** `len(text.split(' '))` */
  function WordCount(text: string): nat {
    |SplitOn(text, ' ')|
  }

  /**
   * The in-place update of one key's translations: a new target entry is
   * appended, or the existing one gets the text and the key id.
   */
  function ApplyTranslation(ts: seq<Translation>, job: Job, target: string, text: string): seq<Translation>
    requires job.target.Some? ==> job.target.value < |ts|
  {
    match job.target
    case None => ts + [Translation(Some(target), Some(text), Some(false), Some(true), Some(job.keyId), Some(WordCount(text)))]
    case Some(j) => ts[j := ts[j].(translation := Some(text), keyId := Some(job.keyId))]
  }

  /** The jobs name distinct keys, in increasing order, each with its id and a valid target index. */
  predicate JobsFit(vs: seq<KeyView>, jobs: seq<Job>) {
    && (forall q :: 0 <= q < |jobs| ==> JobFits(vs, jobs[q]))
    && (forall q, r :: 0 <= q < r < |jobs| ==> jobs[q].index < jobs[r].index)
  }

  /** A job's index names a key with the job's id whose translations have the job's target index. */
  predicate JobFits(vs: seq<KeyView>, job: Job) {
    && job.index < |vs|
    && vs[job.index].keyId == job.keyId
    && (job.target.Some? ==> job.target.value < |vs[job.index].translations|)
  }

  predicate Distinct(keys: seq<LokaliseKey>) {
    forall i, j :: 0 <= i < j < |keys| ==> keys[i] != keys[j]
  }

  /**
   * The success loop: a success result per job, each job's key updated in
   * place, and every other key left as it was. `vs` is the keys on entry.
   */
  method ApplyTranslations(keys: seq<LokaliseKey>, ghost vs: seq<KeyView>, jobs: seq<Job>, texts: seq<string>, target: string)
    returns (results: seq<KeyResult>)
    requires vs == Views(keys)
    requires Distinct(keys) && JobsFit(vs, jobs) && |texts| == |jobs|
    modifies set k | k in keys
    ensures results == SuccessResults(jobs, texts)
    ensures forall q :: 0 <= q < |jobs| ==>
              keys[jobs[q].index].translations == ApplyTranslation(vs[jobs[q].index].translations, jobs[q], target, texts[q])
    ensures forall i :: 0 <= i < |keys| && (forall q :: 0 <= q < |jobs| ==> jobs[q].index != i) ==>
              keys[i].translations == vs[i].translations
  {
    results := [];
    var p := 0;
    while p < |jobs|
      invariant 0 <= p <= |jobs|
      invariant results == SuccessResults(jobs[..p], texts[..p])
      invariant forall q :: 0 <= q < p ==>
                  keys[jobs[q].index].translations == ApplyTranslation(vs[jobs[q].index].translations, jobs[q], target, texts[q])
      invariant forall i :: 0 <= i < |keys| && (forall q :: 0 <= q < p ==> jobs[q].index != i) ==>
                  keys[i].translations == vs[i].translations
    {
      var job := jobs[p];
      assert JobFits(vs, job);
      var key := keys[job.index];
      assert key.translations == vs[job.index].translations by {
        assert forall q :: 0 <= q < p ==> jobs[q].index != job.index;
      }
      results := results + [SuccessResult(job, texts[p])];
      key.translations := ApplyTranslation(key.translations, job, target, texts[p]);
      assert SuccessResults(jobs[..p + 1], texts[..p + 1]) == SuccessResults(jobs[..p], texts[..p]) + [SuccessResult(job, texts[p])];
      p := p + 1;
    }
    assert jobs[..p] == jobs && texts[..p] == texts;
  }

  // ---------------------------------------------------------------------
  // process_translations: upload status

  /** The first result with key id `id`. */
  function FirstWithKey(rs: seq<KeyResult>, id: KeyId): (r: Option<nat>)
    ensures r.Some? ==> r.value < |rs| && rs[r.value].keyId == id
    ensures r.Some? ==> forall j :: 0 <= j < r.value ==> rs[j].keyId != id
    ensures r.None? ==> forall j :: 0 <= j < |rs| ==> rs[j].keyId != id
  {
    if rs == [] then None
    else if rs[0].keyId == id then Some(0)
    else
      match FirstWithKey(rs[1..], id)
      case None => None
      case Some(j) => Some(j + 1)
  }

  /** One upload result applied: a failed upload marks the first result with its key id as an error. */
  function PatchOne(rs: seq<KeyResult>, u: UploadResult): seq<KeyResult> {
    if u.status.Uploaded? then rs
    else
      match FirstWithKey(rs, u.keyId)
      case None => rs
      case Some(j) => rs[j := rs[j].(status := Error, error := Some(u.status.error))]
  }

  function PatchAll(rs: seq<KeyResult>, uploads: seq<UploadResult>): seq<KeyResult> {
    if uploads == [] then rs
    else PatchOne(PatchAll(rs, uploads[..|uploads| - 1]), uploads[|uploads| - 1])
  }

  /** The nested loop over upload results and results, with `break` at the first equal key id. */
  method PatchUploadStatus(results: seq<KeyResult>, uploads: seq<UploadResult>) returns (patched: seq<KeyResult>)
    ensures patched == PatchAll(results, uploads)
  {
    patched := results;
    var u := 0;
    while u < |uploads|
      invariant 0 <= u <= |uploads|
      invariant patched == PatchAll(results, uploads[..u])
    {
      assert uploads[..u + 1][..u] == uploads[..u];
      var upload := uploads[u];
      var j := 0;
      while j < |patched|
        invariant 0 <= j <= |patched|
        invariant forall i :: 0 <= i < j ==> patched[i].keyId != upload.keyId
      {
        if patched[j].keyId == upload.keyId {
          assert FirstWithKey(patched, upload.keyId) == Some(j);
          if upload.status.UploadFailed? {
            patched := patched[j := patched[j].(status := Error, error := Some(upload.status.error))];
          }
          break;
        }
        j := j + 1;
      }
      assert j == |patched| ==> FirstWithKey(patched, upload.keyId) == None;
      u := u + 1;
    }
    assert uploads[..u] == uploads;
  }

  // ---------------------------------------------------------------------
  // process_translations

  /**
   * `process_translations(target_language, source_language, force_translate)`
   * on the keys `get_all_keys` returned. The results are the merged results
   * with the upload failures marked. When every translation succeeded, each
   * queued key has its translation written in; no other key changes.
   */
  method ProcessTranslations(
    keys: seq<LokaliseKey>, target: string, source: string, force: bool,
    translate: (string, string) -> Completion, put: (KeyId, seq<PayloadEntry>) -> PutReply)
    returns (results: seq<KeyResult>)
    requires Distinct(keys)
    modifies set k | k in keys
    ensures results == PatchAll(MergedResults(old(Views(keys)), source, target, force, translate), UploadResults(keys, put))
    ensures Updated(old(Views(keys)), Views(keys), source, target, force, translate)
  {
    results := TranslateKeys(keys, target, source, force, translate);
    var uploads := UploadTranslation(keys, put);
    results := PatchUploadStatus(results, uploads);
  }

  /** Classification, translation and the in-place update, before the upload. */
  method TranslateKeys(keys: seq<LokaliseKey>, target: string, source: string, force: bool, translate: (string, string) -> Completion)
    returns (results: seq<KeyResult>)
    requires Distinct(keys)
    modifies set k | k in keys
    ensures results == MergedResults(old(Views(keys)), source, target, force, translate)
    ensures Updated(old(Views(keys)), Views(keys), source, target, force, translate)
  {
    ghost var vs := Views(keys);
    var skipped, jobs := ClassifyKeys(keys, source, target, force);
    JobsFitKeys(vs, source, target, force);
    var gathered := GatherTranslations(jobs, target, translate);
    if gathered.Ok? {
      var done := ApplyTranslations(keys, vs, jobs, gathered.value, target);
      results := skipped + done;
      UpdatedOk(vs, Views(keys), source, target, force, translate);
    } else {
      results := skipped + ErrorResults(jobs, gathered.error);
      UpdatedErr(vs, Views(keys), source, target, force, translate);
    }
  }

  /**
   * The keys after the update, `ws`, against the keys before, `vs`: ids and
   * names are kept; when every translation succeeded, each queued key's
   * translations are updated with its text; every other key is unchanged.
   */
  predicate Updated(vs: seq<KeyView>, ws: seq<KeyView>, source: string, target: string, force: bool, translate: (string, string) -> Completion) {
    var jobs := Jobs(vs, source, target, force);
    var gathered := Gather(jobs, target, translate);
    && |ws| == |vs|
    && (forall i :: 0 <= i < |vs| ==> ws[i].keyId == vs[i].keyId && ws[i].keyName == vs[i].keyName)
    && JobsFit(vs, jobs)
    && (gathered.Ok? ==>
          forall q :: 0 <= q < |jobs| ==>
            ws[jobs[q].index].translations == ApplyTranslation(vs[jobs[q].index].translations, jobs[q], target, gathered.value[q]))
    && (forall i :: 0 <= i < |vs| && (gathered.Err? || forall q :: 0 <= q < |jobs| ==> jobs[q].index != i) ==>
          ws[i].translations == vs[i].translations)
  }

  lemma UpdatedOk(vs: seq<KeyView>, ws: seq<KeyView>, source: string, target: string, force: bool, translate: (string, string) -> Completion)
    requires Gather(Jobs(vs, source, target, force), target, translate).Ok?
    requires JobsFit(vs, Jobs(vs, source, target, force))
    requires |ws| == |vs| && forall i :: 0 <= i < |vs| ==> ws[i].keyId == vs[i].keyId && ws[i].keyName == vs[i].keyName
    requires var jobs := Jobs(vs, source, target, force);
             forall q :: 0 <= q < |jobs| ==>
               ws[jobs[q].index].translations
               == ApplyTranslation(vs[jobs[q].index].translations, jobs[q], target, Gather(jobs, target, translate).value[q])
    requires var jobs := Jobs(vs, source, target, force);
             forall i :: 0 <= i < |vs| && (forall q :: 0 <= q < |jobs| ==> jobs[q].index != i) ==>
               ws[i].translations == vs[i].translations
    ensures Updated(vs, ws, source, target, force, translate)
  {
  }

  lemma UpdatedErr(vs: seq<KeyView>, ws: seq<KeyView>, source: string, target: string, force: bool, translate: (string, string) -> Completion)
    requires Gather(Jobs(vs, source, target, force), target, translate).Err?
    requires JobsFit(vs, Jobs(vs, source, target, force))
    requires ws == vs
    ensures Updated(vs, ws, source, target, force, translate)
  {
  }

  // ---------------------------------------------------------------------
  // Properties: glossary

  /** A translation is found exactly when one has the language; it is then the first such. */
  lemma {:induction false} FirstTranslationSpec(ts: seq<GlossaryTranslation>, lang: string)
    ensures FirstTranslationFor(ts, lang).None? <==> forall i :: 0 <= i < |ts| ==> ts[i].languageIso != lang
    ensures FirstTranslationFor(ts, lang).Some? ==>
              exists k :: 0 <= k < |ts| && ts[k] == FirstTranslationFor(ts, lang).value && ts[k].languageIso == lang
                && forall i :: 0 <= i < k ==> ts[i].languageIso != lang
  {
    if ts != [] && ts[0].languageIso != lang {
      FirstTranslationSpec(ts[1..], lang);
      assert forall i :: 1 <= i < |ts| ==> ts[i] == ts[1..][i - 1];
      if FirstTranslationFor(ts, lang).Some? {
        var k :| 0 <= k < |ts[1..]| && ts[1..][k] == FirstTranslationFor(ts[1..], lang).value && ts[1..][k].languageIso == lang
                 && forall i :: 0 <= i < k ==> ts[1..][i].languageIso != lang;
        assert ts[k + 1] == ts[1..][k];
        forall i | 0 <= i < k + 1
          ensures ts[i].languageIso != lang
        {
          if i > 0 {
            assert ts[i] == ts[1..][i - 1];
          }
        }
      }
    } else if ts != [] {
      assert ts[0] == FirstTranslationFor(ts, lang).value;
    }
  }

  /** Selecting terms from two glossary parts is selecting from each, in order. */
  lemma {:induction false} RelevantTermsAppend(g1: seq<GlossaryEntry>, g2: seq<GlossaryEntry>, source: string, lang: string)
    ensures RelevantTerms(g1 + g2, source, lang) == RelevantTerms(g1, source, lang) + RelevantTerms(g2, source, lang)
    decreases |g2|
  {
    if g2 == [] {
      assert g1 + g2 == g1;
    } else {
      var init := g2[..|g2| - 1];
      assert (g1 + g2)[..|g1 + g2| - 1] == g1 + init;
      assert (g1 + g2)[|g1 + g2| - 1] == g2[|g2| - 1];
      RelevantTermsAppend(g1, init, source, lang);
    }
  }

  /**
   * One entry is selected exactly when its term, lower-cased, occurs in the
   * lower-cased source and it has a translation into `lang`; the selected
   * term carries the first such translation, with a missing description or
   * part of speech read as "".
   */
  lemma RelevantTermsSingle(e: GlossaryEntry, source: string, lang: string)
    ensures |RelevantTerms([e], source, lang)| <= 1
    ensures RelevantTerms([e], source, lang) != [] <==>
              Mentions(source, e.term) && exists t :: t in e.translations && t.languageIso == lang
    ensures RelevantTerms([e], source, lang) != [] ==>
              FirstTranslationFor(e.translations, lang).Some? &&
              RelevantTerms([e], source, lang)[0]
              == RelevantTerm(e.term, FirstTranslationFor(e.translations, lang).value.translation,
                              e.description.GetOrEmpty(), e.partOfSpeech.GetOrEmpty())
  {
    assert [e][..0] == [];
    FirstTranslationSpec(e.translations, lang);
    if exists t :: t in e.translations && t.languageIso == lang {
      var t :| t in e.translations && t.languageIso == lang;
      var i :| 0 <= i < |e.translations| && e.translations[i] == t;
    }
  }

  /** Never more terms than glossary entries. */
  lemma {:induction false} RelevantTermsBound(g: seq<GlossaryEntry>, source: string, lang: string)
    ensures |RelevantTerms(g, source, lang)| <= |g|
  {
    if g != [] {
      RelevantTermsBound(g[..|g| - 1], source, lang);
    }
  }

  /** Matching ignores the letter case of the source text. */
  lemma RelevantTermsIgnoreCase(g: seq<GlossaryEntry>, source: string, lang: string)
    ensures RelevantTerms(g, Lower(source), lang) == RelevantTerms(g, source, lang)
  {
    LowerFacts(source);
    TermsSameMentions(g, Lower(source), source, lang);
  }

  lemma {:induction false} TermsSameMentions(g: seq<GlossaryEntry>, s1: string, s2: string, lang: string)
    requires Lower(s1) == Lower(s2)
    ensures RelevantTerms(g, s1, lang) == RelevantTerms(g, s2, lang)
  {
    if g != [] {
      TermsSameMentions(g[..|g| - 1], s1, s2, lang);
    }
  }

  // ---------------------------------------------------------------------
  // Properties: prompt formatting

  /** The section is empty exactly without terms; otherwise it is the header and one block per term. */
  lemma FormatGlossarySpec(terms: seq<RelevantTerm>)
    ensures FormatGlossary(terms) == "" <==> terms == []
    ensures terms != [] ==> StartsWith(FormatGlossary(terms), GlossaryHeader)
    ensures |Blocks(terms)| == |terms|
  {
    BlocksLength(terms);
    if terms != [] {
      var r := FormatGlossary(terms);
      assert r[..|GlossaryHeader|] == GlossaryHeader;
    }
  }

  lemma {:induction false} BlocksLength(terms: seq<RelevantTerm>)
    ensures |Blocks(terms)| == |terms|
    ensures forall i :: 0 <= i < |terms| ==> Blocks(terms)[i] == Block(terms[i])
  {
    if terms != [] {
      BlocksLength(terms[..|terms| - 1]);
    }
  }

  /**
   * A block starts with "- term", the separator `Arrow` and the
   * translation, and has a Description line and a Part of Speech line
   * exactly when those are non-empty. When no
   * value holds a line break, splitting the block on line breaks gives its
   * lines back.
   */
  lemma BlockSpec(t: RelevantTerm)
    ensures StartsWith(Block(t), "- " + t.term + " " + Arrow + " " + t.translation)
    ensures |BlockLines(t)| == 1 + (if NonEmpty(t.description) then 1 else 0) + (if NonEmpty(t.partOfSpeech) then 1 else 0)
    ensures (forall i :: 0 <= i < |BlockLines(t)| ==> '\n' !in BlockLines(t)[i]) ==> SplitOn(Block(t), '\n') == BlockLines(t)
  {
    var lines := BlockLines(t);
    var head := "- " + t.term + " " + Arrow + " " + t.translation;
    assert lines[0] == head;
    JoinStartsWithHead("\n", lines);
    if forall i :: 0 <= i < |lines| ==> '\n' !in lines[i] {
      SplitOnJoin(lines, '\n');
    }
  }

  lemma JoinStartsWithHead(sep: string, parts: seq<string>)
    requires parts != []
    ensures StartsWith(Join(sep, parts), parts[0])
  {
    if |parts| > 1 {
      assert Join(sep, parts) == parts[0] + (sep + Join(sep, parts[1..]));
    }
  }

  // ---------------------------------------------------------------------
  // Properties: classification and merge

  /** The first index in `lang`, exactly: earlier entries have other languages, and None means none has it. */
  lemma {:induction false} FindLanguageSpec(ts: seq<Translation>, lang: string)
    ensures FindLanguage(ts, lang).Some? ==>
              ts[FindLanguage(ts, lang).value].languageIso == Some(lang)
              && forall j :: 0 <= j < FindLanguage(ts, lang).value ==> ts[j].languageIso != Some(lang)
    ensures FindLanguage(ts, lang).None? ==> forall j :: 0 <= j < |ts| ==> ts[j].languageIso != Some(lang)
  {
    if ts != [] && ts[0].languageIso != Some(lang) {
      FindLanguageSpec(ts[1..], lang);
      assert forall j :: 1 <= j < |ts| ==> ts[j] == ts[1..][j - 1];
    }
  }

  /**
   * A key with no source text is skipped, one with a translation is
   * skipped unless translation is forced, and every other key is queued;
   * the queued key is new exactly when it had no target text.
   */
  lemma ClassifySpec(ts: seq<Translation>, source: string, target: string, force: bool)
    ensures Classify(ts, source, target, force).NoSource? <==> LanguageText(ts, source) == []
    ensures Classify(ts, source, target, force).AlreadyTranslated? <==>
              LanguageText(ts, source) != [] && LanguageText(ts, target) != [] && !force
    ensures Classify(ts, source, target, force).ToTranslate? ==>
              var c := Classify(ts, source, target, force);
              && c.sourceText == LanguageText(ts, source) && c.sourceText != []
              && c.existing == LanguageText(ts, target)
              && c.hasTranslation == (LanguageText(ts, target) != [])
              && (c.hasTranslation ==> force)
              && c.target == FindLanguage(ts, target)
  {
  }

  /** Every job fits the key it names, and the queued positions strictly increase. */
  lemma JobsFitKeys(vs: seq<KeyView>, source: string, target: string, force: bool)
    ensures JobsFit(vs, Jobs(vs, source, target, force))
  {
    JobsSpec(vs, source, target, force);
  }

  /**
   * The queue lists the keys classified `ToTranslate`, in increasing key
   * order, each with what its classification found, and no other key.
   */
  lemma JobsSpec(vs: seq<KeyView>, source: string, target: string, force: bool)
    ensures JobsFit(vs, Jobs(vs, source, target, force))
    ensures forall q :: 0 <= q < |Jobs(vs, source, target, force)| ==>
              var job := Jobs(vs, source, target, force)[q];
              Classify(vs[job.index].translations, source, target, force)
              == ToTranslate(job.sourceText, job.target, job.existing, job.hasTranslation)
    ensures forall i :: 0 <= i < |vs| && Classify(vs[i].translations, source, target, force).ToTranslate? ==>
              exists q :: 0 <= q < |Jobs(vs, source, target, force)| && Jobs(vs, source, target, force)[q].index == i
  {
    var jobs := Jobs(vs, source, target, force);
    JobsClassified(vs, source, target, force);
    JobsIncreasing(vs, source, target, force);
    forall i | 0 <= i < |vs| && Classify(vs[i].translations, source, target, force).ToTranslate?
      ensures exists q :: 0 <= q < |jobs| && jobs[q].index == i
    {
      var q := JobsComplete(vs, source, target, force, i);
    }
    forall q | 0 <= q < |jobs|
      ensures JobFits(vs, jobs[q])
    {
      ClassifyTarget(vs[jobs[q].index].translations, source, target, force);
    }
  }

  lemma ClassifyTarget(ts: seq<Translation>, source: string, target: string, force: bool)
    ensures var c := Classify(ts, source, target, force);
            c.ToTranslate? && c.target.Some? ==> c.target.value < |ts|
  {
  }

  lemma {:induction false} JobsClassified(vs: seq<KeyView>, source: string, target: string, force: bool)
    ensures forall q :: 0 <= q < |Jobs(vs, source, target, force)| ==>
              var job := Jobs(vs, source, target, force)[q];
              && job.index < |vs| && vs[job.index].keyId == job.keyId
              && Classify(vs[job.index].translations, source, target, force)
                 == ToTranslate(job.sourceText, job.target, job.existing, job.hasTranslation)
  {
    if vs != [] {
      var init := vs[..|vs| - 1];
      JobsClassified(init, source, target, force);
      var prev := Jobs(init, source, target, force);
      assert forall q :: 0 <= q < |prev| ==> vs[prev[q].index] == init[prev[q].index];
    }
  }

  lemma {:induction false} JobsIncreasing(vs: seq<KeyView>, source: string, target: string, force: bool)
    ensures forall q, r :: 0 <= q < r < |Jobs(vs, source, target, force)| ==>
              Jobs(vs, source, target, force)[q].index < Jobs(vs, source, target, force)[r].index
  {
    if vs != [] {
      JobsIncreasing(vs[..|vs| - 1], source, target, force);
      JobsBelow(vs[..|vs| - 1], source, target, force);
    }
  }

  /** A key classified `ToTranslate` is queued; `q` is its place in the queue. */
  lemma {:induction false} JobsComplete(vs: seq<KeyView>, source: string, target: string, force: bool, i: nat)
    returns (q: nat)
    requires i < |vs| && Classify(vs[i].translations, source, target, force).ToTranslate?
    ensures q < |Jobs(vs, source, target, force)| && Jobs(vs, source, target, force)[q].index == i
  {
    var init := vs[..|vs| - 1];
    var prev := Jobs(init, source, target, force);
    var jobs := Jobs(vs, source, target, force);
    var last := vs[|vs| - 1];
    var c := Classify(last.translations, source, target, force);
    if c.ToTranslate? {
      assert jobs == prev + [Job(|vs| - 1, last.keyId, last.keyName, c.sourceText, c.target, c.existing, c.hasTranslation)];
    } else {
      assert jobs == prev;
    }
    if i < |vs| - 1 {
      assert vs[i] == init[i];
      q := JobsComplete(init, source, target, force, i);
      assert jobs[q] == prev[q];
    } else {
      q := |prev|;
    }
  }

  lemma {:induction false} JobsBelow(vs: seq<KeyView>, source: string, target: string, force: bool)
    ensures forall q :: 0 <= q < |Jobs(vs, source, target, force)| ==> Jobs(vs, source, target, force)[q].index < |vs|
  {
    if vs != [] {
      JobsBelow(vs[..|vs| - 1], source, target, force);
    }
  }

  /** Every key is accounted for once: a skipped key by its skip result, any other key by its job. */
  lemma {:induction false} SkipsAndJobsCount(vs: seq<KeyView>, source: string, target: string, force: bool)
    ensures |SkipResults(vs, source, target, force)| + |Jobs(vs, source, target, force)| == |vs|
    ensures forall i :: 0 <= i < |SkipResults(vs, source, target, force)| ==>
              SkipResults(vs, source, target, force)[i].status == Skipped
  {
    if vs != [] {
      SkipsAndJobsCount(vs[..|vs| - 1], source, target, force);
    }
  }

  /** The translation fails exactly when some queued source text fails, with the first such failure. */
  lemma {:induction false} GatherSpec(jobs: seq<Job>, target: string, translate: (string, string) -> Completion)
    ensures Gather(jobs, target, translate).Ok? <==> forall q :: 0 <= q < |jobs| ==> translate(jobs[q].sourceText, target).Completed?
    ensures Gather(jobs, target, translate).Ok? ==>
              forall q :: 0 <= q < |jobs| ==> Gather(jobs, target, translate).value[q] == translate(jobs[q].sourceText, target).text
  {
    if jobs != [] {
      GatherSpec(jobs[..|jobs| - 1], target, translate);
    }
  }

  lemma {:induction false} GatherStopsAtError(jobs: seq<Job>, target: string, translate: (string, string) -> Completion, n: nat)
    requires 0 < n <= |jobs|
    requires Gather(jobs[..n - 1], target, translate).Ok? && translate(jobs[n - 1].sourceText, target).Failed?
    ensures Gather(jobs, target, translate) == Err(translate(jobs[n - 1].sourceText, target).message)
    decreases |jobs|
  {
    if |jobs| == n {
      assert jobs[..|jobs| - 1] == jobs[..n - 1];
    } else {
      assert jobs[..|jobs| - 1][..n - 1] == jobs[..n - 1];
      GatherStopsAtError(jobs[..|jobs| - 1], target, translate, n);
    }
  }

  /**
   * All or nothing: before the upload there is one result per key; the
   * skipped keys come first, and then either every queued key succeeded,
   * with `is_new_translation` telling whether it had no translation, or
   * every queued key failed with the same message.
   */
  lemma MergedResultsSpec(vs: seq<KeyView>, source: string, target: string, force: bool, translate: (string, string) -> Completion)
    ensures var rs := MergedResults(vs, source, target, force, translate);
            var skips := SkipResults(vs, source, target, force);
            var jobs := Jobs(vs, source, target, force);
            && |rs| == |vs| && |skips| + |jobs| == |vs|
            && rs[..|skips|] == skips
            && (forall i :: 0 <= i < |skips| ==> rs[i].status == Skipped)
            && (Gather(jobs, target, translate).Ok? ==>
                  forall q :: 0 <= q < |jobs| ==>
                    rs[|skips| + q].status == Success && rs[|skips| + q].keyId == jobs[q].keyId
                    && rs[|skips| + q].info.Translated?
                    && rs[|skips| + q].info.isNewTranslation == !jobs[q].hasTranslation)
            && (Gather(jobs, target, translate).Err? ==>
                  forall q :: 0 <= q < |jobs| ==>
                    rs[|skips| + q] == KeyResult(jobs[q].keyId, jobs[q].keyName, Error, NotTranslated, Some(Gather(jobs, target, translate).error)))
  {
    SkipsAndJobsCount(vs, source, target, force);
  }

  function ResultIds(rs: seq<KeyResult>): seq<KeyId> {
    seq(|rs|, i requires 0 <= i < |rs| => rs[i].keyId)
  }

  function JobIds(jobs: seq<Job>): seq<KeyId> {
    seq(|jobs|, i requires 0 <= i < |jobs| => jobs[i].keyId)
  }

  function ViewIds(vs: seq<KeyView>): seq<KeyId> {
    seq(|vs|, i requires 0 <= i < |vs| => vs[i].keyId)
  }

  /** Between them, the skip results and the queue name every key once. */
  lemma {:induction false} SkipsAndJobsIds(vs: seq<KeyView>, source: string, target: string, force: bool)
    ensures multiset(ResultIds(SkipResults(vs, source, target, force))) + multiset(JobIds(Jobs(vs, source, target, force)))
            == multiset(ViewIds(vs))
  {
    if vs != [] {
      var init := vs[..|vs| - 1];
      var id := vs[|vs| - 1].keyId;
      SkipsAndJobsIds(init, source, target, force);
      assert ViewIds(vs) == ViewIds(init) + [id];
      assert multiset(ViewIds(vs)) == multiset(ViewIds(init)) + multiset{id};
      var skips := ResultIds(SkipResults(vs, source, target, force));
      var prevSkips := ResultIds(SkipResults(init, source, target, force));
      var jobs := JobIds(Jobs(vs, source, target, force));
      var prev := JobIds(Jobs(init, source, target, force));
      var queued := SkipOrJob(vs, source, target, force);
      if queued {
        assert multiset(jobs) == multiset(prev) + multiset{id};
      } else {
        assert multiset(skips) == multiset(prevSkips) + multiset{id};
      }
    }
  }

  /** The last key adds its id either to the queue or to the skip results. */
  lemma SkipOrJob(vs: seq<KeyView>, source: string, target: string, force: bool) returns (queued: bool)
    requires vs != []
    ensures var init := vs[..|vs| - 1];
            var id := vs[|vs| - 1].keyId;
            if queued then
              ResultIds(SkipResults(vs, source, target, force)) == ResultIds(SkipResults(init, source, target, force))
              && JobIds(Jobs(vs, source, target, force)) == JobIds(Jobs(init, source, target, force)) + [id]
            else
              ResultIds(SkipResults(vs, source, target, force)) == ResultIds(SkipResults(init, source, target, force)) + [id]
              && JobIds(Jobs(vs, source, target, force)) == JobIds(Jobs(init, source, target, force))
  {
    var init := vs[..|vs| - 1];
    queued := Classify(vs[|vs| - 1].translations, source, target, force).ToTranslate?;
    if queued {
      assert SkipResults(vs, source, target, force) == SkipResults(init, source, target, force);
    } else {
      assert Jobs(vs, source, target, force) == Jobs(init, source, target, force);
    }
  }

  /**
   * One result per key, whatever happens: the key ids of the results are
   * the key ids of the keys, each as often, before and after the upload
   * status is patched in.
   */
  lemma ResultIdsPermutation(
    vs: seq<KeyView>, source: string, target: string, force: bool,
    translate: (string, string) -> Completion, uploads: seq<UploadResult>)
    ensures multiset(ResultIds(MergedResults(vs, source, target, force, translate))) == multiset(ViewIds(vs))
    ensures multiset(ResultIds(PatchAll(MergedResults(vs, source, target, force, translate), uploads))) == multiset(ViewIds(vs))
  {
    var skips := SkipResults(vs, source, target, force);
    var jobs := Jobs(vs, source, target, force);
    var rs := MergedResults(vs, source, target, force, translate);
    SkipsAndJobsIds(vs, source, target, force);
    var tail := rs[|skips|..];
    assert rs == skips + tail;
    assert ResultIds(tail) == JobIds(jobs);
    assert ResultIds(rs) == ResultIds(skips) + ResultIds(tail);
    PatchAllSpec(rs, uploads);
    assert ResultIds(PatchAll(rs, uploads)) == ResultIds(rs);
  }

  // ---------------------------------------------------------------------
  // Properties: the in-place update

  /**
   * After the update, looking the target language up finds the new text.
   * An existing entry keeps everything but its text and key id, and the
   * other entries are unchanged; a new entry is appended, unreviewed and
   * fuzzy, with the word count of `text.split(' ')`.
   */
  lemma ApplyTranslationSpec(ts: seq<Translation>, job: Job, target: string, text: string)
    requires job.target == FindLanguage(ts, target)
    ensures var us := ApplyTranslation(ts, job, target, text);
            && FindLanguage(us, target).Some?
            && us[FindLanguage(us, target).value].translation == Some(text)
            && us[FindLanguage(us, target).value].keyId == Some(job.keyId)
            && LanguageText(us, target) == text
    ensures job.target.Some? ==>
              var us := ApplyTranslation(ts, job, target, text);
              var j := job.target.value;
              && |us| == |ts|
              && us[j] == ts[j].(translation := Some(text), keyId := Some(job.keyId))
              && forall i :: 0 <= i < |ts| && i != j ==> us[i] == ts[i]
    ensures job.target.None? ==>
              ApplyTranslation(ts, job, target, text)
              == ts + [Translation(Some(target), Some(text), Some(false), Some(true), Some(job.keyId), Some(multiset(text)[' '] + 1))]
  {
    FindLanguageSpec(ts, target);
    var us := ApplyTranslation(ts, job, target, text);
    FindLanguageSame(ts, us, target, if job.target.Some? then job.target.value else |ts|);
    SplitOnCount(text, ' ');
  }

  /**
   * The update never breaks the upload: a key whose payload could be built
   * before still has one afterwards, since the written entry has its
   * language and its text.
   */
  lemma ApplyKeepsPayload(ts: seq<Translation>, job: Job, target: string, text: string)
    requires job.target.Some? ==> job.target.value < |ts|
    ensures Payload(ts).Ok? ==> Payload(ApplyTranslation(ts, job, target, text)).Ok?
  {
    var us := ApplyTranslation(ts, job, target, text);
    PayloadSpec(ts);
    PayloadSpec(us);
    if Payload(ts).Ok? {
      forall i | 0 <= i < |us|
        ensures us[i].languageIso.Some? && us[i].translation.Some?
      {
        if i < |ts| {
          assert ts[i].languageIso.Some? && ts[i].translation.Some?;
        }
      }
    }
  }

  /** Two lists that agree before `k` and have `lang` at `k` find it at the same place. */
  lemma {:induction false} FindLanguageSame(ts: seq<Translation>, us: seq<Translation>, lang: string, k: nat)
    requires k < |us| && k <= |ts| && us[k].languageIso == Some(lang)
    requires forall j :: 0 <= j < k ==> ts[j] == us[j] && ts[j].languageIso != Some(lang)
    ensures FindLanguage(us, lang) == Some(k)
  {
    if k > 0 {
      assert forall j :: 0 <= j < k - 1 ==> us[1..][j] == us[j + 1];
      if |ts| > 0 {
        FindLanguageSame(ts[1..], us[1..], lang, k - 1);
      }
    }
  }

  // ---------------------------------------------------------------------
  // Properties: upload status

  /** Patching with one upload result: only a failed upload changes anything, and only the first result with its id. */
  lemma PatchOneSpec(rs: seq<KeyResult>, u: UploadResult)
    ensures |PatchOne(rs, u)| == |rs|
    ensures u.status.Uploaded? ==> PatchOne(rs, u) == rs
    ensures u.status.UploadFailed? && FirstWithKey(rs, u.keyId).Some? ==>
              var j := FirstWithKey(rs, u.keyId).value;
              && PatchOne(rs, u)[j] == rs[j].(status := Error, error := Some(u.status.error))
              && forall i :: 0 <= i < |rs| && i != j ==> PatchOne(rs, u)[i] == rs[i]
    ensures FirstWithKey(rs, u.keyId).None? ==> PatchOne(rs, u) == rs
  {
  }

  /**
   * Patching keeps every result's id, name and other members; a status can
   * only turn into an error, and then the error names a failed upload of
   * that key. Without failed uploads nothing changes.
   */
  lemma {:induction false} PatchAllSpec(rs: seq<KeyResult>, uploads: seq<UploadResult>)
    ensures |PatchAll(rs, uploads)| == |rs|
    ensures forall i :: 0 <= i < |rs| ==>
              var p := PatchAll(rs, uploads)[i];
              && p.keyId == rs[i].keyId && p.keyName == rs[i].keyName && p.info == rs[i].info
              && (p.status == rs[i].status || p.status == Error)
              && (p != rs[i] ==> p.error.Some? && exists u :: u in uploads && u.keyId == p.keyId && u.status == UploadFailed(p.error.value))
    ensures (forall u :: u in uploads ==> u.status.Uploaded?) ==> PatchAll(rs, uploads) == rs
  {
    if uploads != [] {
      var init := uploads[..|uploads| - 1];
      var last := uploads[|uploads| - 1];
      PatchAllSpec(rs, init);
      PatchOneSpec(PatchAll(rs, init), last);
      assert forall u :: u in init ==> u in uploads;
    }
  }
}
