/**
 * `TranslationViewSet.process_translations`: the target-language guard,
 * the request defaults and the summary counted over the pipeline's
 * results. The pipeline is a parameter: the response for the results it
 * gives back.
 */
module Views {
  import opened Wrappers
  import opened LokaliseService
  import opened TranslationPipeline

  /** `request.data`: a member that was not sent is `None`. */
  datatype ProcessRequest = ProcessRequest(targetLanguage: Option<string>, sourceLanguage: Option<string>, forceTranslate: Option<bool>)

  datatype Summary = Summary(
    totalProcessed: nat,
    successful: nat,
    failed: nat,
    skipped: nat,
    newTranslations: nat,
    updatedTranslations: nat,
    details: seq<KeyResult>)

  datatype Body = ErrorBody(error: string) | SummaryBody(summary: Summary)

  datatype HttpResponse = HttpResponse(status: int, body: Body)

  const TargetRequiredMessage: string := "Target language is required"

  const DefaultSourceLanguage: string := "en"

  /** `len([r for r in results if p(r)])` */
  function Count(rs: seq<KeyResult>, p: KeyResult -> bool): (n: nat)
    ensures n <= |rs|
  {
    if rs == [] then 0 else Count(rs[..|rs| - 1], p) + (if p(rs[|rs| - 1]) then 1 else 0)
  }

  /** `r.get('is_new_translation', False)`: only a translated result carries the member. */
  predicate IsNew(r: KeyResult) {
    r.info.Translated? && r.info.isNewTranslation
  }

  predicate IsSuccess(r: KeyResult) { r.status == Success }

  predicate IsError(r: KeyResult) { r.status == Error }

  predicate IsSkipped(r: KeyResult) { r.status == Skipped }

  predicate IsSettled(r: KeyResult) { r.status == Success || r.status == Error }

  predicate IsNewSuccess(r: KeyResult) { r.status == Success && IsNew(r) }

  predicate IsUpdatedSuccess(r: KeyResult) { r.status == Success && !IsNew(r) }

  /** The `summary` dict. */
  function Summarize(results: seq<KeyResult>): Summary {
    Summary(
      |results|,
      Count(results, IsSuccess),
      Count(results, IsError),
      Count(results, IsSkipped),
      Count(results, IsNewSuccess),
      Count(results, IsUpdatedSuccess),
      results)
  }

  /**
   * The view: a missing or empty target language is answered with 400 and
   * the error; otherwise the pipeline runs for the target, the source
   * language (default "en") and the force flag (default false), and its
   * results are summarized with 200.
   */
  function ProcessTranslationsView(req: ProcessRequest, pipeline: (string, string, bool) -> seq<KeyResult>): HttpResponse {
    if req.targetLanguage.None? || req.targetLanguage.value == "" then
      HttpResponse(400, ErrorBody(TargetRequiredMessage))
    else
      var results := pipeline(req.targetLanguage.value, req.sourceLanguage.GetOr(DefaultSourceLanguage), req.forceTranslate.GetOr(false));
      HttpResponse(200, SummaryBody(Summarize(results)))
  }

  // ---------------------------------------------------------------------
  // Properties

  lemma {:induction false} CountAppend(a: seq<KeyResult>, b: seq<KeyResult>, p: KeyResult -> bool)
    ensures Count(a + b, p) == Count(a, p) + Count(b, p)
    decreases |b|
  {
    if b == [] {
      assert a + b == a;
    } else {
      assert (a + b)[..|a + b| - 1] == a + b[..|b| - 1];
      CountAppend(a, b[..|b| - 1], p);
    }
  }

  /** Two filters that split every result count the results between them. */
  lemma {:induction false} CountSplit(rs: seq<KeyResult>, p: KeyResult -> bool, q: KeyResult -> bool, both: KeyResult -> bool)
    requires forall r :: both(r) <==> (p(r) || q(r))
    requires forall r :: !(p(r) && q(r))
    ensures Count(rs, p) + Count(rs, q) == Count(rs, both)
  {
    if rs != [] {
      CountSplit(rs[..|rs| - 1], p, q, both);
    }
  }

  /** Two filters that split every possible result count all results between them. */
  lemma {:induction false} CountCover(rs: seq<KeyResult>, p: KeyResult -> bool, q: KeyResult -> bool)
    requires forall r :: p(r) || q(r)
    requires forall r :: !(p(r) && q(r))
    ensures Count(rs, p) + Count(rs, q) == |rs|
  {
    if rs != [] {
      CountCover(rs[..|rs| - 1], p, q);
    }
  }

  lemma {:induction false} CountAll(rs: seq<KeyResult>, p: KeyResult -> bool)
    requires forall i :: 0 <= i < |rs| ==> p(rs[i])
    ensures Count(rs, p) == |rs|
  {
    if rs != [] {
      CountAll(rs[..|rs| - 1], p);
    }
  }

  lemma {:induction false} CountNone(rs: seq<KeyResult>, p: KeyResult -> bool)
    requires forall i :: 0 <= i < |rs| ==> !p(rs[i])
    ensures Count(rs, p) == 0
  {
    if rs != [] {
      CountNone(rs[..|rs| - 1], p);
    }
  }

  /**
   * The summary counts every result once: successes, failures and skips
   * add up to the total, and new and updated translations to the
   * successes; `details` is the results unchanged.
   */
  lemma SummarizeSpec(results: seq<KeyResult>)
    ensures var s := Summarize(results);
            && s.totalProcessed == |results|
            && s.details == results
            && s.successful + s.failed + s.skipped == s.totalProcessed
            && s.newTranslations + s.updatedTranslations == s.successful
  {
    CountSplit(results, IsSuccess, IsError, IsSettled);
    CountCover(results, IsSettled, IsSkipped);
    CountSplit(results, IsNewSuccess, IsUpdatedSuccess, IsSuccess);
  }

  /**
   * Without a target language the answer is 400 with the error whatever the
   * pipeline would do, so the pipeline is not consulted; with one, the
   * answer is 200 and the summary of the pipeline's results for the given
   * or default source language and force flag.
   */
  lemma ViewGuard(req: ProcessRequest, pipeline: (string, string, bool) -> seq<KeyResult>)
    ensures (req.targetLanguage.None? || req.targetLanguage == Some("")) ==>
              ProcessTranslationsView(req, pipeline) == HttpResponse(400, ErrorBody(TargetRequiredMessage))
              && forall other: (string, string, bool) -> seq<KeyResult> ::
                   ProcessTranslationsView(req, other) == ProcessTranslationsView(req, pipeline)
    ensures req.targetLanguage.Some? && req.targetLanguage.value != "" ==>
              var source := if req.sourceLanguage.Some? then req.sourceLanguage.value else DefaultSourceLanguage;
              var force := req.forceTranslate == Some(true);
              ProcessTranslationsView(req, pipeline)
              == HttpResponse(200, SummaryBody(Summarize(pipeline(req.targetLanguage.value, source, force))))
  {
    assert req.forceTranslate.GetOr(false) == (req.forceTranslate == Some(true));
    assert req.sourceLanguage.GetOr(DefaultSourceLanguage) == if req.sourceLanguage.Some? then req.sourceLanguage.value else DefaultSourceLanguage;
  }

  /**
   * The summary of a run before the upload status is patched in: the
   * skipped keys are counted as skipped, and the queued keys are all
   * successes or all failures; every key is counted once.
   */
  lemma SummaryOfMerged(vs: seq<KeyView>, source: string, target: string, force: bool, translate: (string, string) -> Completion)
    ensures var s := Summarize(MergedResults(vs, source, target, force, translate));
            var jobs := Jobs(vs, source, target, force);
            && s.totalProcessed == |vs|
            && s.skipped == |SkipResults(vs, source, target, force)|
            && (Gather(jobs, target, translate).Ok? ==> s.successful == |jobs| && s.failed == 0)
            && (Gather(jobs, target, translate).Err? ==> s.failed == |jobs| && s.successful == 0)
  {
    var skips := SkipResults(vs, source, target, force);
    var jobs := Jobs(vs, source, target, force);
    var gathered := Gather(jobs, target, translate);
    var tail := if gathered.Ok? then SuccessResults(jobs, gathered.value) else ErrorResults(jobs, gathered.error);
    assert MergedResults(vs, source, target, force, translate) == skips + tail;
    SkipsAndJobsCount(vs, source, target, force);
    SkipCounts(skips);
    if gathered.Ok? {
      SuccessCounts(jobs, gathered.value);
    } else {
      ErrorCounts(jobs, gathered.error);
    }
    CountAppend(skips, tail, IsSuccess);
    CountAppend(skips, tail, IsError);
    CountAppend(skips, tail, IsSkipped);
  }

  lemma SkipCounts(skips: seq<KeyResult>)
    requires forall i :: 0 <= i < |skips| ==> skips[i].status == Skipped
    ensures Count(skips, IsSkipped) == |skips| && Count(skips, IsSuccess) == 0 && Count(skips, IsError) == 0
  {
    CountAll(skips, IsSkipped);
    CountNone(skips, IsSuccess);
    CountNone(skips, IsError);
  }

  lemma SuccessCounts(jobs: seq<Job>, texts: seq<string>)
    requires |texts| == |jobs|
    ensures var rs := SuccessResults(jobs, texts);
            Count(rs, IsSuccess) == |jobs| && Count(rs, IsError) == 0 && Count(rs, IsSkipped) == 0
  {
    var rs := SuccessResults(jobs, texts);
    CountAll(rs, IsSuccess);
    CountNone(rs, IsError);
    CountNone(rs, IsSkipped);
  }

  lemma ErrorCounts(jobs: seq<Job>, message: string)
    ensures var rs := ErrorResults(jobs, message);
            Count(rs, IsError) == |jobs| && Count(rs, IsSuccess) == 0 && Count(rs, IsSkipped) == 0
  {
    var rs := ErrorResults(jobs, message);
    CountAll(rs, IsError);
    CountNone(rs, IsSuccess);
    CountNone(rs, IsSkipped);
  }

  /** Patching the upload status keeps the total, and without failed uploads the whole summary. */
  lemma SummaryAfterUpload(rs: seq<KeyResult>, uploads: seq<UploadResult>)
    ensures Summarize(PatchAll(rs, uploads)).totalProcessed == |rs|
    ensures (forall u :: u in uploads ==> u.status.Uploaded?) ==> Summarize(PatchAll(rs, uploads)) == Summarize(rs)
  {
    PatchAllSpec(rs, uploads);
  }
}
