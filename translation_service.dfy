/**
 * `TranslationService`: the quality record of `check_translation_quality`
 * and the glossary context that `fine_tune_translation` puts into its
 * prompt. The remote calls of the service are not part of this model.
 */
module TranslationService {
  import opened PyStr
  import opened BleuScorer

  /** The texts echoed under "translations". */
  datatype QualityTranslations = QualityTranslations(sourceText: string, referenceTranslation: string, candidateTranslation: string)

  /** The result dict: exactly the members "bleu_score" and "translations". */
  datatype QualityReport = QualityReport(bleuScore: real, translations: QualityTranslations)

  /** `check_translation_quality(source_text, reference_translation, candidate_translation)` */
  function CheckTranslationQuality(
    sourceText: string, reference: string, candidate: string,
    dataReady: bool, sentenceBleu: (seq<seq<string>>, seq<string>) -> ScorerOutcome): (r: QualityReport)
    ensures r.translations.sourceText == sourceText
    ensures r.translations.referenceTranslation == reference
    ensures r.translations.candidateTranslation == candidate
  {
    QualityReport(
      ComputeBleuScore(reference, candidate, dataReady, sentenceBleu),
      QualityTranslations(sourceText, reference, candidate))
  }

  /**
   * The score is the scorer's value for the reference tokens as the one
   * reference and the candidate tokens as the hypothesis, 0.0 when either
   * text is blank or scoring fails, and the source text plays no part.
   */
  lemma QualityScoreSpec(
    sourceText: string, reference: string, candidate: string,
    dataReady: bool, sentenceBleu: (seq<seq<string>>, seq<string>) -> ScorerOutcome)
    ensures AllSpace(reference) || AllSpace(candidate) ==>
              CheckTranslationQuality(sourceText, reference, candidate, dataReady, sentenceBleu).bleuScore == 0.0
    ensures !AllSpace(reference) && !AllSpace(candidate) ==>
              var outcome := sentenceBleu([PreprocessText(reference)], PreprocessText(candidate));
              CheckTranslationQuality(sourceText, reference, candidate, dataReady, sentenceBleu).bleuScore
              == if dataReady && outcome.Scored? then outcome.value else 0.0
    ensures forall other: string ::
              CheckTranslationQuality(other, reference, candidate, dataReady, sentenceBleu).bleuScore
              == CheckTranslationQuality(sourceText, reference, candidate, dataReady, sentenceBleu).bleuScore
  {
    if AllSpace(reference) || AllSpace(candidate) {
      BleuBlankInputIsZero(reference, candidate, dataReady, sentenceBleu);
    } else {
      BleuPassesScoreThrough(reference, candidate, dataReady, sentenceBleu);
    }
  }

  // ---------------------------------------------------------------------
  // The glossary context of fine_tune_translation

  /** The two members of a glossary term the context reads. */
  datatype ContextTerm = ContextTerm(term: string, translation: string)

  function ContextLine(t: ContextTerm): string {
    "- " + t.term + ": " + t.translation
  }

  function ContextLines(terms: seq<ContextTerm>): (lines: seq<string>)
    ensures |lines| == |terms|
  {
    seq(|terms|, i requires 0 <= i < |terms| => ContextLine(terms[i]))
  }

  /** `"\n".join(f"- {term['term']}: {term['translation']}" for term in glossary_terms)` */
  function GlossaryContext(terms: seq<ContextTerm>): string {
    Join("\n", ContextLines(terms))
  }

  /** The context is empty exactly when there are no terms. */
  lemma GlossaryContextEmptyIff(terms: seq<ContextTerm>)
    ensures GlossaryContext(terms) == "" <==> terms == []
  {
    if terms != [] {
      var lines := ContextLines(terms);
      assert lines[0] == ContextLine(terms[0]);
      JoinKeepsHead("\n", lines);
    }
  }

  lemma JoinKeepsHead(sep: string, parts: seq<string>)
    requires parts != []
    ensures |Join(sep, parts)| >= |parts[0]|
  {
    if |parts| > 1 {
      assert Join(sep, parts) == parts[0] + (sep + Join(sep, parts[1..]));
    }
  }

  /**
   * When no term or translation holds a line break, splitting the context
   * on line breaks gives back one "- term: translation" line per term, in
   * input order.
   */
  lemma GlossaryContextLines(terms: seq<ContextTerm>)
    requires terms != []
    requires forall i :: 0 <= i < |terms| ==> '\n' !in terms[i].term && '\n' !in terms[i].translation
    ensures SplitOn(GlossaryContext(terms), '\n') == ContextLines(terms)
    ensures forall i :: 0 <= i < |terms| ==> SplitOn(GlossaryContext(terms), '\n')[i] == "- " + terms[i].term + ": " + terms[i].translation
  {
    var lines := ContextLines(terms);
    forall i | 0 <= i < |lines|
      ensures '\n' !in lines[i]
    {
      ContextLineHasNoBreak(terms[i]);
    }
    SplitOnJoin(lines, '\n');
  }

  lemma ContextLineHasNoBreak(t: ContextTerm)
    requires '\n' !in t.term && '\n' !in t.translation
    ensures '\n' !in ContextLine(t)
  {
    var dash: string := "- ";
    var colon: string := ": ";
    assert '\n' !in dash && '\n' !in colon;
    assert ContextLine(t) == dash + t.term + colon + t.translation;
  }
}
