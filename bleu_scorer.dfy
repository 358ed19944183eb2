/**
 * The BLEU helper of the translation service: a tokenizer (lower-case,
 * normalise whitespace, collapse a run of one repeated punctuation mark
 * from `.,!?;:` into one copy, split on whitespace) and a fail-soft
 * wrapper around a sentence-level BLEU scorer, which is a parameter here.
 *
 * The tokenizer keeps punctuation: it only shortens runs such as "!!!" to
 * "!" and leaves "!?", "'" and parentheses as they are.
 */
module BleuScorer {
  import opened PyStr

  /** The characters whose runs the regular expression `([.,!?;:])\1+` collapses. */
  predicate IsRunChar(c: char) {
    c == '.' || c == ',' || c == '!' || c == '?' || c == ';' || c == ':'
  }

  /** No two adjacent equal characters from `.,!?;:`. */
  predicate NoRepeatedRunChar(s: string) {
    forall i :: 0 <= i < |s| - 1 ==> !(IsRunChar(s[i]) && s[i + 1] == s[i])
  }

  /**
   * `re.sub(r'([.,!?;:])\1+', r'\1', s)`: every run of two or more copies of
   * one character from `.,!?;:` becomes a single copy. The result keeps only
   * characters of `s`, starts like `s`, and has no such run left.
   */
  function CollapseRuns(s: string): (r: string)
    ensures |r| <= |s|
    ensures forall c :: c in r ==> c in s
    ensures s != [] ==> r != [] && r[0] == s[0]
    ensures NoRepeatedRunChar(r)
  {
    if |s| <= 1 then s
    else if IsRunChar(s[0]) && s[1] == s[0] then CollapseRuns(s[1..])
    else
      var rest := CollapseRuns(s[1..]);
      assert forall i :: 0 <= i < |rest| - 1 ==> ([s[0]] + rest)[i + 1] == rest[i];
      [s[0]] + rest
  }

  /** `preprocess_text`: lower-case, join the whitespace-separated words with one space, collapse runs, split. */
  function PreprocessText(text: string): seq<string> {
    Words(CollapseRuns(Join(" ", Words(Lower(text)))))
  }

  function MapCollapse(ws: seq<string>): (r: seq<string>)
    ensures |r| == |ws|
    ensures forall i :: 0 <= i < |ws| ==> r[i] == CollapseRuns(ws[i])
  {
    if ws == [] then [] else [CollapseRuns(ws[0])] + MapCollapse(ws[1..])
  }

  /** A string in which no run is left is its own collapse. */
  lemma {:induction false} CollapseRunsIdentity(s: string)
    requires NoRepeatedRunChar(s)
    ensures CollapseRuns(s) == s
  {
    if |s| > 1 {
      assert NoRepeatedRunChar(s[1..]) by {
        forall i | 0 <= i < |s| - 2
          ensures !(IsRunChar(s[1..][i]) && s[1..][i + 1] == s[1..][i])
        {
          assert s[1..][i] == s[i + 1] && s[1..][i + 1] == s[i + 2];
        }
      }
      CollapseRunsIdentity(s[1..]);
      assert s == [s[0]] + s[1..];
    }
  }

  /** A run never reaches across a character that is not from `.,!?;:`. */
  lemma {:induction false} CollapseRunsAppend(a: string, b: string)
    requires b == [] || !IsRunChar(b[0])
    ensures CollapseRuns(a + b) == CollapseRuns(a) + CollapseRuns(b)
  {
    if a == [] {
      assert a + b == b;
    } else if |a| == 1 {
      if b != [] {
        assert (a + b)[1..] == b;
      } else {
        assert a + b == a;
      }
    } else {
      assert (a + b)[1..] == a[1..] + b;
      CollapseRunsAppend(a[1..], b);
    }
  }

  lemma CollapseRunsSpaceCons(x: string)
    ensures CollapseRuns([' '] + x) == [' '] + CollapseRuns(x)
  {
    if x != [] {
      assert ([' '] + x)[1..] == x;
    }
  }

  /** Collapsing a space-join is the space-join of the collapsed words. */
  lemma {:induction false} CollapseRunsJoin(ws: seq<string>)
    ensures CollapseRuns(Join(" ", ws)) == Join(" ", MapCollapse(ws))
  {
    if |ws| > 1 {
      var rest := Join(" ", ws[1..]);
      assert Join(" ", ws) == ws[0] + ([' '] + rest);
      CollapseRunsAppend(ws[0], [' '] + rest);
      CollapseRunsSpaceCons(rest);
      CollapseRunsJoin(ws[1..]);
      assert MapCollapse(ws)[1..] == MapCollapse(ws[1..]);
    }
  }

  lemma CollapseKeepsWordShape(w: string)
    requires w != [] && NoSpace(w)
    ensures CollapseRuns(w) != [] && NoSpace(CollapseRuns(w))
  {
    var r := CollapseRuns(w);
    forall i | 0 <= i < |r|
      ensures !IsSpace(r[i])
    {
      assert r[i] in r;
    }
  }

  lemma CollapseKeepsLowercase(w: string)
    requires IsLowercase(w)
    ensures IsLowercase(CollapseRuns(w))
  {
    var r := CollapseRuns(w);
    forall i | 0 <= i < |r|
      ensures !IsUpperAscii(r[i])
    {
      assert r[i] in r;
    }
  }

  /**
   * The tokenizer works word by word: its tokens are exactly the
   * whitespace-separated words of the input, each lower-cased and with its
   * runs collapsed. In particular it never drops, merges or splits a word.
   */
  lemma PreprocessTextWordwise(text: string)
    ensures PreprocessText(text) == MapCollapse(MapLower(Words(text)))
  {
    var ws := Words(Lower(text));
    WordsLower(text);
    CollapseRunsJoin(ws);
    forall i | 0 <= i < |ws|
      ensures MapCollapse(ws)[i] != [] && NoSpace(MapCollapse(ws)[i])
    {
      CollapseKeepsWordShape(ws[i]);
    }
    WordsOfJoin(MapCollapse(ws));
  }

  /** The number of tokens is the number of whitespace-separated words. */
  lemma PreprocessTextCount(text: string)
    ensures |PreprocessText(text)| == |Words(text)|
  {
    PreprocessTextWordwise(text);
  }

  /** Empty or all-whitespace input, and only such input, gives no tokens. */
  lemma PreprocessTextEmptyIff(text: string)
    ensures PreprocessText(text) == [] <==> AllSpace(text)
  {
    PreprocessTextWordwise(text);
    WordsEmptyIff(text);
  }

  /** What a token is. */
  predicate IsToken(t: string) {
    t != [] && NoSpace(t) && IsLowercase(t) && NoRepeatedRunChar(t)
  }

  /** Every token is non-empty, whitespace-free, lower-case, and has no run of a repeated `.,!?;:` left. */
  lemma PreprocessTextTokens(text: string)
    ensures forall i :: 0 <= i < |PreprocessText(text)| ==> IsToken(PreprocessText(text)[i])
  {
    PreprocessTextWordwise(text);
    var ws := Words(text);
    forall i | 0 <= i < |ws|
      ensures IsToken(CollapseRuns(Lower(ws[i])))
    {
      LowerFacts(ws[i]);
      assert Lower(ws[i]) != [] && NoSpace(Lower(ws[i]));
      CollapseKeepsWordShape(Lower(ws[i]));
      CollapseKeepsLowercase(Lower(ws[i]));
    }
  }

  /** A list of tokens, space-joined and tokenized again, comes back unchanged. */
  lemma {:induction false} PreprocessTextOfTokens(ts: seq<string>)
    requires forall i :: 0 <= i < |ts| ==> IsToken(ts[i])
    ensures PreprocessText(Join(" ", ts)) == ts
  {
    PreprocessTextWordwise(Join(" ", ts));
    WordsOfJoin(ts);
    TokensFixed(ts);
  }

  lemma TokensFixed(ts: seq<string>)
    requires forall i :: 0 <= i < |ts| ==> IsToken(ts[i])
    ensures MapCollapse(MapLower(ts)) == ts
  {
    forall i | 0 <= i < |ts|
      ensures MapCollapse(MapLower(ts))[i] == ts[i]
    {
      TokenFixed(ts[i]);
    }
  }

  lemma TokenFixed(t: string)
    requires IsToken(t)
    ensures CollapseRuns(Lower(t)) == t
  {
    LowerFacts(t);
    CollapseRunsIdentity(t);
  }

  /** `preprocess_text` is idempotent: re-tokenizing the space-joined tokens returns the same list. */
  lemma PreprocessTextIdempotent(text: string)
    ensures PreprocessText(Join(" ", PreprocessText(text))) == PreprocessText(text)
  {
    PreprocessTextTokens(text);
    PreprocessTextOfTokens(PreprocessText(text));
  }

  /** Upper/lower case in the input makes no difference. */
  lemma PreprocessTextIgnoresCase(text: string)
    ensures PreprocessText(Lower(text)) == PreprocessText(text)
  {
    LowerFacts(text);
  }

  /** The amount and kind of whitespace between words makes no difference. */
  lemma PreprocessTextIgnoresSpacing(text: string)
    ensures PreprocessText(Join(" ", Words(text))) == PreprocessText(text)
  {
    PreprocessTextWordwise(text);
    PreprocessTextWordwise(Join(" ", Words(text)));
    WordsOfJoin(Words(text));
  }

  /** `k` copies of `c`. */
  function Run(c: char, k: nat): (r: string)
    ensures |r| == k && forall i :: 0 <= i < k ==> r[i] == c
  {
    if k == 0 then [] else [c] + Run(c, k - 1)
  }

  /**
   * A run of one mark at the end of a word shrinks to a single copy
   * ("world!!!" becomes "world!"), and the rest of the word is kept.
   */
  lemma {:induction false} CollapseRunsTrailingRun(p: string, c: char, k: nat)
    requires IsRunChar(c) && k >= 1
    requires NoRepeatedRunChar(p)
    requires p == [] || p[|p| - 1] != c
    ensures CollapseRuns(p + Run(c, k)) == p + [c]
  {
    if p == [] {
      assert p + Run(c, k) == Run(c, k);
      assert p + [c] == [c];
      if k > 1 {
        var r := Run(c, k);
        assert r[0] == c && r[1] == c;
        assert r[1..] == Run(c, k - 1);
        assert CollapseRuns(r) == CollapseRuns(r[1..]);
        CollapseRunsTrailingRun(p, c, k - 1);
        assert p + Run(c, k - 1) == Run(c, k - 1);
      } else {
        assert Run(c, k) == [c];
      }
    } else {
      var s := p + Run(c, k);
      assert s[1..] == p[1..] + Run(c, k);
      assert NoRepeatedRunChar(p[1..]) by {
        forall i | 0 <= i < |p| - 2
          ensures !(IsRunChar(p[1..][i]) && p[1..][i + 1] == p[1..][i])
        {
          assert p[1..][i] == p[i + 1] && p[1..][i + 1] == p[i + 2];
        }
      }
      if |p| > 1 {
        assert s[1] == p[1];
        assert p[1..][|p| - 2] == p[|p| - 1];
      } else {
        assert s[1] == c;
      }
      CollapseRunsTrailingRun(p[1..], c, k);
      assert [p[0]] + (p[1..] + [c]) == p + [c];
    }
  }

  // ---------------------------------------------------------------------
  // compute_bleu_score

  /** What NLTK's `sentence_bleu(references, hypothesis)` does: return a value, or raise. */
  datatype ScorerOutcome = Scored(value: real) | Raised

  /**
   * `compute_bleu_score(reference, candidate)`. `dataReady` says whether
   * finding (or downloading) the tokenizer data finished without raising;
   * `sentenceBleu` is the scorer, called with the one-element list of
   * reference tokens and the candidate tokens. Every failure gives 0.0.
   */
  function ComputeBleuScore(reference: string, candidate: string, dataReady: bool,
                            sentenceBleu: (seq<seq<string>>, seq<string>) -> ScorerOutcome): real
  {
    if !dataReady then 0.0
    else
      var referenceTokens := PreprocessText(reference);
      var candidateTokens := PreprocessText(candidate);
      if referenceTokens == [] || candidateTokens == [] then 0.0
      else
        match sentenceBleu([referenceTokens], candidateTokens)
        case Scored(v) => v
        case Raised => 0.0
  }

  /**
   * An all-whitespace reference or candidate scores 0.0 whatever the scorer
   * would have said, so the scorer is not consulted.
   */
  lemma BleuBlankInputIsZero(reference: string, candidate: string, dataReady: bool,
                             sentenceBleu: (seq<seq<string>>, seq<string>) -> ScorerOutcome)
    requires AllSpace(reference) || AllSpace(candidate)
    ensures ComputeBleuScore(reference, candidate, dataReady, sentenceBleu) == 0.0
  {
    PreprocessTextEmptyIff(reference);
    PreprocessTextEmptyIff(candidate);
  }

  /**
   * Otherwise the result is the scorer's own value, unscaled, for the
   * reference tokens (as a one-element list) and the candidate tokens in
   * that order; a raising scorer or missing tokenizer data gives 0.0.
   */
  lemma BleuPassesScoreThrough(reference: string, candidate: string, dataReady: bool,
                               sentenceBleu: (seq<seq<string>>, seq<string>) -> ScorerOutcome)
    requires !AllSpace(reference) && !AllSpace(candidate)
    ensures var outcome := sentenceBleu([PreprocessText(reference)], PreprocessText(candidate));
            ComputeBleuScore(reference, candidate, dataReady, sentenceBleu)
            == if dataReady && outcome.Scored? then outcome.value else 0.0
  {
    PreprocessTextEmptyIff(reference);
    PreprocessTextEmptyIff(candidate);
  }

  /** The score does not depend on case or spacing of either text. */
  lemma BleuIgnoresCaseAndSpacing(reference: string, candidate: string, dataReady: bool,
                                  sentenceBleu: (seq<seq<string>>, seq<string>) -> ScorerOutcome)
    ensures ComputeBleuScore(Lower(reference), Join(" ", Words(candidate)), dataReady, sentenceBleu)
            == ComputeBleuScore(reference, candidate, dataReady, sentenceBleu)
    ensures ComputeBleuScore(Join(" ", Words(reference)), Lower(candidate), dataReady, sentenceBleu)
            == ComputeBleuScore(reference, candidate, dataReady, sentenceBleu)
  {
    assert ComputeBleuScore(Lower(reference), Join(" ", Words(candidate)), dataReady, sentenceBleu)
           == ComputeBleuScore(reference, candidate, dataReady, sentenceBleu) by {
      PreprocessTextIgnoresCase(reference);
      PreprocessTextIgnoresSpacing(candidate);
      BleuDependsOnTokensOnly(Lower(reference), Join(" ", Words(candidate)), reference, candidate, dataReady, sentenceBleu);
    }
    assert ComputeBleuScore(Join(" ", Words(reference)), Lower(candidate), dataReady, sentenceBleu)
           == ComputeBleuScore(reference, candidate, dataReady, sentenceBleu) by {
      PreprocessTextIgnoresSpacing(reference);
      PreprocessTextIgnoresCase(candidate);
      BleuDependsOnTokensOnly(Join(" ", Words(reference)), Lower(candidate), reference, candidate, dataReady, sentenceBleu);
    }
  }

  /** Texts with the same tokens score the same. */
  lemma BleuDependsOnTokensOnly(reference: string, candidate: string, reference': string, candidate': string, dataReady: bool,
                                sentenceBleu: (seq<seq<string>>, seq<string>) -> ScorerOutcome)
    requires PreprocessText(reference) == PreprocessText(reference')
    requires PreprocessText(candidate) == PreprocessText(candidate')
    ensures ComputeBleuScore(reference, candidate, dataReady, sentenceBleu)
            == ComputeBleuScore(reference', candidate', dataReady, sentenceBleu)
  {
  }
}
