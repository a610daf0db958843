/**
 * Picking the answer: the first document with the highest similarity to
 * the question, marked as a confident answer when that similarity is above
 * 0.01. The similarities themselves (TF-IDF and cosine similarity) are an
 * input: one score per document, in corpus order.
 */
module Retrieval {
  import opened Chars
  import opened Corpus
  import opened Normalizer

  /**
   * The similarity above which the answer is shown as confident: the
   * binary double that the literal 0.01 denotes, which lies slightly above
   * the decimal 0.01.
   */
  const Threshold: real := 0.01000000000000000020816681711721685132943093776702880859375

  datatype Confidence = High | Low

  /** The best match: its position in the corpus, its text and its score. */
  datatype Answer = Answer(index: nat, document: string, score: real, confidence: Confidence)

  /** What pressing "Analizar" produces. */
  datatype Outcome = Answered(answer: Answer) | Rejected(error: InputError)

  /**
   * `argmax` over the similarities: the position of the largest score,
   * the first one when several are equal.
   */
  function ArgMax(scores: seq<real>): (k: nat)
    requires |scores| > 0
    ensures k < |scores|
    ensures forall j :: 0 <= j < |scores| ==> scores[j] <= scores[k]
    ensures forall j :: 0 <= j < k ==> scores[j] < scores[k]
  {
    if |scores| == 1 then 0
    else
      var k := ArgMax(scores[..|scores| - 1]);
      if scores[|scores| - 1] > scores[k] then |scores| - 1 else k
  }

  /** Only one position is a maximum with no equal score before it. */
  lemma {:induction false} ArgMaxUnique(scores: seq<real>, k: nat)
    requires k < |scores|
    requires forall j :: 0 <= j < |scores| ==> scores[j] <= scores[k]
    requires forall j :: 0 <= j < k ==> scores[j] < scores[k]
    ensures k == ArgMax(scores)
  {
  }

  /** When all scores are equal, the first document wins. */
  lemma {:induction false} ArgMaxTie(scores: seq<real>)
    requires |scores| > 0
    requires forall j :: 0 <= j < |scores| ==> scores[j] == scores[0]
    ensures ArgMax(scores) == 0
  {
  }

  /** A score strictly above the threshold is a confident answer. */
  function Classify(score: real): Confidence {
    if score > Threshold then High else Low
  }

  /**
   * The answer: the position `argmax` picks, the document and the score at
   * that position, and the confidence label for that score.
   */
  function Select(docs: seq<string>, scores: seq<real>): (a: Answer)
    requires |docs| == |scores| > 0
    ensures a.index < |docs|
    ensures a.document == docs[a.index] && a.score == scores[a.index]
    ensures forall j :: 0 <= j < |scores| ==> scores[j] <= a.score
    ensures forall j :: 0 <= j < a.index ==> scores[j] < a.score
    ensures a.confidence == High <==> a.score > Threshold
  {
    var k := ArgMax(scores);
    Answer(k, docs[k], scores[k], Classify(scores[k]))
  }

  /**
   * With no overlap between question and corpus every score is zero: the
   * first document is returned, with low confidence.
   */
  lemma {:induction false} SelectAllZero(docs: seq<string>, scores: seq<real>)
    requires |docs| == |scores| > 0
    requires forall j :: 0 <= j < |scores| ==> scores[j] == 0.0
    ensures Select(docs, scores) == Answer(0, docs[0], 0.0, Low)
  {
    ArgMaxTie(scores);
  }

  /**
   * One press of "Analizar": build the corpus from the text area, check
   * the inputs, and pick the answer from the similarity scores of the
   * corpus documents.
   */
  function Analyze(text: string, question: string, scores: seq<real>): (r: Outcome)
    requires |scores| == |Documents(text)|
    ensures r == Rejected(NoDocuments) <==> AllSpace(text)
    ensures r == Rejected(NoQuestion) <==> !AllSpace(text) && AllSpace(question)
    ensures r.Answered? <==> !AllSpace(text) && !AllSpace(question)
    ensures r.Answered? ==> |Documents(text)| > 0 && r.answer == Select(Documents(text), scores)
  {
    var docs := Documents(text);
    DocumentsEmptyIff(text);
    match Validate(docs, question)
    case Reject(e) => Rejected(e)
    case Proceed => Answered(Select(docs, scores))
  }

  // ---------------------------------------------------------------------
  // The vocabulary of the fitted vectorizer
  // ---------------------------------------------------------------------

  /** The stems of a sequence of documents, as a set. */
  function Vocabulary(docs: seq<string>, stem: string -> string): set<string> {
    if docs == [] then {}
    else (set t | t in TokenizeAndStem(docs[0], stem)) + Vocabulary(docs[1..], stem)
  }

  /**
   * With `min_df=1` a stem of any single document is a column; nothing
   * else is.
   */
  lemma {:induction false} VocabularySpec(docs: seq<string>, stem: string -> string, t: string)
    ensures t in Vocabulary(docs, stem) <==> exists k :: 0 <= k < |docs| && t in TokenizeAndStem(docs[k], stem)
  {
    if docs != [] {
      VocabularySpec(docs[1..], stem, t);
      if t in Vocabulary(docs[1..], stem) {
        var k :| 0 <= k < |docs| - 1 && t in TokenizeAndStem(docs[1..][k], stem);
        assert docs[1..][k] == docs[k + 1];
      }
      if !(t in TokenizeAndStem(docs[0], stem)) && exists k :: 0 <= k < |docs| && t in TokenizeAndStem(docs[k], stem) {
        var k :| 0 <= k < |docs| && t in TokenizeAndStem(docs[k], stem);
        assert k != 0;
        assert docs[1..][k - 1] == docs[k];
      }
    }
  }

  /** Every document of `docs` is without stems. */
  predicate NoStems(docs: seq<string>, stem: string -> string) {
    forall k :: 0 <= k < |docs| ==> TokenizeAndStem(docs[k], stem) == []
  }

  lemma {:induction false} VocabularyEmptyNoStems(docs: seq<string>, stem: string -> string)
    ensures Vocabulary(docs, stem) == {} <==> NoStems(docs, stem)
  {
    if docs != [] {
      var first, rest := TokenizeAndStem(docs[0], stem), docs[1..];
      var v0 := set t | t in first;
      VocabularyEmptyNoStems(rest, stem);
      assert Vocabulary(docs, stem) == v0 + Vocabulary(rest, stem);
      assert v0 == {} <==> first == [] by {
        if first != [] {
          assert first[0] in v0;
        }
      }
      assert NoStems(docs, stem) <==> first == [] && NoStems(rest, stem) by {
        if NoStems(docs, stem) {
          forall k | 0 <= k < |rest| ensures TokenizeAndStem(rest[k], stem) == [] {
            assert rest[k] == docs[k + 1];
          }
        }
        if first == [] && NoStems(rest, stem) {
          forall k | 0 <= k < |docs| ensures TokenizeAndStem(docs[k], stem) == [] {
            if k > 0 {
              assert docs[k] == rest[k - 1];
            }
          }
        }
      }
    }
  }

  /** The vocabulary is empty exactly when no document has two adjacent letters. */
  lemma {:induction false} VocabularyEmptyIff(docs: seq<string>, stem: string -> string)
    ensures Vocabulary(docs, stem) == {} <==> forall k :: 0 <= k < |docs| ==> !HasLetterPair(docs[k])
  {
    VocabularyEmptyNoStems(docs, stem);
    forall k | 0 <= k < |docs| ensures TokenizeAndStem(docs[k], stem) == [] <==> !HasLetterPair(docs[k]) {
      TokenizeAndStemEmptyIff(docs[k], stem);
    }
  }

  /**
   * Validation does not look at the vocabulary: a text area holding one
   * character, such as "1" or "a", passes it with any question that is not
   * blank, and fitting the vectorizer on its empty vocabulary then raises
   * an error that ends the analysis.
   */
  lemma {:induction false} OneCharPassesValidation(c: char, question: string, stem: string -> string)
    requires !IsSpace(c) && !AllSpace(question)
    ensures Documents([c]) == [[c]]
    ensures Validate(Documents([c]), question) == Proceed
    ensures Vocabulary(Documents([c]), stem) == {}
  {
    OneCharDocuments(c);
    TokenizeAndStemLetter(c, stem);
    VocabularyEmptyNoStems([[c]], stem);
  }

  /**
   * The same holds for any text area with at least one non-blank line and
   * no two adjacent letters in any document, and any question that is not
   * blank.
   */
  lemma {:induction false} NoLetterPairsPassesValidation(text: string, question: string, stem: string -> string)
    requires !AllSpace(text) && !AllSpace(question)
    requires forall k :: 0 <= k < |Documents(text)| ==> !HasLetterPair(Documents(text)[k])
    ensures |Documents(text)| > 0
    ensures Validate(Documents(text), question) == Proceed
    ensures Vocabulary(Documents(text), stem) == {}
  {
    DocumentsEmptyIff(text);
    VocabularyEmptyIff(Documents(text), stem);
  }

  lemma {:induction false} OneCharDocuments(c: char)
    requires !IsSpace(c)
    ensures Documents([c]) == [[c]]
  {
    assert LineLen([c]) == 1 by {
      assert [c][1..] == [];
    }
    assert SplitLines([c]) == [[c]];
    NonBlankSingle([c]);
    StripUnique([], [c], []);
    assert [] + [c] + [] == [c];
  }

  // ---------------------------------------------------------------------
  // The question: validated stripped, vectorised unstripped
  // ---------------------------------------------------------------------

  /** Whitespace in front of a text contributes no stems. */
  lemma {:induction false} LeadingSpaceStems(pre: string, rest: string, stem: string -> string)
    requires AllSpace(pre)
    ensures TokenizeAndStem(pre + rest, stem) == TokenizeAndStem(rest, stem)
  {
    if pre != [] {
      calc {
        TokenizeAndStem(pre + rest, stem);
        { assert pre + rest == [] + [pre[0]] + (pre[1..] + rest); }
        TokenizeAndStem([] + [pre[0]] + (pre[1..] + rest), stem);
        { TokenizeAndStemAtSpace([], pre[0], pre[1..] + rest, stem); TokenizeAndStemEmpty(stem); }
        [] + TokenizeAndStem(pre[1..] + rest, stem);
        { LeadingSpaceStems(pre[1..], rest, stem); }
        TokenizeAndStem(rest, stem);
      }
    } else {
      assert pre + rest == rest;
    }
  }

  /** Whitespace after a text contributes no stems. */
  lemma {:induction false} TrailingSpaceStems(rest: string, post: string, stem: string -> string)
    requires AllSpace(post)
    ensures TokenizeAndStem(rest + post, stem) == TokenizeAndStem(rest, stem)
  {
    if post != [] {
      var n := |post| - 1;
      calc {
        TokenizeAndStem(rest + post, stem);
        { assert rest + post == (rest + post[..n]) + [post[n]] + []; }
        TokenizeAndStem((rest + post[..n]) + [post[n]] + [], stem);
        { TokenizeAndStemAtSpace(rest + post[..n], post[n], [], stem); TokenizeAndStemEmpty(stem); }
        TokenizeAndStem(rest + post[..n], stem) + [];
        { TrailingSpaceStems(rest, post[..n], stem); }
        TokenizeAndStem(rest, stem);
      }
    } else {
      assert rest + post == rest;
    }
  }

  /**
   * The question is checked stripped but vectorised as typed; the two give
   * the same stems, so the scores do not depend on surrounding whitespace.
   */
  lemma {:induction false} StripStems(question: string, stem: string -> string)
    ensures TokenizeAndStem(Strip(question), stem) == TokenizeAndStem(question, stem)
  {
    var r, i := Strip(question), LeadLen(question);
    StripSlice(question);
    var pre, post := question[..i], question[i + |r|..];
    assert question == pre + (r + post);
    LeadingSpaceStems(pre, r + post, stem);
    TrailingSpaceStems(r, post, stem);
  }
}
