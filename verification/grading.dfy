/**
  The keyword part of the `grade-answer` endpoint: the keywords of the model
  answer that the student's answer does not share, at most five of them.
  The similarity score and the feedback text are not part of this module.
 */
module Grading {
  import opened Results
  import opened Keywords

  /** The only rejection: an empty student or model answer (HTTP 400). */
  datatype GradeError = AnswersRequired

  /** How many keywords each answer contributes, and how many missing ones are reported. */
  const GradeKeywordLimit := 5

  /** The entries of `ks` that are not in `excluded`, in order. */
  function Without(ks: seq<string>, excluded: set<string>): (r: seq<string>)
    ensures |r| <= |ks|
    ensures |ks| == 1 ==> r == (if ks[0] in excluded then [] else ks)
    ensures forall w :: w in r <==> w in ks && w !in excluded
    ensures r == [] <==> forall w :: w in ks ==> w in excluded
    ensures Distinct(ks) ==> Distinct(r)
  {
    if ks == [] then []
    else
      var rest := Without(ks[1..], excluded);
      assert ks == [ks[0]] + ks[1..];
      if ks[0] in excluded then rest else [ks[0]] + rest
  }

  /** Filtering a concatenation filters each part in turn, so the kept
      entries keep their relative order. */
  lemma {:induction false} WithoutAppend(a: seq<string>, b: seq<string>, excluded: set<string>)
    ensures Without(a + b, excluded) == Without(a, excluded) + Without(b, excluded)
  {
    if a == [] {
      assert a + b == b;
    } else {
      assert (a + b)[0] == a[0];
      assert (a + b)[1..] == a[1..] + b;
      WithoutAppend(a[1..], b, excluded);
    }
  }

  /** `list(model_keywords - student_keywords)[:5]`. Python gives no order to
      a set, so the list is kept in the model answer's keyword order; the
      contract speaks only of its contents. */
  function MissingKeywords(studentAnswer: string, modelAnswer: string): (missing: seq<string>)
    ensures forall w :: w in missing <==>
              w in ExtractKeywords(modelAnswer, GradeKeywordLimit)
              && w !in ExtractKeywords(studentAnswer, GradeKeywordLimit)
    ensures missing == [] <==>
              forall w :: w in ExtractKeywords(modelAnswer, GradeKeywordLimit) ==>
                w in ExtractKeywords(studentAnswer, GradeKeywordLimit)
    ensures |missing| <= GradeKeywordLimit
    ensures Distinct(missing)
  {
    var modelKeywords := ExtractKeywords(modelAnswer, GradeKeywordLimit);
    var studentKeywords := set w | w in ExtractKeywords(studentAnswer, GradeKeywordLimit);
    TruncationKeepsAll(modelKeywords, studentKeywords);
    PyPrefix(Without(modelKeywords, studentKeywords), GradeKeywordLimit)
  }

  /** With at most five model keywords the `[:5]` cut never drops one. */
  lemma TruncationKeepsAll(modelKeywords: seq<string>, studentKeywords: set<string>)
    requires |modelKeywords| <= GradeKeywordLimit
    ensures PyPrefix(Without(modelKeywords, studentKeywords), GradeKeywordLimit)
            == Without(modelKeywords, studentKeywords)
  {
  }

  /** An answer misses nothing from itself. */
  lemma NothingMissingFromSameAnswer(answer: string)
    ensures MissingKeywords(answer, answer) == []
  {
  }

  /** The keyword part of `grade_answer(student_answer, model_answer)`. */
  function GradeAnswerKeywords(studentAnswer: string, modelAnswer: string): (r: Result<seq<string>, GradeError>)
    ensures r.Err? <==> studentAnswer == [] || modelAnswer == []
    ensures r.Ok? ==> r.value == MissingKeywords(studentAnswer, modelAnswer)
  {
    if studentAnswer == [] || modelAnswer == [] then Err(AnswersRequired)
    else Ok(MissingKeywords(studentAnswer, modelAnswer))
  }
}
