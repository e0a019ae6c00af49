/**
  `extract_keywords` of the AI service: lower-case the text, split it on
  whitespace, keep the words that are not stop words and are longer than
  three characters, drop repeats (keeping first occurrences) and return the
  first `top_k` of them.
 */
module Keywords {
  import opened Text

  const StopWords: set<string> := {
    "the", "a", "an", "and", "or", "but", "in", "on", "at", "to", "for",
    "of", "with", "by", "from", "is", "are", "was", "were"
  }

  /** The filter of the list comprehension: not a stop word, longer than three characters. */
  predicate IsCandidate(w: string) {
    w !in StopWords && |w| > 3
  }

  /** The position of the first occurrence of `x` in `s`. */
  function FirstIndex<T(==)>(s: seq<T>, x: T): (i: nat)
    requires x in s
    ensures i < |s| && s[i] == x && x !in s[..i]
  {
    if s[0] == x then 0 else 1 + FirstIndex(s[1..], x)
  }

  /** Appending an element does not move the first occurrence of anything already present. */
  lemma FirstIndexAppend<T>(p: seq<T>, x: T)
    ensures forall y :: y in p ==> FirstIndex(p + [x], y) == FirstIndex(p, y)
  {
    forall y | y in p
      ensures FirstIndex(p + [x], y) == FirstIndex(p, y)
    {
      assert (p + [x])[..|p|] == p;
    }
  }

  /** The first occurrence of a new last element is the last position. */
  lemma FirstIndexOfNew<T>(p: seq<T>, x: T)
    requires x !in p
    ensures FirstIndex(p + [x], x) == |p|
  {
  }

  /** The candidate words of `ws`, in order (the list comprehension). */
  function Candidates(ws: seq<string>): (r: seq<string>)
    ensures forall w :: w in r <==> w in ws && IsCandidate(w)
  {
    if ws == [] then []
    else
      var p, x := ws[..|ws| - 1], ws[|ws| - 1];
      assert ws == p + [x];
      Candidates(p) + (if IsCandidate(x) then [x] else [])
  }

  /** Duplicates removed, keeping the first occurrence of each element. */
  function Unique<T(==,!new)>(s: seq<T>): (r: seq<T>)
    ensures forall x :: x in r <==> x in s
    ensures forall i, j :: 0 <= i < j < |r| ==> r[i] != r[j]
    ensures forall i, j :: 0 <= i < j < |r| ==> FirstIndex(s, r[i]) < FirstIndex(s, r[j])
  {
    if s == [] then []
    else
      var p, x := s[..|s| - 1], s[|s| - 1];
      assert s == p + [x];
      FirstIndexAppend(p, x);
      if x in p then Unique(p)
      else
        FirstIndexOfNew(p, x);
        Unique(p) + [x]
  }

  /** Filtering keeps relative order: if `x` first occurs before `y` among the
      candidates, it first occurs before `y` in the whole word list. */
  lemma {:induction false} CandidatesKeepOrder(ws: seq<string>, x: string, y: string)
    requires x in Candidates(ws) && y in Candidates(ws)
    requires FirstIndex(Candidates(ws), x) < FirstIndex(Candidates(ws), y)
    ensures FirstIndex(ws, x) < FirstIndex(ws, y)
  {
    var p, z := ws[..|ws| - 1], ws[|ws| - 1];
    assert ws == p + [z];
    var c, cp := Candidates(ws), Candidates(p);
    FirstIndexAppend(p, z);
    if !IsCandidate(z) {
      assert c == cp;
      CandidatesKeepOrder(p, x, y);
    } else {
      assert c == cp + [z];
      FirstIndexAppend(cp, z);
      if y in cp {
        CandidatesKeepOrder(p, x, y);
      } else {
        assert y == z && y !in p;
        FirstIndexOfNew(p, z);
        assert x != y && x in cp;
      }
    }
  }

  /** Python's `s[:k]`: a negative `k` counts from the end. */
  function PyPrefix<T>(s: seq<T>, k: int): (r: seq<T>)
    ensures k >= 0 ==> |r| == (if k < |s| then k else |s|)
    ensures k < 0 ==> |r| == (if |s| + k > 0 then |s| + k else 0)
    ensures |r| <= |s| && r == s[..|r|]
  {
    if k >= 0 then (if k < |s| then s[..k] else s)
    else if |s| + k > 0 then s[..|s| + k]
    else []
  }

  /** `ks` lists distinct candidate words of `words`, in order of their first
      occurrence there, and each is a non-empty lower-case word without whitespace. */
  predicate IsKeywordListOf(words: seq<string>, ks: seq<string>) {
    CandidatesOf(words, ks) && AllLowercaseWords(ks) && Distinct(ks) && InFirstOccurrenceOrder(words, ks)
  }

  /** Every entry is a candidate word of `words`. */
  predicate CandidatesOf(words: seq<string>, ks: seq<string>) {
    forall i :: 0 <= i < |ks| ==> ks[i] in words && IsCandidate(ks[i])
  }

  /** Every entry is a non-empty, whitespace-free, lower-case word. */
  predicate AllLowercaseWords(ks: seq<string>) {
    forall i :: 0 <= i < |ks| ==> IsWord(ks[i]) && IsLowercase(ks[i])
  }

  predicate Distinct<T(==)>(ks: seq<T>) {
    forall i, j :: 0 <= i < j < |ks| ==> ks[i] != ks[j]
  }

  /** Entries come in the order of their first occurrence in `words`. */
  predicate InFirstOccurrenceOrder(words: seq<string>, ks: seq<string>) {
    forall i, j :: 0 <= i < j < |ks| ==>
      ks[i] in words && ks[j] in words && FirstIndex(words, ks[i]) < FirstIndex(words, ks[j])
  }

  lemma KeywordListPrefix(words: seq<string>, ks: seq<string>, n: nat)
    requires IsKeywordListOf(words, ks) && n <= |ks|
    ensures IsKeywordListOf(words, ks[..n])
  {
    assert forall i :: 0 <= i < n ==> ks[..n][i] == ks[i];
  }

  /** Every keyword the text can yield, before `top_k` truncation. */
  function AllKeywords(text: string): seq<string> {
    Unique(Candidates(Words(Lower(text))))
  }

  /** The untruncated list holds every candidate word of the text, and only those. */
  lemma AllKeywordsFacts(text: string)
    ensures forall w :: w in AllKeywords(text) <==> w in Words(Lower(text)) && IsCandidate(w)
    ensures IsKeywordListOf(Words(Lower(text)), AllKeywords(text))
  {
    WordsOfLowercase(Lower(text));
    UniqueCandidatesAreKeywords(Words(Lower(text)));
  }

  lemma UniqueCandidatesAreKeywords(words: seq<string>)
    requires AllLowercaseWords(words)
    ensures IsKeywordListOf(words, Unique(Candidates(words)))
  {
    UniqueCandidatesMembers(words);
    UniqueCandidatesClean(words);
    UniqueCandidatesDistinct(words);
    UniqueCandidatesOrdered(words);
  }

  lemma UniqueCandidatesDistinct(words: seq<string>)
    ensures Distinct(Unique(Candidates(words)))
  {
  }

  lemma UniqueCandidatesMembers(words: seq<string>)
    ensures CandidatesOf(words, Unique(Candidates(words)))
  {
    var all := Unique(Candidates(words));
    forall i | 0 <= i < |all|
      ensures all[i] in words && IsCandidate(all[i])
    {
      assert all[i] in Candidates(words);
    }
  }

  lemma UniqueCandidatesClean(words: seq<string>)
    requires AllLowercaseWords(words)
    ensures AllLowercaseWords(Unique(Candidates(words)))
  {
    var all := Unique(Candidates(words));
    forall i | 0 <= i < |all|
      ensures IsWord(all[i]) && IsLowercase(all[i])
    {
      assert all[i] in words;
    }
  }

  lemma UniqueCandidatesOrdered(words: seq<string>)
    ensures InFirstOccurrenceOrder(words, Unique(Candidates(words)))
  {
    var all := Unique(Candidates(words));
    forall i, j | 0 <= i < j < |all|
      ensures all[i] in words && all[j] in words && FirstIndex(words, all[i]) < FirstIndex(words, all[j])
    {
      CandidatesKeepOrder(words, all[i], all[j]);
    }
  }

  /** `extract_keywords(text, top_k)`. */
  function ExtractKeywords(text: string, topK: int): (r: seq<string>)
    ensures topK >= 0 ==> |r| <= topK
    ensures |r| <= |AllKeywords(text)| && r == AllKeywords(text)[..|r|]
    ensures IsKeywordListOf(Words(Lower(text)), r)
    ensures topK >= 0 && |r| < topK ==>
              forall w :: w in Words(Lower(text)) && IsCandidate(w) ==> w in r
  {
    var all := AllKeywords(text);
    var r := PyPrefix(all, topK);
    AllKeywordsFacts(text);
    KeywordListPrefix(Words(Lower(text)), all, |r|);
    r
  }

  /** The loop of `extract_keywords` that drops repeated words with a `seen`
      set: it computes exactly the first-occurrence list. */
  method DedupKeywords(keywords: seq<string>) returns (unique: seq<string>)
    ensures unique == Unique(keywords)
  {
    unique := [];
    var seen: set<string> := {};
    for i := 0 to |keywords|
      invariant unique == Unique(keywords[..i])
      invariant seen == set w | w in keywords[..i]
    {
      var word := keywords[i];
      assert keywords[..i + 1][..i] == keywords[..i];
      if word !in seen {
        unique := unique + [word];
        seen := seen + {word};
      }
    }
    assert keywords[..|keywords|] == keywords;
  }
}
