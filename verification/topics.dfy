/**
  The grouping step of the `extract-topics` endpoint: up to ten keywords of
  the text are grouped into at most two topics of three keywords each.
 */
module Topics {
  import opened Results
  import opened Text
  import opened Keywords

  /** One topic; the confidence is kept in hundredths (0.8 is 80). */
  datatype Topic = Topic(name: string, keywords: seq<string>, confidencePercent: nat)

  datatype TopicReport = TopicReport(topics: seq<Topic>, allKeywords: seq<string>)

  /** The only rejection: an empty text (HTTP 400). */
  datatype TopicError = TextRequired

  /** How many keywords `extract-topics` asks for. */
  const TopicKeywordLimit := 10

  function MakeTopic(ks: seq<string>, confidencePercent: nat): Topic {
    Topic(Join(ks, " "), ks, confidencePercent)
  }

  /** The two `if` blocks of `extract_topics`: the first three keywords form a
      topic once there are three, the next three once there are six. */
  function GroupTopics(keywords: seq<string>): (topics: seq<Topic>)
    ensures |topics| == (if |keywords| < 3 then 0 else if |keywords| < 6 then 1 else 2)
    ensures forall t :: t in topics ==> |t.keywords| == 3 && t.name == Join(t.keywords, " ")
    ensures |topics| >= 1 ==> topics[0].keywords == keywords[..3] && topics[0].confidencePercent == 80
    ensures |topics| == 2 ==> topics[1].keywords == keywords[3..6] && topics[1].confidencePercent == 60
  {
    (if |keywords| >= 3 then [MakeTopic(keywords[..3], 80)] else [])
    + (if |keywords| >= 6 then [MakeTopic(keywords[3..6], 60)] else [])
  }

  /** The topics take the leading keywords, in order, without overlap: their
      keyword lists laid end to end are a prefix of the keyword list. */
  lemma GroupTopicsTiles(keywords: seq<string>)
    ensures var topics := GroupTopics(keywords);
      |topics| == 0 || (|topics| == 1 && topics[0].keywords == keywords[..3])
      || (|topics| == 2 && topics[0].keywords + topics[1].keywords == keywords[..6])
  {
    var topics := GroupTopics(keywords);
    if |topics| == 2 {
      assert keywords[..3] + keywords[3..6] == keywords[..6];
    }
  }

  /** `extract_topics(text)`. */
  function ExtractTopics(text: string): (r: Result<TopicReport, TopicError>)
    ensures r.Err? <==> text == []
    ensures r.Ok? ==> r.value.allKeywords == ExtractKeywords(text, TopicKeywordLimit)
    ensures r.Ok? ==> r.value.topics == GroupTopics(r.value.allKeywords)
    ensures r.Ok? ==> |r.value.allKeywords| <= TopicKeywordLimit && |r.value.topics| <= 2
    ensures r.Ok? ==> forall t, w :: t in r.value.topics && w in t.keywords ==>
              w in r.value.allKeywords && IsCandidate(w) && w in Words(Lower(text))
    ensures r.Ok? ==> forall t :: t in r.value.topics ==> Words(t.name) == t.keywords
    ensures r.Ok? && |r.value.topics| == 2 ==>
              forall w :: w in r.value.topics[0].keywords ==> w !in r.value.topics[1].keywords
  {
    if text == [] then Err(TextRequired)
    else
      var keywords := ExtractKeywords(text, TopicKeywordLimit);
      var topics := GroupTopics(keywords);
      TopicKeywordsFromList(keywords, topics);
      TopicNamesSplit(keywords, topics);
      TopicsDisjoint(keywords, topics);
      Ok(TopicReport(topics, keywords))
  }

  /** Every topic keyword comes from the keyword list. */
  lemma TopicKeywordsFromList(keywords: seq<string>, topics: seq<Topic>)
    requires topics == GroupTopics(keywords)
    ensures forall t, w :: t in topics && w in t.keywords ==> w in keywords
  {
    forall t, w | t in topics && w in t.keywords
      ensures w in keywords
    {
      var n :| 0 <= n < |topics| && topics[n] == t;
      var start := if n == 0 then 0 else 3;
      assert t.keywords == keywords[start..start + 3];
      var i :| 0 <= i < 3 && t.keywords[i] == w;
      assert keywords[start + i] == w;
    }
  }

  /** Each topic's name splits back into the topic's keywords. */
  lemma TopicNamesSplit(keywords: seq<string>, topics: seq<Topic>)
    requires topics == GroupTopics(keywords)
    requires forall i :: 0 <= i < |keywords| ==> IsWord(keywords[i])
    ensures forall t :: t in topics ==> Words(t.name) == t.keywords
  {
    forall t | t in topics
      ensures Words(t.name) == t.keywords
    {
      var n :| 0 <= n < |topics| && topics[n] == t;
      var start := if n == 0 then 0 else 3;
      assert t.keywords == keywords[start..start + 3];
      TopicOfSlice(keywords, start, t.confidencePercent);
    }
  }

  /** Over a repeat-free keyword list the two topics share no keyword. */
  lemma TopicsDisjoint(keywords: seq<string>, topics: seq<Topic>)
    requires topics == GroupTopics(keywords)
    requires forall i, j :: 0 <= i < j < |keywords| ==> keywords[i] != keywords[j]
    ensures |topics| == 2 ==> forall w :: w in topics[0].keywords ==> w !in topics[1].keywords
  {
    if |keywords| >= 6 {
      DisjointSlices(keywords);
    }
  }

  /** A topic built from three consecutive words splits back into those words. */
  lemma TopicOfSlice(keywords: seq<string>, start: nat, confidencePercent: nat)
    requires start + 3 <= |keywords|
    requires forall i :: 0 <= i < |keywords| ==> IsWord(keywords[i])
    ensures var t := MakeTopic(keywords[start..start + 3], confidencePercent);
      Words(t.name) == t.keywords
  {
    SplitJoin(keywords[start..start + 3]);
  }

  lemma DisjointSlices(keywords: seq<string>)
    requires 6 <= |keywords|
    requires forall i, j :: 0 <= i < j < |keywords| ==> keywords[i] != keywords[j]
    ensures forall w :: w in keywords[..3] ==> w !in keywords[3..6]
  {
    forall w | w in keywords[..3]
      ensures w !in keywords[3..6]
    {
      var i :| 0 <= i < 3 && keywords[i] == w;
    }
  }
}
