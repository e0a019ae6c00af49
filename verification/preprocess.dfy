/**
  `preprocess_text` of the AI service: lower-case, strip surrounding
  whitespace, delete every character that is neither a word character nor
  whitespace, and replace each run of whitespace by one space.
 */
module Preprocess {
  import opened Text

  /** `\w`, restricted to ASCII: letters, digits and the underscore. */
  predicate IsWordChar(c: char) {
    'a' <= c <= 'z' || 'A' <= c <= 'Z' || '0' <= c <= '9' || c == '_'
  }

  /** What `re.sub(r'[^\w\s]', '', text)` keeps. */
  predicate Kept(c: char) {
    IsWordChar(c) || IsPySpace(c)
  }

  /** The input with its trailing whitespace removed. */
  function DropTrailingSpaces(s: string): (r: string)
    ensures |r| <= |s| && r == s[..|r|]
    ensures forall k :: |r| <= k < |s| ==> IsPySpace(s[k])
    ensures r != [] ==> !IsPySpace(r[|r| - 1])
  {
    if s != [] && IsPySpace(s[|s| - 1]) then DropTrailingSpaces(s[..|s| - 1]) else s
  }

  /** Where the stripped text starts in the input. */
  function StripStart(s: string): nat {
    |s| - |DropSpaces(s)|
  }

  /** `str.strip()`: the input less its leading and trailing whitespace. */
  function Strip(s: string): (r: string)
    ensures StripStart(s) + |r| <= |s| && r == s[StripStart(s)..StripStart(s) + |r|]
    ensures forall k :: 0 <= k < StripStart(s) ==> IsPySpace(s[k])
    ensures forall k :: StripStart(s) + |r| <= k < |s| ==> IsPySpace(s[k])
    ensures r != [] ==> !IsPySpace(r[0]) && !IsPySpace(r[|r| - 1])
  {
    var t := DropSpaces(s);
    var r := DropTrailingSpaces(t);
    assert r != [] ==> r[0] == t[0];
    r
  }

  /** Stripping twice is the same as stripping once. */
  lemma StripIdempotent(s: string)
    ensures Strip(Strip(s)) == Strip(s)
  {
    var r := Strip(s);
    if r != [] {
      StripUnpadded(r);
    }
  }

  /** `re.sub(r'[^\w\s]', '', s)`: only word characters and whitespace remain. */
  function RemovePunctuation(s: string): (r: string)
    ensures forall c :: c in r <==> c in s && Kept(c)
    ensures (forall k :: 0 <= k < |s| ==> Kept(s[k])) ==> r == s
    ensures |s| == 1 ==> r == (if Kept(s[0]) then s else [])
  {
    if s == [] then []
    else
      var rest := RemovePunctuation(s[1..]);
      assert s == [s[0]] + s[1..];
      if Kept(s[0]) then [s[0]] + rest else rest
  }

  /** Removal works character by character: it distributes over concatenation,
      so what is kept stays in its original order. */
  lemma {:induction false} RemovePunctuationAppend(a: string, b: string)
    ensures RemovePunctuation(a + b) == RemovePunctuation(a) + RemovePunctuation(b)
  {
    if a == [] {
      assert a + b == b;
    } else {
      assert (a + b)[0] == a[0];
      assert (a + b)[1..] == a[1..] + b;
      RemovePunctuationAppend(a[1..], b);
    }
  }

  /** The word characters of `s`, in order. */
  function WordChars(s: string): (r: string)
    ensures |r| <= |s|
  {
    if s == [] then []
    else
      var rest := WordChars(s[1..]);
      if IsWordChar(s[0]) then [s[0]] + rest else rest
  }

  lemma {:induction false} WordCharsAppend(a: string, b: string)
    ensures WordChars(a + b) == WordChars(a) + WordChars(b)
  {
    if a == [] {
      assert a + b == b;
    } else {
      assert (a + b)[0] == a[0];
      assert (a + b)[1..] == a[1..] + b;
      WordCharsAppend(a[1..], b);
    }
  }

  lemma {:induction false} WordCharsOfBlank(s: string)
    requires IsBlank(s)
    ensures WordChars(s) == []
  {
    if s != [] {
      assert IsBlank(s[1..]) by {
        assert forall k :: 0 <= k < |s| - 1 ==> s[1..][k] == s[k + 1];
      }
      WordCharsOfBlank(s[1..]);
    }
  }

  /** What survives punctuation removal, less its whitespace, is exactly the
      word characters of the input. */
  lemma {:induction false} RemovePunctuationKeepsWords(s: string)
    ensures NonSpaceChars(RemovePunctuation(s)) == WordChars(s)
  {
    if s != [] {
      var head := if Kept(s[0]) then [s[0]] else [];
      assert s == [s[0]] + s[1..];
      RemovePunctuationAppend([s[0]], s[1..]);
      assert RemovePunctuation([s[0]]) == head;
      NonSpaceCharsAppend(head, RemovePunctuation(s[1..]));
      assert head != [] ==> head[1..] == [];
      RemovePunctuationKeepsWords(s[1..]);
    }
  }

  /** The input is its strip with whitespace on either side. */
  lemma StripParts(s: string) returns (front: string, back: string)
    ensures s == front + Strip(s) + back
    ensures IsBlank(front) && IsBlank(back)
  {
    var r, a := Strip(s), StripStart(s);
    front, back := SplitAround(s, a, a + |r|);
  }

  /** A slice framed by whitespace: what precedes and follows it is blank. */
  lemma SplitAround(s: string, i: nat, j: nat) returns (front: string, back: string)
    requires i <= j <= |s|
    requires forall k :: 0 <= k < i ==> IsPySpace(s[k])
    requires forall k :: j <= k < |s| ==> IsPySpace(s[k])
    ensures s == front + s[i..j] + back
    ensures IsBlank(front) && IsBlank(back)
  {
    front, back := s[..i], s[j..];
    SliceThree(s, i, j);
    BlankSlice(s, 0, i);
    BlankSlice(s, j, |s|);
    assert s[0..i] == front && s[j..|s|] == back;
  }

  lemma SliceThree(s: string, i: nat, j: nat)
    requires i <= j <= |s|
    ensures s == s[..i] + s[i..j] + s[j..]
  {
  }

  lemma BlankSlice(s: string, i: nat, j: nat)
    requires i <= j <= |s|
    requires forall k :: i <= k < j ==> IsPySpace(s[k])
    ensures IsBlank(s[i..j])
  {
    assert forall k :: 0 <= k < j - i ==> s[i..j][k] == s[i + k];
  }

  /** Stripping removes whitespace only, so no word character is lost. */
  lemma StripKeepsWordChars(s: string)
    ensures WordChars(Strip(s)) == WordChars(s)
  {
    var front, back := StripParts(s);
    var r := Strip(s);
    WordCharsOfBlank(front);
    WordCharsOfBlank(back);
    WordCharsAppend(front + r, back);
    WordCharsAppend(front, r);
    calc {
      WordChars(s);
      WordChars(front + r + back);
      WordChars(front + r) + WordChars(back);
      WordChars(front) + WordChars(r) + WordChars(back);
      WordChars(r);
    }
  }

  /** No two spaces next to each other. */
  predicate NoDoubleSpace(s: string) {
    forall k :: 0 <= k < |s| - 1 ==> !(s[k] == ' ' && s[k + 1] == ' ')
  }

  /** The only whitespace is the plain space. */
  predicate OnlyPlainSpaces(s: string) {
    forall k :: 0 <= k < |s| ==> IsPySpace(s[k]) ==> s[k] == ' '
  }

  /** Every character of `r` is a plain space or a non-whitespace character of `s`. */
  predicate SpacesOrFrom(r: string, s: string) {
    forall c :: c in r ==> c == ' ' || (c in s && !IsPySpace(c))
  }

  /** A character as collapsing leaves it: whitespace becomes a plain space. */
  function SpaceOrSelf(c: char): char {
    if IsPySpace(c) then ' ' else c
  }

  /** `r` starts and ends as the non-empty `s` does, whitespace read as a space. */
  predicate EndsMatch(r: string, s: string) {
    && |r| > 0 && |s| > 0
    && r[0] == SpaceOrSelf(s[0])
    && r[|r| - 1] == SpaceOrSelf(s[|s| - 1])
  }

  /** `re.sub(r'\s+', ' ', s)`: every run of whitespace becomes one space. */
  function CollapseSpaces(s: string): (r: string)
    ensures |r| == 0 <==> |s| == 0
    ensures |s| > 0 ==> EndsMatch(r, s)
    ensures SpacesOrFrom(r, s)
    ensures OnlyPlainSpaces(r) && NoDoubleSpace(r)
    decreases |s|
  {
    if s == [] then []
    else if IsPySpace(s[0]) then
      var t := DropSpaces(s[1..]);
      var rest := CollapseSpaces(t);
      SpacesOrFromCons(' ', rest, t, s);
      CollapsedCons(' ', rest);
      [' '] + rest
    else
      var rest := CollapseSpaces(s[1..]);
      SpacesOrFromCons(s[0], rest, s[1..], s);
      CollapsedCons(s[0], rest);
      [s[0]] + rest
  }

  lemma SpacesOrFromCons(c: char, rest: string, t: string, s: string)
    requires SpacesOrFrom(rest, t)
    requires |t| <= |s| && t == s[|s| - |t|..]
    requires c == ' ' || (c in s && !IsPySpace(c))
    ensures SpacesOrFrom([c] + rest, s)
  {
    forall x | x in t
      ensures x in s
    {
      var k :| 0 <= k < |t| && t[k] == x;
      assert s[|s| - |t| + k] == x;
    }
  }

  /** Putting a character in front of collapsed text keeps it collapsed, as
      long as a space is not put in front of another space. */
  lemma CollapsedCons(c: char, rest: string)
    requires IsPySpace(c) ==> c == ' '
    requires c == ' ' ==> rest == [] || rest[0] != ' '
    requires OnlyPlainSpaces(rest) && NoDoubleSpace(rest)
    ensures OnlyPlainSpaces([c] + rest) && NoDoubleSpace([c] + rest)
  {
    PlainSpacesCons(c, rest);
    NoDoubleSpaceCons(c, rest);
  }

  lemma PlainSpacesCons(c: char, rest: string)
    requires IsPySpace(c) ==> c == ' '
    requires OnlyPlainSpaces(rest)
    ensures OnlyPlainSpaces([c] + rest)
  {
    var r := [c] + rest;
    forall k | 0 <= k < |r|
      ensures IsPySpace(r[k]) ==> r[k] == ' '
    {
      if k > 0 {
        assert r[k] == rest[k - 1];
      }
    }
  }

  lemma NoDoubleSpaceCons(c: char, rest: string)
    requires c == ' ' ==> rest == [] || rest[0] != ' '
    requires NoDoubleSpace(rest)
    ensures NoDoubleSpace([c] + rest)
  {
    var r := [c] + rest;
    forall k | 0 <= k < |r| - 1
      ensures !(r[k] == ' ' && r[k + 1] == ' ')
    {
      if k > 0 {
        assert r[k] == rest[k - 1] && r[k + 1] == rest[k];
      }
    }
  }

  /** Collapsing changes whitespace only: the non-whitespace characters
      are all still there, in order. */
  lemma {:induction false} CollapseSpacesKeepsNonSpace(s: string)
    ensures NonSpaceChars(CollapseSpaces(s)) == NonSpaceChars(s)
    decreases |s|
  {
    if s != [] {
      var tail := s[1..];
      if IsPySpace(s[0]) {
        var t := DropSpaces(tail);
        var gap := tail[..|tail| - |t|];
        assert tail == gap + t;
        assert IsBlank(gap) by {
          assert forall k :: 0 <= k < |gap| ==> gap[k] == tail[k];
        }
        NonSpaceCharsOfBlank(gap);
        NonSpaceCharsAppend(gap, t);
        CollapseSpacesKeepsNonSpace(t);
        assert ([' '] + CollapseSpaces(t))[1..] == CollapseSpaces(t);
      } else {
        CollapseSpacesKeepsNonSpace(tail);
        assert ([s[0]] + CollapseSpaces(tail))[1..] == CollapseSpaces(tail);
      }
    }
  }

  /** A leading word passes through collapsing untouched. */
  lemma {:induction false} CollapseSpacesWordThen(w: string, t: string)
    requires NoSpace(w)
    ensures CollapseSpaces(w + t) == w + CollapseSpaces(t)
  {
    if w == [] {
      assert w + t == t;
    } else {
      var c, v := w[0], w[1..];
      HeadTail(w);
      NoSpaceTail(w);
      var x := CollapseSpaces(t);
      calc {
        CollapseSpaces(w + t);
        { ConsAppend(c, v, t); }
        CollapseSpaces([c] + (v + t));
        { CollapseSpacesNonSpaceCons(c, v + t); }
        [c] + CollapseSpaces(v + t);
        { CollapseSpacesWordThen(v, t); }
        [c] + (v + x);
        { ConsAppend(c, v, x); }
        w + x;
      }
    }
  }

  /** The rest of a whitespace-free string is whitespace-free. */
  lemma NoSpaceTail(w: string)
    requires w != [] && NoSpace(w)
    ensures !IsPySpace(w[0]) && NoSpace(w[1..])
  {
    assert forall k :: 0 <= k < |w| - 1 ==> w[1..][k] == w[k + 1];
  }

  lemma ConsAppend(c: char, v: string, x: string)
    ensures [c] + (v + x) == ([c] + v) + x
    ensures [c] + v != [] && ([c] + v)[0] == c && ([c] + v)[1..] == v
  {
  }

  lemma CollapseSpacesNonSpaceCons(c: char, t: string)
    requires !IsPySpace(c)
    ensures CollapseSpaces([c] + t) == [c] + CollapseSpaces(t)
  {
    assert ([c] + t)[1..] == t;
  }

  /** Collapsing keeps the word boundaries: every whitespace run becomes a
      single space in the same place, so the text splits into the same words. */
  lemma {:induction false} CollapseSpacesKeepsWords(s: string)
    ensures Words(CollapseSpaces(s)) == Words(s)
    decreases |s|
  {
    if s == [] {
    } else if IsPySpace(s[0]) {
      var tail := s[1..];
      var t := DropSpaces(tail);
      var x := CollapseSpaces(t);
      calc {
        Words(CollapseSpaces(s));
        Words([' '] + x);
        { WordsSkipsLeadingSpace(' ', x); }
        Words(x);
        { CollapseSpacesKeepsWords(t); }
        Words(t);
        { WordsDropSpaces(tail); }
        Words(tail);
        { HeadTail(s); WordsSkipsLeadingSpace(s[0], tail); }
        Words(s);
      }
    } else {
      var w := TakeWord(s);
      var rest := s[|w|..];
      assert w != [] by {
        HeadTail(s);
      }
      assert s == w + rest;
      var x := CollapseSpaces(rest);
      assert x == [] || IsPySpace(x[0]) by {
        if rest != [] {
          assert EndsMatch(x, rest);
        }
      }
      calc {
        Words(CollapseSpaces(s));
        { CollapseSpacesWordThen(w, rest); }
        Words(w + x);
        { WordsOfWordThen(w, x); }
        [w] + Words(x);
        { CollapseSpacesKeepsWords(rest); }
        [w] + Words(rest);
        { WordsOfWordThen(w, rest); }
        Words(s);
      }
    }
  }

  /** A string that already has only single plain spaces is left alone. */
  lemma {:induction false} CollapseSpacesFixes(s: string)
    requires OnlyPlainSpaces(s) && NoDoubleSpace(s)
    ensures CollapseSpaces(s) == s
    decreases |s|
  {
    if s != [] {
      var t := s[1..];
      assert OnlyPlainSpaces(t) && NoDoubleSpace(t);
      CollapseSpacesFixes(t);
      if IsPySpace(s[0]) {
        assert DropSpaces(t) == t;
      }
    }
  }

  /** Collapsing whitespace twice is the same as once. */
  lemma CollapseSpacesIdempotent(s: string)
    ensures CollapseSpaces(CollapseSpaces(s)) == CollapseSpaces(s)
  {
    CollapseSpacesFixes(CollapseSpaces(s));
  }

  /** `preprocess_text(text)`. */
  function PreprocessText(text: string): (r: string)
    ensures IsClean(r)
  {
    var lowered := Lower(text);
    var stripped := Strip(lowered);
    assert forall c :: c in stripped ==> c in lowered;
    var cleaned := RemovePunctuation(stripped);
    CollapseKeptIsClean(cleaned);
    CollapseSpaces(cleaned)
  }

  /** Collapsing the whitespace of lower-case kept characters gives clean text. */
  lemma CollapseKeptIsClean(s: string)
    requires forall c :: c in s ==> Kept(c) && !IsUpperAscii(c)
    ensures IsClean(CollapseSpaces(s))
  {
    var r := CollapseSpaces(s);
    forall k | 0 <= k < |r|
      ensures r[k] == ' ' || (IsWordChar(r[k]) && !IsUpperAscii(r[k]))
    {
      assert r[k] in r;
    }
  }

  /** `preprocess_text` loses no word character and adds none: apart from its
      spaces, the output is exactly the word characters of the lower-cased
      input, in order. */
  lemma PreprocessKeepsWords(text: string)
    ensures NonSpaceChars(PreprocessText(text)) == WordChars(Lower(text))
  {
    var stripped := Strip(Lower(text));
    var cleaned := RemovePunctuation(stripped);
    CollapseSpacesKeepsNonSpace(cleaned);
    RemovePunctuationKeepsWords(stripped);
    StripKeepsWordChars(Lower(text));
  }

  /** `preprocess_text` keeps the word boundaries of punctuation removal:
      stripping and collapsing change only the whitespace between and around
      the words, so the output splits exactly as the lower-cased input with
      its punctuation removed. */
  lemma PreprocessKeepsWordBoundaries(text: string)
    ensures Words(PreprocessText(text)) == Words(RemovePunctuation(Lower(text)))
  {
    var lowered := Lower(text);
    var stripped := Strip(lowered);
    var kept := RemovePunctuation(stripped);
    assert PreprocessText(text) == CollapseSpaces(kept);
    var front, back := StripParts(lowered);
    RemovePunctuationFramed(front, stripped, back);
    WordsFramed(front, kept, back);
    CollapseSpacesKeepsWords(kept);
  }

  /** Whitespace around a text survives punctuation removal unchanged. */
  lemma RemovePunctuationFramed(front: string, mid: string, back: string)
    requires IsBlank(front) && IsBlank(back)
    ensures RemovePunctuation(front + mid + back) == front + (RemovePunctuation(mid) + back)
  {
    calc {
      RemovePunctuation(front + mid + back);
      { Associate(front, mid, back); }
      RemovePunctuation(front + (mid + back));
      { RemovePunctuationAppend(front, mid + back); }
      RemovePunctuation(front) + RemovePunctuation(mid + back);
      { RemovePunctuationOfBlank(front); }
      front + RemovePunctuation(mid + back);
      { RemovePunctuationAppend(mid, back); }
      front + (RemovePunctuation(mid) + RemovePunctuation(back));
      { RemovePunctuationOfBlank(back); }
      front + (RemovePunctuation(mid) + back);
    }
  }

  /** Whitespace around a text does not change its split. */
  lemma WordsFramed(front: string, mid: string, back: string)
    requires IsBlank(front) && IsBlank(back)
    ensures Words(front + (mid + back)) == Words(mid)
  {
    WordsBlankPrefix(front, mid + back);
    WordsBlankSuffix(mid, back);
  }

  /** Whitespace survives punctuation removal. */
  lemma RemovePunctuationOfBlank(b: string)
    requires IsBlank(b)
    ensures RemovePunctuation(b) == b
  {
    assert forall k :: 0 <= k < |b| ==> Kept(b[k]);
  }

  /** What `preprocess_text` guarantees of its output. */
  predicate IsClean(s: string) {
    && (forall k :: 0 <= k < |s| ==> s[k] == ' ' || (IsWordChar(s[k]) && !IsUpperAscii(s[k])))
    && NoDoubleSpace(s)
  }

  lemma CleanIsLowercase(p: string)
    requires IsClean(p)
    ensures IsLowercase(p)
  {
  }

  lemma CleanIsKept(p: string)
    requires IsClean(p)
    ensures RemovePunctuation(p) == p
    ensures OnlyPlainSpaces(p)
  {
    assert forall k :: 0 <= k < |p| ==> Kept(p[k]);
  }

  lemma StripKeepsClean(p: string)
    requires IsClean(p)
    ensures IsClean(Strip(p))
  {
    var r, a := Strip(p), StripStart(p);
    assert r == p[a..a + |r|];
    CleanSlice(p, a, a + |r|);
  }

  /** Any slice of clean text is clean. */
  lemma CleanSlice(p: string, a: nat, b: nat)
    requires IsClean(p) && a <= b <= |p|
    ensures IsClean(p[a..b])
  {
    var s := p[a..b];
    forall k | 0 <= k < |s|
      ensures s[k] == ' ' || (IsWordChar(s[k]) && !IsUpperAscii(s[k]))
    {
      assert s[k] == p[a + k];
    }
    forall k | 0 <= k < |s| - 1
      ensures !(s[k] == ' ' && s[k + 1] == ' ')
    {
      assert s[k] == p[a + k] && s[k + 1] == p[a + k + 1];
    }
  }

  /** On text that is already clean, `preprocess_text` only strips. */
  lemma CleanPreprocessesToStrip(p: string)
    requires IsClean(p)
    ensures PreprocessText(p) == Strip(p)
  {
    CleanIsLowercase(p);
    LowerFixesExactlyLowercase(p);
    var s := Strip(p);
    StripKeepsClean(p);
    CleanIsKept(s);
    CollapseSpacesFixes(s);
    calc {
      PreprocessText(p);
      CollapseSpaces(RemovePunctuation(Strip(Lower(p))));
      CollapseSpaces(RemovePunctuation(s));
      CollapseSpaces(s);
      s;
    }
  }

  /** A second pass only strips the spaces the first pass can leave at either
      end (punctuation next to the edge turns into an edge space). */
  lemma PreprocessTwice(text: string)
    ensures PreprocessText(PreprocessText(text)) == Strip(PreprocessText(text))
  {
    CleanPreprocessesToStrip(PreprocessText(text));
  }

  /** So `preprocess_text` is not idempotent: "! a" becomes " a", which becomes "a". */
  lemma PreprocessNotIdempotent()
    ensures PreprocessText("! a") == " a"
    ensures PreprocessText(" a") == "a"
  {
    EdgePunctuationLeavesSpace();
    EdgeSpaceIsStripped();
  }

  lemma EdgePunctuationLeavesSpace()
    ensures PreprocessText("! a") == " a"
  {
    BangSpaceLetterUnchangedByLowerAndStrip();
    BangIsRemoved();
    SpaceThenLetterCollapses();
  }

  lemma BangSpaceLetterUnchangedByLowerAndStrip()
    ensures Strip(Lower("! a")) == "! a"
  {
    BangSpaceLetterIsLowercase();
    LowerFixesExactlyLowercase("! a");
    StripUnpadded("! a");
  }

  lemma BangSpaceLetterIsLowercase()
    ensures IsLowercase("! a")
  {
    var s := "! a";
    assert s[0] == '!' && s[1] == ' ' && s[2] == 'a';
  }

  lemma BangIsRemoved()
    ensures RemovePunctuation("! a") == " a"
  {
    PunctuationThenKept('!', " a");
    assert ['!'] + " a" == "! a";
  }

  /** A leading punctuation mark is deleted and already-kept text stays. */
  lemma PunctuationThenKept(c: char, t: string)
    requires !Kept(c) && forall k :: 0 <= k < |t| ==> Kept(t[k])
    ensures RemovePunctuation([c] + t) == t
  {
    assert ([c] + t)[1..] == t;
  }

  lemma SpaceThenLetterCollapses()
    ensures CollapseSpaces(" a") == " a"
  {
    var s := " a";
    assert s[0] == ' ' && s[1] == 'a';
    CollapseSpacesFixes(s);
  }

  lemma EdgeSpaceIsStripped()
    ensures PreprocessText(" a") == "a"
  {
    SpaceThenLetterIsClean();
    CleanPreprocessesToStrip(" a");
    SpaceThenLetterStrips();
  }

  lemma SpaceThenLetterIsClean()
    ensures IsClean(" a")
  {
    var s := " a";
    assert s[0] == ' ' && s[1] == 'a';
  }

  lemma SpaceThenLetterStrips()
    ensures Strip(" a") == "a"
  {
    StripSpaceThenWord(' ', "a");
    assert [' '] + "a" == " a";
  }

  lemma StripSpaceThenWord(c: char, t: string)
    requires IsPySpace(c)
    requires t != [] && !IsPySpace(t[0]) && !IsPySpace(t[|t| - 1])
    ensures Strip([c] + t) == t
  {
    StripLeadingSpace(c, t);
    StripUnpadded(t);
  }

  /** Stripping ignores a leading whitespace character. */
  lemma StripLeadingSpace(c: char, t: string)
    requires IsPySpace(c)
    ensures Strip([c] + t) == Strip(t)
  {
    assert ([c] + t)[1..] == t;
  }

  /** Text with no whitespace at either end is its own strip. */
  lemma StripUnpadded(t: string)
    requires t != [] && !IsPySpace(t[0]) && !IsPySpace(t[|t| - 1])
    ensures Strip(t) == t
  {
  }
}
