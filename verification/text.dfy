/**
  Character classes and the string primitives the AI service relies on:
  Python's `str.isspace()` (which is also what `\s` matches in a `re` pattern
  over `str`), an ASCII rendering of `str.lower()`, `str.split()` without
  arguments, and `' '.join(...)`.
 */
module Text {

  /** Python's `str.isspace()`: the code points Python classifies as whitespace. */
  predicate IsPySpace(c: char): (b: bool)
    ensures c as int < 0x80 ==>
              (b <==> c in {'\t', '\n', '\U{B}', '\U{C}', '\r', '\U{1C}', '\U{1D}', '\U{1E}', '\U{1F}', ' '})
    ensures b ==> !('a' <= c <= 'z' || 'A' <= c <= 'Z' || '0' <= c <= '9' || c == '_')
  {
    var n := c as int;
    || (9 <= n <= 13) || (28 <= n <= 32)
    || n == 0x85 || n == 0xA0 || n == 0x1680
    || (0x2000 <= n <= 0x200A)
    || n == 0x2028 || n == 0x2029 || n == 0x202F || n == 0x205F || n == 0x3000
  }

  predicate IsUpperAscii(c: char) {
    'A' <= c <= 'Z'
  }

  /** A string without any upper-case ASCII letter. */
  predicate IsLowercase(s: string) {
    forall k :: 0 <= k < |s| ==> !IsUpperAscii(s[k])
  }

  /** A string made of whitespace only (possibly empty). */
  predicate IsBlank(s: string) {
    forall k :: 0 <= k < |s| ==> IsPySpace(s[k])
  }

  /** A string without any whitespace character. */
  predicate NoSpace(s: string) {
    forall k :: 0 <= k < |s| ==> !IsPySpace(s[k])
  }

  /** `str.lower()` on one character, restricted to ASCII letters. */
  function LowerChar(c: char): (d: char)
    ensures !IsUpperAscii(d)
    ensures IsPySpace(d) <==> IsPySpace(c)
    ensures !IsUpperAscii(c) ==> d == c
    ensures IsUpperAscii(c) ==> 'a' <= d <= 'z' && d as int - 'a' as int == c as int - 'A' as int
  {
    if IsUpperAscii(c) then (c as int + 32) as char else c
  }

  /** `str.lower()`, restricted to ASCII letters. */
  function Lower(s: string): (r: string)
    ensures |r| == |s|
    ensures forall k :: 0 <= k < |s| ==> r[k] == LowerChar(s[k])
    ensures IsLowercase(r)
  {
    seq(|s|, k requires 0 <= k < |s| => LowerChar(s[k]))
  }

  /** Lower-casing changes a string exactly when it holds an upper-case letter. */
  lemma LowerFixesExactlyLowercase(s: string)
    ensures Lower(s) == s <==> IsLowercase(s)
  {
    if Lower(s) == s {
      assert IsLowercase(Lower(s));
    }
  }

  /** The input with its leading whitespace removed. */
  function DropSpaces(s: string): (r: string)
    ensures |r| <= |s| && r == s[|s| - |r|..]
    ensures forall k :: 0 <= k < |s| - |r| ==> IsPySpace(s[k])
    ensures r != [] ==> !IsPySpace(r[0])
  {
    if s != [] && IsPySpace(s[0]) then DropSpaces(s[1..]) else s
  }

  /** The longest prefix of the input that holds no whitespace. */
  function TakeWord(s: string): (w: string)
    ensures |w| <= |s| && w == s[..|w|]
    ensures NoSpace(w)
    ensures |w| == |s| || IsPySpace(s[|w|])
  {
    if s == [] || IsPySpace(s[0]) then [] else [s[0]] + TakeWord(s[1..])
  }

  /** Python's `str.split()` without arguments: the maximal runs of
      non-whitespace characters, in order. */
  function Words(s: string): (ws: seq<string>)
    ensures forall i :: 0 <= i < |ws| ==> IsWord(ws[i])
    ensures ws == [] <==> IsBlank(s)
    decreases |s|
  {
    var t := DropSpaces(s);
    if t == [] then []
    else
      var w := TakeWord(t);
      assert w != [] by {
        assert !IsPySpace(t[0]);
      }
      var rest := Words(t[|w|..]);
      AllWordsCons(w, rest);
      [w] + rest
  }

  /** A non-empty string without whitespace: what a split can produce. */
  predicate IsWord(w: string) {
    w != [] && NoSpace(w)
  }

  lemma AllWordsCons(w: string, ws: seq<string>)
    requires IsWord(w) && forall i :: 0 <= i < |ws| ==> IsWord(ws[i])
    ensures forall i :: 0 <= i < |[w] + ws| ==> IsWord(([w] + ws)[i])
  {
  }

  /** The words of a lower-case string are lower-case. */
  lemma {:induction false} WordsOfLowercase(s: string)
    requires IsLowercase(s)
    ensures forall i :: 0 <= i < |Words(s)| ==> IsLowercase(Words(s)[i])
    decreases |s|
  {
    var t := DropSpaces(s);
    if t != [] {
      var w := TakeWord(t);
      var tail := t[|w|..];
      assert t == s[|s| - |t|..|s|];
      LowercaseSlice(s, |s| - |t|, |s|);
      assert w == t[0..|w|];
      LowercaseSlice(t, 0, |w|);
      assert tail == t[|w|..|t|];
      LowercaseSlice(t, |w|, |t|);
      var rest := Words(tail);
      assert Words(s) == [w] + rest;
      WordsOfLowercase(tail);
      AllLowercaseCons(w, rest);
    }
  }

  lemma AllLowercaseCons(w: string, ws: seq<string>)
    requires IsLowercase(w) && forall i :: 0 <= i < |ws| ==> IsLowercase(ws[i])
    ensures forall i :: 0 <= i < |[w] + ws| ==> IsLowercase(([w] + ws)[i])
  {
  }

  lemma LowercaseSlice(s: string, a: nat, b: nat)
    requires IsLowercase(s) && a <= b <= |s|
    ensures IsLowercase(s[a..b])
  {
    assert forall k :: 0 <= k < b - a ==> s[a..b][k] == s[a + k];
  }

  /** Leading whitespace does not change the split. */
  lemma WordsSkipsLeadingSpace(c: char, s: string)
    requires IsPySpace(c)
    ensures Words([c] + s) == Words(s)
  {
    assert ([c] + s)[1..] == s;
    assert DropSpaces([c] + s) == DropSpaces(s);
  }

  /** Leading whitespace of any length is dropped with the rest. */
  lemma {:induction false} DropSpacesBlankPrefix(b: string, s: string)
    requires IsBlank(b)
    ensures DropSpaces(b + s) == DropSpaces(s)
  {
    if b != [] {
      assert (b + s)[0] == b[0];
      assert (b + s)[1..] == b[1..] + s;
      assert IsBlank(b[1..]) by {
        assert forall k :: 0 <= k < |b| - 1 ==> b[1..][k] == b[k + 1];
      }
      DropSpacesBlankPrefix(b[1..], s);
    } else {
      assert b + s == s;
    }
  }

  /** Dropping the leading whitespace does not change the split. */
  lemma WordsDropSpaces(s: string)
    ensures Words(DropSpaces(s)) == Words(s)
  {
    var t := DropSpaces(s);
    assert DropSpaces(t) == t;
  }

  /** Leading whitespace of any length does not change the split. */
  lemma WordsBlankPrefix(b: string, s: string)
    requires IsBlank(b)
    ensures Words(b + s) == Words(s)
  {
    DropSpacesBlankPrefix(b, s);
  }

  /** Trailing whitespace of any length does not change the split. */
  lemma {:induction false} WordsBlankSuffix(s: string, b: string)
    requires IsBlank(b)
    ensures Words(s + b) == Words(s)
    decreases |s|, 1
  {
    if s == [] {
      assert s + b == b;
    } else if IsPySpace(s[0]) {
      SuffixAfterSpace(s, b);
    } else {
      SuffixAfterWord(s, b);
    }
  }

  lemma {:induction false} SuffixAfterSpace(s: string, b: string)
    requires IsBlank(b) && s != [] && IsPySpace(s[0])
    ensures Words(s + b) == Words(s)
    decreases |s|, 0
  {
    var c, tail := s[0], s[1..];
    HeadTail(s);
    calc {
      Words(s + b);
      { assert s + b == [c] + (tail + b); }
      Words([c] + (tail + b));
      { WordsSkipsLeadingSpace(c, tail + b); }
      Words(tail + b);
      { WordsBlankSuffix(tail, b); }
      Words(tail);
      { WordsSkipsLeadingSpace(c, tail); }
      Words(s);
    }
  }

  lemma {:induction false} SuffixAfterWord(s: string, b: string)
    requires IsBlank(b) && s != [] && !IsPySpace(s[0])
    ensures Words(s + b) == Words(s)
    decreases |s|, 0
  {
    var w, rest := FirstWord(s);
    var x := rest + b;
    StartsBlank(rest, b);
    Associate(w, rest, b);
    calc {
      Words(s + b);
      Words(w + x);
      { WordsOfWordThen(w, x); }
      [w] + Words(x);
      { WordsBlankSuffix(rest, b); }
      [w] + Words(rest);
      { WordsOfWordThen(w, rest); }
      Words(s);
    }
  }

  /** A text that starts with a non-whitespace character is its first word
      followed by the rest, which is empty or starts with whitespace. */
  lemma FirstWord(s: string) returns (w: string, rest: string)
    requires s != [] && !IsPySpace(s[0])
    ensures IsWord(w) && s == w + rest && |rest| < |s|
    ensures rest == [] || IsPySpace(rest[0])
  {
    w := TakeWord(s);
    rest := s[|w|..];
    HeadTail(s);
    assert s == w + rest;
  }

  lemma StartsBlank(rest: string, b: string)
    requires rest == [] || IsPySpace(rest[0])
    requires IsBlank(b)
    ensures rest + b == [] || IsPySpace((rest + b)[0])
  {
    if rest == [] {
      assert rest + b == b;
    }
  }

  lemma Associate<T>(a: seq<T>, b: seq<T>, c: seq<T>)
    ensures a + b + c == a + (b + c)
  {
  }

  /** The non-whitespace characters of `s`, in order. */
  function NonSpaceChars(s: string): (r: string)
    ensures |r| <= |s| && NoSpace(r)
  {
    if s == [] then []
    else
      var rest := NonSpaceChars(s[1..]);
      if IsPySpace(s[0]) then rest else [s[0]] + rest
  }

  lemma {:induction false} NonSpaceCharsAppend(a: string, b: string)
    ensures NonSpaceChars(a + b) == NonSpaceChars(a) + NonSpaceChars(b)
  {
    if a == [] {
      assert a + b == b;
    } else {
      assert (a + b)[0] == a[0];
      assert (a + b)[1..] == a[1..] + b;
      NonSpaceCharsAppend(a[1..], b);
    }
  }

  lemma {:induction false} NonSpaceCharsOfBlank(s: string)
    requires IsBlank(s)
    ensures NonSpaceChars(s) == []
  {
    if s != [] {
      assert IsBlank(s[1..]) by {
        assert forall k :: 0 <= k < |s| - 1 ==> s[1..][k] == s[k + 1];
      }
      NonSpaceCharsOfBlank(s[1..]);
    }
  }

  predicate StartsWith(s: string, p: string) {
    |p| <= |s| && s[..|p|] == p
  }

  predicate EndsWith(s: string, p: string) {
    |p| <= |s| && s[|s| - |p|..] == p
  }

  /** Python's `sep.join(ws)`. */
  function Join(ws: seq<string>, sep: string): (r: string)
    ensures ws == [] ==> r == []
    ensures ws != [] ==> StartsWith(r, ws[0]) && EndsWith(r, ws[|ws| - 1])
    ensures |ws| == 1 ==> r == ws[0]
  {
    if ws == [] then ""
    else if |ws| == 1 then ws[0]
    else ws[0] + sep + Join(ws[1..], sep)
  }

  /** Joining two non-empty lists puts exactly one separator between the
      two joins; with the one-word case this determines the join. */
  lemma {:induction false} JoinAppend(a: seq<string>, b: seq<string>, sep: string)
    requires a != [] && b != []
    ensures Join(a + b, sep) == Join(a, sep) + sep + Join(b, sep)
  {
    var w, tail := a[0], a[1..];
    assert a + b == [w] + (tail + b);
    JoinCons(w, tail + b, sep);
    if tail == [] {
      assert tail + b == b;
    } else {
      JoinAppend(tail, b, sep);
      JoinCons(w, tail, sep);
      assert a == [w] + tail;
      Regroup(w, sep, Join(tail, sep), Join(b, sep));
    }
  }

  lemma JoinCons(w: string, rest: seq<string>, sep: string)
    requires rest != []
    ensures Join([w] + rest, sep) == w + sep + Join(rest, sep)
  {
    assert ([w] + rest)[1..] == rest;
  }

  lemma Regroup(p: string, sep: string, x: string, y: string)
    ensures p + sep + (x + sep + y) == (p + sep + x) + sep + y
  {
  }

  lemma TakeWordOf(w: string, t: string)
    requires NoSpace(w)
    requires t == [] || IsPySpace(t[0])
    ensures TakeWord(w + t) == w
  {
    if w != [] {
      assert (w + t)[1..] == w[1..] + t;
      TakeWordOf(w[1..], t);
    } else {
      assert w + t == t;
    }
  }

  lemma HeadTail<T>(s: seq<T>)
    requires s != []
    ensures s == [s[0]] + s[1..]
  {
  }

  /** A word followed by whitespace (or nothing) splits off as the first word. */
  lemma WordsOfWordThen(w: string, t: string)
    requires IsWord(w)
    requires t == [] || IsPySpace(t[0])
    ensures Words(w + t) == [w] + Words(t)
  {
    var s := w + t;
    assert s[0] == w[0];
    assert DropSpaces(s) == s;
    TakeWordOf(w, t);
    assert s[|w|..] == t;
  }

  /** A single word splits into itself. */
  lemma WordsOfWord(w: string)
    requires IsWord(w)
    ensures Words(w) == [w]
  {
    assert w + [] == w;
    WordsOfWordThen(w, []);
  }

  lemma SplitJoinStep(w: string, rest: seq<string>)
    requires IsWord(w) && rest != []
    ensures Words(Join([w] + rest, " ")) == [w] + Words(Join(rest, " "))
  {
    var j := Join(rest, " ");
    assert ([w] + rest)[1..] == rest;
    assert Join([w] + rest, " ") == w + ([' '] + j);
    WordsOfWordThen(w, [' '] + j);
    WordsSkipsLeadingSpace(' ', j);
  }

  /** Splitting a single-space join of non-empty, whitespace-free words gives
      back exactly those words. */
  lemma {:induction false} SplitJoin(ws: seq<string>)
    requires forall i :: 0 <= i < |ws| ==> IsWord(ws[i])
    ensures Words(Join(ws, " ")) == ws
  {
    if ws == [] {
    } else if |ws| == 1 {
      WordsOfWord(ws[0]);
    } else {
      var w, rest := ws[0], ws[1..];
      assert Words(Join(rest, " ")) == rest by {
        SplitJoin(rest);
      }
      SplitJoinStep(w, rest);
      HeadTail(ws);
      calc {
        Words(Join(ws, " "));
        Words(Join([w] + rest, " "));
        [w] + Words(Join(rest, " "));
        [w] + rest;
      }
    }
  }
}
