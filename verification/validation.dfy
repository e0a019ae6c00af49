/**
  The two input validators of the Express backend: the e-mail shape test
  `/^[^\s@]+@[^\s@]+\.[^\s@]+$/` and the password-length test.
 */
module Validation {
  import opened Results

  /** `\s` in a JavaScript regular expression: the WhiteSpace and
      LineTerminator code points of ECMAScript. It differs from Python's
      `str.isspace` (`Text.IsPySpace`): U+001C to U+001F and U+0085 are
      whitespace only in Python, U+FEFF only here. */
  predicate IsJsSpace(c: char): (b: bool)
    ensures c as int < 0x80 ==> (b <==> c in {'\t', '\n', '\U{B}', '\U{C}', '\r', ' '})
  {
    var n := c as int;
    || (9 <= n <= 13) || n == 32 || n == 0xA0 || n == 0x1680
    || (0x2000 <= n <= 0x200A)
    || n == 0x2028 || n == 0x2029 || n == 0x202F || n == 0x205F || n == 0x3000
    || n == 0xFEFF
  }

  /** The character class `[^\s@]`. */
  predicate IsEmailChar(c: char) {
    !IsJsSpace(c) && c != '@'
  }

  predicate AllEmailChars(s: string) {
    forall k :: 0 <= k < |s| ==> IsEmailChar(s[k])
  }

  /** The position of the first `c` in `s`, if any. */
  function IndexOf(s: string, c: char): (r: Option<nat>)
    ensures r.None? <==> c !in s
    ensures r.Some? ==> r.value < |s| && s[r.value] == c
    ensures r.Some? ==> forall k :: 0 <= k < r.value ==> s[k] != c
  {
    if s == [] then None
    else if s[0] == c then Some(0)
    else
      match IndexOf(s[1..], c)
      case None => None
      case Some(i) => Some(i + 1)
  }

  /** `isValidEmail`: exactly one `@`, at least one character before it, a
      dot with at least one character on each side after it, and no
      whitespace anywhere. */
  predicate IsValidEmail(s: string): (valid: bool)
    ensures valid ==> 5 <= |s| && '@' in s && '.' in s
    ensures valid ==> forall k :: 0 <= k < |s| ==> !IsJsSpace(s[k])
    ensures valid ==> forall k :: 0 <= k < |s| && s[k] == '@' ==> IndexOf(s, '@') == Some(k)
  {
    match IndexOf(s, '@')
    case None => false
    case Some(at) =>
      && 0 < at
      && (forall k :: 0 <= k < |s| && k != at ==> IsEmailChar(s[k]))
      && (exists d :: at + 1 < d < |s| - 1 && s[d] == '.')
  }

  /** What the regular expression matches, read as a decomposition
      `local@domain.tld` with each part a non-empty run of `[^\s@]`. */
  ghost predicate MatchesEmailPattern(s: string) {
    exists at, dot ::
      && 0 < at && at + 1 < dot && dot + 1 < |s|
      && s[at] == '@' && s[dot] == '.'
      && AllEmailChars(s[..at]) && AllEmailChars(s[at + 1..dot]) && AllEmailChars(s[dot + 1..])
  }

  /** The direct check accepts exactly the strings the pattern matches. */
  lemma IsValidEmailMatchesPattern(s: string)
    ensures IsValidEmail(s) <==> MatchesEmailPattern(s)
  {
    if IsValidEmail(s) {
      ValidEmailMatches(s);
    }
    if MatchesEmailPattern(s) {
      var at, dot :| && 0 < at && at + 1 < dot && dot + 1 < |s|
        && s[at] == '@' && s[dot] == '.'
        && AllEmailChars(s[..at]) && AllEmailChars(s[at + 1..dot]) && AllEmailChars(s[dot + 1..]);
      PatternIsValidEmail(s, at, dot);
    }
  }

  lemma ValidEmailMatches(s: string)
    requires IsValidEmail(s)
    ensures MatchesEmailPattern(s)
  {
    var at := IndexOf(s, '@').value;
    var dot :| at + 1 < dot < |s| - 1 && s[dot] == '.';
    EmailCharsOfSlice(s, at, 0, at);
    EmailCharsOfSlice(s, at, at + 1, dot);
    EmailCharsOfSlice(s, at, dot + 1, |s|);
    assert s[dot + 1..] == s[dot + 1..|s|];
  }

  /** A slice that avoids position `at` inherits the character class. */
  lemma EmailCharsOfSlice(s: string, at: nat, a: nat, b: nat)
    requires a <= b <= |s| && (at < a || b <= at)
    requires forall k :: 0 <= k < |s| && k != at ==> IsEmailChar(s[k])
    ensures AllEmailChars(s[a..b])
  {
    forall k | 0 <= k < b - a
      ensures IsEmailChar(s[a..b][k])
    {
      assert s[a..b][k] == s[a + k];
    }
  }

  lemma PatternIsValidEmail(s: string, at: nat, dot: nat)
    requires 0 < at && at + 1 < dot && dot + 1 < |s|
    requires s[at] == '@' && s[dot] == '.'
    requires AllEmailChars(s[..at]) && AllEmailChars(s[at + 1..dot]) && AllEmailChars(s[dot + 1..])
    ensures IsValidEmail(s)
  {
    forall k | 0 <= k < |s| && k != at
      ensures IsEmailChar(s[k])
    {
      if k < at {
        assert s[..at][k] == s[k];
      } else if k < dot {
        assert s[at + 1..dot][k - at - 1] == s[k];
      } else if dot < k {
        assert s[dot + 1..][k - dot - 1] == s[k];
      }
    }
    AtIsFirst(s, at);
  }

  /** With no other `@` before it, `at` is what `IndexOf` finds. */
  lemma AtIsFirst(s: string, at: nat)
    requires at < |s| && s[at] == '@'
    requires forall k :: 0 <= k < at ==> IsEmailChar(s[k])
    ensures IndexOf(s, '@') == Some(at)
  {
    assert s[at] in s;
  }

  /** Positions of characters above U+FFFF, which UTF-16 writes as a surrogate pair. */
  function AstralPositions(s: string): set<nat> {
    set k: nat | k < |s| && s[k] as int > 0xFFFF
  }

  /** Appending one character adds its position exactly when it is above U+FFFF. */
  lemma AstralPositionsSnoc(s: string)
    requires s != []
    ensures AstralPositions(s) ==
              AstralPositions(s[..|s| - 1]) + (if s[|s| - 1] as int > 0xFFFF then {|s| - 1} else {})
    ensures |s| - 1 !in AstralPositions(s[..|s| - 1])
  {
  }

  /** JavaScript's `length`: UTF-16 code units, two for a code point above U+FFFF. */
  function Utf16Length(s: string): (n: nat)
    ensures n == |s| + |AstralPositions(s)|
    ensures |s| <= n <= 2 * |s|
  {
    if s == [] then
      assert AstralPositions(s) == {};
      0
    else
      var p := s[..|s| - 1];
      AstralPositionsSnoc(s);
      Utf16Length(p) + (if s[|s| - 1] as int > 0xFFFF then 2 else 1)
  }

  /** Minimum password length, in JavaScript `length` units. */
  const MinPasswordLength := 6

  /** `isStrongPassword`: at least six UTF-16 code units, counting each
      character above U+FFFF twice. */
  predicate IsStrongPassword(password: string): (strong: bool)
    ensures strong <==> |password| + |AstralPositions(password)| >= MinPasswordLength
  {
    Utf16Length(password) >= MinPasswordLength
  }

  /** Six characters always suffice and fewer than three never do; for text
      without characters above U+FFFF the test is exactly "at least six characters". */
  lemma StrongPasswordByLength(password: string)
    ensures |password| >= MinPasswordLength ==> IsStrongPassword(password)
    ensures IsStrongPassword(password) ==> 2 * |password| >= MinPasswordLength
    ensures (forall k :: 0 <= k < |password| ==> password[k] as int <= 0xFFFF) ==>
              (IsStrongPassword(password) <==> |password| >= MinPasswordLength)
  {
    if forall k :: 0 <= k < |password| ==> password[k] as int <= 0xFFFF {
      assert AstralPositions(password) == {};
    }
  }
}
