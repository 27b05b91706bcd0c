/**
 * The handful of Python string operations the map voter relies on:
 * str.strip(), the regular-expression class \w, int() on a word token,
 * str.lower(), the `in` substring test, str.format of an int and '\n'.join.
 */
module Text {

  /** The characters for which Python's str.isspace() holds, which str.strip() removes. */
  predicate IsSpace(c: char) {
    || c == ' '
    || '\t' <= c <= '\r'
    || '\U{1c}' <= c <= '\U{1f}'
    || c == '\U{85}' || c == '\U{a0}' || c == '\U{1680}'
    || '\U{2000}' <= c <= '\U{200a}'
    || c == '\U{2028}' || c == '\U{2029}' || c == '\U{202f}' || c == '\U{205f}' || c == '\U{3000}'
  }

  predicate IsDigit(c: char) {
    '0' <= c <= '9'
  }

  /** The ASCII members of the regular-expression class \w. */
  predicate IsWordChar(c: char) {
    'a' <= c <= 'z' || 'A' <= c <= 'Z' || IsDigit(c) || c == '_'
  }

  /** str.rstrip(): the longest prefix that does not end in whitespace. */
  function RStrip(s: string): string {
    if s != [] && IsSpace(s[|s| - 1]) then RStrip(s[..|s| - 1]) else s
  }

  /** str.lstrip(): the longest suffix that does not start with whitespace. */
  function LStrip(s: string): string {
    if s != [] && IsSpace(s[0]) then LStrip(s[1..]) else s
  }

  /** str.strip() */
  function Strip(s: string): string {
    LStrip(RStrip(s))
  }

  /** What re.search(r'\w+$', s) matches: the longest suffix of word characters (empty when there is no match). */
  function TrailingWord(s: string): string {
    if s != [] && IsWordChar(s[|s| - 1]) then TrailingWord(s[..|s| - 1]) + [s[|s| - 1]] else []
  }

  /** TrailingWord is the longest suffix made of word characters. */
  lemma {:induction false} TrailingWordIsLongestWordSuffix(s: string)
    ensures var r := TrailingWord(s);
      && |r| <= |s| && r == s[|s| - |r|..]
      && (forall i :: 0 <= i < |r| ==> IsWordChar(r[i]))
      && (|r| < |s| ==> !IsWordChar(s[|s| - |r| - 1]))
  {
    if s != [] && IsWordChar(s[|s| - 1]) {
      TrailingWordIsLongestWordSuffix(s[..|s| - 1]);
    }
  }

  /** A string without surrounding whitespace is its own strip(). */
  lemma StripUnpadded(s: string)
    requires s != [] && !IsSpace(s[0]) && !IsSpace(s[|s| - 1])
    ensures Strip(s) == s
  {
  }

  /** Stripping a string that does not end in whitespace keeps its last character. */
  lemma StripKeepsLast(s: string)
    requires s != [] && !IsSpace(s[|s| - 1])
    ensures Strip(s) != [] && Strip(s)[|Strip(s)| - 1] == s[|s| - 1]
  {
    LStripKeepsLast(s);
  }

  lemma {:induction false} LStripKeepsLast(s: string)
    requires s != [] && !IsSpace(s[|s| - 1])
    ensures LStrip(s) != [] && LStrip(s)[|LStrip(s)| - 1] == s[|s| - 1]
  {
    if IsSpace(s[0]) {
      LStripKeepsLast(s[1..]);
    }
  }

  /** Leading whitespace is stripped from the prefix only, never from a tail that starts with a non-space. */
  lemma {:induction false} LStripBefore(prefix: string, tail: string)
    requires tail != [] && !IsSpace(tail[0])
    ensures exists m :: 0 <= m <= |prefix| && LStrip(prefix + tail) == prefix[m..] + tail
  {
    if prefix == [] {
      assert prefix + tail == tail && prefix[0..] + tail == tail;
    } else if IsSpace(prefix[0]) {
      assert (prefix + tail)[1..] == prefix[1..] + tail;
      LStripBefore(prefix[1..], tail);
      var m :| 0 <= m <= |prefix[1..]| && LStrip(prefix[1..] + tail) == prefix[1..][m..] + tail;
      assert prefix[1..][m..] == prefix[m + 1..];
    } else {
      assert prefix[0..] == prefix;
    }
  }

  /** A string of word characters is its own trailing word. */
  lemma {:induction false} TrailingWordOfWord(s: string)
    requires forall i :: 0 <= i < |s| ==> IsWordChar(s[i])
    ensures TrailingWord(s) == s
  {
    if s != [] {
      TrailingWordOfWord(s[..|s| - 1]);
    }
  }

  /** A run of word characters after a non-word character is the whole trailing word. */
  lemma {:induction false} TrailingWordAfter(prefix: string, word: string)
    requires prefix == [] || !IsWordChar(prefix[|prefix| - 1])
    requires forall i :: 0 <= i < |word| ==> IsWordChar(word[i])
    ensures TrailingWord(prefix + word) == word
  {
    var s := prefix + word;
    if word == [] {
      assert s == prefix;
    } else {
      var n := |word| - 1;
      assert s[..|s| - 1] == prefix + word[..n];
      TrailingWordAfter(prefix, word[..n]);
    }
  }

  /**
   * Whether Python's int() accepts a token made of ASCII word characters:
   * decimal digits, with single underscores allowed between two digits.
   * Read from the end: a digit, preceded by nothing, by a literal, or by '_' and a literal.
   */
  predicate IsIntLiteral(t: string) {
    && |t| > 0
    && IsDigit(t[|t| - 1])
    && (|| |t| == 1
        || IsIntLiteral(t[..|t| - 1])
        || (|t| >= 3 && t[|t| - 2] == '_' && IsIntLiteral(t[..|t| - 2])))
  }

  function DigitValue(c: char): nat
    requires IsDigit(c)
  {
    c as int - '0' as int
  }

  function DigitChar(d: nat): (c: char)
    requires d < 10
    ensures IsDigit(c) && DigitValue(c) == d
  {
    ('0' as int + d) as char
  }

  /** int(t) for a token int() accepts: its digits read in base 10, underscores ignored. */
  function IntValue(t: string): nat
    requires IsIntLiteral(t)
  {
    var d := DigitValue(t[|t| - 1]);
    if |t| == 1 then d
    else if IsIntLiteral(t[..|t| - 1]) then IntValue(t[..|t| - 1]) * 10 + d
    else IntValue(t[..|t| - 2]) * 10 + d
  }

  /** str(n), as an f-string or str.format renders a non-negative int. */
  function NatToString(n: nat): (r: string)
    ensures |r| > 0
    ensures forall i :: 0 <= i < |r| ==> IsDigit(r[i])
  {
    if n < 10 then [DigitChar(n)] else NatToString(n / 10) + [DigitChar(n % 10)]
  }

  /** int(str(n)) == n: the decimal rendering of a number reads back as that number. */
  lemma {:induction false} NatToStringRoundTrip(n: nat)
    ensures IsIntLiteral(NatToString(n))
    ensures IntValue(NatToString(n)) == n
  {
    if n >= 10 {
      NatToStringRoundTrip(n / 10);
      var r := NatToString(n);
      assert r[..|r| - 1] == NatToString(n / 10);
    }
  }

  /** The ASCII case mapping of str.lower(). */
  function LowerChar(c: char): char {
    if 'A' <= c <= 'Z' then (c as int + 32) as char else c
  }

  /** str.lower(), character by character. */
  function ToLower(s: string): string {
    seq(|s|, i requires 0 <= i < |s| => LowerChar(s[i]))
  }

  lemma ToLowerConcat(a: string, b: string)
    ensures ToLower(a + b) == ToLower(a) + ToLower(b)
  {
  }

  /** The substring test `sub in s`. */
  predicate Contains(s: string, sub: string) {
    sub <= s || (s != [] && Contains(s[1..], sub))
  }

  predicate OccursAt(s: string, sub: string, i: int) {
    0 <= i && i + |sub| <= |s| && s[i..i + |sub|] == sub
  }

  /** Dropping the first character shifts every occurrence one position to the left. */
  lemma OccursAtTail(s: string, sub: string, i: nat)
    requires s != []
    ensures OccursAt(s[1..], sub, i) <==> OccursAt(s, sub, i + 1)
  {
    if i + 1 + |sub| <= |s| {
      assert s[1..][i..i + |sub|] == s[i + 1..i + 1 + |sub|];
    }
  }

  /** `sub in s` holds exactly when sub occurs at some position of s. */
  lemma {:induction false} ContainsIff(s: string, sub: string)
    ensures Contains(s, sub) <==> exists i :: OccursAt(s, sub, i)
  {
    if sub <= s {
      assert OccursAt(s, sub, 0);
    } else if s == [] {
      assert forall i :: !OccursAt(s, sub, i);
    } else {
      ContainsIff(s[1..], sub);
      if Contains(s[1..], sub) {
        var i :| OccursAt(s[1..], sub, i);
        OccursAtTail(s, sub, i);
      } else {
        forall i | OccursAt(s, sub, i)
          ensures false
        {
          assert i != 0;
          OccursAtTail(s, sub, i - 1);
        }
      }
    }
  }

  /** A string contains whatever is written into its middle. */
  lemma ContainsInfix(a: string, sub: string, b: string)
    ensures Contains(a + sub + b, sub)
  {
    var s := a + sub + b;
    assert s[|a|..|a| + |sub|] == sub;
    assert OccursAt(s, sub, |a|);
    ContainsIff(s, sub);
  }

  /** sep.join(parts) */
  function Join(parts: seq<string>, sep: string): string {
    if |parts| == 0 then ""
    else if |parts| == 1 then parts[0]
    else parts[0] + sep + Join(parts[1..], sep)
  }

  /** Joining one more part puts one separator before it, and none after it. */
  lemma {:induction false} JoinSnoc(parts: seq<string>, x: string, sep: string)
    ensures Join(parts + [x], sep) == if parts == [] then x else Join(parts, sep) + sep + x
  {
    if |parts| == 1 {
      assert parts + [x] == [parts[0], x] && [parts[0], x][1..] == [x];
    } else if |parts| > 1 {
      assert (parts + [x])[1..] == parts[1..] + [x];
      JoinSnoc(parts[1..], x, sep);
    } else {
      assert parts + [x] == [x];
    }
  }
}
