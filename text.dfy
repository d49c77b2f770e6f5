/** Python string operations used by the scraper, with their Python meaning
    stated as contracts. Strings are sequences of Unicode scalar values. */
module Text {

  /** `s.lstrip(chars)`: drops the longest prefix made only of characters of
      the SET `chars` (not a prefix string). */
  function LStrip(s: string, chars: set<char>): (r: string) {
    if s != [] && s[0] in chars then LStrip(s[1..], chars) else s
  }

  /** `s.rstrip(chars)`: drops the longest suffix made only of characters of `chars`. */
  function RStrip(s: string, chars: set<char>): (r: string) {
    if s != [] && s[|s| - 1] in chars then RStrip(s[..|s| - 1], chars) else s
  }

  /** `s.strip(chars)`: both runs dropped. */
  function Strip(s: string, chars: set<char>): (r: string) {
    RStrip(LStrip(s, chars), chars)
  }

  /** The result of `lstrip` is a suffix of the input; what it drops is made of
      characters of `chars`; it is empty or does not start with one of them. */
  lemma {:induction false} LStripSpec(s: string, chars: set<char>)
    ensures var r := LStrip(s, chars);
      && |r| <= |s| && r == s[|s| - |r|..]
      && (forall i :: 0 <= i < |s| - |r| ==> s[i] in chars)
      && (r == [] || r[0] !in chars)
  {
    if s != [] && s[0] in chars {
      LStripSpec(s[1..], chars);
      var r := LStrip(s[1..], chars);
      assert s[1..][|s| - 1 - |r|..] == s[|s| - |r|..];
      forall i | 0 < i < |s| - |r| ensures s[i] in chars {
        assert s[i] == s[1..][i - 1];
      }
    }
  }

  /** The result of `rstrip` is a prefix of the input; what it drops is made of
      characters of `chars`; it is empty or does not end with one of them. */
  lemma {:induction false} RStripSpec(s: string, chars: set<char>)
    ensures var r := RStrip(s, chars);
      && |r| <= |s| && r == s[..|r|]
      && (forall i :: |r| <= i < |s| ==> s[i] in chars)
      && (r == [] || r[|r| - 1] !in chars)
  {
    if s != [] && s[|s| - 1] in chars {
      RStripSpec(s[..|s| - 1], chars);
    }
  }

  /** The result of `strip` is the substring between a leading and a trailing
      run of characters of `chars`, and neither starts nor ends with one. */
  lemma StripSpec(s: string, chars: set<char>)
    ensures var r := Strip(s, chars); var a := |s| - |LStrip(s, chars)|;
      && 0 <= a && a + |r| <= |s|
      && r == s[a..a + |r|]
      && (forall i :: 0 <= i < a ==> s[i] in chars)
      && (forall i :: a + |r| <= i < |s| ==> s[i] in chars)
      && (r == [] || (r[0] !in chars && r[|r| - 1] !in chars))
  {
    var l := LStrip(s, chars);
    LStripSpec(s, chars);
    RStripSpec(l, chars);
    var r := RStrip(l, chars);
    var a := |s| - |l|;
    assert r == s[a..a + |r|];
    forall i | a + |r| <= i < |s| ensures s[i] in chars {
      assert s[i] == l[i - a];
    }
  }

  /** The characters `str.split()` with no argument splits on (those for which
      `str.isspace()` holds). */
  const Whitespace: set<char> :=
    {'\t', '\n', '\U{000B}', '\U{000C}', '\r', '\U{001C}', '\U{001D}', '\U{001E}', '\U{001F}', ' ',
     '\U{0085}', '\U{00A0}', '\U{1680}', '\U{2000}', '\U{2001}', '\U{2002}', '\U{2003}', '\U{2004}',
     '\U{2005}', '\U{2006}', '\U{2007}', '\U{2008}', '\U{2009}', '\U{200A}', '\U{2028}', '\U{2029}',
     '\U{202F}', '\U{205F}', '\U{3000}'}

  /** `s.split()` is non-empty exactly when some character is not whitespace. */
  predicate HasToken(s: string) {
    exists i :: 0 <= i < |s| && s[i] !in Whitespace
  }

  /** The longest suffix of `s` that contains no whitespace. */
  function TrailingRun(s: string): (r: string) {
    if s != [] && s[|s| - 1] !in Whitespace then TrailingRun(s[..|s| - 1]) + [s[|s| - 1]] else []
  }

  lemma {:induction false} TrailingRunSpec(s: string)
    ensures var r := TrailingRun(s);
      && |r| <= |s| && r == s[|s| - |r|..]
      && (forall i :: 0 <= i < |r| ==> r[i] !in Whitespace)
      && (|r| < |s| ==> s[|s| - |r| - 1] in Whitespace)
  {
    if s != [] && s[|s| - 1] !in Whitespace {
      TrailingRunSpec(s[..|s| - 1]);
    }
  }

  /** `s.split()[-1]`: the last whitespace-delimited token. Python raises an
      IndexError when there is no token, hence the precondition. */
  function LastToken(s: string): (r: string)
    requires HasToken(s)
  {
    TrailingRun(RStrip(s, Whitespace))
  }

  /** The last token is non-empty, holds no whitespace, is followed only by
      whitespace and is preceded by whitespace or by nothing. */
  lemma LastTokenSpec(s: string)
    requires HasToken(s)
    ensures var r := LastToken(s); var e := |RStrip(s, Whitespace)|;
      && r != []
      && (forall i :: 0 <= i < |r| ==> r[i] !in Whitespace)
      && |r| <= e <= |s|
      && r == s[e - |r|..e]
      && (e == |r| || s[e - |r| - 1] in Whitespace)
      && (forall i :: e <= i < |s| ==> s[i] in Whitespace)
  {
    var t := RStrip(s, Whitespace);
    RStripSpec(s, Whitespace);
    TrailingRunSpec(t);
    var r := TrailingRun(t);
    var e := |t|;
    assert t != [] by {
      var i :| 0 <= i < |s| && s[i] !in Whitespace;
    }
    assert r == s[e - |r|..e];
    if e != |r| {
      assert s[e - |r| - 1] == t[e - |r| - 1];
    }
  }

  predicate IsDigit(c: char) {
    '0' <= c <= '9'
  }

  /** A non-empty string of ASCII decimal digits: what `int()` is assumed to be given. */
  predicate IsDigits(s: string) {
    s != [] && forall i :: 0 <= i < |s| ==> IsDigit(s[i])
  }

  function DigitChar(d: nat): (c: char)
    requires d < 10
    ensures IsDigit(c)
  {
    ('0' as int + d) as char
  }

  function DigitValue(c: char): (d: nat)
    requires IsDigit(c)
    ensures d < 10 && DigitChar(d) == c
  {
    c as int - '0' as int
  }

  /** `int(s)` on a string of decimal digits. */
  function ParseNat(s: string): (r: nat)
    requires forall i :: 0 <= i < |s| ==> IsDigit(s[i])
  {
    if s == [] then 0 else ParseNat(s[..|s| - 1]) * 10 + DigitValue(s[|s| - 1])
  }

  /** `str(n)` (and `f"{n}"`) for a natural number. */
  function NatToString(n: nat): (r: string)
    ensures IsDigits(r)
    ensures n > 0 ==> r[0] != '0'
  {
    if n < 10 then [DigitChar(n)] else NatToString(n / 10) + [DigitChar(n % 10)]
  }

  /** `int(str(n)) == n`. */
  lemma {:induction false} ParseNatToString(n: nat)
    ensures ParseNat(NatToString(n)) == n
  {
    var r := NatToString(n);
    if n >= 10 {
      assert r[..|r| - 1] == NatToString(n / 10);
      ParseNatToString(n / 10);
    }
  }

  /** `str.lower()` restricted to ASCII letters. */
  function LowerChar(c: char): (r: char) {
    if 'A' <= c <= 'Z' then (c as int + 32) as char else c
  }

  function Lower(s: string): (r: string) {
    seq(|s|, i requires 0 <= i < |s| => LowerChar(s[i]))
  }

  /** Lower-casing keeps the length, leaves no upper-case letter, maps each
      upper-case letter to its lower-case one and leaves every other
      character alone. */
  lemma LowerSpec(s: string)
    ensures |Lower(s)| == |s|
    ensures forall i :: 0 <= i < |s| ==> !('A' <= Lower(s)[i] <= 'Z')
    ensures forall i :: 0 <= i < |s| && 'A' <= s[i] <= 'Z' ==>
              'a' <= Lower(s)[i] <= 'z' && Lower(s)[i] as int == s[i] as int + 32
    ensures forall i :: 0 <= i < |s| && !('A' <= s[i] <= 'Z') ==> Lower(s)[i] == s[i]
  {
  }

  /** `s.replace(c, '')`. */
  function RemoveChar(s: string, c: char): (r: string) {
    if s == [] then [] else (if s[0] == c then [] else [s[0]]) + RemoveChar(s[1..], c)
  }

  /** Every occurrence of `c` is removed and every other character kept:
      the result is no longer, holds exactly the other characters with
      their number of occurrences, and is the input itself when `c` does
      not occur. */
  lemma {:induction false} RemoveCharSpec(s: string, c: char)
    ensures |RemoveChar(s, c)| <= |s|
    ensures forall x :: x in RemoveChar(s, c) <==> x in s && x != c
    ensures c !in s ==> RemoveChar(s, c) == s
    ensures multiset(RemoveChar(s, c)) == multiset(s)[c := 0]
  {
    if s != [] {
      RemoveCharSpec(s[1..], c);
      assert s == [s[0]] + s[1..];
      assert multiset(s) == multiset([s[0]]) + multiset(s[1..]);
    }
  }

  /** `s.replace(a, b)` for one-character `a` and `b`. */
  function ReplaceChar(s: string, a: char, b: char): (r: string) {
    seq(|s|, i requires 0 <= i < |s| => if s[i] == a then b else s[i])
  }

  /** Each `a` becomes `b`, everything else stays in place. */
  lemma ReplaceCharSpec(s: string, a: char, b: char)
    ensures |ReplaceChar(s, a, b)| == |s|
    ensures forall i :: 0 <= i < |s| ==> ReplaceChar(s, a, b)[i] == if s[i] == a then b else s[i]
    ensures a != b ==> a !in ReplaceChar(s, a, b)
    ensures a !in s ==> ReplaceChar(s, a, b) == s
  {
  }

  /** `s.rfind(c)`: the index of the last occurrence of `c`, or -1. */
  function RFind(s: string, c: char): (r: int)
    ensures -1 <= r < |s|
  {
    if s == [] then -1 else if s[|s| - 1] == c then |s| - 1 else RFind(s[..|s| - 1], c)
  }

  /** The index found holds `c`, and no later position does; -1 means `c`
      does not occur. */
  lemma {:induction false} RFindSpec(s: string, c: char)
    ensures RFind(s, c) >= 0 ==> s[RFind(s, c)] == c
    ensures forall i :: RFind(s, c) < i < |s| ==> s[i] != c
  {
    if s != [] && s[|s| - 1] != c {
      RFindSpec(s[..|s| - 1], c);
    }
  }

  /** The extension part of POSIX `os.path.splitext(p)`: from the last `.` of
      the last path component, unless that component is made only of dots
      up to there (so `.bashrc` has no extension). */
  function Extension(p: string): (r: string) {
    var sep := RFind(p, '/');
    var dot := RFind(p, '.');
    if dot > sep && exists j :: sep < j < dot && p[j] != '.' then p[dot..] else []
  }

  /** A non-empty extension is a suffix that starts with `.` and holds no
      other `.` and no `/`; it is empty exactly when the last component has
      no `.`, or only dots before its last one. */
  lemma ExtensionSpec(p: string)
    ensures var r := Extension(p);
      && |r| <= |p|
      && (r == [] || (r[0] == '.' && r == p[|p| - |r|..] && '/' !in r && '.' !in r[1..]))
      && (r == [] <==> RFind(p, '.') <= RFind(p, '/') ||
                       forall j :: RFind(p, '/') < j < RFind(p, '.') ==> p[j] == '.')
  {
    RFindSpec(p, '/');
    RFindSpec(p, '.');
    var r := Extension(p);
    var dot := RFind(p, '.');
    if r != [] {
      forall i | 0 <= i < |r| ensures r[i] != '/' && (i > 0 ==> r[i] != '.') {
        assert r[i] == p[dot + i];
      }
    }
  }
}
