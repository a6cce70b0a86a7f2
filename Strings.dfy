/**
 * The handful of Python string operations the core relies on: str.split with a
 * one-character separator, str.join, str.startswith, str.strip, and the decimal
 * rendering of an int inside an f-string.
 */
module Strings {

  /** Python's s.split(sep) for a single-character separator. */
  function Split(s: string, sep: char): (parts: seq<string>)
    ensures |parts| >= 1
    ensures forall i :: 0 <= i < |parts| ==> sep !in parts[i]
    decreases |s|
  {
    if s == [] then [[]]
    else
      var rest := Split(s[1..], sep);
      if s[0] == sep then [[]] + rest
      else [[s[0]] + rest[0]] + rest[1..]
  }

  /** The combined length of the pieces. */
  function TotalLength(parts: seq<string>): nat {
    if parts == [] then 0 else |parts[0]| + TotalLength(parts[1..])
  }

  /**
   * Python's sep.join(parts) for a single-character separator: the pieces with one
   * separator between neighbours, so |parts| - 1 characters longer than the pieces.
   */
  function Join(parts: seq<string>, sep: char): (s: string)
    ensures parts != [] ==> |s| == TotalLength(parts) + |parts| - 1
    ensures parts != [] ==> s[..|parts[0]|] == parts[0]
    decreases |parts|
  {
    if parts == [] then []
    else if |parts| == 1 then parts[0]
    else parts[0] + [sep] + Join(parts[1..], sep)
  }

  /** Joining the pieces of a split gives back the original text. */
  lemma {:induction false} JoinSplit(s: string, sep: char)
    ensures Join(Split(s, sep), sep) == s
    decreases |s|
  {
    if s != [] {
      var rest := Split(s[1..], sep);
      JoinSplit(s[1..], sep);
      if s[0] == sep {
        assert Split(s, sep) == [[]] + rest;
        assert ([[]] + rest)[1..] == rest;
      } else if |rest| == 1 {
        assert Split(s, sep) == [[s[0]] + rest[0]];
      } else {
        assert Split(s, sep) == [[s[0]] + rest[0]] + rest[1..];
        assert ([[s[0]] + rest[0]] + rest[1..])[1..] == rest[1..];
        assert Join(rest, sep) == rest[0] + [sep] + Join(rest[1..], sep);
        assert s == [s[0]] + s[1..];
      }
    }
  }

  /** Text without the separator is a single piece. */
  lemma {:induction false} SplitNoSeparator(s: string, sep: char)
    requires sep !in s
    ensures Split(s, sep) == [s]
    decreases |s|
  {
    if s != [] {
      assert sep !in s[1..];
      SplitNoSeparator(s[1..], sep);
      assert s == [s[0]] + s[1..];
    }
  }

  /** Splitting at the first separator peels off the text before it. */
  lemma {:induction false} SplitAtFirst(a: string, sep: char, b: string)
    requires sep !in a
    ensures Split(a + [sep] + b, sep) == [a] + Split(b, sep)
    decreases |a|
  {
    var s := a + [sep] + b;
    if a == [] {
      assert s == [sep] + b;
      assert s[1..] == b;
    } else {
      assert s[0] == a[0];
      assert s[1..] == a[1..] + [sep] + b;
      assert sep !in a[1..];
      SplitAtFirst(a[1..], sep, b);
      assert a == [a[0]] + a[1..];
    }
  }

  /** Splitting a join of separator-free pieces gives back the pieces. */
  lemma {:induction false} SplitJoin(parts: seq<string>, sep: char)
    requires |parts| >= 1
    requires forall i :: 0 <= i < |parts| ==> sep !in parts[i]
    ensures Split(Join(parts, sep), sep) == parts
    decreases |parts|
  {
    if |parts| == 1 {
      SplitNoSeparator(parts[0], sep);
    } else {
      SplitJoin(parts[1..], sep);
      SplitAtFirst(parts[0], sep, Join(parts[1..], sep));
      assert parts == [parts[0]] + parts[1..];
    }
  }

  /** Python's s.startswith(prefix). */
  predicate StartsWith(s: string, prefix: string)
    ensures StartsWith(s, prefix) <==> prefix <= s
  {
    |prefix| <= |s| && s[..|prefix|] == prefix
  }

  /** How many leading characters of s are in chars: the length of the run s.lstrip(chars) drops. */
  function LeadingRun(s: string, chars: set<char>): (n: nat)
    ensures n <= |s|
    ensures forall j :: 0 <= j < n ==> s[j] in chars
    ensures n < |s| ==> s[n] !in chars
    decreases |s|
  {
    if s != [] && s[0] in chars then 1 + LeadingRun(s[1..], chars) else 0
  }

  /** Python's s.lstrip(chars): drops every leading character that is in chars. */
  function StripLeft(s: string, chars: set<char>): (r: string)
    ensures |r| <= |s| && r == s[|s| - |r|..]
    ensures forall i :: 0 <= i < |s| - |r| ==> s[i] in chars
    ensures r != [] ==> r[0] !in chars
    ensures |s| - |r| == LeadingRun(s, chars)
    decreases |s|
  {
    if s != [] && s[0] in chars then StripLeft(s[1..], chars) else s
  }

  /** Python's s.rstrip(chars): drops every trailing character that is in chars. */
  function StripRight(s: string, chars: set<char>): (r: string)
    ensures |r| <= |s| && r == s[..|r|]
    ensures forall i :: |r| <= i < |s| ==> s[i] in chars
    ensures r != [] ==> r[|r| - 1] !in chars
    decreases |s|
  {
    if s != [] && s[|s| - 1] in chars then StripRight(s[..|s| - 1], chars) else s
  }

  /**
   * Python's s.strip(chars): the slice of s left after dropping the leading run
   * of characters in chars and then the trailing run; neither end of the result
   * is in chars.
   */
  function Strip(s: string, chars: set<char>): (r: string)
    ensures |r| <= |s| - LeadingRun(s, chars)
    ensures r == s[LeadingRun(s, chars)..LeadingRun(s, chars) + |r|]
    ensures forall j :: LeadingRun(s, chars) + |r| <= j < |s| ==> s[j] in chars
    ensures r != [] ==> r[0] !in chars && r[|r| - 1] !in chars
  {
    StripSlice(s, StripLeft(s, chars), StripRight(StripLeft(s, chars), chars),
               LeadingRun(s, chars), chars);
    StripRight(StripLeft(s, chars), chars)
  }

  /** The facts Strip's contract states, from those of LeadingRun, StripLeft and StripRight. */
  lemma StripSlice(s: string, left: string, r: string, n: nat, chars: set<char>)
    requires n <= |s| && left == s[n..]
    requires forall j :: 0 <= j < n ==> s[j] in chars
    requires |r| <= |left| && r == left[..|r|]
    requires forall j :: |r| <= j < |left| ==> left[j] in chars
    requires r != [] ==> r[0] !in chars
    ensures r == s[n..n + |r|]
    ensures forall j :: n + |r| <= j < |s| ==> s[j] in chars
  {
    assert forall j :: n + |r| <= j < |s| ==> s[j] == left[j - n];
  }

  /** s.strip(chars) is empty exactly when every character of s is in chars. */
  lemma StripEmpty(s: string, chars: set<char>)
    ensures Strip(s, chars) == [] <==> forall i :: 0 <= i < |s| ==> s[i] in chars
  {
    var n, r := LeadingRun(s, chars), Strip(s, chars);
    if r != [] {
      assert s[n] == r[0];
    }
  }

  /**
   * The characters for which Python's str.isspace() holds, the ones str.strip()
   * removes when given no argument.
   */
  const Whitespace: set<char> := {
    '\t', '\n', '\U{000B}', '\U{000C}', '\r', '\U{001C}', '\U{001D}', '\U{001E}', '\U{001F}', ' ',
    '\U{0085}', '\U{00A0}', '\U{1680}',
    '\U{2000}', '\U{2001}', '\U{2002}', '\U{2003}', '\U{2004}', '\U{2005}', '\U{2006}',
    '\U{2007}', '\U{2008}', '\U{2009}', '\U{200A}',
    '\U{2028}', '\U{2029}', '\U{202F}', '\U{205F}', '\U{3000}'
  }

  function DigitChar(d: nat): (c: char)
    requires d < 10
    ensures '0' <= c <= '9'
  {
    (48 + d) as char
  }

  predicate IsDigits(s: string) {
    forall i :: 0 <= i < |s| ==> '0' <= s[i] <= '9'
  }

  /** str(n) for a non-negative int: its decimal digits, without leading zeros. */
  function NatToDecimal(n: nat): (s: string)
    ensures |s| >= 1 && IsDigits(s)
    ensures |s| > 1 ==> s[0] != '0'
  {
    if n < 10 then [DigitChar(n)] else NatToDecimal(n / 10) + [DigitChar(n % 10)]
  }

  /** str(i) for any int: a minus sign before the digits of a negative number. */
  function IntToDecimal(i: int): (s: string)
    ensures |s| >= 1
    ensures s[0] == '-' <==> i < 0
    ensures IsDigits(if i < 0 then s[1..] else s)
  {
    if i < 0 then "-" + NatToDecimal(-i) else NatToDecimal(i)
  }

  /** The value a string of decimal digits denotes. */
  function DecimalValue(s: string): nat
    requires IsDigits(s)
  {
    if s == [] then 0
    else DecimalValue(s[..|s| - 1]) * 10 + (s[|s| - 1] as int - 48)
  }

  /** The value of an optionally signed decimal numeral. */
  function ParseInt(s: string): int {
    if s != [] && s[0] == '-' && IsDigits(s[1..]) then -(DecimalValue(s[1..]) as int)
    else if IsDigits(s) then DecimalValue(s)
    else 0
  }

  lemma {:induction false} DecimalRoundTrip(n: nat)
    ensures DecimalValue(NatToDecimal(n)) == n
  {
    if n >= 10 {
      DecimalRoundTrip(n / 10);
      var s := NatToDecimal(n);
      assert s[..|s| - 1] == NatToDecimal(n / 10);
    }
  }

  /** A digit string reads as its value, and with a minus sign in front as its negation. */
  lemma ParseDigits(d: string)
    requires |d| >= 1 && IsDigits(d)
    ensures ParseInt(d) == DecimalValue(d)
    ensures ParseInt("-" + d) == -(DecimalValue(d) as int)
  {
    assert d[0] != '-';
    assert ("-" + d)[1..] == d;
  }

  /** Reading back what str(i) printed gives i. */
  lemma IntRoundTrip(i: int)
    ensures ParseInt(IntToDecimal(i)) == i
  {
    if i < 0 {
      var d := NatToDecimal(-i);
      assert IntToDecimal(i) == "-" + d;
      ParseDigits(d);
      DecimalRoundTrip(-i);
    } else {
      var d := NatToDecimal(i);
      assert IntToDecimal(i) == d;
      ParseDigits(d);
      DecimalRoundTrip(i);
    }
  }
}
