/** The parts of Python's string handling that the matrix text format relies on:
    str.strip, str.split with a one-character separator, int() on a string and
    str() on an int. */
module PyText {
  import opened Wrappers

  /** Python's str.isspace() on one character: the characters that str.strip()
      with no argument removes at both ends. */
  predicate IsSpace(ch: char)
  {
    || ch == ' ' || '\t' <= ch <= '\r' || '\U{1C}' <= ch <= '\U{1F}'
    || ch == '\U{85}' || ch == '\U{A0}' || ch == '\U{1680}' || '\U{2000}' <= ch <= '\U{200A}'
    || ch == '\U{2028}' || ch == '\U{2029}' || ch == '\U{202F}' || ch == '\U{205F}'
    || ch == '\U{3000}'
  }

  /** The characters int() ignores around a number: the same as str.isspace()
      except the four separators U+001C..U+001F, which int() keeps, so that
      int("\x1f5") is a ValueError while "\x1f5".strip() is "5". */
  predicate IsIntSpace(ch: char)
  {
    IsSpace(ch) && !('\U{1C}' <= ch <= '\U{1F}')
  }

  /** The characters str.strip('()') removes. */
  predicate IsParen(ch: char)
  {
    ch == '(' || ch == ')'
  }

  /** str.lstrip(chars): drop the leading characters for which drop holds. */
  function TrimLeft(s: string, drop: char -> bool): string
    decreases |s|
  {
    if |s| > 0 && drop(s[0]) then TrimLeft(s[1..], drop) else s
  }

  /** What lstrip keeps is a suffix, what it removes is all dropped, and it
      stops at the first character that is not. */
  lemma {:induction false} TrimLeftSuffix(s: string, drop: char -> bool)
    ensures var t := TrimLeft(s, drop);
      && |t| <= |s| && t == s[|s| - |t|..]
      && (forall i :: 0 <= i < |s| - |t| ==> drop(s[i]))
      && (|t| > 0 ==> !drop(t[0]))
    decreases |s|
  {
    if |s| > 0 && drop(s[0]) {
      TrimLeftSuffix(s[1..], drop);
    }
  }

  /** str.rstrip(chars): drop the trailing characters for which drop holds. */
  function TrimRight(s: string, drop: char -> bool): string
    decreases |s|
  {
    if |s| > 0 && drop(s[|s| - 1]) then TrimRight(s[..|s| - 1], drop) else s
  }

  /** What rstrip keeps is a prefix, what it removes is all dropped, and it
      stops at the last character that is not. */
  lemma {:induction false} TrimRightPrefix(s: string, drop: char -> bool)
    ensures var t := TrimRight(s, drop);
      && |t| <= |s| && t == s[..|t|]
      && (forall i :: |t| <= i < |s| ==> drop(s[i]))
      && (|t| > 0 ==> !drop(t[|t| - 1]))
    decreases |s|
  {
    if |s| > 0 && drop(s[|s| - 1]) {
      TrimRightPrefix(s[..|s| - 1], drop);
    }
  }

  /** str.strip(chars): both ends. */
  function Strip(s: string, drop: char -> bool): string
  {
    TrimRight(TrimLeft(s, drop), drop)
  }

  /** Leading characters that drop removes do not change what TrimLeft keeps. */
  lemma {:induction false} TrimLeftSkips(p: string, s: string, drop: char -> bool)
    requires forall i :: 0 <= i < |p| ==> drop(p[i])
    ensures TrimLeft(p + s, drop) == TrimLeft(s, drop)
    decreases |p|
  {
    if p == [] {
      assert p + s == s;
    } else {
      assert (p + s)[0] == p[0] && (p + s)[1..] == p[1..] + s;
      assert TrimLeft(p + s, drop) == TrimLeft(p[1..] + s, drop);
      TrimLeftSkips(p[1..], s, drop);
    }
  }

  /** Trailing characters that drop removes do not change what TrimRight keeps. */
  lemma {:induction false} TrimRightSkips(s: string, p: string, drop: char -> bool)
    requires forall i :: 0 <= i < |p| ==> drop(p[i])
    ensures TrimRight(s + p, drop) == TrimRight(s, drop)
    decreases |p|
  {
    if p == [] {
      assert s + p == s;
    } else {
      assert (s + p)[|s + p| - 1] == p[|p| - 1] && (s + p)[..|s + p| - 1] == s + p[..|p| - 1];
      assert TrimRight(s + p, drop) == TrimRight(s + p[..|p| - 1], drop);
      TrimRightSkips(s, p[..|p| - 1], drop);
    }
  }

  /** A string whose ends drop keeps is its own strip, and so is the same
      string padded on either side with characters drop removes. */
  lemma StripPadded(p: string, s: string, q: string, drop: char -> bool)
    requires forall i :: 0 <= i < |p| ==> drop(p[i])
    requires forall i :: 0 <= i < |q| ==> drop(q[i])
    requires |s| > 0 ==> !drop(s[0]) && !drop(s[|s| - 1])
    ensures Strip(p + s + q, drop) == s
  {
    assert p + s + q == p + (s + q);
    TrimLeftSkips(p, s + q, drop);
    if s == [] {
      assert s + q == q + [];
      TrimLeftSkips(q, [], drop);
    } else {
      assert (s + q)[0] == s[0];
      assert TrimLeft(s + q, drop) == s + q;
      TrimRightSkips(s, q, drop);
    }
  }

  /** str.split(sep) for a one-character separator: the pieces between the
      occurrences of sep, empty pieces included. */
  function Split(s: string, sep: char): (parts: seq<string>)
    ensures |parts| >= 1
    decreases |s|
  {
    if s == [] then [[]]
    else
      var rest := Split(s[1..], sep);
      if s[0] == sep then [[]] + rest
      else [[s[0]] + rest[0]] + rest[1..]
  }

  /** No piece of a split contains the separator. */
  lemma {:induction false} SplitPieces(s: string, sep: char)
    ensures forall i :: 0 <= i < |Split(s, sep)| ==> sep !in Split(s, sep)[i]
    decreases |s|
  {
    if s != [] {
      SplitPieces(s[1..], sep);
    }
  }

  /** A string without the separator is a single piece. */
  lemma {:induction false} SplitWithout(a: string, sep: char)
    requires sep !in a
    ensures Split(a, sep) == [a]
    decreases |a|
  {
    if a != [] {
      assert sep !in a[1..] by {
        forall i | 0 <= i < |a[1..]| ensures a[1..][i] != sep {
          assert a[1..][i] == a[i + 1];
        }
      }
      SplitWithout(a[1..], sep);
      assert [a[0]] + a[1..] == a;
    }
  }

  /** The first occurrence of the separator ends the first piece. */
  lemma {:induction false} SplitAt(a: string, sep: char, b: string)
    requires sep !in a
    ensures Split(a + [sep] + b, sep) == [a] + Split(b, sep)
    decreases |a|
  {
    if a == [] {
      assert a + [sep] + b == [sep] + b;
      assert ([sep] + b)[1..] == b;
    } else {
      assert (a + [sep] + b)[0] == a[0] && (a + [sep] + b)[1..] == a[1..] + [sep] + b;
      assert sep !in a[1..] by {
        forall i | 0 <= i < |a[1..]| ensures a[1..][i] != sep {
          assert a[1..][i] == a[i + 1];
        }
      }
      SplitAt(a[1..], sep, b);
      assert [a[0]] + a[1..] == a;
    }
  }

  predicate IsDigit(ch: char)
  {
    '0' <= ch <= '9'
  }

  function DigitValue(ch: char): (d: nat)
    requires IsDigit(ch)
    ensures d < 10
  {
    (ch as int) - ('0' as int)
  }

  function DigitChar(d: nat): (ch: char)
    requires d < 10
    ensures IsDigit(ch) && DigitValue(ch) == d
  {
    (('0' as int) + d) as char
  }

  /** What int() accepts after the sign: decimal digits, where a single '_'
      may stand between two digits. */
  predicate DecimalLiteral(s: string)
  {
    && |s| > 0
    && forall i :: 0 <= i < |s| ==> LiteralCharAt(s, i)
  }

  predicate LiteralCharAt(s: string, i: int)
    requires 0 <= i < |s|
  {
    IsDigit(s[i]) || (s[i] == '_' && 0 < i < |s| - 1 && IsDigit(s[i - 1]) && IsDigit(s[i + 1]))
  }

  lemma DecimalLiteralChars(s: string)
    requires DecimalLiteral(s)
    ensures forall i :: 0 <= i < |s| ==> IsDigit(s[i]) || s[i] == '_'
  {
    forall i | 0 <= i < |s| ensures IsDigit(s[i]) || s[i] == '_' {
      assert LiteralCharAt(s, i);
    }
  }

  /** The number a run of digits and underscores denotes; underscores are ignored. */
  function DecimalValue(s: string): nat
    requires forall i :: 0 <= i < |s| ==> IsDigit(s[i]) || s[i] == '_'
    decreases |s|
  {
    if s == [] then 0
    else if s[|s| - 1] == '_' then DecimalValue(s[..|s| - 1])
    else DecimalValue(s[..|s| - 1]) * 10 + DigitValue(s[|s| - 1])
  }

  /** int(s) with base 10: surrounding whitespace is ignored, an optional sign
      is followed by a decimal literal; anything else is a ValueError (None). */
  function ParseInt(s: string): Option<int>
  {
    ParseSigned(Strip(s, IsIntSpace))
  }

  /** A unit separator before a number is removed by strip() but not by
      int(), which then rejects the text. */
  lemma IntKeepsSeparators()
    ensures Strip("\U{1F}5", IsSpace) == "5"
    ensures ParseInt("\U{1F}5") == None
  {
  }

  /** int() once the whitespace is gone: an optional sign and a decimal literal. */
  function ParseSigned(t: string): Option<int>
  {
    var body := if |t| > 0 && (t[0] == '-' || t[0] == '+') then t[1..] else t;
    if !DecimalLiteral(body) then None
    else
      DecimalLiteralChars(body);
      var n: int := DecimalValue(body);
      Some(if |t| > 0 && t[0] == '-' then -n else n)
  }

  /** str(n) for n >= 0: decimal digits, no leading zeros. */
  function NatToString(n: nat): (s: string)
    ensures |s| > 0
    decreases n
  {
    if n < 10 then [DigitChar(n)] else NatToString(n / 10) + [DigitChar(n % 10)]
  }

  /** str(n): a '-' in front of the digits of a negative number. */
  function IntToString(n: int): (s: string)
    ensures |s| > 0
  {
    if n < 0 then "-" + NatToString(-n) else NatToString(n)
  }

  /** str(n) for n >= 0 is a run of digits without a leading zero (unless it
      is "0"), and int() reads it back as n. */
  lemma {:induction false} DecimalValueOfNat(n: nat)
    ensures forall i :: 0 <= i < |NatToString(n)| ==> IsDigit(NatToString(n)[i])
    ensures n > 0 ==> NatToString(n)[0] != '0'
    ensures DecimalLiteral(NatToString(n))
    ensures DecimalValue(NatToString(n)) == n
    decreases n
  {
    var s := NatToString(n);
    if n >= 10 {
      DecimalValueOfNat(n / 10);
      assert s[..|s| - 1] == NatToString(n / 10);
    }
  }

  /** str(n): digits, with a '-' in front exactly when n is negative. */
  lemma IntToStringShape(n: int)
    ensures var s := IntToString(n);
      && IsDigit(s[|s| - 1])
      && (forall i :: 0 < i < |s| ==> IsDigit(s[i]))
      && (IsDigit(s[0]) <==> n >= 0)
      && (s[0] == '-' <==> n < 0)
  {
    var s := IntToString(n);
    if n < 0 {
      DecimalValueOfNat(-n);
      assert forall i :: 0 < i < |s| ==> s[i] == NatToString(-n)[i - 1];
    } else {
      DecimalValueOfNat(n);
    }
  }

  /** The first character of str(n) is a digit or '-', the last a digit:
      neither is whitespace. */
  lemma IntToStringEnds(n: int)
    ensures !IsSpace(IntToString(n)[0]) && !IsSpace(IntToString(n)[|IntToString(n)| - 1])
  {
    IntToStringShape(n);
  }

  /** int(str(n)) == n. */
  lemma ParseIntToString(n: int)
    ensures ParseInt(IntToString(n)) == Some(n)
  {
    var s := IntToString(n);
    assert Strip(s, IsIntSpace) == s by {
      IntToStringEnds(n);
      StripPadded([], s, [], IsIntSpace);
      assert [] + s + [] == s;
    }
    ParseSignedIntToString(n);
  }

  /** int(" " + str(n)) == n: the blank int() ignores. */
  lemma ParseBlankIntToString(n: int)
    ensures ParseInt(" " + IntToString(n)) == Some(n)
  {
    var s := IntToString(n);
    assert Strip(" " + s, IsIntSpace) == s by {
      IntToStringEnds(n);
      assert IsIntSpace(" "[0]);
      StripPadded(" ", s, [], IsIntSpace);
      assert " " + s + [] == " " + s;
    }
    ParseSignedIntToString(n);
  }

  lemma ParseSignedIntToString(n: int)
    ensures ParseSigned(IntToString(n)) == Some(n)
  {
    var s := IntToString(n);
    if n < 0 {
      DecimalValueOfNat(-n);
      assert s[1..] == NatToString(-n);
    } else {
      DecimalValueOfNat(n);
    }
  }
}
