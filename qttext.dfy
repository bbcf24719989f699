/**
 * The few QString operations the console's specifier parser relies on:
 * split with empty parts kept, character replacement, ASCII case mapping,
 * QString::number for integers and QString::toInt with its ok flag.
 */
module QtText {
  import opened Wrappers

  /** C++ `int` and `uint32_t`. */
  type int32 = x: int | -0x8000_0000 <= x < 0x8000_0000
  type uint32 = x: int | 0 <= x < 0x1_0000_0000

  /** The conversion C++ applies when a (signed) int is stored in a uint32_t. */
  function ToUint32(n: int32): (r: uint32)
    ensures 0 <= n ==> r == n
    ensures n < 0 ==> r == n + 0x1_0000_0000
  {
    n % 0x1_0000_0000
  }

  // ---------------------------------------------------------------------------
  // Splitting on a separator (QString::split, empty parts kept)

  /** The parts glued back together with one separator between neighbours. */
  function Join(parts: seq<string>, sep: char): string
  {
    if |parts| == 0 then ""
    else if |parts| == 1 then parts[0]
    else parts[0] + [sep] + Join(parts[1..], sep)
  }

  predicate SeparatorFree(parts: seq<string>, sep: char)
  {
    forall i :: 0 <= i < |parts| ==> sep !in parts[i]
  }

  /** Every maximal run between separators, in order, empty runs included. */
  function Split(s: string, sep: char): (parts: seq<string>)
    ensures |parts| >= 1
    ensures SeparatorFree(parts, sep)
    ensures Join(parts, sep) == s
  {
    if |s| == 0 then [""]
    else
      var rest := Split(s[1..], sep);
      if s[0] == sep then
        assert ([""] + rest)[1..] == rest;
        [""] + rest
      else
        var parts := [[s[0]] + rest[0]] + rest[1..];
        assert parts[1..] == rest[1..];
        assert |rest| > 1 ==> Join(rest, sep) == rest[0] + [sep] + Join(rest[1..], sep);
        assert Join(parts, sep) == [s[0]] + Join(rest, sep);
        parts
  }

  /** In a join of separator-free parts, the first part ends at the first separator. */
  lemma {:induction false} JoinFirstSeparator(parts: seq<string>, sep: char)
    requires |parts| >= 1 && SeparatorFree(parts, sep)
    ensures |parts| == 1 <==> sep !in Join(parts, sep)
    ensures |parts| > 1 ==> Join(parts, sep)[|parts[0]|] == sep
    ensures parts[0] <= Join(parts, sep)
  {
    if |parts| > 1 {
      var rest := Join(parts[1..], sep);
      assert Join(parts, sep) == parts[0] + [sep] + rest;
      assert Join(parts, sep)[|parts[0]|] == sep;
    }
  }

  /** Joining separator-free parts loses nothing: different part lists join differently. */
  lemma {:induction false} JoinInjective(a: seq<string>, b: seq<string>, sep: char)
    requires |a| >= 1 && |b| >= 1
    requires SeparatorFree(a, sep) && SeparatorFree(b, sep)
    requires Join(a, sep) == Join(b, sep)
    ensures a == b
  {
    JoinFirstSeparator(a, sep);
    JoinFirstSeparator(b, sep);
    var s := Join(a, sep);
    if |a| == 1 || |b| == 1 {
      assert |a| == 1 && |b| == 1;
    } else {
      assert |a[0]| == |b[0]|;
      assert a[0] == s[..|a[0]|] == b[0];
      assert s == a[0] + [sep] + Join(a[1..], sep);
      assert s == b[0] + [sep] + Join(b[1..], sep);
      assert Join(a[1..], sep) == s[|a[0]| + 1..] == Join(b[1..], sep);
      assert SeparatorFree(a[1..], sep) && SeparatorFree(b[1..], sep);
      JoinInjective(a[1..], b[1..], sep);
      assert a == [a[0]] + a[1..] && b == [b[0]] + b[1..];
    }
  }

  /** Splitting undoes joining: the two functions are inverse on separator-free parts. */
  lemma SplitJoin(parts: seq<string>, sep: char)
    requires |parts| >= 1 && SeparatorFree(parts, sep)
    ensures Split(Join(parts, sep), sep) == parts
  {
    var s := Join(parts, sep);
    JoinInjective(Split(s, sep), parts, sep);
  }

  // ---------------------------------------------------------------------------
  // Character replacement (QString::replace(QChar, QChar))

  function Replace(s: string, from: char, to: char): (r: string)
    ensures |r| == |s|
    ensures forall i :: 0 <= i < |s| ==> r[i] == (if s[i] == from then to else s[i])
    ensures from != to ==> from !in r
    ensures from !in s ==> r == s
  {
    seq(|s|, i requires 0 <= i < |s| => if s[i] == from then to else s[i])
  }

  // ---------------------------------------------------------------------------
  // Case mapping (QString::toLower restricted to ASCII letters)

  function LowerChar(c: char): char
  {
    if 'A' <= c <= 'Z' then (c as int + 32) as char else c
  }

  function UpperChar(c: char): char
  {
    if 'a' <= c <= 'z' then (c as int - 32) as char else c
  }

  function ToLower(s: string): (r: string)
    ensures |r| == |s|
    ensures forall i :: 0 <= i < |s| ==> r[i] == LowerChar(s[i])
  {
    seq(|s|, i requires 0 <= i < |s| => LowerChar(s[i]))
  }

  function ToUpper(s: string): (r: string)
    ensures |r| == |s|
    ensures forall i :: 0 <= i < |s| ==> r[i] == UpperChar(s[i])
  {
    seq(|s|, i requires 0 <= i < |s| => UpperChar(s[i]))
  }

  /** Lower-casing forgets the case a word was written in. */
  lemma LowerOfUpper(s: string)
    ensures ToLower(ToUpper(s)) == ToLower(s)
    ensures ToLower(ToLower(s)) == ToLower(s)
  {
  }

  // ---------------------------------------------------------------------------
  // Integers as decimal text (QString::number(int), QString::toInt(&ok))

  predicate IsDigit(c: char)
  {
    '0' <= c <= '9'
  }

  predicate AllDigits(s: string)
  {
    forall i :: 0 <= i < |s| ==> IsDigit(s[i])
  }

  /** QChar::isSpace on the ASCII and Latin-1 range. */
  predicate IsSpace(c: char)
  {
    c == ' ' || '\t' <= c <= '\r' || c == '\U{85}' || c == '\U{A0}'
  }

  function DigitChar(d: nat): char
    requires d < 10
  {
    ('0' as int + d) as char
  }

  /** The value of a string of decimal digits, most significant first. */
  function DigitsValue(ds: string): nat
    requires AllDigits(ds)
  {
    if |ds| == 0 then 0
    else 10 * DigitsValue(ds[..|ds| - 1]) + (ds[|ds| - 1] as int - '0' as int)
  }

  function NatToString(n: nat): string
  {
    if n < 10 then [DigitChar(n)]
    else NatToString(n / 10) + [DigitChar(n % 10)]
  }

  /** QString::number(n): an optional minus sign followed by the digits of |n|. */
  function IntToString(n: int): string
  {
    if n < 0 then "-" + NatToString(-n) else NatToString(n)
  }

  function TrimStart(s: string): (r: string)
    ensures |r| <= |s|
  {
    if |s| > 0 && IsSpace(s[0]) then TrimStart(s[1..]) else s
  }

  function TrimEnd(s: string): (r: string)
    ensures |r| <= |s|
  {
    if |s| > 0 && IsSpace(s[|s| - 1]) then TrimEnd(s[..|s| - 1]) else s
  }

  /**
   * QString::toInt(&ok) in base 10: surrounding white space is ignored, one
   * optional sign, at least one digit and nothing else, and the value must fit
   * in an int. None stands for ok == false.
   */
  function ParseInt(s: string): (r: Option<int32>)
  {
    ParseTrimmed(TrimEnd(TrimStart(s)))
  }

  /** The sign, digits and range check of ParseInt, on text with nothing left to trim. */
  function ParseTrimmed(t: string): (r: Option<int32>)
  {
    var negative := |t| > 0 && t[0] == '-';
    var digits := if |t| > 0 && (t[0] == '-' || t[0] == '+') then t[1..] else t;
    if |digits| == 0 || !AllDigits(digits) then None
    else
      var v := if negative then 0 - DigitsValue(digits) else DigitsValue(digits);
      if -0x8000_0000 <= v < 0x8000_0000 then Some(v) else None
  }

  /** QString::toInt() without the flag: 0 when the text is not an int. */
  function ToIntOrZero(s: string): int32
  {
    match ParseInt(s)
    case Some(n) => n
    case None => 0
  }

  lemma {:induction false} NatToStringDigits(n: nat)
    ensures |NatToString(n)| >= 1
    ensures AllDigits(NatToString(n))
    ensures DigitsValue(NatToString(n)) == n
  {
    var s := NatToString(n);
    if n >= 10 {
      NatToStringDigits(n / 10);
      assert s[..|s| - 1] == NatToString(n / 10);
    }
  }

  /** QString::number(n) holds only a minus sign and digits. */
  lemma NumeralLacks(n: int, c: char)
    requires c != '-' && !IsDigit(c)
    ensures c !in IntToString(n)
  {
    var m: nat := if n < 0 then 0 - n else n;
    NatToStringDigits(m);
    var ds := NatToString(m);
    assert forall i :: 0 <= i < |ds| ==> ds[i] != c;
  }

  /** Printing an int and reading it back gives the same int (QString::number then toInt). */
  lemma ParseIntRoundTrip(n: int32)
    ensures ParseInt(IntToString(n)) == Some(n)
  {
    var m: nat := if n < 0 then 0 - n as int else n;
    NatToStringDigits(m);
    var ds := NatToString(m);
    if n < 0 {
      ParseNegated(ds);
    } else {
      ParseDigits(ds);
    }
  }

  lemma ParseDigits(ds: string)
    requires |ds| > 0 && AllDigits(ds) && DigitsValue(ds) < 0x8000_0000
    ensures ParseInt(ds) == Some(DigitsValue(ds))
  {
    assert IsDigit(ds[0]);
    UntrimmedNumeral(ds);
    UnsignedDigits(ds);
  }

  lemma UnsignedDigits(ds: string)
    requires |ds| > 0 && AllDigits(ds) && DigitsValue(ds) < 0x8000_0000
    ensures ParseTrimmed(ds) == Some(DigitsValue(ds))
  {
    assert IsDigit(ds[0]);
  }

  lemma ParseNegated(ds: string)
    requires |ds| > 0 && AllDigits(ds) && DigitsValue(ds) <= 0x8000_0000
    ensures ParseInt("-" + ds) == Some(0 - DigitsValue(ds))
  {
    var s := "-" + ds;
    assert s[|s| - 1] == ds[|ds| - 1];
    UntrimmedNumeral(s);
    SignedDigits(ds);
  }

  lemma SignedDigits(ds: string)
    requires |ds| > 0 && AllDigits(ds) && DigitsValue(ds) <= 0x8000_0000
    ensures ParseTrimmed("-" + ds) == Some(0 - DigitsValue(ds))
  {
    var s := "-" + ds;
    assert s[0] == '-' && s[1..] == ds;
  }

  /** A numeral that starts with a sign or digit and ends with a digit has nothing to trim. */
  lemma UntrimmedNumeral(s: string)
    requires |s| > 0 && (s[0] == '-' || IsDigit(s[0])) && IsDigit(s[|s| - 1])
    ensures TrimEnd(TrimStart(s)) == s
  {
    assert !IsSpace(s[0]);
    assert TrimStart(s) == s;
    assert !IsSpace(s[|s| - 1]);
  }
}
