/** The two .NET string operations the package checker relies on: `String.Split(char)` and
    `Convert.ToInt32(string)` under the invariant culture. */
module Strings {
  import opened Wrappers

  /** The position of the first `c` in `s`, if there is one. */
  function IndexOf(s: string, c: char): (r: Option<nat>)
    ensures r.None? <==> c !in s
    ensures r.Some? ==> r.value < |s| && s[r.value] == c && c !in s[..r.value]
    decreases |s|
  {
    if |s| == 0 then None
    else if s[0] == c then Some(0)
    else
      match IndexOf(s[1..], c)
      case None => None
      case Some(i) =>
        assert s[..i + 1] == [s[0]] + s[1..][..i];
        Some(i + 1)
  }

  /** `parts` written out with `sep` between neighbours; no parts give the empty string. */
  function Join(parts: seq<string>, sep: char): (s: string)
    ensures |parts| == 1 ==> s == parts[0]
    decreases |parts|
  {
    if |parts| == 0 then ""
    else if |parts| == 1 then parts[0]
    else parts[0] + [sep] + Join(parts[1..], sep)
  }

  /** `String.Split(sep)` with no options: every piece between separators is kept, empty
      ones included, so the result is never empty and joining it back gives `s`. */
  function Split(s: string, sep: char): (parts: seq<string>)
    ensures |parts| >= 1
    ensures forall i :: 0 <= i < |parts| ==> sep !in parts[i]
    ensures Join(parts, sep) == s
    decreases |s|
  {
    match IndexOf(s, sep)
    case None => [s]
    case Some(i) =>
      var rest := Split(s[i + 1..], sep);
      var parts := [s[..i]] + rest;
      assert parts[1..] == rest;
      assert s == s[..i] + [sep] + s[i + 1..];
      parts
  }

  /** Splitting undoes joining, as long as no part holds the separator. */
  lemma {:induction false} SplitJoin(parts: seq<string>, sep: char)
    requires |parts| >= 1
    requires forall i :: 0 <= i < |parts| ==> sep !in parts[i]
    ensures Split(Join(parts, sep), sep) == parts
    decreases |parts|
  {
    if |parts| > 1 {
      var tail := parts[1..];
      SplitJoin(tail, sep);
      SplitAtFirst(parts[0], sep, Join(tail, sep));
      HeadAndTail(parts);
    }
  }

  /** A string without the separator is one part. */
  lemma SplitWithoutSeparator(s: string, sep: char)
    requires sep !in s
    ensures Split(s, sep) == [s]
  {
  }

  lemma HeadAndTail<T>(s: seq<T>)
    requires |s| >= 1
    ensures s == [s[0]] + s[1..]
  {
  }

  /** Splitting stops at the first separator and carries on after it. */
  lemma SplitAtFirst(a: string, sep: char, b: string)
    requires sep !in a
    ensures Split(a + [sep] + b, sep) == [a] + Split(b, sep)
  {
    var s := a + [sep] + b;
    assert s[|a|] == sep && s[..|a|] == a && s[|a| + 1..] == b;
    assert IndexOf(s, sep) == Some(|a|);
  }

  /** The characters `NumberStyles.AllowLeadingWhite` and `AllowTrailingWhite` skip:
      the space and U+0009 to U+000D. */
  predicate IsWhiteSpace(c: char) {
    c == ' ' || '\t' <= c <= '\r'
  }

  predicate IsDigit(c: char) {
    '0' <= c <= '9'
  }

  predicate IsSign(c: char) {
    c == '+' || c == '-'
  }

  predicate AllDigits(s: string) {
    forall i :: 0 <= i < |s| ==> IsDigit(s[i])
  }

  /** `s` without its leading white space. */
  function TrimStart(s: string): (t: string)
    ensures |t| <= |s| && t == s[|s| - |t|..]
    ensures forall j :: 0 <= j < |s| - |t| ==> IsWhiteSpace(s[j])
    ensures |t| == 0 || !IsWhiteSpace(t[0])
    decreases |s|
  {
    if |s| > 0 && IsWhiteSpace(s[0]) then TrimStart(s[1..]) else s
  }

  /** `s` without its trailing white space. */
  function TrimEnd(s: string): (t: string)
    ensures |t| <= |s| && t == s[..|t|]
    ensures forall j :: |t| <= j < |s| ==> IsWhiteSpace(s[j])
    ensures |t| == 0 || !IsWhiteSpace(t[|t| - 1])
    decreases |s|
  {
    if |s| > 0 && IsWhiteSpace(s[|s| - 1]) then TrimEnd(s[..|s| - 1]) else s
  }

  function Trim(s: string): string {
    TrimEnd(TrimStart(s))
  }

  /** What `NumberStyles.Integer` accepts once the white space is gone: an optional sign
      followed by one or more decimal digits. */
  predicate IsNumeral(t: string) {
    if |t| > 0 && IsSign(t[0]) then |t| > 1 && AllDigits(t[1..]) else |t| > 0 && AllDigits(t)
  }

  /** The number written by a string of decimal digits, most significant first. */
  function DigitsValue(s: string): nat
    requires AllDigits(s)
    decreases |s|
  {
    if |s| == 0 then 0 else DigitsValue(s[..|s| - 1]) * 10 + (s[|s| - 1] as int - '0' as int)
  }

  function NumeralValue(t: string): int
    requires IsNumeral(t)
  {
    if t[0] == '-' then 0 - DigitsValue(t[1..])
    else if t[0] == '+' then DigitsValue(t[1..])
    else DigitsValue(t)
  }

  const Int32Min: int := -0x8000_0000
  const Int32Max: int := 0x7fff_ffff

  /** The exceptions `Convert.ToInt32(string)` throws on a non-null argument. */
  datatype ConvertError = FormatError | OverflowError

  /** `Convert.ToInt32(s)`: white space around an optionally signed decimal numeral is
      ignored; anything else is a format error, and a numeral outside 32 bits overflows. */
  function ToInt32(s: string): (r: Result<int, ConvertError>)
    ensures r.Success? ==> Int32Min <= r.value <= Int32Max
  {
    ParseNumeral(Trim(s))
  }

  /** The number a string without surrounding white space stands for. */
  function ParseNumeral(t: string): (r: Result<int, ConvertError>)
    ensures r.Success? ==> Int32Min <= r.value <= Int32Max
  {
    if !IsNumeral(t) then Failure(FormatError)
    else if Int32Min <= NumeralValue(t) <= Int32Max then Success(NumeralValue(t))
    else Failure(OverflowError)
  }

  /** The shortest decimal digits of `n`. */
  function NatDigits(n: nat): (s: string)
    ensures |s| >= 1 && AllDigits(s)
    decreases n
  {
    (if n < 10 then "" else NatDigits(n / 10)) + [('0' as int + n % 10) as char]
  }

  /** `Int32.ToString()` under the invariant culture. */
  function FormatInt32(n: int): (s: string)
    ensures |s| >= 1
  {
    if n < 0 then "-" + NatDigits(-n) else NatDigits(n)
  }

  lemma {:induction false} NatDigitsValue(n: nat)
    ensures DigitsValue(NatDigits(n)) == n
    decreases n
  {
    var s := NatDigits(n);
    var front := if n < 10 then "" else NatDigits(n / 10);
    assert s[..|s| - 1] == front;
    if n >= 10 {
      NatDigitsValue(n / 10);
    }
  }

  /** `Convert.ToInt32` reads back every 32-bit number `ToString` writes. */
  lemma ToInt32FormatRoundTrip(n: int)
    requires Int32Min <= n <= Int32Max
    ensures ToInt32(FormatInt32(n)) == Success(n)
  {
    if n < 0 {
      NegativeRoundTrip(n);
    } else {
      var digits := NatDigits(n);
      NatDigitsValue(n);
      UnsignedDigits(digits);
      ToInt32OfNumeral(digits);
    }
  }

  lemma NegativeRoundTrip(n: int)
    requires Int32Min <= n < 0
    ensures ToInt32("-" + NatDigits(-n)) == Success(n)
  {
    var m: nat := -n;
    var digits := NatDigits(m);
    NatDigitsValue(m);
    assert DigitsValue(digits) == m;
    SignedDigits(digits);
    var t := "-" + digits;
    assert NumeralValue(t) == n;
    ToInt32OfNumeral(t);
    assert ToInt32(t) == Success(n);
  }

  lemma ToInt32OfNumeral(t: string)
    requires Trim(t) == t && IsNumeral(t) && Int32Min <= NumeralValue(t) <= Int32Max
    ensures ToInt32(t) == Success(NumeralValue(t))
  {
  }

  /** Digits alone are the numeral of their value. */
  lemma UnsignedDigits(digits: string)
    requires |digits| >= 1 && AllDigits(digits)
    ensures Trim(digits) == digits
    ensures IsNumeral(digits) && NumeralValue(digits) == DigitsValue(digits)
  {
    assert !IsSign(digits[0]);
    TrimNothing(digits);
  }

  /** A minus sign followed by digits is the numeral of the negated digits' value. */
  lemma SignedDigits(digits: string)
    requires |digits| >= 1 && AllDigits(digits)
    ensures Trim("-" + digits) == "-" + digits
    ensures IsNumeral("-" + digits) && NumeralValue("-" + digits) == 0 - DigitsValue(digits)
  {
    var s := "-" + digits;
    assert s[1..] == digits;
    TrimNothing(s);
  }

  /** A string that starts and ends with a sign or a digit has no white space to trim. */
  lemma TrimNothing(s: string)
    requires |s| >= 1 && (IsSign(s[0]) || IsDigit(s[0])) && IsDigit(s[|s| - 1])
    ensures Trim(s) == s
  {
    assert TrimStart(s) == s;
  }

  /** A character that is neither white space, a sign nor a digit makes the whole string a
      format error, wherever it stands. */
  lemma StrayCharacterIsFormatError(s: string, k: nat)
    requires k < |s|
    requires !IsWhiteSpace(s[k]) && !IsSign(s[k]) && !IsDigit(s[k])
    ensures ToInt32(s) == Failure(FormatError)
  {
    var p := TrimKeeps(s, k);
    NotNumeral(Trim(s), p);
  }

  /** Trimming keeps every character that is not white space. */
  lemma TrimKeeps(s: string, k: nat) returns (p: nat)
    requires k < |s| && !IsWhiteSpace(s[k])
    ensures p < |Trim(s)| && Trim(s)[p] == s[k]
  {
    var front := TrimStart(s);
    var start := |s| - |front|;
    assert start <= k;
    p := k - start;
    assert front[p] == s[k];
  }

  lemma NotNumeral(t: string, p: nat)
    requires p < |t| && !IsSign(t[p]) && !IsDigit(t[p])
    ensures !IsNumeral(t)
  {
    if |t| > 0 && IsSign(t[0]) {
      assert t[1..][p - 1] == t[p];
    }
  }

  /** Leading white space is ignored. */
  lemma LeadingWhiteSpaceIgnored(w: char, s: string)
    requires IsWhiteSpace(w)
    ensures ToInt32([w] + s) == ToInt32(s)
  {
    assert ([w] + s)[1..] == s;
  }

  /** Trailing white space is ignored. */
  lemma TrailingWhiteSpaceIgnored(s: string, w: char)
    requires IsWhiteSpace(w)
    ensures ToInt32(s + [w]) == ToInt32(s)
  {
    TrimStartAppendWhite(s, w);
    var front := TrimStart(s);
    if |front| > 0 {
      TrimEndDropsWhite(front, w);
    }
    assert Trim(s + [w]) == Trim(s);
  }

  lemma TrimEndDropsWhite(s: string, w: char)
    requires IsWhiteSpace(w)
    ensures TrimEnd(s + [w]) == TrimEnd(s)
  {
    assert (s + [w])[..|s|] == s;
  }

  lemma {:induction false} TrimStartAppendWhite(s: string, w: char)
    requires IsWhiteSpace(w)
    ensures TrimStart(s + [w]) == if |TrimStart(s)| == 0 then [] else TrimStart(s) + [w]
    decreases |s|
  {
    if |s| == 0 {
      assert TrimStart([w]) == TrimStart([]);
    } else {
      assert (s + [w])[0] == s[0] && (s + [w])[1..] == s[1..] + [w];
      if IsWhiteSpace(s[0]) {
        TrimStartAppendWhite(s[1..], w);
      }
    }
  }
}
