/** String helpers with the semantics of the JavaScript built-ins the
    backend relies on: whitespace trimming, ASCII lower-casing, decimal
    rendering and parsing, `split`, `parseInt` and validator's `isNumeric`. */
module Text {
  import opened Base

  /** ECMAScript WhiteSpace and LineTerminator code points: the set that
      both `String.prototype.trim` and `\s` in a regular expression use. */
  predicate IsJsSpace(c: char) {
    || c == '\t' || c == '\n' || c == '\U{000B}' || c == '\U{000C}' || c == '\r' || c == ' '
    || c == '\U{00A0}' || c == '\U{1680}' || ('\U{2000}' <= c <= '\U{200A}')
    || c == '\U{2028}' || c == '\U{2029}' || c == '\U{202F}' || c == '\U{205F}'
    || c == '\U{3000}' || c == '\U{FEFF}'
  }

  predicate AllSpace(s: string) {
    forall k :: 0 <= k < |s| ==> IsJsSpace(s[k])
  }

  /** Removes leading whitespace. */
  function TrimStart(s: string): (r: string)
    ensures |r| <= |s| && r == s[|s| - |r|..]
    ensures r == [] || !IsJsSpace(r[0])
    ensures AllSpace(s[..|s| - |r|])
  {
    if |s| > 0 && IsJsSpace(s[0]) then TrimStart(s[1..]) else s
  }

  /** Removes trailing whitespace. */
  function TrimEnd(s: string): (r: string)
    ensures |r| <= |s| && r == s[..|r|]
    ensures r == [] || !IsJsSpace(r[|r| - 1])
    ensures AllSpace(s[|r|..])
  {
    if |s| > 0 && IsJsSpace(s[|s| - 1]) then TrimEnd(s[..|s| - 1]) else s
  }

  /** `String.prototype.trim`: the longest slice of `s` that neither starts
      nor ends with whitespace, with only whitespace cut on either side. */
  function Trim(s: string): (r: string)
    ensures |r| <= |s|
    ensures IsTrimmed(r)
  {
    TrimEnd(TrimStart(s))
  }

  /** Neither starts nor ends with whitespace. */
  predicate IsTrimmed(s: string) {
    s == [] || (!IsJsSpace(s[0]) && !IsJsSpace(s[|s| - 1]))
  }

  /** The trimmed strings are exactly the ones `Trim` leaves alone. */
  lemma TrimmedIffFixpoint(s: string)
    ensures IsTrimmed(s) <==> Trim(s) == s
  {
    if IsTrimmed(s) && s != [] {
      assert TrimStart(s) == s;
      assert TrimEnd(s) == s;
    }
  }

  /** What `Trim` cuts is whitespace, on both sides, and nothing else. */
  lemma TrimIsSlice(s: string)
    ensures exists lead :: 0 <= lead <= |s| - |Trim(s)| && Trim(s) == s[lead..lead + |Trim(s)|]
                           && AllSpace(s[..lead]) && AllSpace(s[lead + |Trim(s)|..])
  {
    var a := TrimStart(s);
    var r := TrimEnd(a);
    var lead := TrimWitness(s, a, r);
    assert Trim(s) == r;
    assert 0 <= lead <= |s| - |r| && r == s[lead..lead + |r|];
  }

  /** Where the slice `r` that trimming keeps starts in `s`. */
  lemma TrimWitness(s: string, a: string, r: string) returns (lead: nat)
    requires |a| <= |s| && a == s[|s| - |a|..] && AllSpace(s[..|s| - |a|])
    requires |r| <= |a| && r == a[..|r|] && AllSpace(a[|r|..])
    ensures lead <= |s| - |r| && r == s[lead..lead + |r|]
    ensures AllSpace(s[..lead]) && AllSpace(s[lead + |r|..])
  {
    lead := |s| - |a|;
    assert s[lead + |r|..] == a[|r|..];
    assert r == s[lead..lead + |r|];
  }

  /** Trimming twice is trimming once. */
  lemma TrimIdempotent(s: string)
    ensures Trim(Trim(s)) == Trim(s)
  {
    var t := Trim(s);
    if t != [] {
      assert TrimStart(t) == t;
      assert TrimEnd(t) == t;
    }
  }

  predicate IsAsciiUpper(c: char) { 'A' <= c <= 'Z' }

  predicate IsAsciiLetter(c: char) { 'A' <= c <= 'Z' || 'a' <= c <= 'z' }

  function LowerChar(c: char): char {
    if IsAsciiUpper(c) then (c as int + 32) as char else c
  }

  /** Lower-cases the ASCII letters of `s` and keeps every other character. */
  function ToLower(s: string): (r: string)
    ensures |r| == |s|
    ensures forall i :: 0 <= i < |s| ==> !IsAsciiUpper(r[i])
    ensures forall i :: 0 <= i < |s| && !IsAsciiUpper(s[i]) ==> r[i] == s[i]
  {
    if s == [] then [] else [LowerChar(s[0])] + ToLower(s[1..])
  }

  /** Lower-casing a string twice is lower-casing it once. */
  lemma {:induction false} ToLowerIdempotent(s: string)
    ensures ToLower(ToLower(s)) == ToLower(s)
  {
    var t := ToLower(s);
    assert forall i :: 0 <= i < |t| ==> !IsAsciiUpper(t[i]);
    ToLowerFixesLowered(t);
  }

  lemma {:induction false} ToLowerFixesLowered(t: string)
    requires forall i :: 0 <= i < |t| ==> !IsAsciiUpper(t[i])
    ensures ToLower(t) == t
  {
    var r := ToLower(t);
    assert forall i :: 0 <= i < |t| ==> r[i] == t[i];
  }

  // ---------------------------------------------------------------------
  // Decimal digits

  predicate IsDigit(c: char) { '0' <= c <= '9' }

  predicate AllDigits(s: string) {
    forall i :: 0 <= i < |s| ==> IsDigit(s[i])
  }

  function DigitChar(d: nat): (c: char)
    requires d < 10
    ensures IsDigit(c)
  {
    ('0' as int + d) as char
  }

  function DigitValue(c: char): (d: nat)
    requires IsDigit(c)
    ensures d < 10 && DigitChar(d) == c
  {
    c as int - '0' as int
  }

  function Pow10(k: nat): (p: nat)
    ensures p >= 1
  {
    if k == 0 then 1 else 10 * Pow10(k - 1)
  }

  /** The numeric value of a string of decimal digits, most significant first. */
  function DecimalValue(s: string): (v: nat)
    requires AllDigits(s)
    ensures v < Pow10(|s|)
  {
    if s == [] then 0 else 10 * DecimalValue(s[..|s| - 1]) + DigitValue(s[|s| - 1])
  }

  /** `Number.prototype.toString()` of a non-negative integer: its decimal
      rendering, without leading zeros, that reads back as the same number. */
  function Decimal(n: nat): (s: string)
    ensures |s| >= 1 && AllDigits(s)
    ensures n > 0 ==> s[0] != '0'
    ensures DecimalValue(s) == n
    decreases n
  {
    if n < 10 then [DigitChar(n)]
    else
      var p := Decimal(n / 10);
      var s := p + [DigitChar(n % 10)];
      assert s[..|s| - 1] == p;
      s
  }

  /** A number with exactly `k` decimal digits renders to `k` characters. */
  lemma {:induction false} DecimalLength(n: nat, k: nat)
    requires k >= 1 && Pow10(k - 1) <= n < Pow10(k)
    ensures |Decimal(n)| == k
    decreases k
  {
    if n >= 10 {
      assert k >= 2;
      DecimalLength(n / 10, k - 1);
    }
  }

  /** A digit string without a leading zero is bounded below by its length. */
  lemma {:induction false} DecimalValueLowerBound(s: string)
    requires |s| >= 1 && AllDigits(s) && s[0] != '0'
    ensures DecimalValue(s) >= Pow10(|s| - 1)
    decreases |s|
  {
    if |s| > 1 {
      var p := s[..|s| - 1];
      assert p[0] == s[0];
      DecimalValueLowerBound(p);
    } else {
      assert DecimalValue(s) == DigitValue(s[0]);
      assert DigitChar(0) == '0';
    }
  }

  /** Rendering a digit string's value gives the string back, provided it
      has no leading zero (or is the single digit "0"). */
  lemma {:induction false} DecimalOfValue(s: string)
    requires |s| >= 1 && AllDigits(s) && (s[0] != '0' || |s| == 1)
    ensures Decimal(DecimalValue(s)) == s
    decreases |s|
  {
    if |s| > 1 {
      var p := s[..|s| - 1];
      assert p[0] == s[0];
      DecimalValueLowerBound(p);
      DecimalOfValue(p);
      var v := DecimalValue(s);
      assert v / 10 == DecimalValue(p);
      assert v % 10 == DigitValue(s[|s| - 1]);
      assert s == p + [s[|s| - 1]];
    }
  }

  // ---------------------------------------------------------------------
  // Splitting on a separator

  /** Position of the first occurrence of `c` in `s`. */
  function IndexOf(s: string, c: char): (r: Option<nat>)
    ensures r.None? ==> c !in s
    ensures r.Some? ==> r.value < |s| && s[r.value] == c && c !in s[..r.value]
  {
    if s == [] then None
    else if s[0] == c then Some(0)
    else match IndexOf(s[1..], c)
      case None => None
      case Some(i) =>
        assert s[..i + 1] == [s[0]] + s[1..][..i];
        Some(i + 1)
  }

  lemma IndexOfJoin(a: string, c: char, b: string)
    requires c !in a
    ensures IndexOf(a + [c] + b, c) == Some(|a|)
  {
    var s := a + [c] + b;
    assert s[|a|] == c;
    assert s[..|a|] == a;
    assert forall i :: 0 <= i < |a| ==> s[i] == a[i];
  }

  /** `String.prototype.split` with a one-character separator. */
  function Split(s: string, sep: char): (parts: seq<string>)
    ensures |parts| >= 1
    ensures forall k :: 0 <= k < |parts| ==> sep !in parts[k]
    decreases |s|
  {
    match IndexOf(s, sep)
    case None => [s]
    case Some(i) => [s[..i]] + Split(s[i + 1..], sep)
  }

  /** `Array.prototype.join` with a one-character separator. */
  function Join(parts: seq<string>, sep: char): string
    requires |parts| >= 1
  {
    if |parts| == 1 then parts[0] else parts[0] + [sep] + Join(parts[1..], sep)
  }

  /** Splitting and re-joining gives back the original string. */
  lemma {:induction false} JoinSplit(s: string, sep: char)
    ensures Join(Split(s, sep), sep) == s
    decreases |s|
  {
    match IndexOf(s, sep)
    case None =>
    case Some(i) =>
      var rest := Split(s[i + 1..], sep);
      assert Split(s, sep) == [s[..i]] + rest;
      assert Split(s, sep)[1..] == rest;
      JoinSplit(s[i + 1..], sep);
      assert s == s[..i] + [sep] + s[i + 1..];
  }

  /** Joining separator-free parts and splitting again gives back the parts. */
  lemma {:induction false} SplitJoin(parts: seq<string>, sep: char)
    requires |parts| >= 1
    requires forall k :: 0 <= k < |parts| ==> sep !in parts[k]
    ensures Split(Join(parts, sep), sep) == parts
    decreases |parts|
  {
    if |parts| == 1 {
      assert IndexOf(parts[0], sep).None?;
    } else {
      var rest := Join(parts[1..], sep);
      IndexOfJoin(parts[0], sep, rest);
      var s := parts[0] + [sep] + rest;
      assert s[..|parts[0]|] == parts[0];
      assert s[|parts[0]| + 1..] == rest;
      SplitJoin(parts[1..], sep);
      assert parts == [parts[0]] + parts[1..];
    }
  }

  /** Every character of `s` other than the separator lands in a part. */
  lemma {:induction false} SplitCovers(s: string, sep: char, i: nat)
    requires i < |s| && s[i] != sep
    ensures exists k :: 0 <= k < |Split(s, sep)| && s[i] in Split(s, sep)[k]
    decreases |s|
  {
    match IndexOf(s, sep)
    case None =>
      assert s[i] in Split(s, sep)[0];
    case Some(j) =>
      var parts := Split(s, sep);
      if i < j {
        assert s[..j][i] == s[i];
        assert s[i] in parts[0];
      } else {
        assert i != j;
        var rest := s[j + 1..];
        assert rest[i - j - 1] == s[i];
        SplitCovers(rest, sep, i - j - 1);
        var k :| 0 <= k < |Split(rest, sep)| && s[i] in Split(rest, sep)[k];
        assert parts[k + 1] == Split(rest, sep)[k];
      }
  }

  /** `s.split(' ')[1]`: the second space-separated field, if there is one. */
  function SecondField(s: string): (r: Option<string>)
    ensures r.Some? ==> ' ' !in r.value
    ensures r.Some? <==> ' ' in s
  {
    var parts := Split(s, ' ');
    if |parts| >= 2 then Some(parts[1]) else None
  }

  // ---------------------------------------------------------------------
  // validator.js isNumeric and JavaScript parseInt

  /** validator's `isNumeric` with its default options: the pattern
      `^[+-]?([0-9]*[.])?[0-9]+$`. */
  predicate IsNumeric(s: string) {
    var t := if |s| > 0 && (s[0] == '+' || s[0] == '-') then s[1..] else s;
    match IndexOf(t, '.')
    case None => |t| > 0 && AllDigits(t)
    case Some(i) => AllDigits(t[..i]) && i + 1 < |t| && AllDigits(t[i + 1..])
  }

  /** A non-empty string of decimal digits is numeric. */
  lemma DigitsAreNumeric(s: string)
    requires |s| >= 1 && AllDigits(s)
    ensures IsNumeric(s)
  {
    assert forall i :: 0 <= i < |s| ==> s[i] != '.';
  }

  function RadixDigit(c: char, radix: nat): (d: Option<nat>)
    requires radix == 10 || radix == 16
    ensures d.Some? ==> d.value < radix
  {
    if IsDigit(c) then Some(DigitValue(c))
    else if radix == 16 && 'a' <= c <= 'f' then Some(c as int - 'a' as int + 10)
    else if radix == 16 && 'A' <= c <= 'F' then Some(c as int - 'A' as int + 10)
    else None
  }

  /** The longest prefix of `s` made of digits of the radix. */
  function RadixPrefix(s: string, radix: nat): (p: string)
    requires radix == 10 || radix == 16
    ensures |p| <= |s| && p == s[..|p|]
    ensures forall i :: 0 <= i < |p| ==> RadixDigit(p[i], radix).Some?
    ensures |p| < |s| ==> RadixDigit(s[|p|], radix).None?
  {
    if s != [] && RadixDigit(s[0], radix).Some? then [s[0]] + RadixPrefix(s[1..], radix) else []
  }

  function RadixValue(s: string, radix: nat): nat
    requires radix == 10 || radix == 16
    requires forall i :: 0 <= i < |s| ==> RadixDigit(s[i], radix).Some?
  {
    if s == [] then 0
    else radix * RadixValue(s[..|s| - 1], radix) + RadixDigit(s[|s| - 1], radix).value
  }

  /** JavaScript `parseInt(s)` without a radix: skips leading whitespace,
      reads an optional sign and an optional `0x` prefix (which switches to
      base 16), then the longest run of digits. `None` stands for `NaN`:
      nothing but whitespace, or a first visible character that is neither
      a sign nor a digit. Only a leading minus gives a negative number. */
  function ParseInt(s: string): (r: Option<int>)
    ensures TrimStart(s) == [] ==> r.None?
    ensures TrimStart(s) != [] && TrimStart(s)[0] != '+' && TrimStart(s)[0] != '-' && !IsDigit(TrimStart(s)[0])
            ==> r.None?
    ensures r.Some? && r.value < 0 ==> TrimStart(s)[0] == '-'
  {
    var t := TrimStart(s);
    var negative := |t| > 0 && t[0] == '-';
    var u := if |t| > 0 && (t[0] == '+' || t[0] == '-') then t[1..] else t;
    var hex := |u| >= 2 && u[0] == '0' && (u[1] == 'x' || u[1] == 'X');
    var radix := if hex then 16 else 10;
    var digits := RadixPrefix(if hex then u[2..] else u, radix);
    if digits == [] then None
    else
      var m: int := RadixValue(digits, radix);
      var v: int := if negative then -m else m;
      Some(v)
  }

  lemma {:induction false} RadixValueDecimal(s: string)
    requires AllDigits(s)
    ensures forall i :: 0 <= i < |s| ==> RadixDigit(s[i], 10).Some?
    ensures RadixValue(s, 10) == DecimalValue(s)
    decreases |s|
  {
    if s != [] {
      RadixValueDecimal(s[..|s| - 1]);
    }
  }

  /** `parseInt` reads back every rendered non-negative integer. */
  lemma ParseIntDecimal(n: nat)
    ensures ParseInt(Decimal(n)) == Some(n)
  {
    ParseIntDigits(Decimal(n));
  }

  /** A digit string without a leading zero (or a lone digit) reads as
      its decimal value. */
  lemma ParseIntDigits(s: string)
    requires s != [] && AllDigits(s) && (|s| == 1 || s[0] != '0')
    ensures ParseInt(s) == Some(DecimalValue(s))
  {
    assert !IsJsSpace(s[0]);
    assert TrimStart(s) == s;
    RadixValueDecimal(s);
    RadixPrefixWhole(s, 10);
  }

  /** A minus sign in front of such a digit string negates its value. */
  lemma ParseIntNegative(s: string)
    requires s != [] && AllDigits(s) && (|s| == 1 || s[0] != '0')
    ensures ParseInt("-" + s) == Some(-(DecimalValue(s) as int))
  {
    var t := "-" + s;
    assert !IsJsSpace(t[0]);
    assert TrimStart(t) == t;
    assert t[1..] == s;
    RadixValueDecimal(s);
    RadixPrefixWhole(s, 10);
  }

  lemma {:induction false} RadixPrefixWhole(s: string, radix: nat)
    requires radix == 10 || radix == 16
    requires forall i :: 0 <= i < |s| ==> RadixDigit(s[i], radix).Some?
    ensures RadixPrefix(s, radix) == s
    decreases |s|
  {
    if s != [] {
      RadixPrefixWhole(s[1..], radix);
    }
  }
}
