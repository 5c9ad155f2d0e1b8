/**
  The slice of JavaScript's runtime semantics that the catalog pages rely on:
  truthiness, `String.prototype.trim`, `toLowerCase` (ASCII letters only),
  `includes`, `startsWith`, `Number(s)`, `Number.parseInt(s)` and `String(n)`
  for integers.
*/
module Js {

  datatype Option<T> = None | Some(value: T)

  /** A JavaScript number as far as these pages produce one: an integer or NaN. */
  datatype Number = Finite(n: int) | NaN

  /** A dynamically typed field value, as a document field or a form buffer holds it. */
  datatype Value = Undefined | Null | Str(s: string) | Num(x: Number)

  /** JavaScript truthiness, as used by `if (v)`, `v || d` and `v ? a : b`. */
  predicate Truthy(v: Value) {
    match v
    case Undefined => false
    case Null => false
    case Str(s) => s != ""
    case Num(x) => x.Finite? && x.n != 0
  }

  /** `Number(v)` */
  function NumberOf(v: Value): Number {
    match v
    case Undefined => NaN
    case Null => Finite(0)
    case Str(s) => ToNumber(s)
    case Num(x) => x
  }

  // ---------------------------------------------------------------------------
  // Whitespace and trim

  /** The WhiteSpace and LineTerminator code points that `trim` removes. */
  predicate IsWhitespace(c: char) {
    || c == ' ' || c == '\t' || c == '\n' || c == '\U{B}' || c == '\U{C}' || c == '\r'
    || c == '\U{A0}' || c == '\U{1680}' || ('\U{2000}' <= c <= '\U{200A}')
    || c == '\U{2028}' || c == '\U{2029}' || c == '\U{202F}' || c == '\U{205F}'
    || c == '\U{3000}' || c == '\U{FEFF}'
  }

  /** `String.prototype.trimStart` */
  function TrimStart(s: string): (r: string)
    ensures |r| <= |s| && r == s[|s| - |r|..]
    ensures forall i :: 0 <= i < |s| - |r| ==> IsWhitespace(s[i])
    ensures r == [] || !IsWhitespace(r[0])
  {
    if s != [] && IsWhitespace(s[0]) then TrimStart(s[1..]) else s
  }

  /** `String.prototype.trimEnd` */
  function TrimEnd(s: string): (r: string)
    ensures |r| <= |s| && r == s[..|r|]
    ensures forall i :: |r| <= i < |s| ==> IsWhitespace(s[i])
    ensures r == [] || !IsWhitespace(r[|r| - 1])
  {
    if s != [] && IsWhitespace(s[|s| - 1]) then TrimEnd(s[..|s| - 1]) else s
  }

  /** Every character of `s` is whitespace. */
  predicate Blank(s: string) {
    forall i :: 0 <= i < |s| ==> IsWhitespace(s[i])
  }

  /** `String.prototype.trim`: a piece of `s` that starts and ends with non-whitespace. */
  function Trim(s: string): (r: string)
    ensures |r| <= |s|
    ensures r == "" || (!IsWhitespace(r[0]) && !IsWhitespace(r[|r| - 1]))
  {
    TrimEnd(TrimStart(s))
  }

  /** `trim` gives the empty string exactly when every character is whitespace. */
  lemma TrimEmptyIffBlank(s: string)
    ensures Trim(s) == "" <==> Blank(s)
  {
    var t := TrimStart(s);
    var r := TrimEnd(t);
    var start := |s| - |t|;
    if r == "" {
      assert t == "";
    } else {
      assert r[0] == t[0] == s[start];
    }
  }

  /** A string without whitespace at either end is its own trim. */
  lemma TrimUnchanged(s: string)
    requires s == "" || (!IsWhitespace(s[0]) && !IsWhitespace(s[|s| - 1]))
    ensures Trim(s) == s
  {
  }

  /** Trimming twice is trimming once. */
  lemma TrimIdempotent(s: string)
    ensures Trim(Trim(s)) == Trim(s)
  {
    TrimUnchanged(Trim(s));
  }

  // ---------------------------------------------------------------------------
  // Lower case, includes, startsWith

  function LowerChar(c: char): char {
    if 'A' <= c <= 'Z' then (c as int + 32) as char else c
  }

  /** `String.prototype.toLowerCase`, for the ASCII letters. */
  function ToLower(s: string): (r: string)
    ensures |r| == |s|
    ensures forall i :: 0 <= i < |r| ==> !('A' <= r[i] <= 'Z')
    ensures forall i :: 0 <= i < |s| && !('A' <= s[i] <= 'Z') ==> r[i] == s[i]
    ensures forall i :: 0 <= i < |s| && 'A' <= s[i] <= 'Z' ==> r[i] as int == s[i] as int + 32
  {
    seq(|s|, i requires 0 <= i < |s| => LowerChar(s[i]))
  }

  /** Lower-casing a lower-cased text changes nothing. */
  lemma ToLowerIdempotent(s: string)
    ensures ToLower(ToLower(s)) == ToLower(s)
  {
    var t := ToLower(s);
    assert forall i :: 0 <= i < |t| ==> ToLower(t)[i] == t[i];
  }

  /** `String.prototype.startsWith` */
  predicate StartsWith(s: string, prefix: string) {
    |prefix| <= |s| && s[..|prefix|] == prefix
  }

  /** `String.prototype.includes` */
  predicate Includes(s: string, part: string): (b: bool)
    ensures part == "" ==> b
    ensures b ==> |part| <= |s|
    decreases |s|
  {
    StartsWith(s, part) || (s != [] && Includes(s[1..], part))
  }

  /** A part holding a character that `s` lacks is not included in `s`. */
  lemma {:induction false} NotIncludedWithout(s: string, part: string, j: nat)
    requires j < |part| && part[j] !in s
    ensures !Includes(s, part)
    decreases |s|
  {
    if s != [] {
      assert forall c :: c in s[1..] ==> c in s;
      NotIncludedWithout(s[1..], part, j);
    }
  }

  /** `part` occurs in `s` starting at offset `k`. */
  predicate OccursAt(s: string, part: string, k: int) {
    0 <= k <= |s| - |part| && s[k..k + |part|] == part
  }

  /** `includes` holds exactly when the part occurs at some offset. */
  lemma {:induction false} IncludesIffOccurs(s: string, part: string)
    ensures Includes(s, part) <==> exists k :: OccursAt(s, part, k)
    decreases |s|
  {
    if StartsWith(s, part) {
      assert OccursAt(s, part, 0);
    } else if s != [] {
      IncludesIffOccurs(s[1..], part);
      if Includes(s[1..], part) {
        var k :| OccursAt(s[1..], part, k);
        assert s[k + 1..k + 1 + |part|] == s[1..][k..k + |part|];
        assert OccursAt(s, part, k + 1);
      }
      if exists k :: OccursAt(s, part, k) {
        var k :| OccursAt(s, part, k);
        assert k != 0;
        assert s[1..][k - 1..k - 1 + |part|] == s[k..k + |part|];
        assert OccursAt(s[1..], part, k - 1);
      }
    }
  }

  /** Every string includes the empty string. */
  lemma IncludesEmpty(s: string)
    ensures Includes(s, "")
  {
  }

  // ---------------------------------------------------------------------------
  // Decimal digits, `String(n)`, `Number(s)` and `Number.parseInt(s)`

  predicate IsDigit(c: char) {
    '0' <= c <= '9'
  }

  /** `/^\d+$/` */
  predicate IsDigits(s: string) {
    |s| > 0 && forall i :: 0 <= i < |s| ==> IsDigit(s[i])
  }

  predicate AllDigits(s: string) {
    forall i :: 0 <= i < |s| ==> IsDigit(s[i])
  }

  /** The value of a run of decimal digits. */
  function DigitsValue(s: string): nat
    requires AllDigits(s)
  {
    if s == [] then 0 else 10 * DigitsValue(s[..|s| - 1]) + (s[|s| - 1] as int - '0' as int)
  }

  function DigitChar(d: nat): (c: char)
    requires d < 10
    ensures IsDigit(c) && c as int - '0' as int == d
  {
    ('0' as int + d) as char
  }

  /** The decimal digits of a natural number, without leading zeros. */
  function NatToDigits(n: nat): (r: string)
    ensures IsDigits(r)
    ensures |r| > 1 ==> r[0] != '0'
  {
    if n < 10 then [DigitChar(n)] else NatToDigits(n / 10) + [DigitChar(n % 10)]
  }

  /** `String(n)` for an integer `n`. */
  function IntToString(n: int): (r: string)
    ensures r != ""
  {
    if n < 0 then "-" + NatToDigits(-n) else NatToDigits(n)
  }

  lemma {:induction false} DigitsRoundTrip(n: nat)
    ensures DigitsValue(NatToDigits(n)) == n
  {
    if n >= 10 {
      DigitsRoundTrip(n / 10);
      var s := NatToDigits(n);
      assert s[..|s| - 1] == NatToDigits(n / 10);
    }
  }

  /** `Number(s)`: surrounding whitespace ignored, the empty string is 0,
      an optionally signed run of decimal digits is its value, anything else NaN. */
  function ToNumber(s: string): (r: Number)
    ensures Blank(s) ==> r == Finite(0)
    ensures IsDigits(s) ==> r == Finite(DigitsValue(s))
  {
    TrimEmptyIffBlank(s);
    DigitsHaveNoWhitespace(s);
    var t := Trim(s);
    if t == "" then Finite(0)
    else if IsDigits(t) then Finite(DigitsValue(t))
    else if (t[0] == '-' || t[0] == '+') && IsDigits(t[1..]) then
      Finite(if t[0] == '-' then -(DigitsValue(t[1..]) as int) else DigitsValue(t[1..]))
    else NaN
  }

  /** The longest run of decimal digits at the start of `s`. */
  function LeadingDigits(s: string): (r: string)
    ensures |r| <= |s| && r == s[..|r|]
    ensures AllDigits(r)
    ensures |r| < |s| ==> !IsDigit(s[|r|])
  {
    if s != [] && IsDigit(s[0]) then [s[0]] + LeadingDigits(s[1..]) else []
  }

  /** `Number.parseInt(s)` with the default radix on a decimal string:
      leading whitespace skipped, an optional sign, then the leading digits;
      whatever follows them is ignored, and no digits at all is NaN. */
  function ParseInt(s: string): (r: Number)
    ensures Blank(s) ==> r == NaN
    ensures IsDigits(s) ==> r == Finite(DigitsValue(s))
  {
    DigitsHaveNoWhitespace(s);
    var t := TrimStart(s);
    var negative := t != [] && t[0] == '-';
    var body := if t != [] && (t[0] == '-' || t[0] == '+') then t[1..] else t;
    var d := LeadingDigits(body);
    if d == [] then NaN else Finite(if negative then -(DigitsValue(d) as int) else DigitsValue(d))
  }

  /** `Number(String(n)) === n` for every integer `n`. */
  lemma NumberOfIntToString(n: int)
    ensures ToNumber(IntToString(n)) == Finite(n)
  {
    var s := IntToString(n);
    TrimUnchanged(s);
    DigitsRoundTrip(if n < 0 then -n else n);
    if n < 0 {
      assert s[1..] == NatToDigits(-n);
    }
  }

  /** A run made only of digits is its own leading digits. */
  lemma LeadingDigitsOfDigits(s: string)
    requires AllDigits(s)
    ensures LeadingDigits(s) == s
  {
  }

  /** A string starting with a digit or a sign has no leading whitespace to skip. */
  lemma TrimStartUnchanged(s: string)
    requires s != [] && !IsWhitespace(s[0])
    ensures TrimStart(s) == s
  {
  }

  /** Trimming leaves a run of digits as it is. */
  lemma DigitsHaveNoWhitespace(s: string)
    ensures IsDigits(s) ==> Trim(s) == s && TrimStart(s) == s && LeadingDigits(s) == s
  {
    if IsDigits(s) {
      TrimUnchanged(s);
      TrimStartUnchanged(s);
      LeadingDigitsOfDigits(s);
    }
  }

  /** `Number.parseInt(String(n)) === n` for every integer `n`. */
  lemma ParseIntOfIntToString(n: int)
    ensures ParseInt(IntToString(n)) == Finite(n)
  {
    var m: nat := if n < 0 then -n else n;
    var d := NatToDigits(m);
    DigitsRoundTrip(m);
    LeadingDigitsOfDigits(d);
    var s := IntToString(n);
    TrimStartUnchanged(s);
    var body := if s[0] == '-' || s[0] == '+' then s[1..] else s;
    assert body == d by {
      if n < 0 { assert s == "-" + d; } else { assert s == d && IsDigit(s[0]); }
    }
  }
}
