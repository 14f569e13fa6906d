/** String operations the service relies on from the Java library. */
module Text {
  import opened Wrappers

  /** Java string concatenation `prefix + s`, where a null `s` prints as "null". */
  function Concat(prefix: string, s: Option<string>): (r: string)
    ensures |r| >= |prefix| && r[..|prefix|] == prefix
    ensures s.Some? ==> r[|prefix|..] == s.value
    ensures s.None? ==> r[|prefix|..] == "null"
  {
    match s
    case None => prefix + "null"
    case Some(t) => prefix + t
  }

  /** `s` holds `sub` starting at position `i`. */
  predicate OccursAt(s: string, sub: string, i: nat) {
    i + |sub| <= |s| && s[i..i + |sub|] == sub
  }

  /** `String.contains`: `sub` occurs somewhere in `s`. */
  function Contains(s: string, sub: string): bool
    decreases |s|
  {
    (|sub| <= |s| && s[..|sub|] == sub) || (|s| > 0 && Contains(s[1..], sub))
  }

  /** An occurrence at a known position makes `Contains` true. */
  lemma {:induction false} ContainsAt(s: string, sub: string, i: nat)
    requires OccursAt(s, sub, i)
    ensures Contains(s, sub)
    decreases i
  {
    if i > 0 {
      assert s[1..][i - 1..i - 1 + |sub|] == s[i..i + |sub|];
      ContainsAt(s[1..], sub, i - 1);
    }
  }

  /** `Contains` only holds when there is an occurrence at some position. */
  lemma {:induction false} ContainsWitness(s: string, sub: string)
    requires Contains(s, sub)
    ensures exists i: nat :: OccursAt(s, sub, i)
    decreases |s|
  {
    if |sub| <= |s| && s[..|sub|] == sub {
      assert OccursAt(s, sub, 0);
    } else {
      ContainsWitness(s[1..], sub);
      var i: nat :| OccursAt(s[1..], sub, i);
      assert s[i + 1..i + 1 + |sub|] == s[1..][i..i + |sub|];
      assert OccursAt(s, sub, i + 1);
    }
  }

  function DigitChar(d: int): (c: char)
    requires 0 <= d < 10
    ensures '0' <= c <= '9'
  {
    ('0' as int + d) as char
  }

  /** `Integer.toString` on a non-negative value: decimal digits, most significant first. */
  function NatToDecimal(n: nat): (s: string)
    ensures |s| > 0
    ensures forall i :: 0 <= i < |s| ==> '0' <= s[i] <= '9'
  {
    if n < 10 then [DigitChar(n)] else NatToDecimal(n / 10) + [DigitChar(n % 10)]
  }

  /** `Integer.toString`: a minus sign before the digits of a negative value. */
  function IntToDecimal(n: int): string {
    if n < 0 then "-" + NatToDecimal(-n) else NatToDecimal(n)
  }

  /** The value of a string of decimal digits. */
  function DecimalValue(s: string): nat
    requires forall i :: 0 <= i < |s| ==> '0' <= s[i] <= '9'
  {
    if s == [] then 0
    else DecimalValue(s[..|s| - 1]) * 10 + (s[|s| - 1] as int - '0' as int)
  }

  /** Reading the digits back yields the number: distinct ids render distinctly. */
  lemma {:induction false} NatToDecimalRoundTrip(n: nat)
    ensures DecimalValue(NatToDecimal(n)) == n
  {
    if n >= 10 {
      var s := NatToDecimal(n);
      assert s[..|s| - 1] == NatToDecimal(n / 10);
      NatToDecimalRoundTrip(n / 10);
    }
  }

  /** The sign of a printed integer shows in its first character. */
  lemma MinusSignIffNegative(n: int)
    ensures |IntToDecimal(n)| > 0
    ensures IntToDecimal(n)[0] == '-' <==> n < 0
  {
  }

  /** Different integers print as different strings. */
  lemma IntToDecimalInjective(a: int, b: int)
    requires IntToDecimal(a) == IntToDecimal(b)
    ensures a == b
  {
    MinusSignIffNegative(a);
    MinusSignIffNegative(b);
    if a < 0 && b < 0 {
      assert IntToDecimal(a)[1..] == NatToDecimal(-a);
      assert IntToDecimal(b)[1..] == NatToDecimal(-b);
      NatToDecimalRoundTrip(-a);
      NatToDecimalRoundTrip(-b);
    } else if a >= 0 && b >= 0 {
      NatToDecimalRoundTrip(a);
      NatToDecimalRoundTrip(b);
    }
  }
}
