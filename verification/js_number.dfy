/**
 * Integer <-> text conversions the parser uses: the decimal rendering of a
 * counter inside a template literal (`item-${n}`) and the global `parseInt`
 * called with no radix (ECMAScript section 19.2.5). Numbers are unbounded
 * integers here; the binary64 rounding of very long digit strings is not
 * modelled.
 */
module JsNumber {
  import opened Wrappers
  import opened JsString

  function DigitChar(d: nat): (c: char)
    requires d < 10
    ensures '0' <= c <= '9'
  {
    ('0' as int + d) as char
  }

  /** The decimal rendering of `n`, most significant digit first, no leading zeros. */
  function Decimal(n: nat): (s: string)
    ensures |s| > 0
    ensures forall i | 0 <= i < |s| :: '0' <= s[i] <= '9'
    ensures s[0] == '0' ==> n == 0 && |s| == 1
  {
    if n < 10 then [DigitChar(n)] else Decimal(n / 10) + [DigitChar(n % 10)]
  }

  /** The value of `c` as a digit of `radix` (10 or 16), if it is one. */
  function DigitValue(c: char, radix: nat): (r: Option<nat>)
    ensures r.Some? ==> r.value < radix
  {
    if '0' <= c <= '9' && (c as int - '0' as int) < radix then Some(c as int - '0' as int)
    else if radix == 16 && 'a' <= c <= 'f' then Some(c as int - 'a' as int + 10)
    else if radix == 16 && 'A' <= c <= 'F' then Some(c as int - 'A' as int + 10)
    else None
  }

  predicate AllDigits(s: string, radix: nat) {
    forall i | 0 <= i < |s| :: DigitValue(s[i], radix).Some?
  }

  /** The longest prefix of `s` made of `radix` digits. */
  function DigitPrefix(s: string, radix: nat): (z: string)
    ensures |z| <= |s| && z == s[..|z|]
    ensures AllDigits(z, radix)
    ensures |z| < |s| ==> DigitValue(s[|z|], radix).None?
  {
    if s != [] && DigitValue(s[0], radix).Some? then [s[0]] + DigitPrefix(s[1..], radix) else []
  }

  /** The number a string of `radix` digits denotes. */
  function ValueOf(z: string, radix: nat): nat
    requires AllDigits(z, radix)
  {
    if z == [] then 0
    else ValueOf(z[..|z| - 1], radix) * radix + DigitValue(z[|z| - 1], radix).value
  }

  /**
   * `parseInt(s)`: skip leading white space, take an optional sign, switch
   * to radix 16 after a `0x`/`0X` prefix, then read the longest run of
   * digits. `None` stands for `NaN`, returned when that run is empty; so a
   * number comes only from a string with a digit in it.
   */
  function ParseInt(s: string): (r: Option<int>)
    ensures r.Some? ==> exists i | 0 <= i < |s| :: '0' <= s[i] <= '9'
    ensures r.Some? && r.value < 0 ==> TrimStart(s) != [] && TrimStart(s)[0] == '-'
  {
    var t := TrimStart(s);
    var u := StripSign(t);
    if u != [] && '0' <= u[0] <= '9' then
      SignedSuffix(s, t, u);
      assert '0' <= s[|s| - |u|] <= '9';
      ParseSigned(t)
    else
      NoLeadingDigit(u);
      ParseSigned(t)
  }

  /** `parseInt` after the leading white space is gone. */
  function ParseSigned(t: string): Option<int> {
    match ParseUnsigned(StripSign(t))
    case None => None
    case Some(v) => Some(if t != [] && t[0] == '-' then 0 - v else v)
  }

  function StripSign(t: string): string {
    if t != [] && (t[0] == '-' || t[0] == '+') then t[1..] else t
  }

  /** The digits after the sign: hexadecimal after a `0x`/`0X` prefix, decimal otherwise. */
  function ParseUnsigned(u: string): Option<nat> {
    var hex := |u| >= 2 && u[0] == '0' && (u[1] == 'x' || u[1] == 'X');
    var radix := if hex then 16 else 10;
    var z := DigitPrefix(if hex then u[2..] else u, radix);
    if z == [] then None else Some(ValueOf(z, radix))
  }

  /** Unsigned decimal digits followed by a non-digit (or nothing) read as their value. */
  lemma {:induction false} ParseUnsignedDecimal(n: nat, rest: string)
    requires rest == [] || DigitValue(rest[0], 10).None?
    requires n == 0 && rest != [] ==> rest[0] != 'x' && rest[0] != 'X'
    ensures ParseUnsigned(Decimal(n) + rest) == Some(n)
  {
    var s := Decimal(n);
    DecimalValue(n);
    var u := s + rest;
    assert u[0] == s[0];
    assert |u| >= 2 && u[0] == '0' ==> u[1] == rest[0];
    if rest == [] {
      assert u == s;
      AllDigitsPrefix(s, 10);
    } else {
      DigitPrefixOfPrefix(s, rest, 10);
    }
  }

  /** Rendering a counter in decimal and reading it back gives the counter. */
  lemma {:induction false} DecimalValue(n: nat)
    ensures AllDigits(Decimal(n), 10)
    ensures ValueOf(Decimal(n), 10) == n
  {
    if n >= 10 {
      DecimalValue(n / 10);
      var s := Decimal(n);
      assert s[..|s| - 1] == Decimal(n / 10);
    }
  }

  /** Distinct counters render as distinct strings. */
  lemma {:induction false} DecimalInjective(a: nat, b: nat)
    ensures Decimal(a) == Decimal(b) ==> a == b
  {
    DecimalValue(a);
    DecimalValue(b);
  }

  /** `parseInt` reads back the decimal rendering of any non-negative integer. */
  lemma {:induction false} ParseIntDecimal(n: nat)
    ensures ParseInt(Decimal(n)) == Some(n)
  {
    var s := Decimal(n);
    ParseUnsignedDecimal(n, []);
    assert s + [] == s;
    DigitStart(s);
  }

  /** A string that starts with a digit has no white space or sign for `parseInt` to skip. */
  lemma {:induction false} DigitStart(u: string)
    requires u != [] && '0' <= u[0] <= '9'
    ensures ParseInt(u) == ParseSigned(u)
    ensures StripSign(u) == u
  {
    assert !IsWhiteSpace(u[0]);
    assert TrimStart(u) == u;
  }

  /** A leading minus sign negates the value `parseInt` reads. */
  lemma {:induction false} ParseIntNegative(n: nat)
    ensures ParseInt("-" + Decimal(n)) == Some(0 - n)
  {
    var s := Decimal(n);
    var t := "-" + s;
    assert t[0] == '-' && t[1..] == s;
    assert TrimStart(t) == t;
    assert StripSign(t) == s;
    assert s + [] == s;
    ParseUnsignedDecimal(n, []);
    assert ParseSigned(t) == Some(0 - n);
  }

  /** Leading white space does not change what `parseInt` reads. */
  lemma {:induction false} ParseIntSkipsSpace(w: string, s: string)
    requires AllWhiteSpace(w)
    ensures ParseInt(w + s) == ParseInt(s)
  {
    TrimStartSpace(w, s);
    assert ParseInt(w + s) == ParseSigned(TrimStart(w + s));
  }

  /** `parseInt` stops at the first character that is not a digit: "1700000000abc" reads as 1700000000. */
  lemma {:induction false} ParseIntStopsAtNonDigit(n: nat, rest: string)
    requires rest != [] && DigitValue(rest[0], 10).None?
    requires n == 0 ==> rest[0] != 'x' && rest[0] != 'X'
    ensures ParseInt(Decimal(n) + rest) == Some(n)
  {
    var s := Decimal(n);
    var t := s + rest;
    assert t[0] == s[0];
    DigitStart(t);
    ParseUnsignedDecimal(n, rest);
  }

  /** What is left after the white space and the sign is a suffix of the input. */
  lemma {:induction false} SignedSuffix(s: string, t: string, u: string)
    requires t == TrimStart(s) && u == StripSign(t) && u != []
    ensures |u| <= |s| && u[0] == s[|s| - |u|]
  {
    assert t == s[|s| - |t|..];
    if u != t {
      assert u == t[1..];
      assert u[0] == t[1];
    }
  }

  /** Without a leading digit there is nothing for `parseInt` to read. */
  lemma {:induction false} NoLeadingDigit(u: string)
    requires u != [] ==> !('0' <= u[0] <= '9')
    ensures ParseUnsigned(u) == None
  {
    if u != [] {
      assert DigitValue(u[0], 10).None?;
    }
  }

  lemma {:induction false} TrimStartSpace(w: string, s: string)
    requires AllWhiteSpace(w)
    ensures TrimStart(w + s) == TrimStart(s)
  {
    if w != [] {
      assert (w + s)[0] == w[0];
      assert (w + s)[1..] == w[1..] + s;
      TrimStartSpace(w[1..], s);
    } else {
      assert w + s == s;
    }
  }

  lemma {:induction false} AllDigitsPrefix(s: string, radix: nat)
    requires AllDigits(s, radix)
    ensures DigitPrefix(s, radix) == s
  {
    if s != [] {
      AllDigitsPrefix(s[1..], radix);
    }
  }

  lemma {:induction false} DigitPrefixOfPrefix(s: string, rest: string, radix: nat)
    requires AllDigits(s, radix)
    requires rest != [] && DigitValue(rest[0], radix).None?
    ensures DigitPrefix(s + rest, radix) == s
  {
    if s != [] {
      assert (s + rest)[1..] == s[1..] + rest;
      DigitPrefixOfPrefix(s[1..], rest, radix);
    }
  }
}
