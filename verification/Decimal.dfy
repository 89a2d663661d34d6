/** `std::to_string` and `std::stoi` on 32-bit signed integers. */
module Decimals {
  import opened Bytes
  import opened Url

  const INT32_MIN := -0x8000_0000

  /** How `stoi` ends: a value, `std::out_of_range`, or `std::invalid_argument`. */
  datatype StoiResult = IntValue(n: int) | OutOfRange | InvalidArgument

  function Digit(d: nat): char
    requires d < 10
  {
    ('0' as int + d) as char
  }

  function Digits(n: nat): (s: string)
    ensures s != ""
  {
    if n < 10 then [Digit(n)] else Digits(n / 10) + [Digit(n % 10)]
  }

  function ToString(n: int): string {
    if n < 0 then "-" + Digits(-n) else Digits(n)
  }

  predicate IsSpace(c: char) {
    c == ' ' || '\t' <= c <= '\r'
  }

  function SkipSpace(s: string): string {
    if s != "" && IsSpace(s[0]) then SkipSpace(s[1..]) else s
  }

  function LeadingDigits(s: string): (r: string)
    ensures forall i :: 0 <= i < |r| ==> IsDigit(r[i])
  {
    if s != "" && IsDigit(s[0]) then [s[0]] + LeadingDigits(s[1..]) else ""
  }

  function DigitsValue(s: string): nat
    requires forall i :: 0 <= i < |s| ==> IsDigit(s[i])
  {
    if s == "" then 0
    else
      assert IsDigit(s[|s| - 1]);
      10 * DigitsValue(s[..|s| - 1]) + (s[|s| - 1] as int - '0' as int)
  }

  function Stoi(s: string): StoiResult {
    var t := SkipSpace(s);
    var negative := t != "" && t[0] == '-';
    var u := if t != "" && (t[0] == '-' || t[0] == '+') then t[1..] else t;
    var ds := LeadingDigits(u);
    if ds == "" then InvalidArgument
    else
      var n: int := if negative then -(DigitsValue(ds) as int) else DigitsValue(ds);
      if INT32_MIN <= n <= INT32_MAX then IntValue(n) else OutOfRange
  }

  lemma StoiOfNothing()
    ensures Stoi("") == InvalidArgument
  {
  }

  lemma {:induction false} DigitsRoundTrip(n: nat)
    ensures forall i :: 0 <= i < |Digits(n)| ==> IsDigit(Digits(n)[i])
    ensures DigitsValue(Digits(n)) == n
  {
    if n >= 10 {
      DigitsRoundTrip(n / 10);
      var s := Digits(n);
      assert s[..|s| - 1] == Digits(n / 10);
    } else {
      assert Digits(n)[..0] == "";
    }
  }

  lemma {:induction false} AllDigitsLead(s: string)
    requires forall i :: 0 <= i < |s| ==> IsDigit(s[i])
    ensures LeadingDigits(s) == s
  {
    if s != "" {
      AllDigitsLead(s[1..]);
      assert s == [s[0]] + s[1..];
    }
  }

  /** The decimal form of any integer is read as that integer if it fits 32 bits, and is out of
      range otherwise. */
  lemma StoiOfNumeral(n: int)
    ensures Stoi(ToString(n)) == if INT32_MIN <= n <= INT32_MAX then IntValue(n) else OutOfRange
  {
    hide Digits, DigitsValue, LeadingDigits;
    var m := if n < 0 then -n else n;
    DigitsRoundTrip(m);
    AllDigitsLead(Digits(m));
    var s := ToString(n);
    assert !IsSpace(s[0]);
    assert SkipSpace(s) == s;
    if n < 0 {
      assert s[1..] == Digits(m);
    }
  }

  /** Every 32-bit integer comes back from its decimal form. */
  lemma StoiToString(n: int)
    requires INT32_MIN <= n <= INT32_MAX
    ensures Stoi(ToString(n)) == IntValue(n)
  {
    hide Stoi, ToString;
    StoiOfNumeral(n);
  }

  lemma StoiOfWord(s: string)
    requires s != "" && !IsSpace(s[0]) && s[0] != '-' && s[0] != '+' && !IsDigit(s[0])
    ensures Stoi(s) == InvalidArgument
  {
  }

  /** A numeral by its places, the first digit weighing most. */
  function PlacesValue(s: string): nat
    requires forall i :: 0 <= i < |s| ==> IsDigit(s[i])
  {
    if s == "" then 0
    else
      assert IsDigit(s[0]);
      var d: nat := s[0] as int - '0' as int;
      d * Power10(|s| - 1) + PlacesValue(s[1..])
  }

  lemma {:induction false} ValueOfFirst(s: string)
    requires s != "" && forall i :: 0 <= i < |s| ==> IsDigit(s[i])
    ensures DigitsValue(s) == (s[0] as int - '0' as int) * Power10(|s| - 1) + DigitsValue(s[1..])
  {
    var n := |s| - 1;
    assert IsDigit(s[n]) && IsDigit(s[0]);
    if n == 0 {
      assert s[1..] == "" && s[..0] == "";
    } else {
      var t, u := s[..n], s[1..];
      ValueOfFirst(t);
      assert t[1..] == u[..n - 1] && u[n - 1] == s[n];
      assert Power10(n) == 10 * Power10(n - 1);
      var d, p := s[0] as int - '0' as int, Power10(n - 1);
      assert 10 * (d * p) == d * (10 * p);
    }
  }

  /** Reading digit by digit gives each digit the weight of its place. */
  lemma {:induction false} ValueByPlaces(s: string)
    requires forall i :: 0 <= i < |s| ==> IsDigit(s[i])
    ensures DigitsValue(s) == PlacesValue(s)
  {
    hide DigitsValue, Power10;
    if s != "" {
      ValueOfFirst(s);
      ValueByPlaces(s[1..]);
    } else {
      NoDigits();
    }
  }

  lemma NoDigits()
    ensures DigitsValue("") == 0
  {
  }

  function Power10(k: nat): nat {
    if k == 0 then 1 else 10 * Power10(k - 1)
  }

  /** Text in front of which white space and a sign may stand, and behind which anything but a
      digit: only the digits between them count, by their places. */
  lemma StoiReads(gap: string, sign: string, ds: string, rest: string)
    requires forall i :: 0 <= i < |gap| ==> gap[i] in {' ', '\t', '\n', 11 as char, 12 as char, '\r'}
    requires sign in {"", "+", "-"}
    requires ds != "" && forall i :: 0 <= i < |ds| ==> IsDigit(ds[i])
    requires rest != "" ==> !IsDigit(rest[0])
    ensures var n: int := if sign == "-" then -(PlacesValue(ds) as int) else PlacesValue(ds);
            Stoi(gap + sign + ds + rest)
            == if INT32_MIN <= n <= INT32_MAX then IntValue(n) else OutOfRange
  {
    hide Stoi, DigitsValue, PlacesValue, LeadingDigits, SkipSpace;
    var u := ds + rest;
    var t := sign + u;
    Assoc(sign, ds, rest);
    Assoc(gap, sign, ds);
    Assoc(gap, sign + ds, rest);
    DigitsLead(ds, rest);
    ValueByPlaces(ds);
    assert u[0] == ds[0];
    SignedDigits(sign, u);
    SpaceIsSkipped(gap, t);
    SpaceIsSkipped("", t);
    assert "" + t == t;
    SkippedIsEnough(gap + t, t);
  }

  lemma SkippedIsEnough(s: string, t: string)
    requires SkipSpace(s) == SkipSpace(t)
    ensures Stoi(s) == Stoi(t)
  {
    hide DigitsValue, LeadingDigits, SkipSpace;
  }

  lemma SignedDigits(sign: string, u: string)
    requires sign in {"", "+", "-"} && u != "" && IsDigit(u[0])
    ensures (sign + u) != "" && !IsSpace((sign + u)[0])
    ensures var ds := LeadingDigits(u);
            var n: int := if sign == "-" then -(DigitsValue(ds) as int) else DigitsValue(ds);
            ds != "" ==>
              Stoi(sign + u) == if INT32_MIN <= n <= INT32_MAX then IntValue(n) else OutOfRange
  {
    hide DigitsValue, LeadingDigits;
    var t := sign + u;
    assert t[0] == if sign == "" then u[0] else sign[0];
    assert SkipSpace(t) == t;
    assert sign != "" ==> t[1..] == u;
    assert sign == "" ==> t == u;
  }

  lemma {:induction false} SpaceIsSkipped(gap: string, t: string)
    requires forall i :: 0 <= i < |gap| ==> gap[i] in {' ', '\t', '\n', 11 as char, 12 as char, '\r'}
    requires t != "" && !IsSpace(t[0])
    ensures SkipSpace(gap + t) == t
  {
    if gap == "" {
      assert gap + t == t;
    } else {
      assert (gap + t)[1..] == gap[1..] + t;
      SpaceIsSkipped(gap[1..], t);
    }
  }

  lemma {:induction false} DigitsLead(ds: string, rest: string)
    requires forall i :: 0 <= i < |ds| ==> IsDigit(ds[i])
    requires rest != "" ==> !IsDigit(rest[0])
    ensures LeadingDigits(ds + rest) == ds
  {
    if ds == "" {
      assert ds + rest == rest;
    } else {
      assert (ds + rest)[1..] == ds[1..] + rest;
      DigitsLead(ds[1..], rest);
      assert ds == [ds[0]] + ds[1..];
    }
  }

  /** A numeral has no leading zero but the one of zero itself. */
  lemma {:induction false} NoLeadingZero(n: nat)
    ensures Digits(n)[0] == '0' <==> n == 0
  {
    if n >= 10 {
      NoLeadingZero(n / 10);
    }
  }

  lemma ToStringChars(n: int)
    ensures forall i :: 0 <= i < |ToString(n)| ==> IsDigit(ToString(n)[i]) || ToString(n)[i] == '-'
  {
    DigitsRoundTrip(if n < 0 then -n else n);
  }
}
