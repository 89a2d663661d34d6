/** The URL codec of inc/networkio/http/http_url.h.  Its arguments are C strings: they end at
    the first NUL, and so do the results.  A `char` here stands for one byte. */
module Url {
  import opened Bytes

  predicate ByteString(s: string) {
    forall i :: 0 <= i < |s| ==> s[i] as int < 0x100
  }

  predicate IsDigit(c: char) {
    '0' <= c <= '9'
  }

  predicate IsAlnum(c: char) {
    IsDigit(c) || 'a' <= c <= 'z' || 'A' <= c <= 'Z'
  }

  function ToLower(c: char): char {
    if 'A' <= c <= 'Z' then (c as int + 32) as char else c
  }

  /** `std::transform` with `::tolower`. */
  function LowerAll(s: string): (r: string)
    ensures |r| == |s|
  {
    seq(|s|, i requires 0 <= i < |s| => ToLower(s[i]))
  }

  /** What a `char *` shows of a string: up to the first NUL. */
  function CStr(s: string): (r: string)
    ensures r <= s && '\0' !in r
    ensures '\0' !in s ==> r == s
    ensures |r| < |s| ==> s[|r|] == '\0'
  {
    if s == "" || s[0] == '\0' then "" else [s[0]] + CStr(s[1..])
  }

  const HEX := "0123456789abcdef"

  /** `hex[code & 15]`. */
  function ToHex(code: nat): char {
    HEX[code % 16]
  }

  /** The low eight bits of `from_hex(ch)`, for any character at all. */
  function FromHex(ch: char): Byte {
    if IsDigit(ch) then ch as int - '0' as int
    else (ToLower(ch) as int - 'a' as int + 10) % 0x100
  }

  /** Bitwise or. */
  function Or(a: nat, b: nat): nat
    decreases a + b
  {
    if a == 0 && b == 0 then 0
    else 2 * Or(a / 2, b / 2) + if a % 2 == 1 || b % 2 == 1 then 1 else 0
  }

  function OrByte(a: Byte, b: Byte): (r: Byte)
    ensures r == Or(a, b)
  {
    OrBound(a, b, 0x80);
    Or(a, b)
  }

  lemma OrBound(a: nat, b: nat, half: nat)
    requires half == 0x80 && a < 2 * half && b < 2 * half
    ensures Or(a, b) < 2 * half
  {
    OrFits(a, b, 8);
    assert Pow2(8) == 0x100;
  }

  lemma {:induction false} OrFits(a: nat, b: nat, k: nat)
    requires a < Pow2(k) && b < Pow2(k)
    ensures Or(a, b) < Pow2(k)
    decreases k
  {
    if k > 0 {
      OrFits(a / 2, b / 2, k - 1);
    }
  }

  lemma {:induction false} OrZero(a: nat)
    ensures Or(0, a) == a
    decreases a
  {
    if a > 0 {
      OrZero(a / 2);
    }
  }

  /** Two nibbles side by side. */
  lemma OrNibbles(hi: nat, lo: nat)
    requires hi < 16 && lo < 16
    ensures Or(hi * 16, lo) == hi * 16 + lo
  {
    OrShift(hi, lo, 4);
    assert Pow2(4) == 16;
  }

  lemma {:induction false} OrShift(hi: nat, lo: nat, k: nat)
    requires lo < Pow2(k)
    ensures Or(hi * Pow2(k), lo) == hi * Pow2(k) + lo
    decreases k
  {
    if k == 0 {
      OrZeroRight(hi);
    } else {
      OrShift(hi, lo / 2, k - 1);
      var x := hi * Pow2(k - 1);
      assert hi * Pow2(k) == 2 * x;
      assert (2 * x) / 2 == x && (2 * x) % 2 == 0;
    }
  }

  lemma {:induction false} OrZeroRight(a: nat)
    ensures Or(a, 0) == a
    decreases a
  {
    if a > 0 {
      OrZeroRight(a / 2);
    }
  }

  predicate Unreserved(c: char) {
    IsAlnum(c) || c == '-' || c == '_' || c == '.' || c == '~'
  }

  function EncodeChar(c: char): (r: string)
    ensures 1 <= |r| <= 3
  {
    if Unreserved(c) then [c]
    else if c == ' ' then "+"
    else ['%', ToHex(c as int / 16), ToHex(c as int % 16)]
  }

  function EncodeLoop(s: string): (r: string)
    ensures |s| <= |r| <= 3 * |s|
  {
    if s == "" then "" else EncodeChar(s[0]) + EncodeLoop(s[1..])
  }

  /** The character that `%ab` stands for. */
  function DecodePair(a: char, b: char): char {
    OrByte(FromHex(a) * 16 % 0x100, FromHex(b)) as char
  }

  /** A percent sign without two characters behind it is dropped. */
  function DecodeLoop(s: string): (r: string)
    ensures |r| <= |s|
  {
    if s == "" then ""
    else if s[0] == '%' then
      if |s| >= 3 then [DecodePair(s[1], s[2])] + DecodeLoop(s[3..]) else DecodeLoop(s[1..])
    else [if s[0] == '+' then ' ' else s[0]] + DecodeLoop(s[1..])
  }

  function UrlEncode(s: string): (r: string)
    ensures |r| <= 3 * |s|
  {
    EncodeLoop(CStr(s))
  }

  function UrlDecode(s: string): (r: string)
    ensures |r| <= |s|
  {
    CStr(DecodeLoop(CStr(s)))
  }

  // ---------- the loops ----------

  lemma EncodeNext(s: string, i: nat)
    requires i < |s|
    ensures EncodeLoop(s[i..]) == EncodeChar(s[i]) + EncodeLoop(s[i + 1..])
  {
    assert s[i..][1..] == s[i + 1..];
  }

  method PutEncoded(buf: array<char>, n: nat, c: char) returns (m: nat)
    requires n + 3 <= buf.Length
    modifies buf
    ensures n <= m <= n + 3 && buf[..m] == old(buf[..n]) + EncodeChar(c)
  {
    if Unreserved(c) {
      buf[n] := c;
      m := n + 1;
    } else if c == ' ' {
      buf[n] := '+';
      m := n + 1;
    } else {
      buf[n] := '%';
      buf[n + 1] := ToHex(c as int / 16);
      buf[n + 2] := ToHex(c as int % 16);
      m := n + 3;
    }
  }

  /** `url_encode`: three output bytes for each input byte and one for the NUL are enough. */
  method UrlEncodeString(s: string) returns (res: string)
    ensures res == UrlEncode(s)
  {
    hide EncodeLoop, EncodeChar, CStr;
    var str := CStr(s);
    var buf := new char[|str| * 3 + 1];
    var i, n := 0, 0;
    assert str[0..] == str;
    while i < |str|
      invariant i <= |str| && n <= 3 * i
      invariant EncodeLoop(str) == buf[..n] + EncodeLoop(str[i..])
    {
      EncodeNext(str, i);
      Assoc(buf[..n], EncodeChar(str[i]), EncodeLoop(str[i + 1..]));
      n := PutEncoded(buf, n, str[i]);
      i := i + 1;
    }
    EncodeEmpty(str[i..]);
    ghost var out := buf[..n];
    assert out == EncodeLoop(str);
    buf[n] := '\0';
    NoNulEncoded(str);
    CStrStops(out, ['\0']);
    assert buf[..n + 1] == out + ['\0'];
    res := CStr(buf[..n + 1]);
  }

  lemma NoNulEncoded(s: string)
    ensures '\0' !in EncodeLoop(s)
  {
    hide EncodeLoop;
    EncodedIsSafe(s);
    assert !UrlSafe('\0');
  }

  lemma EncodeEmpty(s: string)
    requires s == ""
    ensures EncodeLoop(s) == ""
  {
  }

  /** A NUL ends the string it is written behind. */
  lemma {:induction false} CStrStops(s: string, rest: string)
    requires '\0' !in s && rest != "" && rest[0] == '\0'
    ensures CStr(s + rest) == s
  {
    if s == "" {
      assert s + rest == rest;
    } else {
      assert (s + rest)[1..] == s[1..] + rest;
      CStrStops(s[1..], rest);
      assert s == [s[0]] + s[1..];
    }
  }

  /** How far one turn of the decoding loop moves, and what it writes. */
  function DecodeStep(s: string, i: nat): (int, string)
    requires i < |s|
  {
    if s[i] == '%' then
      if i + 2 < |s| then (i + 3, [DecodePair(s[i + 1], s[i + 2])]) else (i + 1, "")
    else (i + 1, [if s[i] == '+' then ' ' else s[i]])
  }

  lemma DecodeNext(s: string, i: nat)
    requires i < |s|
    ensures i < DecodeStep(s, i).0 <= |s|
    ensures DecodeLoop(s[i..]) == DecodeStep(s, i).1 + DecodeLoop(s[DecodeStep(s, i).0..])
  {
    assert s[i..][1..] == s[i + 1..];
    if i + 2 < |s| {
      assert s[i..][3..] == s[i + 3..];
    }
  }

  /** `url_decode`: the output never outgrows the input. */
  method UrlDecodeString(s: string) returns (res: string)
    ensures res == UrlDecode(s)
  {
    hide DecodeLoop, DecodePair, CStr;
    var str := CStr(s);
    var buf := new char[|str| + 1];
    var i, n := 0, 0;
    assert str[0..] == str;
    while i < |str|
      invariant n <= i <= |str|
      invariant DecodeLoop(str) == buf[..n] + DecodeLoop(str[i..])
    {
      DecodeNext(str, i);
      ghost var before, put, next := buf[..n], DecodeStep(str, i).1, DecodeStep(str, i).0;
      Assoc(before, put, DecodeLoop(str[next..]));
      if str[i] == '%' {
        if i + 2 < |str| {
          buf[n] := DecodePair(str[i + 1], str[i + 2]);
          n := n + 1;
          i := i + 2;
        }
      } else if str[i] == '+' {
        buf[n] := ' ';
        n := n + 1;
      } else {
        buf[n] := str[i];
        n := n + 1;
      }
      i := i + 1;
      assert buf[..n] == before + put;
    }
    DecodeEmpty(str[i..]);
    ghost var out := buf[..n];
    assert out == DecodeLoop(str);
    buf[n] := '\0';
    assert buf[..n] == out;
    res := CStr(buf[..n]);
  }

  lemma DecodeEmpty(s: string)
    requires s == ""
    ensures DecodeLoop(s) == ""
  {
  }

  // ---------- properties ----------

  lemma HexDigits(n: nat)
    requires n < 16
    ensures FromHex(ToHex(n)) == n && IsAlnum(ToHex(n)) && ToHex(n) != '%' && ToHex(n) != '+'
  {
    assert HEX[n] == if n < 10 then ('0' as int + n) as char else ('a' as int + (n - 10)) as char;
  }

  lemma DecodeEncodedChar(c: char, more: string)
    requires c as int < 0x100
    ensures DecodeLoop(EncodeChar(c) + more) == [c] + DecodeLoop(more)
  {
    var s := EncodeChar(c) + more;
    if Unreserved(c) || c == ' ' {
      assert s[1..] == more;
    } else {
      DecodeEncodedPair(c as int);
      assert s[3..] == more;
    }
  }

  lemma DecodeEncodedPair(code: nat)
    requires code < 0x100
    ensures DecodePair(ToHex(code / 16), ToHex(code % 16)) == code as char
  {
    hide ToHex, FromHex, Or;
    var hi, lo := code / 16, code % 16;
    HexDigits(hi);
    HexDigits(lo);
    OrNibbles(hi, lo);
  }

  lemma {:induction false} DecodeEncodeLoop(s: string)
    requires ByteString(s)
    ensures DecodeLoop(EncodeLoop(s)) == s
  {
    if s != "" {
      assert s[0] in s;
      DecodeEncodedChar(s[0], EncodeLoop(s[1..]));
      DecodeEncodeLoop(s[1..]);
      assert s == [s[0]] + s[1..];
    }
  }

  /** What encoding can produce. */
  predicate UrlSafe(c: char) {
    Unreserved(c) || c == '+' || c == '%'
  }

  lemma {:induction false} EncodedIsSafe(s: string)
    ensures forall c :: c in EncodeLoop(s) ==> UrlSafe(c)
  {
    if s != "" {
      EncodedIsSafe(s[1..]);
      HexDigits(s[0] as int / 16 % 16);
      HexDigits(s[0] as int % 16);
    }
  }

  /** Decoding undoes encoding, for every byte string, up to its first NUL. */
  lemma DecodeEncode(s: string)
    requires ByteString(s)
    ensures UrlDecode(UrlEncode(s)) == CStr(s)
  {
    hide EncodeLoop, DecodeLoop, CStr;
    var t := CStr(s);
    DecodeEncodeLoop(t);
    NoNulEncoded(t);
  }

  predicate Plain(s: string) {
    '\0' !in s && '+' !in s && '%' !in s
  }

  lemma {:induction false} DecodeLoopPlain(s: string)
    ensures '+' !in s && '%' !in s ==> DecodeLoop(s) == s
    ensures '%' in s ==> |DecodeLoop(s)| < |s|
    ensures '%' !in s && '+' in s ==> DecodeLoop(s) != s
  {
    if s != "" {
      if s[0] == '%' {
        assert s[0] in s;
      } else {
        DecodeLoopPlain(s[1..]);
        assert s == [s[0]] + s[1..];
        assert s[0] == '+' ==> s[0] in s;
        assert forall c :: c in s <==> c == s[0] || c in s[1..];
        assert DecodeLoop(s)[1..] == DecodeLoop(s[1..]);
      }
    }
  }

  /** Decoding a second time is harmless exactly for strings without '+', '%' and NUL. */
  lemma DecodeFixesIffPlain(s: string)
    ensures UrlDecode(s) == s <==> Plain(s)
  {
    var t := CStr(s);
    DecodeLoopPlain(t);
    if '\0' in s {
      assert t != s;
    }
  }

  // ---------- any encoded text ----------

  /** How a character may be written in an encoded text: as it is, as a plus sign, or escaped
      with two digits, each of them in upper case or not. */
  datatype Spelling = AsIs(c: char) | Plus | Escaped(c: char, upperHigh: bool, upperLow: bool)

  function HexDigit(n: nat, upper: bool): char
    requires n < 16
  {
    if upper then "0123456789ABCDEF"[n] else "0123456789abcdef"[n]
  }

  predicate Spellable(p: Spelling) {
    match p
    case AsIs(c) => c != '%' && c != '+' && c != '\0'
    case Plus => true
    case Escaped(c, _, _) => 0 < c as int < 0x100
  }

  function SpelledOne(p: Spelling): (s: string)
    requires Spellable(p)
    ensures s != ""
  {
    match p
    case AsIs(c) => [c]
    case Plus => "+"
    case Escaped(c, high, low) => ['%', HexDigit(c as int / 16, high), HexDigit(c as int % 16, low)]
  }

  function Spelled(ps: seq<Spelling>): string
    requires forall p :: p in ps ==> Spellable(p)
  {
    if ps == [] then "" else SpelledOne(ps[0]) + Spelled(ps[1..])
  }

  function MeantOne(p: Spelling): char {
    if p.Plus? then ' ' else p.c
  }

  function Meant(ps: seq<Spelling>): (s: string)
    ensures |s| == |ps|
  {
    seq(|ps|, i requires 0 <= i < |ps| => MeantOne(ps[i]))
  }

  lemma DigitReads(n: nat, upper: bool)
    requires n < 16
    ensures FromHex(HexDigit(n, upper)) == n && HexDigit(n, upper) != '\0'
  {
    var d := HexDigit(n, upper);
    assert d == if n < 10 then ('0' as int + n) as char
                else if upper then ('A' as int + (n - 10)) as char
                else ('a' as int + (n - 10)) as char;
  }

  lemma SpellingReads(p: Spelling, more: string)
    requires Spellable(p)
    ensures DecodeLoop(SpelledOne(p) + more) == [MeantOne(p)] + DecodeLoop(more)
    ensures '\0' !in SpelledOne(p) && MeantOne(p) != '\0'
  {
    hide HexDigit, FromHex, Or;
    var s := SpelledOne(p) + more;
    if p.Escaped? {
      var high, low := p.c as int / 16, p.c as int % 16;
      DigitReads(high, p.upperHigh);
      DigitReads(low, p.upperLow);
      OrNibbles(high, low);
      assert s[3..] == more;
    } else {
      assert s[1..] == more;
    }
  }

  lemma {:induction false} SpelledReads(ps: seq<Spelling>, more: string)
    requires forall p :: p in ps ==> Spellable(p)
    ensures DecodeLoop(Spelled(ps) + more) == Meant(ps) + DecodeLoop(more)
    ensures '\0' !in Spelled(ps) && '\0' !in Meant(ps)
  {
    hide SpelledOne, MeantOne, DecodeLoop, Spellable;
    if ps == [] {
      assert "" + more == more;
      assert Meant(ps) + DecodeLoop(more) == DecodeLoop(more);
    } else {
      var rest := Spelled(ps[1..]);
      assert ps[0] in ps;
      SpellingReads(ps[0], rest + more);
      SpelledReads(ps[1..], more);
      Assoc(SpelledOne(ps[0]), rest, more);
      assert Meant(ps) == [MeantOne(ps[0])] + Meant(ps[1..]);
      Assoc([MeantOne(ps[0])], Meant(ps[1..]), DecodeLoop(more));
    }
  }

  /** Every text with its characters spelled in any of these ways decodes to that text, with
      hexadecimal digits in either case (section 2.1 of RFC 3986). */
  lemma AnySpellingDecodes(ps: seq<Spelling>)
    requires forall p :: p in ps ==> Spellable(p)
    ensures UrlDecode(Spelled(ps)) == Meant(ps)
  {
    hide Spelled, Meant, DecodeLoop, CStr, Spellable;
    SpelledReads(ps, "");
    DecodeEmpty("");
    assert Spelled(ps) + "" == Spelled(ps);
    assert Meant(ps) + "" == Meant(ps);
  }

  /** A percent sign that is one of the last two characters is dropped. */
  lemma DanglingEscape(ps: seq<Spelling>, c: char)
    requires forall p :: p in ps ==> Spellable(p)
    requires c != '\0' && c != '+' && c != '%'
    ensures UrlDecode(Spelled(ps) + "%") == Meant(ps)
    ensures UrlDecode(Spelled(ps) + ['%', c]) == Meant(ps) + [c]
  {
    hide Spelled, Meant, CStr, Spellable;
    SpelledReads(ps, "%");
    SpelledReads(ps, ['%', c]);
    assert "%"[1..] == "" && ['%', c][1..] == [c] && [c][1..] == "";
    assert Meant(ps) + "" == Meant(ps);
  }

  const CAPITALS := "ABCDEFGHIJKLMNOPQRSTUVWXYZ"
  const SMALLS := "abcdefghijklmnopqrstuvwxyz"
  const DIGITS := "0123456789"

  /** The characters that are never escaped (section 2.3 of RFC 3986). */
  const UNRESERVED := CAPITALS + SMALLS + DIGITS + "-_.~"

  /** How the encoder spells a character. */
  function Canonical(c: char): Spelling {
    if c in UNRESERVED then AsIs(c) else if c == ' ' then Plus else Escaped(c, false, false)
  }

  lemma RunHolds(s: string, first: char, c: char)
    requires |s| <= 26 && first as int + |s| < 0x80
    requires forall i :: 0 <= i < |s| ==> s[i] as int == first as int + i
    ensures c in s <==> first as int <= c as int < first as int + |s|
  {
    if first as int <= c as int < first as int + |s| {
      assert s[c as int - first as int] == c;
    }
  }

  lemma CapitalIff(c: char)
    ensures c in CAPITALS <==> 'A' <= c <= 'Z'
  {
    RunHolds(CAPITALS, 'A', c);
  }

  lemma SmallIff(c: char)
    ensures c in SMALLS <==> 'a' <= c <= 'z'
  {
    RunHolds(SMALLS, 'a', c);
  }

  lemma DigitIff(c: char)
    ensures c in DIGITS <==> '0' <= c <= '9'
  {
    RunHolds(DIGITS, '0', c);
  }

  lemma UnreservedIff(c: char)
    ensures c in UNRESERVED <==> Unreserved(c)
  {
    CapitalIff(c);
    SmallIff(c);
    DigitIff(c);
    InFour(CAPITALS, SMALLS, DIGITS, "-_.~", c);
    MarkIff(c);
  }

  lemma InFour(s: string, t: string, u: string, v: string, c: char)
    ensures c in s + t + u + v <==> c in s || c in t || c in u || c in v
  {
  }

  lemma MarkIff(c: char)
    ensures c in "-_.~" <==> c == '-' || c == '_' || c == '.' || c == '~'
  {
  }

  /** The encoder leaves unreserved characters alone, writes a space as a plus sign, and
      escapes the rest with lower-case digits. */
  lemma {:induction false} EncodingSpells(s: string)
    requires ByteString(s) && '\0' !in s
    ensures forall i :: 0 <= i < |s| ==> Spellable(Canonical(s[i]))
    ensures UrlEncode(s) == Spelled(seq(|s|, i requires 0 <= i < |s| => Canonical(s[i])))
  {
    hide Unreserved, Canonical;
    LoopSpells(s);
  }

  lemma {:induction false} LoopSpells(s: string)
    requires ByteString(s) && '\0' !in s
    ensures forall i :: 0 <= i < |s| ==> Spellable(Canonical(s[i]))
    ensures EncodeLoop(s) == Spelled(seq(|s|, i requires 0 <= i < |s| => Canonical(s[i])))
  {
    hide Canonical, EncodeChar, SpelledOne;
    if s != "" {
      LoopSpells(s[1..]);
      CharSpells(s[0]);
      var ps := seq(|s|, i requires 0 <= i < |s| => Canonical(s[i]));
      assert ps[1..] == seq(|s| - 1, i requires 0 <= i < |s| - 1 => Canonical(s[1..][i]));
    }
  }

  lemma CharSpells(c: char)
    requires 0 < c as int < 0x100
    ensures Spellable(Canonical(c)) && SpelledOne(Canonical(c)) == EncodeChar(c)
  {
    hide Unreserved, HexDigit, ToHex;
    UnreservedIff(c);
    NotUnreserved();
    SameDigit(c as int / 16);
    SameDigit(c as int % 16);
  }

  lemma SameDigit(n: nat)
    requires n < 16
    ensures HexDigit(n, false) == ToHex(n)
  {
  }

  lemma NotUnreserved()
    ensures !Unreserved('%') && !Unreserved('+') && !Unreserved(' ')
  {
  }

  /** Case folding: the 26 capital letters become small ones, and nothing else changes. */
  lemma CaseFolding(c: char)
    ensures LowerAll(CAPITALS) == SMALLS
    ensures c !in CAPITALS ==> ToLower(c) == c
  {
    CapitalIff(c);
    FoldedRun(CAPITALS, SMALLS);
  }

  lemma FoldedRun(s: string, t: string)
    requires |s| == |t| == 26
    requires forall i :: 0 <= i < 26 ==> s[i] as int == 'A' as int + i && t[i] as int == 'a' as int + i
    ensures LowerAll(s) == t
  {
  }
}
