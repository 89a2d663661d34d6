/** The 32-bit hash of inc/networkio/fnv1a.h.  It departs from the published FNV-1a
    function in one way: a zero byte leaves the accumulator unchanged. */
module Fnv1a {
  import opened Bytes

  const FNV1A_PRIME: Word := 16777619
  const FNV1A_BIAS: Word := 2166136261
  // the inverse of FNV1A_PRIME modulo 2^32
  const PRIME_INVERSE: Word := 899433627

  /** Bitwise exclusive or, bit by bit from the least significant end. */
  function Xor(a: nat, b: nat): nat
    decreases a + b
  {
    if a == 0 && b == 0 then 0
    else 2 * Xor(a / 2, b / 2) + (a + b) % 2
  }

  lemma {:induction false} XorCommutes(a: nat, b: nat)
    ensures Xor(a, b) == Xor(b, a)
    decreases a + b
  {
    if a != 0 || b != 0 {
      XorCommutes(a / 2, b / 2);
    }
  }

  /** Applying the same operand twice gives the first value back. */
  lemma {:induction false} XorTwice(a: nat, b: nat)
    ensures Xor(Xor(a, b), b) == a
    decreases a + b
  {
    hide Xor;
    if a == 0 && b == 0 {
      XorZeros();
    } else {
      var x := Xor(a, b);
      XorHalf(a, b);
      XorHalf(x, b);
      XorTwice(a / 2, b / 2);
      assert (x + b) % 2 == a % 2;
    }
  }

  lemma XorZeros()
    ensures Xor(0, 0) == 0
  {
  }

  lemma XorHalf(a: nat, b: nat)
    ensures Xor(a, b) / 2 == Xor(a / 2, b / 2) && Xor(a, b) % 2 == (a + b) % 2
  {
    if a == 0 && b == 0 {
      XorZeros();
    }
  }

  lemma {:induction false} XorBound(a: nat, b: nat, k: nat)
    requires a < Pow2(k) && b < Pow2(k)
    ensures Xor(a, b) < Pow2(k)
    decreases k
  {
    if k > 0 {
      XorBound(a / 2, b / 2, k - 1);
    }
  }

  lemma Pow2Of32()
    ensures Pow2(32) == WORD_LIMIT
  {
    assert Pow2(8) == 0x100;
    assert Pow2(16) == 0x1_0000;
    assert Pow2(24) == 0x100_0000;
  }

  /** `a ^ b` on `uint32_t` operands. */
  function XorWord(a: Word, b: Word): (r: Word)
    ensures r == Xor(a, b)
  {
    Pow2Of32();
    XorBound(a, b, 32);
    Xor(a, b)
  }

  /** Exclusive or with one byte leaves the upper 24 bits alone. */
  lemma XorByteKeepsUpperBits(a: nat, b: Byte)
    ensures Xor(a, b) / 0x100 == a / 0x100
  {
    XorShift(a, b, 8);
    ShiftByte(a);
    ShiftByte(b);
    ShiftByte(Xor(a, b));
    XorZero(a / 0x100);
  }

  /** `a >> k`. */
  function Shift(a: nat, k: nat): nat
    decreases k
  {
    if k == 0 then a else Shift(a / 2, k - 1)
  }

  lemma {:induction false} XorShift(a: nat, b: nat, k: nat)
    ensures Shift(Xor(a, b), k) == Xor(Shift(a, k), Shift(b, k))
    decreases k
  {
    if k > 0 {
      assert Xor(a, b) / 2 == Xor(a / 2, b / 2);
      XorShift(a / 2, b / 2, k - 1);
    }
  }

  lemma ShiftByte(a: nat)
    ensures Shift(a, 8) == a / 0x100
  {
    assert Shift(a, 8) == Shift(a / 2 / 2 / 2 / 2, 4);
    assert Shift(a / 16, 4) == a / 16 / 2 / 2 / 2 / 2;
  }

  lemma {:induction false} XorZero(a: nat)
    ensures Xor(a, 0) == a
    decreases a
  {
    if a != 0 {
      XorZero(a / 2);
    }
  }

  /** `a * FNV1A_PRIME` on `uint32_t`. */
  function TimesPrime(a: Word): Word {
    a * FNV1A_PRIME % WORD_LIMIT
  }

  lemma TimesPrimeInvertible(a: Word)
    ensures TimesPrime(a) * PRIME_INVERSE % WORD_LIMIT == a
  {
    var q := a * FNV1A_PRIME / WORD_LIMIT;
    assert a * FNV1A_PRIME == q * WORD_LIMIT + TimesPrime(a);
    assert FNV1A_PRIME * PRIME_INVERSE == 3513497 * WORD_LIMIT + 1;
    var m := 3513497 * a - q * PRIME_INVERSE;
    assert TimesPrime(a) * PRIME_INVERSE == m * WORD_LIMIT + a;
    RestOfSum(m, a);
  }

  lemma RestOfSum(m: int, a: Word)
    ensures (m * WORD_LIMIT + a) % WORD_LIMIT == a
  {
  }

  lemma TimesPrimeInjective(a: Word, b: Word)
    requires TimesPrime(a) == TimesPrime(b)
    ensures a == b
  {
    TimesPrimeInvertible(a);
    TimesPrimeInvertible(b);
  }

  /** One round of the loop. */
  function Step(h: Word, b: Byte): Word {
    if b == 0 then h else TimesPrime(XorWord(h, b))
  }

  /** All rounds, first byte first, from a given accumulator: `fnv1a_ring`. */
  function Rounds(h: Word, s: seq<Byte>): Word
    decreases |s|
  {
    if s == [] then h else Step(Rounds(h, s[..|s| - 1]), s[|s| - 1])
  }

  /** The result of `fnv1a` on a byte string; no bytes at all hash to 0. */
  function Hash(s: seq<Byte>): Word {
    if s == [] then 0 else Rounds(FNV1A_BIAS, s)
  }

  lemma {:induction false} RoundsConcat(h: Word, s: seq<Byte>, t: seq<Byte>)
    ensures Rounds(h, s + t) == Rounds(Rounds(h, s), t)
    decreases |t|
  {
    hide Step;
    if t == [] {
      assert s + t == s;
    } else {
      assert (s + t)[..|s + t| - 1] == s + t[..|t| - 1];
      RoundsConcat(h, s, t[..|t| - 1]);
    }
  }

  lemma RoundsOne(h: Word, b: Byte)
    ensures Rounds(h, [b]) == Step(h, b)
  {
    hide Step;
    assert [b][..0] == [];
  }

  method ComputeFnv1a(data: seq<Byte>) returns (out: Word)
    ensures out == Hash(data)
  {
    hide XorWord, TimesPrime;
    if data == [] {
      return 0;
    }
    out := FNV1A_BIAS;
    for i := 0 to |data|
      invariant out == Rounds(FNV1A_BIAS, data[..i])
    {
      assert data[..i + 1][..i] == data[..i];
      if data[i] == 0 {
        continue;
      }
      out := XorWord(out, data[i]);
      out := TimesPrime(out);
    }
    assert data[..|data|] == data;
  }

  /** A round is injective in the accumulator. */
  lemma StepInjectiveInState(g: Word, h: Word, b: Byte)
    requires Step(g, b) == Step(h, b)
    ensures g == h
  {
    if b != 0 {
      TimesPrimeInjective(XorWord(g, b), XorWord(h, b));
      XorTwice(g, b);
      XorTwice(h, b);
    }
  }

  /** A round that is not skipped is injective in the byte. */
  lemma StepInjectiveInByte(h: Word, b: Byte, c: Byte)
    requires b != 0 && c != 0 && Step(h, b) == Step(h, c)
    ensures b == c
  {
    TimesPrimeInjective(XorWord(h, b), XorWord(h, c));
    XorCommutes(h, b);
    XorCommutes(h, c);
    XorTwice(b, h);
    XorTwice(c, h);
  }

  lemma {:induction false} RoundsInjectiveInState(g: Word, h: Word, s: seq<Byte>)
    requires Rounds(g, s) == Rounds(h, s)
    ensures g == h
    decreases |s|
  {
    hide Step;
    if s != [] {
      var front := s[..|s| - 1];
      StepInjectiveInState(Rounds(g, front), Rounds(h, front), s[|s| - 1]);
      RoundsInjectiveInState(g, h, front);
    }
  }

  /** Replacing one byte keeps the hash exactly when the two rounds at that byte agree. */
  lemma HashAfterOneChange(s: seq<Byte>, i: nat, b: Byte)
    requires i < |s|
    ensures Hash(s[i := b]) == Hash(s)
            <==> Step(Rounds(FNV1A_BIAS, s[..i]), b) == Step(Rounds(FNV1A_BIAS, s[..i]), s[i])
  {
    hide Step, Rounds;
    var before, after := s[..i], s[i + 1..];
    var g := Rounds(FNV1A_BIAS, before);
    RoundsAround(before, s[i], after);
    RoundsAround(before, b, after);
    assert s == before + [s[i]] + after;
    assert s[i := b] == before + [b] + after;
    if Hash(s[i := b]) == Hash(s) {
      RoundsInjectiveInState(Step(g, b), Step(g, s[i]), after);
    }
  }

  lemma RoundsAround(before: seq<Byte>, b: Byte, after: seq<Byte>)
    ensures Rounds(FNV1A_BIAS, before + [b] + after)
            == Rounds(Step(Rounds(FNV1A_BIAS, before), b), after)
  {
    hide Step, Rounds;
    RoundsConcat(FNV1A_BIAS, before + [b], after);
    RoundsConcat(FNV1A_BIAS, before, [b]);
    RoundsOne(Rounds(FNV1A_BIAS, before), b);
  }

  function NonZero(s: seq<Byte>): seq<Byte> {
    if s == [] then []
    else NonZero(s[..|s| - 1]) + if s[|s| - 1] == 0 then [] else [s[|s| - 1]]
  }

  /** Zero bytes are invisible to the hash, wherever they stand. */
  lemma {:induction false} RoundsIgnoreZeros(h: Word, s: seq<Byte>)
    ensures Rounds(h, s) == Rounds(h, NonZero(s))
    decreases |s|
  {
    hide XorWord, TimesPrime;
    if s != [] {
      var front, b := s[..|s| - 1], s[|s| - 1];
      RoundsIgnoreZeros(h, front);
      if b == 0 {
        assert NonZero(s) == NonZero(front);
      } else {
        assert NonZero(s)[..|NonZero(s)| - 1] == NonZero(front);
      }
    }
  }

  /** `*str` as an operand of `^`: a signed character is sign-extended to 32 bits. */
  function SignExtended(b: Byte): Word {
    if b < 0x80 then b else 0xFFFF_FF00 + b
  }

  /** `fnv1a_ct` and `HASH("...")`: the compile-time form stops at the terminating NUL. */
  function HashCt(s: seq<Byte>, start: Word): Word
    decreases |s|
  {
    if s == [] || s[0] == 0 then start
    else HashCt(s[1..], TimesPrime(XorWord(SignExtended(s[0]), start)))
  }

  predicate IsName(s: seq<Byte>) {
    forall i :: 0 <= i < |s| ==> 0 < s[i] < 0x80
  }

  /** The published values of the 32-bit FNV-1a function for no byte but the bias itself and
      for the text "a"; on texts without NUL the two functions agree. */
  lemma PublishedValues()
    ensures Rounds(FNV1A_BIAS, []) == 0x811C_9DC5
    ensures Hash([0x61]) == 0xE40C_292C
  {
    hide Xor;
    RoundsOne(FNV1A_BIAS, 0x61);
    BiasWithA();
  }

  lemma BiasWithA()
    ensures Xor(2166136261, 97) == 2166136228
  {
    hide Xor;
    XorZero(16922939);
    XorDouble(16922939, 0, 1, 1);
    XorDouble(33845879, 1, 0, 1);
    XorDouble(67691758, 3, 0, 0);
    XorDouble(135383516, 6, 0, 0);
    XorDouble(270767032, 12, 1, 0);
    XorDouble(541534065, 24, 0, 0);
    XorDouble(1083068130, 48, 1, 1);
  }

  lemma XorDouble(a: nat, b: nat, i: nat, j: nat)
    requires i < 2 && j < 2
    ensures Xor(2 * a + i, 2 * b + j) == 2 * Xor(a, b) + (i + j) % 2
  {
    var x, y := 2 * a + i, 2 * b + j;
    assert x / 2 == a && y / 2 == b && (x + y) % 2 == (i + j) % 2;
    if x == 0 && y == 0 {
      XorZeros();
    }
  }

  lemma NoRounds(h: Word)
    ensures Rounds(h, []) == h
  {
  }

  /** An endpoint name in ASCII, hashed at compile time, meets the same name hashed at run
      time. */
  lemma {:induction false} HashCtIsRounds(s: seq<Byte>, h: Word)
    requires IsName(s)
    ensures HashCt(s, h) == Rounds(h, s)
    decreases |s|
  {
    hide Rounds;
    if s == [] {
      NoRounds(h);
    } else {
      XorCommutes(h, s[0]);
      HashCtIsRounds(s[1..], Step(h, s[0]));
      assert s == [s[0]] + s[1..];
      RoundsConcat(h, [s[0]], s[1..]);
      RoundsOne(h, s[0]);
    }
  }

  lemma {:induction false} HashCtConcat(s: seq<Byte>, t: seq<Byte>, h: Word)
    requires IsName(s)
    ensures HashCt(s + t, h) == HashCt(t, HashCt(s, h))
    decreases |s|
  {
    hide Xor, TimesPrime;
    if s == [] {
      assert s + t == t;
    } else {
      assert (s + t)[1..] == s[1..] + t;
      HashCtConcat(s[1..], t, TimesPrime(XorWord(SignExtended(s[0]), h)));
    }
  }

  /** One character beyond ASCII, wherever it stands, and the two hashes part. */
  lemma HashCtDiffers(before: seq<Byte>, b: Byte, after: seq<Byte>, h: Word)
    requires IsName(before) && b >= 0x80 && IsName(after)
    ensures HashCt(before + [b] + after, h) != Rounds(h, before + [b] + after)
  {
    hide Xor, TimesPrime, Rounds;
    var g := Rounds(h, before);
    var x, y := TimesPrime(XorWord(SignExtended(b), g)), Step(g, b);
    assert before + [b] + after == before + ([b] + after);
    HashCtConcat(before, [b] + after, h);
    HashCtIsRounds(before, h);
    assert ([b] + after)[1..] == after;
    HashCtIsRounds(after, x);
    RoundsConcat(h, before, [b] + after);
    RoundsConcat(g, [b], after);
    RoundsOne(g, b);
    if Rounds(x, after) == Rounds(y, after) {
      RoundsInjectiveInState(x, y, after);
      TimesPrimeInjective(XorWord(SignExtended(b), g), XorWord(g, b));
      XorCommutes(g, b);
      XorTwice(SignExtended(b), g);
      XorTwice(b, g);
    }
  }
}
