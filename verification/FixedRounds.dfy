/** No round of the hash that the header fields can lead to leaves the accumulator as it was.
    What a round does to the upper 24 bits of the accumulator is arithmetic modulo 2^24, so
    it is carried over to 24-bit vectors, where the search that remains is finite. */
module FixedRounds {
  import opened Bytes
  import opened Fnv1a

  // ---------- numbers modulo 2^24 ----------

  // Sums and products are named, so that most proofs can hide what they are.

  /** A number modulo 2^24. */
  function Bits(n: nat): bv24 {
    if n == 0 then 0 else Bits(n - 1) + 1
  }

  function Plus(x: bv24, y: bv24): bv24 {
    x + y
  }

  function Next(x: bv24): bv24 {
    x + 1
  }

  lemma BitsNext(n: nat)
    ensures Bits(0) == 0 && Bits(n + 1) == Next(Bits(n))
  {
  }

  lemma PlusNext(x: bv24, y: bv24)
    ensures Plus(x, 0) == x == Plus(0, x) && Plus(x, Next(y)) == Next(Plus(x, y))
  {
    assert Plus(x, y + 1) == Plus(x, y) + 1;
  }

  lemma {:induction false} BitsSum(a: nat, b: nat)
    ensures Bits(a + b) == Plus(Bits(a), Bits(b))
  {
    hide Plus, Next, Bits;
    BitsNext(a);
    PlusNext(Bits(a), 0);
    if b > 0 {
      BitsSum(a, b - 1);
      PlusNext(Bits(a), Bits(b - 1));
      BitsNext(b - 1);
      BitsNext(a + (b - 1));
      assert a + b == a + (b - 1) + 1;
    }
  }

  function Times(k: bv24, x: bv24): bv24 {
    k * x
  }

  /** Multiplying by `k` follows its recursion. */
  ghost predicate Distributes(k: bv24) {
    Times(k, 0) == 0 && forall x :: Times(k, Next(x)) == Plus(Times(k, x), k)
  }

  lemma Distributes4()
    ensures Distributes(4)
  {
    forall x
      ensures Times(4, Next(x)) == Plus(Times(4, x), 4)
    {
      assert Times(4, x + 1) == Plus(Times(4, x), 4);
    }
  }

  lemma Distributes403()
    ensures Distributes(403)
  {
    forall x
      ensures Times(403, Next(x)) == Plus(Times(403, x), 403)
    {
      assert Times(403, x + 1) == Plus(Times(403, x), 403);
    }
  }

  lemma {:induction false} BitsProduct(k: nat, n: nat)
    requires Distributes(Bits(k))
    ensures Bits(k * n) == Times(Bits(k), Bits(n))
  {
    hide Plus, Next, Bits, Times;
    BitsNext(0);
    if n > 0 {
      BitsProduct(k, n - 1);
      BitsNext(n - 1);
      BitsSum(k * (n - 1), k);
      assert k * n == k * (n - 1) + k;
    }
  }

  lemma BitsTimes4(n: nat)
    ensures Bits(4 * n) == Times(4, Bits(n))
  {
    assert Bits(4) == 4;
    Distributes4();
    BitsProduct(4, n);
  }

  lemma BitsTimes256(n: nat)
    ensures Bits(0x100 * n) == Times(0x100, Bits(n))
  {
    hide Bits;
    BitsTimes4(n);
    BitsTimes4(4 * n);
    BitsTimes4(16 * n);
    BitsTimes4(64 * n);
  }

  lemma BitsTimes403(n: nat)
    ensures Bits(403 * n) == Times(403, Bits(n))
  {
    assert Bits(3) == 3 && Bits(9) == 9 && Bits(1) == 1;
    hide Bits, Distributes;
    BitsTimes4(9);
    BitsTimes4(36);
    BitsTimes256(1);
    BitsSum(144, 3);
    BitsSum(0x100, 147);
    Distributes403();
    BitsProduct(403, n);
  }

  lemma BitsTimes65536(n: nat)
    ensures Bits(0x1_0000 * n) == Times(0x1_0000, Bits(n))
  {
    hide Bits;
    BitsTimes256(n);
    BitsTimes256(0x100 * n);
  }

  lemma BitsWrap(n: nat)
    ensures Bits(0x100_0000 * n) == 0
  {
    hide Bits;
    BitsTimes256(n);
    BitsTimes65536(0x100 * n);
  }

  /** Small numbers keep their bounds. */
  lemma BitsBelow(n: nat)
    ensures n < 0x10 ==> Bits(n) < 0x10
    ensures n < 0x40 ==> Bits(n) < 0x40
    ensures n < 0x100 ==> Bits(n) < 0x100
    ensures n < 0x400 ==> Bits(n) < 0x400
    decreases n
  {
    assert Bits(0) == 0 && Bits(1) == 1 && Bits(2) == 2 && Bits(3) == 3;
    if n >= 4 {
      hide Bits;
      BitsBelow(n / 4);
      BitsTimes4(n / 4);
      BitsSum(4 * (n / 4), n % 4);
    }
  }

  // ---------- a round on the upper 24 bits ----------

  /** What the low byte of the factor adds to the upper 24 bits of the product. */
  function Carry(low: bv24): bv24 {
    0x1_0000 * low + (403 * low >> 8)
  }

  /** The upper 24 bits of the product, from those of the factor and its low byte. */
  function After(u: bv24, low: bv24): bv24 {
    403 * u + Carry(low)
  }

  lemma CarryOfParts(low: bv24, m: bv24, e: bv24)
    requires low < 0x100 && m < 0x400 && e < 0x100 && Times(403, low) == Plus(Times(0x100, m), e)
    ensures Plus(Times(0x1_0000, low), m) == Carry(low)
  {
  }

  lemma CarryOfByte(low: Byte)
    ensures Bits(0x1_0000 * low + 403 * low / 0x100) == Carry(Bits(low))
  {
    hide Bits, Plus, Times, Carry;
    var m, e := 403 * low / 0x100, 403 * low % 0x100;
    BitsTimes65536(low);
    BitsSum(0x1_0000 * low, m);
    BitsTimes403(low);
    BitsTimes256(m);
    BitsSum(0x100 * m, e);
    BitsBelow(low);
    BitsBelow(e);
    BitsBelow(m);
    CarryOfParts(Bits(low), Bits(m), Bits(e));
  }

  /** The upper bits of a product with the prime. */
  lemma UpperOfProduct(x: Word)
    ensures Bits(TimesPrime(x) / 0x100) == After(Bits(x / 0x100), Bits(x % 0x100))
  {
    hide Bits, Plus, Times, Carry, After, TimesPrime;
    var u, low: Byte := x / 0x100, x % 0x100;
    var y := TimesPrime(x);
    var c := 0x1_0000 * low + 403 * low / 0x100;
    var q := ProductParts(x);
    CarryOfByte(low);
    BitsTimes403(u);
    BitsSum(403 * u, c);
    BitsWrap(q);
    BitsSum(0x100_0000 * q, y / 0x100);
    BitsWrap(u);
    BitsSum(0x100_0000 * u, 403 * u + c);
    PlusNext(Bits(y / 0x100), 0);
    PlusNext(Bits(403 * u + c), 0);
    AfterIsSum(Bits(u), Bits(low));
  }

  lemma AfterIsSum(u: bv24, low: bv24)
    ensures After(u, low) == Plus(Times(403, u), Carry(low))
  {
    var x, c := 403 * u, Carry(low);
    assert Times(403, u) == x;
    hide Times, Carry, Plus;
    SumsAgree(x, Times(403, u), c);
    assert After(u, low) == x + c;
  }

  lemma SumsAgree(x: bv24, y: bv24, c: bv24)
    requires x == y
    ensures x + c == Plus(y, c)
  {
  }

  /** How often the product wraps around, and what it leaves in the upper bits. */
  lemma ProductParts(x: Word) returns (q: nat)
    ensures var u, low := x / 0x100, x % 0x100;
            0x100_0000 * q + TimesPrime(x) / 0x100
            == 0x100_0000 * u + (403 * u + (0x1_0000 * low + 403 * low / 0x100))
  {
    q := x * FNV1A_PRIME / WORD_LIMIT;
    var u, low, y := x / 0x100, x % 0x100, TimesPrime(x);
    var e := 403 * low % 0x100;
    assert x * FNV1A_PRIME == WORD_LIMIT * q + y;
    assert y == 0x100 * (0x100_0000 * (u - q) + 403 * u + 0x1_0000 * low + 403 * low / 0x100) + e;
  }

  function UpperBits(g: Word): bv24 {
    Bits(g / 0x100)
  }

  /** A round that reads a byte moves the upper bits by some low byte. */
  lemma UpperBitsOfRound(g: Word, a: Byte) returns (low: bv24)
    requires a != 0
    ensures low < 0x100 && UpperBits(Step(g, a)) == After(UpperBits(g), low)
  {
    hide Bits, After, TimesPrime, Xor;
    var x := XorWord(g, a);
    XorByteKeepsUpperBits(g, a);
    UpperOfProduct(x);
    BitsBelow(x % 0x100);
    low := Bits(x % 0x100);
  }

  /** A round after a round that read a byte is stationary only if the first round kept the
      upper 24 bits. */
  lemma StationaryRound(g: Word, a: Byte, c: Byte)
    requires a != 0 && c != 0 && Step(Step(g, a), c) == Step(g, a)
    ensures Step(g, a) / 0x100 == g / 0x100
  {
    hide Xor;
    TimesPrimeInjective(XorWord(Step(g, a), c), XorWord(g, a));
    XorByteKeepsUpperBits(Step(g, a), c);
    XorByteKeepsUpperBits(g, a);
  }

  // ---------- the search ----------

  // the accumulator behind the magic word, and its upper 24 bits
  const AFTER_MAGIC: Word := 2047574606
  const START: bv24 := 7998338

  lemma AfterMagic()
    ensures Step(FNV1A_BIAS, 0xFF) == AFTER_MAGIC
  {
    hide Xor;
    BiasWithMagic();
  }

  lemma BiasWithMagic()
    ensures Xor(2166136261, 255) == 2166136122
  {
    hide Xor;
    XorZero(8461469);
    XorDouble(8461469, 0, 1, 1);
    XorDouble(16922939, 1, 1, 1);
    XorDouble(33845879, 3, 0, 1);
    XorDouble(67691758, 7, 0, 1);
    XorDouble(135383516, 15, 0, 1);
    XorDouble(270767032, 31, 1, 1);
    XorDouble(541534065, 63, 0, 1);
    XorDouble(1083068130, 127, 1, 1);
  }

  lemma BitsOfNibbles(n: nat, d: nat)
    ensures Bits(16 * n + d) == Plus(Times(4, Times(4, Bits(n))), Bits(d))
  {
    hide Bits, Plus, Times;
    BitsTimes4(n);
    BitsTimes4(4 * n);
    BitsSum(16 * n, d);
  }

  lemma UpperBitsAtStart()
    ensures UpperBits(AFTER_MAGIC) == START
  {
    assert Bits(0) == 0 && Bits(2) == 2 && Bits(7) == 7 && Bits(8) == 8 && Bits(10) == 10 && Bits(11) == 11;
    hide Bits;
    BitsOfNibbles(7, 10);
    BitsOfNibbles(122, 0);
    BitsOfNibbles(1952, 11);
    BitsOfNibbles(31243, 8);
    BitsOfNibbles(499896, 2);
  }

  /** Nothing is left alone by the first two rounds behind the magic word. */
  lemma NearSearch(l: bv24, l': bv24, u: bv24)
    requires l < 256 && l' < 256 && u == After(START, l)
    ensures u != START && After(u, l') != u
  {
  }

  // All low bytes of three further rounds, in eight parts.

  lemma Search0(l: bv24, l': bv24, l'': bv24, u: bv24, v: bv24)
    requires 0 <= l < 32 && l' < 256 && l'' < 256
    requires u == After(START, l) && v == After(u, l')
    ensures After(v, l'') != v
  {
  }

  lemma Search1(l: bv24, l': bv24, l'': bv24, u: bv24, v: bv24)
    requires 32 <= l < 64 && l' < 256 && l'' < 256
    requires u == After(START, l) && v == After(u, l')
    ensures After(v, l'') != v
  {
  }

  lemma Search2(l: bv24, l': bv24, l'': bv24, u: bv24, v: bv24)
    requires 64 <= l < 96 && l' < 256 && l'' < 256
    requires u == After(START, l) && v == After(u, l')
    ensures After(v, l'') != v
  {
  }

  lemma Search3(l: bv24, l': bv24, l'': bv24, u: bv24, v: bv24)
    requires 96 <= l < 128 && l' < 256 && l'' < 256
    requires u == After(START, l) && v == After(u, l')
    ensures After(v, l'') != v
  {
  }

  lemma Search4(l: bv24, l': bv24, l'': bv24, u: bv24, v: bv24)
    requires 128 <= l < 160 && l' < 256 && l'' < 256
    requires u == After(START, l) && v == After(u, l')
    ensures After(v, l'') != v
  {
  }

  lemma Search5(l: bv24, l': bv24, l'': bv24, u: bv24, v: bv24)
    requires 160 <= l < 192 && l' < 256 && l'' < 256
    requires u == After(START, l) && v == After(u, l')
    ensures After(v, l'') != v
  {
  }

  lemma Search6(l: bv24, l': bv24, l'': bv24, u: bv24, v: bv24)
    requires 192 <= l < 224 && l' < 256 && l'' < 256
    requires u == After(START, l) && v == After(u, l')
    ensures After(v, l'') != v
  {
  }

  lemma Search7(l: bv24, l': bv24, l'': bv24, u: bv24, v: bv24)
    requires 224 <= l < 256 && l' < 256 && l'' < 256
    requires u == After(START, l) && v == After(u, l')
    ensures After(v, l'') != v
  {
  }

  lemma Search(l: bv24, l': bv24, l'': bv24)
    requires l < 256 && l' < 256 && l'' < 256
    ensures var v := After(After(START, l), l'); After(v, l'') != v
  {
    hide After;
    var u := After(START, l);
    var v := After(u, l');
    if l < 32 {
      Search0(l, l', l'', u, v);
    } else if l < 64 {
      Search1(l, l', l'', u, v);
    } else if l < 96 {
      Search2(l, l', l'', u, v);
    } else if l < 128 {
      Search3(l, l', l'', u, v);
    } else if l < 160 {
      Search4(l, l', l'', u, v);
    } else if l < 192 {
      Search5(l, l', l'', u, v);
    } else if l < 224 {
      Search6(l, l', l'', u, v);
    } else {
      Search7(l, l', l'', u, v);
    }
  }

  /** Behind the magic word and up to three bytes, every further round that reads a byte moves
      the accumulator. */
  lemma NoFixedRound(s: seq<Byte>, c: Byte)
    requires |s| <= 3 && 0 !in s && c != 0
    ensures Step(Rounds(AFTER_MAGIC, s), c) != Rounds(AFTER_MAGIC, s)
  {
    hide Step, Rounds, After, Bits;
    AfterMagic();
    NoRounds(AFTER_MAGIC);
    var g := Rounds(AFTER_MAGIC, s);
    if Step(g, c) == g {
      if s == [] {
        StationaryRound(FNV1A_BIAS, 0xFF, c);
      } else {
        var front, a := s[..|s| - 1], s[|s| - 1];
        RoundsLast(AFTER_MAGIC, s);
        StationaryRound(Rounds(AFTER_MAGIC, front), a, c);
        UpperBitsMove(front, a);
      }
    }
  }

  lemma RoundsLast(h: Word, s: seq<Byte>)
    requires s != []
    ensures Rounds(h, s) == Step(Rounds(h, s[..|s| - 1]), s[|s| - 1])
  {
    hide Step;
  }

  /** The next round moves the upper bits. */
  lemma UpperBitsMove(s: seq<Byte>, a: Byte)
    requires |s| <= 2 && 0 !in s && a != 0
    ensures var g := Rounds(AFTER_MAGIC, s); UpperBits(Step(g, a)) != UpperBits(g)
  {
    hide Step, Rounds, After, UpperBits;
    UpperBitsAtStart();
    NoRounds(AFTER_MAGIC);
    var g := Rounds(AFTER_MAGIC, s);
    var low := UpperBitsOfRound(g, a);
    if s == [] {
      NearSearch(low, low, After(START, low));
    } else {
      RoundsLast(AFTER_MAGIC, s);
      var g' := Rounds(AFTER_MAGIC, s[..|s| - 1]);
      var low' := UpperBitsOfRound(g', s[|s| - 1]);
      if |s| == 1 {
        NearSearch(low', low, After(START, low'));
      } else {
        RoundsLast(AFTER_MAGIC, s[..1]);
        assert s[..1][..0] == [];
        var low'' := UpperBitsOfRound(AFTER_MAGIC, s[0]);
        Search(low'', low', low);
      }
    }
  }
}
