/** Bytes, 32-bit words and the little-endian layout in which words sit in memory. */
module Bytes {

  type Byte = x: int | 0 <= x < 0x100

  const WORD_LIMIT := 0x1_0000_0000
  const INT32_MAX := 0x7FFF_FFFF

  type Word = x: int | 0 <= x < 0x1_0000_0000

  datatype Option<+T> = None | Some(value: T)

  /** The four bytes of a `uint32_t`, least significant first. */
  function EncodeWord(w: Word): (s: seq<Byte>)
    ensures |s| == 4
  {
    [w % 0x100, w / 0x100 % 0x100, w / 0x100 / 0x100 % 0x100, w / 0x100 / 0x100 / 0x100]
  }

  function DecodeWord(s: seq<Byte>): Word
    requires |s| == 4
  {
    s[0] as int + 0x100 * (s[1] as int + 0x100 * (s[2] as int + 0x100 * (s[3] as int)))
  }

  lemma DecodeEncodeWord(w: Word)
    ensures DecodeWord(EncodeWord(w)) == w
  {
    var w1 := w / 0x100;
    var w2 := w1 / 0x100;
    assert w == w % 0x100 + 0x100 * w1;
    assert w1 == w1 % 0x100 + 0x100 * w2;
    assert w2 == w2 % 0x100 + 0x100 * (w2 / 0x100);
  }

  /** The layout, stated on its own: the byte at offset `i` has the weight 256 to the `i`. */
  lemma WordLayout(w: Word, i: nat)
    requires i < 4
    ensures EncodeWord(w)[i] == w / Pow2(8 * i) % 0x100
  {
    assert Pow2(8) == 0x100;
    assert Pow2(16) == 0x1_0000;
    assert Pow2(24) == 0x100_0000;
    assert w / 0x100 / 0x100 == w / 0x1_0000;
    assert w / 0x1_0000 / 0x100 == w / 0x100_0000;
  }

  lemma WordValue(s: seq<Byte>)
    requires |s| == 4
    ensures DecodeWord(s) == s[0] as int + 0x100 * s[1] as int + 0x1_0000 * s[2] as int + 0x100_0000 * s[3] as int
  {
  }

  lemma SplitByte(b: Byte, rest: nat)
    ensures (b as int + 0x100 * rest) % 0x100 == b && (b as int + 0x100 * rest) / 0x100 == rest
  {
  }

  lemma EncodeDecodeWord(s: seq<Byte>)
    requires |s| == 4
    ensures EncodeWord(DecodeWord(s)) == s
  {
    SplitByte(s[2], s[3]);
    SplitByte(s[1], s[2] as int + 0x100 * (s[3] as int));
    SplitByte(s[0], s[1] as int + 0x100 * (s[2] as int + 0x100 * (s[3] as int)));
  }

  /** Two four-byte strings hold the same word only if they are the same bytes. */
  lemma DecodeWordInjective(s: seq<Byte>, t: seq<Byte>)
    requires |s| == 4 && |t| == 4 && DecodeWord(s) == DecodeWord(t)
    ensures s == t
  {
    EncodeDecodeWord(s);
    EncodeDecodeWord(t);
  }

  lemma Assoc<T>(a: seq<T>, b: seq<T>, c: seq<T>)
    ensures a + (b + c) == (a + b) + c
  {
  }

  function Min(a: int, b: int): int {
    if a < b then a else b
  }

  function Pow2(k: nat): (p: nat)
    ensures p > 0
  {
    if k == 0 then 1 else 2 * Pow2(k - 1)
  }
}
