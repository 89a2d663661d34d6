/** The frame layout of inc/networkio/proto/packet_proto.h: a 12-byte header holding the
    magic word, the payload size and a hash of those 8 bytes, then the payload. */
module Framing {
  import opened Bytes
  import opened Fnv1a
  import opened FixedRounds

  const MAGIC: Word := 0xFF
  const HEADER_SIZE := 12

  // Whatever a size field can announce.
  type Payload = p: seq<Byte> | |p| < 0x1_0000_0000

  /** The part of the header that is hashed. */
  function HeaderFields(size: Word): seq<Byte> {
    EncodeWord(MAGIC) + EncodeWord(size)
  }

  function Header(size: Word): (h: seq<Byte>)
    ensures |h| == HEADER_SIZE
  {
    HeaderFields(size) + EncodeWord(Hash(HeaderFields(size)))
  }

  /** The size word of a header, whether or not that header is valid. */
  function HeaderSize(h: seq<Byte>): Word
    requires |h| == HEADER_SIZE
  {
    DecodeWord(h[4..8])
  }

  /** `is_valid_pkt_header`. */
  predicate ValidHeader(h: seq<Byte>)
    requires |h| == HEADER_SIZE
  {
    DecodeWord(h[..4]) == MAGIC && Hash(h[..8]) == DecodeWord(h[8..])
  }

  function Frame(p: Payload): seq<Byte> {
    Header(|p|) + p
  }

  function Frames(ps: seq<Payload>): seq<Byte> {
    if ps == [] then [] else Frame(ps[0]) + Frames(ps[1..])
  }

  /** The receiver's test accepts a 12-byte string exactly when the sender could have
      written it, and then reads back the size that was written. */
  lemma ValidHeaderIffWritten(h: seq<Byte>)
    requires |h| == HEADER_SIZE
    ensures ValidHeader(h) <==> h == Header(HeaderSize(h))
  {
    var size := HeaderSize(h);
    HeaderIsValid(size);
    EncodeDecodeWord(h[..4]);
    EncodeDecodeWord(h[4..8]);
    EncodeDecodeWord(h[8..]);
    assert h == h[..4] + h[4..8] + h[8..];
    assert h[..8] == h[..4] + h[4..8];
  }

  lemma HeaderIsValid(size: Word)
    ensures ValidHeader(Header(size)) && HeaderSize(Header(size)) == size
  {
    var h := Header(size);
    assert h[..4] == EncodeWord(MAGIC);
    assert h[4..8] == EncodeWord(size);
    assert h[..8] == HeaderFields(size);
    assert h[8..] == EncodeWord(Hash(HeaderFields(size)));
    DecodeEncodeWord(MAGIC);
    DecodeEncodeWord(size);
    DecodeEncodeWord(Hash(HeaderFields(size)));
  }

  /** The bytes of a header, one by one: 0xFF and three zeros, then the size and the hash of
      these eight bytes, each from its least significant byte on. */
  lemma HeaderLayout(size: Word, i: nat)
    requires i < 4
    ensures var h := Header(size);
            && h[i] == (if i == 0 then 0xFF else 0)
            && h[4 + i] == size / Pow2(8 * i) % 0x100
            && h[8 + i] == Hash(h[..8]) / Pow2(8 * i) % 0x100
  {
    hide Hash, Pow2;
    var h := Header(size);
    assert h[..8] == HeaderFields(size);
    MagicLayout();
    WordLayout(size, i);
    WordLayout(Hash(HeaderFields(size)), i);
  }

  lemma MagicLayout()
    ensures EncodeWord(MAGIC) == [0xFF, 0, 0, 0]
  {
  }

  lemma HeaderInjective(m: Word, n: Word)
    requires Header(m) == Header(n)
    ensures m == n
  {
    HeaderIsValid(m);
    HeaderIsValid(n);
  }

  lemma {:induction false} FramesConcat(ps: seq<Payload>, qs: seq<Payload>)
    ensures Frames(ps + qs) == Frames(ps) + Frames(qs)
  {
    if ps == [] {
      assert ps + qs == qs;
    } else {
      assert (ps + qs)[1..] == ps[1..] + qs;
      FramesConcat(ps[1..], qs);
    }
  }

  lemma FramesOne(p: Payload)
    ensures Frames([p]) == Frame(p)
  {
    assert [p][1..] == [];
  }

  // ---------- corruption of a header ----------

  /** The accumulator just before byte `i` of the header fields. */
  function HashBefore(h: seq<Byte>, i: nat): Word
    requires i <= |h|
  {
    Rounds(FNV1A_BIAS, h[..i])
  }

  /** Changing one byte of a valid header is noticed unless it turns a size byte from or into
      zero where the round that appears or disappears would leave the accumulator alone. */
  lemma CaughtUnlessStationary(h: seq<Byte>, i: nat, b: Byte)
    requires |h| == HEADER_SIZE && ValidHeader(h)
    requires i < HEADER_SIZE && b != h[i]
    ensures ValidHeader(h[i := b])
            <==> && 4 <= i < 8
                 && ((h[i] == 0 && Step(HashBefore(h, i), b) == HashBefore(h, i))
                     || (b == 0 && Step(HashBefore(h, i), h[i]) == HashBefore(h, i)))
  {
    var c := h[i := b];
    if i < 4 {
      assert c[..4][i] != h[..4][i];
      if DecodeWord(c[..4]) == DecodeWord(h[..4]) {
        DecodeWordInjective(c[..4], h[..4]);
      }
    } else if i < 8 {
      assert c[..4] == h[..4] && c[8..] == h[8..];
      assert c[..8] == h[..8][i := b];
      assert h[..8][..i] == h[..i];
      HashAfterOneChange(h[..8], i, b);
      var g := HashBefore(h, i);
      if h[i] != 0 && b != 0 && Step(g, b) == Step(g, h[i]) {
        StepInjectiveInByte(g, b, h[i]);
      }
    } else {
      assert c[..8] == h[..8] && c[..4] == h[..4];
      assert c[8..][i - 8] != h[8..][i - 8];
      if DecodeWord(c[8..]) == DecodeWord(h[8..]) {
        DecodeWordInjective(c[8..], h[8..]);
      }
    }
  }

  /** No hash round is stationary where the size bytes are hashed, so every change of a
      single byte of a valid header is caught. */
  lemma SingleByteCorruptionCaught(h: seq<Byte>, i: nat, b: Byte)
    requires |h| == HEADER_SIZE && ValidHeader(h)
    requires i < HEADER_SIZE && b != h[i]
    ensures !ValidHeader(h[i := b])
  {
    hide ValidHeader, HashBefore, Step;
    CaughtUnlessStationary(h, i, b);
    if 4 <= i < 8 {
      HashBeforeSize(h, i);
      NonZeroHasNoZero(h[4..i]);
      if h[i] == 0 {
        NoFixedRound(NonZero(h[4..i]), b);
      } else if b == 0 {
        NoFixedRound(NonZero(h[4..i]), h[i]);
      }
    }
  }

  lemma HashBeforeSize(h: seq<Byte>, i: nat)
    requires |h| == HEADER_SIZE && ValidHeader(h) && 4 <= i < 8
    ensures HashBefore(h, i) == Rounds(AFTER_MAGIC, NonZero(h[4..i]))
  {
    hide Step, Rounds, NonZero, Hash;
    EncodeDecodeWord(h[..4]);
    assert h[..i] == [0xFF, 0, 0, 0] + h[4..i];
    RoundsConcat(FNV1A_BIAS, [0xFF, 0, 0, 0], h[4..i]);
    RoundsAfterOne(0xFF);
    AfterMagic();
    RoundsIgnoreZeros(AFTER_MAGIC, h[4..i]);
  }

  lemma {:induction false} NonZeroHasNoZero(s: seq<Byte>)
    ensures 0 !in NonZero(s) && |NonZero(s)| <= |s|
    decreases |s|
  {
    if s != [] {
      NonZeroHasNoZero(s[..|s| - 1]);
    }
  }

  lemma RoundsAfterOne(b: Byte)
    ensures Rounds(FNV1A_BIAS, [b, 0, 0, 0]) == Step(FNV1A_BIAS, b)
  {
    hide XorWord, TimesPrime;
    RoundsOne(FNV1A_BIAS, b);
    assert [b, 0, 0, 0][..3] == [b, 0, 0];
    assert [b, 0, 0][..2] == [b, 0];
    assert [b, 0][..1] == [b];
    assert Rounds(FNV1A_BIAS, [b, 0]) == Rounds(FNV1A_BIAS, [b]);
    assert Rounds(FNV1A_BIAS, [b, 0, 0]) == Rounds(FNV1A_BIAS, [b, 0]);
  }

  /** Corrupting two bytes can escape: exchanging a zero size byte with its neighbour is
      never noticed, since the zero is not hashed. */
  lemma ExchangeWithZeroEscapes(h: seq<Byte>, i: nat)
    requires |h| == HEADER_SIZE && ValidHeader(h)
    requires 4 <= i < 7 && (h[i] == 0 || h[i + 1] == 0)
    ensures ValidHeader(h[i := h[i + 1]][i + 1 := h[i]])
  {
    hide Rounds, Step, NonZero;
    var c := h[i := h[i + 1]][i + 1 := h[i]];
    var before, s, t, after := h[..i], h[i..i + 2], c[i..i + 2], h[i + 2..8];
    assert h[..8] == before + (s + after);
    assert c[..8] == before + (t + after);
    assert c[..4] == h[..4] && c[8..] == h[8..];
    if h[i] == 0 {
      SameNonZeroBytes([h[i + 1]]);
      assert s == [0] + [h[i + 1]] && t == [h[i + 1]] + [0];
    } else {
      SameNonZeroBytes([h[i]]);
      assert s == [h[i]] + [0] && t == [0] + [h[i]];
    }
    NonZeroConcat(s, after);
    NonZeroConcat(t, after);
    HashSeesNonZeroOnly(before, s + after, t + after);
  }

  /** A size and the same size moved up by one byte have one hash. */
  lemma ShiftedSizeHasSameHash(size: Word)
    requires size < 0x100_0000
    ensures Hash(HeaderFields(0x100 * size)) == Hash(HeaderFields(size))
  {
    var low, high := EncodeWord(size), EncodeWord(0x100 * size);
    SameNonZeroBytes(low[..3]);
    assert low == low[..3] + [0] && high == [0] + low[..3];
    HashSeesNonZeroOnly(EncodeWord(MAGIC), low, high);
  }

  lemma SameNonZeroBytes(s: seq<Byte>)
    ensures NonZero(s + [0]) == NonZero([0] + s)
  {
    NonZeroConcat(s, [0]);
    NonZeroConcat([0], s);
    assert [0][..0] == [];
  }

  lemma HashSeesNonZeroOnly(before: seq<Byte>, s: seq<Byte>, t: seq<Byte>)
    requires before != [] && NonZero(s) == NonZero(t)
    ensures Hash(before + s) == Hash(before + t)
  {
    NonZeroConcat(before, s);
    NonZeroConcat(before, t);
    RoundsIgnoreZeros(FNV1A_BIAS, before + s);
    RoundsIgnoreZeros(FNV1A_BIAS, before + t);
  }

  lemma {:induction false} NonZeroConcat(s: seq<Byte>, t: seq<Byte>)
    ensures NonZero(s + t) == NonZero(s) + NonZero(t)
    decreases |t|
  {
    if t == [] {
      assert s + t == s;
    } else {
      assert (s + t)[..|s + t| - 1] == s + t[..|t| - 1];
      NonZeroConcat(s, t[..|t| - 1]);
    }
  }
}
