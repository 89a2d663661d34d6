/** `memory::buffer` and `proto::packet`: a growing byte buffer with a read and a write
    pointer into it.  A pointer is an allocation and an index; `realloc` gives a new one. */
module Packets {
  import opened Bytes

  /** `memory::buffer` of src/memory/shared_buffer.cpp. */
  class Buffer {
    var mem: array<Byte>
    var offset: nat

    ghost predicate Valid()
      reads this
    {
      offset <= mem.Length < WORD_LIMIT
    }

    constructor (size: Word)
      ensures Valid() && fresh(mem) && mem.Length == size && offset == 0
    {
      mem := new Byte[size];
      offset := 0;
    }

    function Size(): nat
      reads this
      requires Valid()
    {
      mem.Length - offset
    }

    /** The new size is a `uint32_t`: past 2^32 it wraps around, and the content is cut. */
    method EnsureCapacity(size: Word)
      requires Valid()
      modifies this
      ensures fresh(mem) && offset == old(offset)
      ensures mem.Length == (old(mem.Length) + size) % WORD_LIMIT
      ensures var kept := Min(old(mem.Length), mem.Length); mem[..kept] == old(mem[..])[..kept]
      ensures old(mem.Length) + size < WORD_LIMIT ==> Valid() && mem[..old(mem.Length)] == old(mem[..])
    {
      var was := mem;
      var grown := new Byte[(was.Length + size) % WORD_LIMIT];
      var kept := Min(was.Length, grown.Length);
      forall i | 0 <= i < kept {
        grown[i] := was[i];
      }
      mem := grown;
    }

    method SetOffset(o: Word)
      requires Valid()
      modifies this
      ensures Valid() && mem == old(mem)
      ensures offset == if o < mem.Length then o else old(offset)
    {
      if o < mem.Length {
        offset := o;
      }
    }
  }

  // ---------- what is written and how it is read back ----------

  /** The values that the interface writes and reads one at a time. */
  datatype Item = ByteItem(b: Byte) | WordItem(w: Word) | StringItem(s: seq<Byte>)
  datatype Kind = AByte | AWord | AString

  predicate Writable(x: Item) {
    x.StringItem? ==> |x.s| < WORD_LIMIT
  }

  function KindOf(x: Item): Kind {
    match x
    case ByteItem(_) => AByte
    case WordItem(_) => AWord
    case StringItem(_) => AString
  }

  function Encode(x: Item): seq<Byte>
    requires Writable(x)
  {
    match x
    case ByteItem(b) => [b]
    case WordItem(w) => EncodeWord(w)
    case StringItem(s) => EncodeWord(|s|) + s
  }

  /** A value and the bytes left behind it. */
  datatype Decoded = Decoded(item: Item, rest: seq<Byte>)

  /** `read<uint8_t>`, `read<uint32_t>` and `read_string`: a read that lacks bytes gives
      zero or the empty string and moves nothing. */
  function Decode(k: Kind, s: seq<Byte>): Decoded {
    match k
    case AByte => if |s| < 1 then Decoded(ByteItem(0), s) else Decoded(ByteItem(s[0]), s[1..])
    case AWord => if |s| < 4 then Decoded(WordItem(0), s) else Decoded(WordItem(DecodeWord(s[..4])), s[4..])
    case AString =>
      var n := if |s| < 4 then 0 else DecodeWord(s[..4]);
      var body := if |s| < 4 then s else s[4..];
      if |body| < n then Decoded(StringItem([]), body) else Decoded(StringItem(body[..n]), body[n..])
  }

  function EncodeAll(xs: seq<Item>): seq<Byte>
    requires forall x :: x in xs ==> Writable(x)
  {
    if xs == [] then [] else Encode(xs[0]) + EncodeAll(xs[1..])
  }

  datatype DecodedAll = DecodedAll(items: seq<Item>, rest: seq<Byte>)

  function DecodeAll(ks: seq<Kind>, s: seq<Byte>): DecodedAll {
    if ks == [] then DecodedAll([], s)
    else
      var d := Decode(ks[0], s);
      var more := DecodeAll(ks[1..], d.rest);
      DecodedAll([d.item] + more.items, more.rest)
  }

  function Kinds(xs: seq<Item>): (ks: seq<Kind>)
    ensures |ks| == |xs|
  {
    seq(|xs|, i requires 0 <= i < |xs| => KindOf(xs[i]))
  }

  /** Where the bytes of a value lie: words from their least significant byte on, and a string
      behind its length. */
  lemma EncodingLayout(x: Item, i: nat)
    requires Writable(x) && i < 4
    ensures x.ByteItem? ==> Encode(x) == [x.b]
    ensures x.WordItem? ==> |Encode(x)| == 4 && Encode(x)[i] == x.w / Pow2(8 * i) % 0x100
    ensures x.StringItem? ==>
              && |Encode(x)| == 4 + |x.s| && Encode(x)[4..] == x.s
              && Encode(x)[i] == |x.s| / Pow2(8 * i) % 0x100
  {
    hide Pow2;
    match x
    case ByteItem(_) =>
    case WordItem(w) => WordLayout(w, i);
    case StringItem(s) => WordLayout(|s|, i);
  }

  /** A value whose bytes are not there reads as zero or as the empty string; of a string with
      too few bytes behind it the length is consumed, of everything else nothing. */
  lemma ShortReads(s: seq<Byte>, n: Word)
    ensures Decode(AByte, []) == Decoded(ByteItem(0), [])
    ensures |s| < 4 ==> Decode(AWord, s) == Decoded(WordItem(0), s)
    ensures |s| < 4 ==> Decode(AString, s) == Decoded(StringItem([]), s)
    ensures |s| < n ==> Decode(AString, EncodeWord(n) + s) == Decoded(StringItem([]), s)
  {
    DecodeEncodeWord(n);
    var t := EncodeWord(n) + s;
    assert t[..4] == EncodeWord(n) && t[4..] == s;
    assert s[..0] == [] && s[0..] == s;
  }

  lemma DecodeEncode(x: Item, more: seq<Byte>)
    requires Writable(x)
    ensures Decode(KindOf(x), Encode(x) + more) == Decoded(x, more)
  {
    var s := Encode(x) + more;
    match x
    case ByteItem(b) =>
      assert s[1..] == more;
    case WordItem(w) =>
      assert s[..4] == EncodeWord(w) && s[4..] == more;
      DecodeEncodeWord(w);
    case StringItem(str) =>
      assert s[..4] == EncodeWord(|str|) && s[4..] == str + more;
      DecodeEncodeWord(|str|);
      assert (str + more)[..|str|] == str && (str + more)[|str|..] == more;
  }

  /** Reading with the schema it was written with gives the list back and leaves nothing. */
  lemma {:induction false} DecodeAllEncodeAll(xs: seq<Item>, more: seq<Byte>)
    requires forall x :: x in xs ==> Writable(x)
    ensures DecodeAll(Kinds(xs), EncodeAll(xs) + more) == DecodedAll(xs, more)
  {
    if xs == [] {
      assert [] + more == more;
    } else {
      assert Kinds(xs)[1..] == Kinds(xs[1..]);
      Assoc(Encode(xs[0]), EncodeAll(xs[1..]), more);
      DecodeEncode(xs[0], EncodeAll(xs[1..]) + more);
      DecodeAllEncodeAll(xs[1..], more);
    }
  }

  lemma {:induction false} EncodeAllConcat(xs: seq<Item>, ys: seq<Item>)
    requires forall x :: x in xs + ys ==> Writable(x)
    ensures forall x :: x in xs ==> Writable(x)
    ensures forall y :: y in ys ==> Writable(y)
    ensures EncodeAll(xs + ys) == EncodeAll(xs) + EncodeAll(ys)
  {
    forall x | x in xs
      ensures Writable(x)
    {
      assert x in xs + ys;
    }
    forall y | y in ys
      ensures Writable(y)
    {
      assert y in xs + ys;
    }
    if xs == [] {
      assert xs + ys == ys;
    } else {
      assert (xs + ys)[1..] == xs[1..] + ys;
      EncodeAllConcat(xs[1..], ys);
      Assoc(Encode(xs[0]), EncodeAll(xs[1..]), EncodeAll(ys));
    }
  }

  // ---------- how the capacity grows ----------

  const INITIAL_CAPACITY := 4096

  /** The capacity after a write of `n` bytes behind `used` bytes. */
  function Grown(capacity: nat, used: nat, n: nat): nat {
    if capacity - used < n then capacity + n else capacity
  }

  /** The capacity after several writes. */
  function CapacityAfter(capacity: nat, used: nat, sizes: seq<nat>): nat
    decreases |sizes|
  {
    if sizes == [] then capacity
    else CapacityAfter(Grown(capacity, used, sizes[0]), used + sizes[0], sizes[1..])
  }

  function Sum(sizes: seq<nat>): nat {
    if sizes == [] then 0 else sizes[0] + Sum(sizes[1..])
  }

  lemma {:induction false} CapacityAfterConcat(capacity: nat, used: nat, ms: seq<nat>, ns: seq<nat>)
    ensures CapacityAfter(capacity, used, ms + ns)
            == CapacityAfter(CapacityAfter(capacity, used, ms), used + Sum(ms), ns)
    decreases |ms|
  {
    if ms == [] {
      assert ms + ns == ns;
    } else {
      assert (ms + ns)[1..] == ms[1..] + ns;
      CapacityAfterConcat(Grown(capacity, used, ms[0]), used + ms[0], ms[1..], ns);
    }
  }

  lemma {:induction false} CapacityNeverShrinks(capacity: nat, used: nat, sizes: seq<nat>)
    ensures capacity <= CapacityAfter(capacity, used, sizes)
    decreases |sizes|
  {
    if sizes != [] {
      CapacityNeverShrinks(Grown(capacity, used, sizes[0]), used + sizes[0], sizes[1..]);
    }
  }

  /** No write of a list overflows the 32-bit capacity exactly when the last capacity is
      below 2^32, which the lengths alone determine. */
  lemma NoOverflowIff(capacity: nat, used: nat, sizes: seq<nat>)
    ensures CapacityAfter(capacity, used, sizes) < WORD_LIMIT
            <==> forall k: nat :: k <= |sizes| ==> CapacityAfter(capacity, used, sizes[..k]) < WORD_LIMIT
  {
    hide CapacityAfter;
    assert sizes[..|sizes|] == sizes;
    forall k: nat | k <= |sizes|
      ensures CapacityAfter(capacity, used, sizes[..k]) <= CapacityAfter(capacity, used, sizes)
    {
      assert sizes == sizes[..k] + sizes[k..];
      CapacityAfterConcat(capacity, used, sizes[..k], sizes[k..]);
      CapacityNeverShrinks(CapacityAfter(capacity, used, sizes[..k]), used + Sum(sizes[..k]), sizes[k..]);
    }
  }

  /** All that is written fits, with less to spare than the initial capacity or the largest
      single write. */
  lemma {:induction false} CapacityStaysClose(capacity: nat, used: nat, sizes: seq<nat>, largest: nat)
    requires used <= capacity <= used + largest
    requires forall i :: 0 <= i < |sizes| ==> sizes[i] <= largest
    ensures used + Sum(sizes) <= CapacityAfter(capacity, used, sizes) <= used + Sum(sizes) + largest
    decreases |sizes|
  {
    if sizes != [] {
      CapacityStaysClose(Grown(capacity, used, sizes[0]), used + sizes[0], sizes[1..], largest);
    }
  }

  /** The sizes of the single writes that a value makes. */
  function Writes(x: Item): seq<nat> {
    match x
    case ByteItem(_) => [1]
    case WordItem(_) => [4]
    case StringItem(s) => [4, |s|]
  }

  function AllWrites(xs: seq<Item>): seq<nat> {
    if xs == [] then [] else Writes(xs[0]) + AllWrites(xs[1..])
  }

  /** The capacity of a new packet after a list of values has been written to it. */
  function CapacityFor(xs: seq<Item>): nat {
    CapacityAfter(INITIAL_CAPACITY, 0, AllWrites(xs))
  }

  lemma WritesOfString(capacity: nat, used: nat, s: seq<Byte>)
    ensures CapacityAfter(capacity, used, Writes(StringItem(s)))
            == Grown(Grown(capacity, used, 4), used + 4, |s|)
    ensures Sum(Writes(StringItem(s))) == 4 + |s|
  {
    var ws, last: seq<nat> := Writes(StringItem(s)), [|s|];
    assert ws[1..] == last && last[1..] == [];
    assert Sum(last) == |s|;
    assert CapacityAfter(Grown(capacity, used, 4), used + 4, last)
        == CapacityAfter(Grown(Grown(capacity, used, 4), used + 4, |s|), used + 4 + |s|, []);
  }

  /** A total below 2^32 is not enough: two strings for which the capacity passes it. */
  lemma GrowthCanOverflow(s: seq<Byte>, t: seq<Byte>)
    requires |s| == |t| == 0x7FFF_FFF8
    ensures var xs := [StringItem(s), StringItem(t)];
            |EncodeAll(xs)| < WORD_LIMIT <= CapacityFor(xs)
  {
    var x, y := StringItem(s), StringItem(t);
    var c := Grown(Grown(INITIAL_CAPACITY, 0, 4), 4, |s|);
    WritesOfString(INITIAL_CAPACITY, 0, s);
    WritesOfString(c, 4 + |s|, t);
    CapacityAfterConcat(INITIAL_CAPACITY, 0, Writes(x), Writes(y));
    TwoItems(x, y);
  }

  lemma TwoItems(x: Item, y: Item)
    requires Writable(x) && Writable(y)
    ensures AllWrites([x, y]) == Writes(x) + Writes(y)
    ensures EncodeAll([x, y]) == Encode(x) + Encode(y)
  {
    hide Writes, Encode;
    assert [x, y][1..] == [y] && [y][1..] == [];
    assert AllWrites([y]) == Writes(y) + [] == Writes(y);
    assert EncodeAll([y]) == Encode(y) + [] == Encode(y);
  }

  // ---------- set_start ----------

  /** The buffer offset that `set_start` leaves, given where the read pointer stands. */
  function OffsetAfterSetStart(offset: nat, readPos: nat, capacity: nat): nat
    requires offset <= readPos
  {
    if readPos - offset < capacity then readPos - offset else offset
  }

  /** `set_start` moves the start to the read pointer exactly when it had not moved before
      and some of the buffer lies behind the read pointer (or there is no buffer). */
  lemma SetStartIsRightIff(offset: nat, readPos: nat, capacity: nat)
    requires offset <= readPos <= capacity
    ensures OffsetAfterSetStart(offset, readPos, capacity) == readPos
            <==> offset == 0 && (readPos < capacity || capacity == 0)
  {
  }

  lemma SliceOfFront(s: seq<Byte>, n: nat, i: nat, j: nat)
    requires i <= j <= n <= |s|
    ensures s[..n][i..j] == s[i..j]
  {
  }

  /** Writing behind position `w` appends to every slice that ends there. */
  lemma Appended(before: seq<Byte>, after: seq<Byte>, i: nat, w: nat, data: seq<Byte>)
    requires i <= w && w + |data| <= |before| == |after|
    requires forall k :: 0 <= k < w ==> after[k] == before[k]
    requires forall k :: 0 <= k < |data| ==> after[w + k] == data[k]
    ensures after[i..w + |data|] == before[i..w] + data
  {
    var s, t := after[i..w + |data|], before[i..w] + data;
    forall k | 0 <= k < |s|
      ensures s[k] == t[k]
    {
      if k >= w - i {
        assert after[w + (k - (w - i))] == data[k - (w - i)];
      }
    }
  }

  lemma SliceInTwo(s: seq<Byte>, i: nat, j: nat, k: nat)
    requires i <= j <= k <= |s|
    ensures s[i..k][..j - i] == s[i..j] && s[i..k][j - i..] == s[j..k]
  {
  }

  /** `proto::packet`. */
  class Packet {
    var buffer: Buffer
    // the allocations that the two pointers point into, and the indices
    var readMem: array<Byte>
    var readPos: nat
    var writePos: nat

    ghost predicate Valid()
      reads this, buffer
    {
      && buffer.Valid()
      && buffer.offset <= writePos <= buffer.mem.Length
    }

    /** The read pointer was not left behind by a growth of the buffer. */
    ghost predicate CanRead()
      reads this, buffer
    {
      && Valid()
      && readMem == buffer.mem
      && buffer.offset <= readPos <= writePos
    }

    /** The bytes of the packet: what `buffer()->data()` and `size()` show to others. */
    ghost function Written(): (s: seq<Byte>)
      reads this, buffer, buffer.mem
      requires Valid()
    {
      buffer.mem[buffer.offset..writePos]
    }

    /** The bytes that are still to be read. */
    ghost function Unread(): (s: seq<Byte>)
      reads this, buffer, buffer.mem
      requires CanRead()
    {
      buffer.mem[readPos..writePos]
    }

    constructor ()
      ensures CanRead() && Written() == [] && Unread() == []
      ensures fresh(buffer) && fresh(buffer.mem) && buffer.mem.Length == INITIAL_CAPACITY
      ensures buffer.offset == 0
    {
      var b := new Buffer(INITIAL_CAPACITY);
      buffer := b;
      readMem := b.mem;
      readPos, writePos := 0, 0;
    }

    /** Around bytes that were received. */
    constructor FromBuffer(b: Buffer)
      requires b.Valid()
      ensures buffer == b && CanRead()
      ensures Written() == b.mem[b.offset..] && Unread() == Written()
      ensures writePos == b.mem.Length
    {
      buffer := b;
      readMem := b.mem;
      readPos := b.offset;
      writePos := b.mem.Length;
    }

    method Size() returns (n: nat)
      requires Valid()
      ensures n == |Written()|
    {
      n := writePos - buffer.offset;
    }

    method ReadBytesleft() returns (n: nat)
      requires CanRead()
      ensures n == |Unread()|
    {
      n := writePos - buffer.offset - (readPos - buffer.offset);
    }

    method BeginRead()
      requires Valid()
      modifies this`readMem, this`readPos
      ensures CanRead() && Written() == old(Written()) && Unread() == Written()
    {
      readMem := buffer.mem;
      readPos := buffer.offset;
    }

    /** Makes the unread bytes the whole packet, as far as `set_offset` goes along. */
    method SetStart()
      requires CanRead()
      modifies this`readMem, this`readPos, buffer
      ensures buffer.Valid() && buffer.mem == old(buffer.mem)
      ensures buffer.offset == OffsetAfterSetStart(old(buffer.offset), old(readPos), buffer.mem.Length)
      ensures readMem == buffer.mem && readPos == buffer.offset
      ensures old(buffer.offset == 0 && Unread() != []) ==>
                CanRead() && Written() == old(Unread()) && Unread() == Written()
    {
      buffer.SetOffset(readPos - buffer.offset);
      readMem := buffer.mem;
      readPos := buffer.offset;
    }

    /** Room for `length` more bytes, with earlier content kept, exactly if the capacity stays
        below 2^32. */
    method EnsureCapacity(length: Word)
      requires Valid()
      modifies this`writePos, buffer
      ensures buffer.offset == old(buffer.offset) && writePos == old(writePos)
      ensures buffer.mem == old(buffer.mem) || fresh(buffer.mem)
      ensures old(buffer.mem.Length) - writePos >= length ==> buffer.mem == old(buffer.mem)
      ensures buffer.mem.Length == Grown(old(buffer.mem.Length), writePos, length) % WORD_LIMIT
      ensures buffer.mem.Length - writePos >= length
              <==> Grown(old(buffer.mem.Length), writePos, length) < WORD_LIMIT
      ensures Grown(old(buffer.mem.Length), writePos, length) < WORD_LIMIT ==>
                Valid() && Written() == old(Written())
      ensures Grown(old(buffer.mem.Length), writePos, length) >= WORD_LIMIT ==>
                buffer.mem.Length < old(buffer.mem.Length)
                && buffer.mem[..] == old(buffer.mem[..])[..buffer.mem.Length]
    {
      if buffer.Size() - (writePos - buffer.offset) < length {
        var oldSize := writePos - buffer.offset;
        var was := buffer.mem;
        buffer.EnsureCapacity(length);
        if was.Length + length < WORD_LIMIT {
          SliceOfFront(buffer.mem[..], was.Length, buffer.offset, writePos);
        }
        writePos := buffer.offset + oldSize;
      }
    }

    method WriteData(data: seq<Byte>)
      requires |data| < WORD_LIMIT
      requires Valid() && Grown(buffer.mem.Length, writePos, |data|) < WORD_LIMIT
      modifies this`writePos, buffer, buffer.mem
      ensures Valid() && Written() == old(Written()) + data
      ensures buffer.offset == old(buffer.offset) && writePos == old(writePos) + |data|
      ensures buffer.mem.Length == Grown(old(buffer.mem.Length), old(writePos), |data|)
      ensures buffer.mem == old(buffer.mem) || fresh(buffer.mem)
      ensures old(CanRead()) && buffer.mem == old(buffer.mem) ==>
                CanRead() && Unread() == old(Unread()) + data
    {
      EnsureCapacity(|data|);
      ghost var before := buffer.mem[..];
      var m, w := buffer.mem, writePos;
      forall i | 0 <= i < |data| {
        m[w + i] := data[i];
      }
      writePos := w + |data|;
      Appended(before, m[..], buffer.offset, w, data);
      if buffer.offset <= readPos <= w {
        Appended(before, m[..], readPos, w, data);
      }
    }

    method ReadData(length: nat) returns (ok: bool, data: seq<Byte>)
      requires CanRead()
      modifies this`readPos
      ensures CanRead() && Written() == old(Written())
      ensures ok <==> |old(Unread())| >= length
      ensures ok ==> data == old(Unread())[..length] && Unread() == old(Unread())[length..]
      ensures !ok ==> data == [] && Unread() == old(Unread())
    {
      var left := ReadBytesleft();
      if left < length {
        return false, [];
      }
      data := readMem[readPos..readPos + length];
      SliceInTwo(readMem[..], readPos, readPos + length, writePos);
      readPos := readPos + length;
      ok := true;
    }

    method ReadWord() returns (w: Word)
      requires CanRead()
      modifies this`readPos
      ensures CanRead() && Written() == old(Written())
      ensures Decoded(WordItem(w), Unread()) == Decode(AWord, old(Unread()))
    {
      var ok, data := ReadData(4);
      w := if ok then DecodeWord(data) else 0;
    }

    method ReadByte() returns (b: Byte)
      requires CanRead()
      modifies this`readPos
      ensures CanRead() && Written() == old(Written())
      ensures Decoded(ByteItem(b), Unread()) == Decode(AByte, old(Unread()))
    {
      var ok, data := ReadData(1);
      b := if ok then data[0] else 0;
    }

    method ReadString() returns (s: seq<Byte>)
      requires CanRead()
      modifies this`readPos
      ensures CanRead() && Written() == old(Written())
      ensures Decoded(StringItem(s), Unread()) == Decode(AString, old(Unread()))
    {
      var length := ReadWord();
      if length == 0 {
        assert Unread()[0..] == Unread();
        return [];
      }
      var ok, data := ReadData(length);
      s := data;
    }

    method WriteString(s: seq<Byte>)
      requires |s| < WORD_LIMIT && Valid()
      requires var c := Grown(buffer.mem.Length, writePos, 4);
               c < WORD_LIMIT && Grown(c, writePos + 4, |s|) < WORD_LIMIT
      modifies this`writePos, buffer, buffer.mem
      ensures Valid() && Written() == old(Written()) + Encode(StringItem(s))
      ensures buffer.offset == old(buffer.offset) && writePos == old(writePos) + 4 + |s|
      ensures buffer.mem.Length
              == Grown(Grown(old(buffer.mem.Length), old(writePos), 4), old(writePos) + 4, |s|)
      ensures buffer.mem == old(buffer.mem) || fresh(buffer.mem)
    {
      WriteData(EncodeWord(|s|));
      WriteData(s);
      Assoc(old(Written()), EncodeWord(|s|), s);
    }
  }

  method WriteItem(p: Packet, x: Item)
    requires p.Valid() && Writable(x)
    requires CapacityAfter(p.buffer.mem.Length, p.writePos, Writes(x)) < WORD_LIMIT
    modifies p`writePos, p.buffer, p.buffer.mem
    ensures p.Valid() && p.Written() == old(p.Written()) + Encode(x)
    ensures p.buffer.offset == old(p.buffer.offset)
    ensures p.writePos == old(p.writePos) + Sum(Writes(x))
    ensures p.buffer.mem.Length == CapacityAfter(old(p.buffer.mem.Length), old(p.writePos), Writes(x))
    ensures p.buffer.mem == old(p.buffer.mem) || fresh(p.buffer.mem)
  {
    match x
    case ByteItem(b) =>
      p.WriteData([b]);
    case WordItem(w) =>
      p.WriteData(EncodeWord(w));
    case StringItem(s) =>
      WritesOfString(p.buffer.mem.Length, p.writePos, s);
      p.WriteString(s);
  }

  method ReadItem(p: Packet, k: Kind) returns (x: Item)
    requires p.CanRead()
    modifies p`readPos
    ensures p.CanRead() && p.Written() == old(p.Written())
    ensures Decoded(x, p.Unread()) == Decode(k, old(p.Unread()))
  {
    match k
    case AByte => var b := p.ReadByte(); x := ByteItem(b);
    case AWord => var w := p.ReadWord(); x := WordItem(w);
    case AString => var s := p.ReadString(); x := StringItem(s);
  }

  lemma EncodeAllNext(xs: seq<Item>, i: nat)
    requires forall x :: x in xs ==> Writable(x)
    requires i < |xs|
    ensures EncodeAll(xs[..i + 1]) == EncodeAll(xs[..i]) + Encode(xs[i])
  {
    hide Encode;
    EncodeAllConcat(xs[..i], [xs[i]]);
    assert xs[..i + 1] == xs[..i] + [xs[i]];
    assert [xs[i]][1..] == [];
    assert Encode(xs[i]) + [] == Encode(xs[i]);
  }

  lemma {:induction false} AllWritesConcat(xs: seq<Item>, ys: seq<Item>)
    ensures AllWrites(xs + ys) == AllWrites(xs) + AllWrites(ys)
  {
    if xs == [] {
      assert xs + ys == ys;
    } else {
      assert (xs + ys)[1..] == xs[1..] + ys;
      AllWritesConcat(xs[1..], ys);
    }
  }

  lemma {:induction false} SumConcat(ms: seq<nat>, ns: seq<nat>)
    ensures Sum(ms + ns) == Sum(ms) + Sum(ns)
  {
    if ms == [] {
      assert ms + ns == ns;
    } else {
      assert (ms + ns)[1..] == ms[1..] + ns;
      SumConcat(ms[1..], ns);
    }
  }

  /** The capacity and the length after one more value. */
  lemma CapacityNext(xs: seq<Item>, i: nat)
    requires i < |xs|
    ensures CapacityFor(xs[..i + 1])
            == CapacityAfter(CapacityFor(xs[..i]), Sum(AllWrites(xs[..i])), Writes(xs[i])) <= CapacityFor(xs)
    ensures Sum(AllWrites(xs[..i + 1])) == Sum(AllWrites(xs[..i])) + Sum(Writes(xs[i]))
  {
    hide CapacityAfter, Sum, Writes;
    assert xs[..i + 1] == xs[..i] + [xs[i]];
    assert [xs[i]][1..] == [] && AllWrites([xs[i]]) == Writes(xs[i]);
    AllWritesConcat(xs[..i], [xs[i]]);
    CapacityAfterConcat(INITIAL_CAPACITY, 0, AllWrites(xs[..i]), Writes(xs[i]));
    SumConcat(AllWrites(xs[..i]), Writes(xs[i]));
    assert xs == xs[..i + 1] + xs[i + 1..];
    AllWritesConcat(xs[..i + 1], xs[i + 1..]);
    CapacityAfterConcat(INITIAL_CAPACITY, 0, AllWrites(xs[..i + 1]), AllWrites(xs[i + 1..]));
    CapacityNeverShrinks(CapacityFor(xs[..i + 1]), Sum(AllWrites(xs[..i + 1])), AllWrites(xs[i + 1..]));
  }

  method WriteAll(xs: seq<Item>) returns (p: Packet)
    requires forall x :: x in xs ==> Writable(x)
    requires CapacityFor(xs) < WORD_LIMIT
    ensures fresh(p) && p.Valid() && p.Written() == EncodeAll(xs)
    ensures p.buffer.mem.Length == CapacityFor(xs)
  {
    hide Encode;
    assert EncodeAll(xs[..0]) == [] && AllWrites(xs[..0]) == [] && Sum([]) == 0;
    assert CapacityFor(xs[..0]) == INITIAL_CAPACITY;
    hide EncodeAll, Writable, CapacityFor, CapacityAfter, AllWrites, Sum, Writes;
    p := new Packet();
    for i := 0 to |xs|
      invariant fresh(p) && fresh(p.buffer) && fresh(p.buffer.mem)
      invariant p.Valid() && p.buffer.offset == 0
      invariant p.Written() == EncodeAll(xs[..i])
      invariant p.buffer.mem.Length == CapacityFor(xs[..i])
      invariant p.writePos == Sum(AllWrites(xs[..i]))
    {
      EncodeAllNext(xs, i);
      CapacityNext(xs, i);
      WriteItem(p, xs[i]);
    }
    assert xs[..|xs|] == xs;
  }

  /** Two strings, shorter than 2^32 together.  The first is written and the length of the
      second; making room for the second then cuts the buffer to 4080 bytes, far below the
      write pointer, where it is about to be copied. */
  method RunsOutOfRoom(s: seq<Byte>, t: seq<Byte>) returns (p: Packet)
    requires |s| == |t| == 0x7FFF_FFF8
    ensures fresh(p) && p.writePos == 0x8000_0000 && p.buffer.mem.Length == 4080
    ensures p.buffer.mem[..] == (Encode(StringItem(s)) + EncodeWord(|t|))[..4080]
  {
    ghost var written := Encode(StringItem(s)) + EncodeWord(|t|);
    assert |written| == 0x8000_0000;
    p := new Packet();
    assert p.Valid() && p.writePos == 0 && fresh(p.buffer) && fresh(p.buffer.mem);
    WriteTwo(p, s, |t|);
    hide Encode;
    ghost var before := p.buffer.mem[..];
    assert p.Written() == before[0..p.writePos] == written;
    p.EnsureCapacity(|t|);
    SliceOfFront(before, 0x8000_0000, 0, 4080);
    assert before[..4080] == before[0..4080] && written[..4080] == written[0..4080];
    assert before[..0x8000_0000] == written;
  }

  /** A string and a word behind each other in a new packet. */
  method WriteTwo(p: Packet, s: seq<Byte>, w: Word)
    requires p.Valid() && p.writePos == 0 == p.buffer.offset && p.buffer.mem.Length == INITIAL_CAPACITY
    requires INITIAL_CAPACITY <= |s| < WORD_LIMIT - INITIAL_CAPACITY
    modifies p`writePos, p.buffer, p.buffer.mem
    ensures p.Valid() && p.buffer.offset == 0 && p.writePos == 8 + |s|
    ensures p.Written() == Encode(StringItem(s)) + EncodeWord(w)
    ensures p.buffer.mem.Length == INITIAL_CAPACITY + |s|
    ensures p.buffer.mem == old(p.buffer.mem) || fresh(p.buffer.mem)
  {
    p.WriteString(s);
    p.WriteData(EncodeWord(w));
    assert [] + Encode(StringItem(s)) == Encode(StringItem(s));
  }

  method ReadAll(p: Packet, ks: seq<Kind>) returns (xs: seq<Item>)
    requires p.CanRead()
    modifies p`readPos
    ensures p.CanRead() && p.Written() == old(p.Written())
    ensures DecodedAll(xs, p.Unread()) == DecodeAll(ks, old(p.Unread()))
  {
    hide Decode;
    xs := [];
    ghost var all := p.Unread();
    for i := 0 to |ks|
      invariant p.CanRead() && p.Written() == old(p.Written())
      invariant DecodeAll(ks, all)
                == DecodedAll(xs + DecodeAll(ks[i..], p.Unread()).items,
                              DecodeAll(ks[i..], p.Unread()).rest)
    {
      assert ks[i..][1..] == ks[i + 1..];
      ghost var before := DecodeAll(ks[i..], p.Unread());
      var x := ReadItem(p, ks[i]);
      Assoc(xs, [x], DecodeAll(ks[i + 1..], p.Unread()).items);
      xs := xs + [x];
    }
    assert xs + [] == xs;
  }

  /** Write phase, `begin_read`, read phase, across any number of growths: the list comes
      back and no byte is left. */
  method WriteThenRead(xs: seq<Item>) returns (back: seq<Item>, left: nat)
    requires forall x :: x in xs ==> Writable(x)
    requires CapacityFor(xs) < WORD_LIMIT
    ensures back == xs && left == 0
  {
    hide Encode, Decode, EncodeAll, DecodeAll, CapacityFor;
    var p := WriteAll(xs);
    p.BeginRead();
    back := ReadAll(p, Kinds(xs));
    DecodeAllEncodeAll(xs, []);
    assert EncodeAll(xs) + [] == EncodeAll(xs);
    left := p.ReadBytesleft();
  }
}
