/** The ring buffer of src/memory/ring_buffer.cpp.  The source keeps, as comments, the naive
    byte-at-a-time loops that its two-`memcpy` code replaces; here those loops are the
    specification, and a queue of bytes is the specification of the loops. */
module RingBuffers {
  import opened Bytes

  // ---------- the naive loops ----------

  /** Memory and write offset after the loop
      `buffer[w] = buf[i]; w = (w + 1) % buffer_size`. */
  datatype Pushed = Pushed(mem: seq<Byte>, offs: nat)

  function NaivePush(mem: seq<Byte>, w: nat, data: seq<Byte>): (p: Pushed)
    requires data != [] ==> w < |mem|
    ensures |p.mem| == |mem|
    decreases |data|
  {
    if data == [] then Pushed(mem, w)
    else NaivePush(mem[w := data[0]], (w + 1) % |mem|, data[1..])
  }

  /** Bytes and read offset after the loop
      `buf[i] = buffer[r]; r = (r + 1) % buffer_size`. */
  datatype Popped = Popped(data: seq<Byte>, offs: nat)

  function NaivePop(mem: seq<Byte>, r: nat, n: nat): (p: Popped)
    requires n > 0 ==> r < |mem|
    ensures |p.data| == n
    decreases n
  {
    if n == 0 then Popped([], r)
    else
      var rest := NaivePop(mem, (r + 1) % |mem|, n - 1);
      Popped([mem[r]] + rest.data, rest.offs)
  }

  lemma ModWrap(x: nat, cap: nat)
    requires x < 2 * cap
    ensures x % cap == if x < cap then x else x - cap
  {
    if x >= cap {
      assert x == cap + (x - cap);
      ModAdd(x - cap, cap);
    }
  }

  lemma ModAdd(x: nat, cap: nat)
    requires x < cap
    ensures (cap + x) % cap == x
  {
  }

  // ---------- the two-memcpy code ----------

  /** `data` over `mem` from position `at`. */
  function Overwrite(mem: seq<Byte>, at: nat, data: seq<Byte>): (r: seq<Byte>)
    requires at + |data| <= |mem|
    ensures |r| == |mem|
  {
    mem[..at] + data + mem[at + |data|..]
  }

  function TwoCopyPush(mem: seq<Byte>, w: nat, data: seq<Byte>): Pushed
    requires w <= |mem| && |data| <= |mem|
  {
    var left := |mem| - w;
    if |data| < left then Pushed(Overwrite(mem, w, data), w + |data|)
    else if |data| > left then
      Pushed(Overwrite(Overwrite(mem, w, data[..left]), 0, data[left..]), |data| - left)
    else Pushed(Overwrite(mem, w, data), 0)
  }

  function TwoCopyPop(mem: seq<Byte>, r: nat, n: nat): Popped
    requires r <= |mem| && n <= |mem|
  {
    var left := |mem| - r;
    if n < left then Popped(mem[r..r + n], r + n)
    else if n > left then Popped(mem[r..] + mem[..n - left], n - left)
    else Popped(mem[r..r + n], 0)
  }

  /** The loop over a stretch that does not reach the end of the memory, or just reaches it. */
  lemma {:induction false} NaivePushStraight(mem: seq<Byte>, w: nat, data: seq<Byte>)
    requires w + |data| <= |mem| && (data != [] ==> w < |mem|)
    ensures NaivePush(mem, w, data)
            == Pushed(Overwrite(mem, w, data),
                      if data != [] && w + |data| == |mem| then 0 else w + |data|)
    decreases |data|
  {
    if data == [] {
      assert Overwrite(mem, w, data) == mem;
    } else {
      var mem' := mem[w := data[0]];
      ModWrap(w + 1, |mem|);
      if data[1..] == [] {
        assert data == [data[0]];
        assert Overwrite(mem, w, data) == mem';
        assert NaivePush(mem', (w + 1) % |mem|, []) == Pushed(mem', (w + 1) % |mem|);
      } else {
        NaivePushStraight(mem', w + 1, data[1..]);
        assert Overwrite(mem', w + 1, data[1..]) == Overwrite(mem, w, data);
      }
    }
  }

  lemma {:induction false} NaivePushSplit(mem: seq<Byte>, w: nat, a: seq<Byte>, b: seq<Byte>)
    requires a + b != [] ==> w < |mem|
    ensures a != [] ==> w < |mem|
    ensures b != [] ==> NaivePush(mem, w, a).offs < |mem|
    ensures NaivePush(mem, w, a + b) == NaivePush(NaivePush(mem, w, a).mem, NaivePush(mem, w, a).offs, b)
    decreases |a|
  {
    if a == [] {
      assert a + b == b;
    } else {
      assert (a + b)[1..] == a[1..] + b;
      NaivePushSplit(mem[w := a[0]], (w + 1) % |mem|, a[1..], b);
    }
  }

  /** The two copies write what the naive loop writes, and leave the same offset. */
  lemma TwoCopyPushIsNaive(mem: seq<Byte>, w: nat, data: seq<Byte>)
    requires w < |mem| && |data| <= |mem|
    ensures TwoCopyPush(mem, w, data) == NaivePush(mem, w, data)
  {
    var left := |mem| - w;
    if |data| <= left {
      NaivePushStraight(mem, w, data);
    } else {
      assert data == data[..left] + data[left..];
      NaivePushSplit(mem, w, data[..left], data[left..]);
      NaivePushStraight(mem, w, data[..left]);
      NaivePushStraight(Overwrite(mem, w, data[..left]), 0, data[left..]);
    }
  }

  lemma {:induction false} NaivePopStraight(mem: seq<Byte>, r: nat, n: nat)
    requires r + n <= |mem| && (n > 0 ==> r < |mem|)
    ensures NaivePop(mem, r, n)
            == Popped(mem[r..r + n], if n > 0 && r + n == |mem| then 0 else r + n)
    decreases n
  {
    if n > 0 {
      ModWrap(r + 1, |mem|);
      if n > 1 {
        NaivePopStraight(mem, r + 1, n - 1);
      } else {
        assert NaivePop(mem, (r + 1) % |mem|, 0) == Popped([], (r + 1) % |mem|);
      }
      assert mem[r..r + n] == [mem[r]] + mem[r + 1..r + n];
    }
  }

  lemma {:induction false} NaivePopSplit(mem: seq<Byte>, r: nat, m: nat, n: nat)
    requires m + n > 0 ==> r < |mem|
    ensures n > 0 ==> NaivePop(mem, r, m).offs < |mem|
    ensures NaivePop(mem, r, m + n)
            == Popped(NaivePop(mem, r, m).data + NaivePop(mem, NaivePop(mem, r, m).offs, n).data,
                      NaivePop(mem, NaivePop(mem, r, m).offs, n).offs)
    decreases m
  {
    if m == 0 {
      var p := NaivePop(mem, r, n);
      assert [] + p.data == p.data;
    } else {
      NaivePopSplit(mem, (r + 1) % |mem|, m - 1, n);
      var q := NaivePop(mem, (r + 1) % |mem|, m - 1);
      Assoc([mem[r]], q.data, NaivePop(mem, q.offs, n).data);
    }
  }

  lemma TwoCopyPopIsNaive(mem: seq<Byte>, r: nat, n: nat)
    requires r < |mem| && n <= |mem|
    ensures TwoCopyPop(mem, r, n) == NaivePop(mem, r, n)
  {
    hide NaivePop;
    var left := |mem| - r;
    if n <= left {
      NaivePopStraight(mem, r, n);
    } else {
      NaivePopSplit(mem, r, left, n - left);
      NaivePopStraight(mem, r, left);
      NaivePopStraight(mem, 0, n - left);
    }
  }

  // ---------- the queue ----------

  /** The memory cell of the `i`-th byte from offset `r` on. */
  function Cell(r: nat, i: nat, cap: nat): (c: nat)
    requires cap > 0
    ensures c < cap
  {
    (r + i) % cap
  }

  lemma CellWraps(r: nat, i: nat, cap: nat)
    requires r < cap && i <= cap
    ensures Cell(r, i, cap) == if r + i < cap then r + i else r + i - cap
  {
    ModOfSum(r, i, cap);
  }

  lemma ModOfSum(a: nat, b: nat, cap: nat)
    requires a < cap && b <= cap
    ensures (a + b) % cap == if a + b < cap then a + b else a + b - cap
  {
    if a + b < 2 * cap {
      ModWrap(a + b, cap);
    }
  }

  /** The next cell, as the loops compute it. */
  lemma NextCell(r: nat, i: nat, cap: nat)
    requires r < cap && i < cap
    ensures (Cell(r, i, cap) + 1) % cap == Cell(r, i + 1, cap)
    ensures Cell(Cell(r, 1, cap), i, cap) == Cell(r, i + 1, cap)
  {
    CellWraps(r, i, cap);
    CellWraps(r, i + 1, cap);
    CellWraps(r, 1, cap);
    CellWraps(Cell(r, 1, cap), i, cap);
    ModWrap(Cell(r, i, cap) + 1, cap);
  }

  /** The `n` bytes from offset `r` on, around the end of the memory. */
  function Ring(mem: seq<Byte>, r: nat, n: nat): (s: seq<Byte>)
    requires n > 0 ==> |mem| > 0
    ensures |s| == n
  {
    seq(n, i requires 0 <= i < n => mem[Cell(r, i, |mem|)])
  }

  lemma RingPushOne(mem: seq<Byte>, r: nat, n: nat, b: Byte)
    requires r < |mem| && n < |mem|
    ensures Ring(mem[Cell(r, n, |mem|) := b], r, n + 1) == Ring(mem, r, n) + [b]
  {
    hide Cell;
    var cap := |mem|;
    CellWraps(r, n, cap);
    forall i: nat | i < n
      ensures Cell(r, i, cap) != Cell(r, n, cap)
    {
      CellWraps(r, i, cap);
    }
  }

  /** Pushing behind `n` queued bytes appends to the queue and disturbs nothing. */
  lemma {:induction false} NaivePushAppends(mem: seq<Byte>, r: nat, n: nat, data: seq<Byte>)
    requires r < |mem| && n + |data| <= |mem|
    ensures var p := NaivePush(mem, Cell(r, n, |mem|), data);
            && Ring(p.mem, r, n + |data|) == Ring(mem, r, n) + data
            && p.offs == Cell(r, n + |data|, |mem|)
    decreases |data|
  {
    hide Cell;
    if data == [] {
      assert Ring(mem, r, n) + [] == Ring(mem, r, n);
    } else {
      var mem' := mem[Cell(r, n, |mem|) := data[0]];
      NextCell(r, n, |mem|);
      RingPushOne(mem, r, n, data[0]);
      NaivePushAppends(mem', r, n + 1, data[1..]);
      Assoc(Ring(mem, r, n), [data[0]], data[1..]);
      assert data == [data[0]] + data[1..];
    }
  }

  lemma RingTail(mem: seq<Byte>, r: nat, count: nat)
    requires r < |mem| && 0 < count <= |mem|
    ensures Ring(mem, r, count) == [mem[r]] + Ring(mem, Cell(r, 1, |mem|), count - 1)
  {
    hide Cell;
    CellWraps(r, 0, |mem|);
    forall i: nat | i < count - 1
      ensures Cell(Cell(r, 1, |mem|), i, |mem|) == Cell(r, i + 1, |mem|)
    {
      NextCell(r, i, |mem|);
    }
  }

  /** Popping returns the front of the queue and leaves the rest. */
  lemma {:induction false} NaivePopTakesFront(mem: seq<Byte>, r: nat, n: nat, count: nat)
    requires r < |mem| && n <= count <= |mem|
    ensures NaivePop(mem, r, n) == Popped(Ring(mem, r, count)[..n], Cell(r, n, |mem|))
    ensures Ring(mem, Cell(r, n, |mem|), count - n) == Ring(mem, r, count)[n..]
    decreases n
  {
    hide Ring;
    CellWraps(r, 0, |mem|);
    var q := Ring(mem, r, count);
    if n == 0 {
      assert q[0..] == q;
    } else {
      RingTail(mem, r, count);
      NextCell(r, n - 1, |mem|);
      NaivePopTakesFront(mem, Cell(r, 1, |mem|), n - 1, count - 1);
      assert q[..n] == [q[0]] + q[1..][..n - 1];
      assert q[1..] == Ring(mem, Cell(r, 1, |mem|), count - 1);
      assert q[1..][n - 1..] == q[n..];
    }
  }

  // ---------- growth ----------

  /** The shape of a ring: capacity, read offset, queued bytes.  The write offset follows. */
  datatype Shape = Shape(cap: nat, r: nat, count: nat) {
    predicate Valid() {
      r < cap && count <= cap
    }

    function WriteOffs(): nat
      requires Valid()
    {
      Cell(r, count, cap)
    }
  }

  /** A push of more bytes than are free: `realloc` adds `junk`, the old write offset moves
      up by the old capacity, then the copies run.  If they would run with a negative length
      there is no result. */
  function PushGrowing(mem: seq<Byte>, w: nat, junk: seq<Byte>, data: seq<Byte>): Option<Pushed>
    requires |data| <= |mem| + |junk|
  {
    var grown := mem + junk;
    if w + |mem| > |grown| then None else Some(TwoCopyPush(grown, w + |mem|, data))
  }

  /** `junk` is exactly as long as what is missing. */
  predicate GrowsBy(s: Shape, junk: seq<Byte>, data: seq<Byte>) {
    s.count + |data| > s.cap && |junk| == |data| - (s.cap - s.count)
  }

  /** The push had the effect of an append. */
  predicate Appended(s: Shape, mem: seq<Byte>, junk: seq<Byte>, data: seq<Byte>)
    requires s.Valid() && |mem| == s.cap && GrowsBy(s, junk, data)
  {
    var p := PushGrowing(mem, s.WriteOffs(), junk, data);
    p.Some? && Ring(p.value.mem, s.r, s.count + |data|) == Ring(mem, s.r, s.count) + data
  }

  lemma RingAt(mem: seq<Byte>, r: nat, n: nat, i: nat)
    requires i < n <= |mem| && r < |mem|
    ensures Ring(mem, r, n)[i] == if r + i < |mem| then mem[r + i] else mem[r + i - |mem|]
  {
    CellWraps(r, i, |mem|);
  }

  /** Where the bytes lie after a growing push that did not fail. */
  lemma GrownLayout(s: Shape, mem: seq<Byte>, junk: seq<Byte>, data: seq<Byte>, k: nat)
    requires s.Valid() && |mem| == s.cap && GrowsBy(s, junk, data)
    requires k < s.cap + |junk| && PushGrowing(mem, s.WriteOffs(), junk, data).Some?
    ensures var w, left := s.WriteOffs(), |junk| - s.WriteOffs();
            var m := PushGrowing(mem, w, junk, data).value.mem;
            && |m| == s.cap + |junk|
            && m[k] == if k < |data| - left then data[left + k]
                       else if k < s.cap then mem[k]
                       else if k < s.cap + w then junk[k - s.cap]
                       else data[k - s.cap - w]
  {
    var w, left := s.WriteOffs(), |junk| - s.WriteOffs();
    var grown := mem + junk;
    CellWraps(s.r, s.count, s.cap);
    assert |data| - left == w + s.cap - s.count;
    if |data| > left {
      var one := Overwrite(grown, w + s.cap, data[..left]);
      assert one[k] == if k < w + s.cap then grown[k] else data[k - s.cap - w];
    }
  }

  /** The guard under which a growing push appends. */
  lemma GrowthAppends(s: Shape, mem: seq<Byte>, junk: seq<Byte>, data: seq<Byte>)
    requires s.Valid() && |mem| == s.cap && GrowsBy(s, junk, data)
    requires s.WriteOffs() == 0 && s.count > 0
    ensures Appended(s, mem, junk, data)
    ensures PushGrowing(mem, 0, junk, data).value.offs == Cell(s.r, s.count + |data|, s.cap + |junk|)
  {
    var p := PushGrowing(mem, 0, junk, data).value;
    var n := s.count + |data|;
    CellWraps(s.r, s.count, s.cap);
    assert s.r + s.count == s.cap && n == s.cap + |junk|;
    forall i | 0 <= i < n
      ensures Ring(p.mem, s.r, n)[i] == (Ring(mem, s.r, s.count) + data)[i]
    {
      RingAt(p.mem, s.r, n, i);
      GrownLayout(s, mem, junk, data, if s.r + i < n then s.r + i else s.r + i - n);
      if i < s.count {
        RingAt(mem, s.r, s.count, i);
      }
    }
    CellWraps(s.r, n, n);
    assert Ring(p.mem, s.r, n) == Ring(mem, s.r, s.count) + data;
  }

  /** The first push allocates exactly what it needs. */
  lemma FirstPush(junk: seq<Byte>, data: seq<Byte>)
    requires |junk| == |data| > 0
    ensures TwoCopyPush(junk, 0, data) == Pushed(data, 0) && Ring(data, 0, |data|) == data
    ensures Cell(0, |data|, |data|) == 0
  {
    hide Cell;
    assert Overwrite(junk, 0, data) == data;
    CellWraps(0, |data|, |data|);
    forall i: nat | i < |data|
      ensures Cell(0, i, |data|) == i
    {
      CellWraps(0, i, |data|);
    }
  }

  function Zeros(n: nat): (z: seq<Byte>)
    ensures |z| == n
  {
    seq(n, i => 0)
  }

  /** The queued bytes run around the end of the memory: the first of them at offset zero is
      looked for in the new memory instead. */
  lemma WrappedGrowthCorrupts(s: Shape, n: nat)
    returns (mem: seq<Byte>, junk: seq<Byte>, data: seq<Byte>)
    requires s.Valid() && s.count + n > s.cap && s.r + s.count > s.cap
    ensures |mem| == s.cap && |data| == n && GrowsBy(s, junk, data)
    ensures !Appended(s, mem, junk, data)
  {
    hide Ring, Cell, TwoCopyPush;
    junk, data := Zeros(n - (s.cap - s.count)), Zeros(n);
    mem := [1] + Zeros(s.cap - 1);
    CellWraps(s.r, s.count, s.cap);
    var p := PushGrowing(mem, s.WriteOffs(), junk, data);
    if p.Some? {
      var i := s.cap - s.r;
      GrownLayout(s, mem, junk, data, s.cap);
      RingAt(p.value.mem, s.r, s.count + n, i);
      RingAt(mem, s.r, s.count, i);
      assert Ring(p.value.mem, s.r, s.count + n)[i] == 0;
      assert (Ring(mem, s.r, s.count) + data)[i] == 1;
    }
  }

  /** The free cells lie behind the queued bytes, or there are none queued: the first new
      byte is looked for in the old memory instead. */
  lemma StraightGrowthCorrupts(s: Shape, n: nat)
    returns (mem: seq<Byte>, junk: seq<Byte>, data: seq<Byte>)
    requires s.Valid() && s.count + n > s.cap && s.r + s.count < s.cap
    ensures |mem| == s.cap && |data| == n && GrowsBy(s, junk, data)
    ensures !Appended(s, mem, junk, data)
  {
    hide Ring, Cell, TwoCopyPush;
    junk, mem := Zeros(n - (s.cap - s.count)), Zeros(s.cap);
    data := [1] + Zeros(n - 1);
    CellWraps(s.r, s.count, s.cap);
    var p := PushGrowing(mem, s.WriteOffs(), junk, data);
    if p.Some? {
      GrownLayout(s, mem, junk, data, s.r + s.count);
      RingAt(p.value.mem, s.r, s.count + n, s.count);
      assert Ring(p.value.mem, s.r, s.count + n)[s.count] == 0;
      assert (Ring(mem, s.r, s.count) + data)[s.count] == 1;
    }
  }

  /** Without the guard some bytes come out wrong, or the copy runs with a negative length. */
  lemma GrowthCorrupts(s: Shape, n: nat)
    returns (mem: seq<Byte>, junk: seq<Byte>, data: seq<Byte>)
    requires s.Valid() && s.count + n > s.cap
    requires !(s.WriteOffs() == 0 && s.count > 0)
    ensures |mem| == s.cap && |data| == n && GrowsBy(s, junk, data)
    ensures !Appended(s, mem, junk, data)
  {
    hide Appended;
    CellWraps(s.r, s.count, s.cap);
    if s.r + s.count > s.cap {
      mem, junk, data := WrappedGrowthCorrupts(s, n);
    } else {
      mem, junk, data := StraightGrowthCorrupts(s, n);
    }
  }

  /** Growing keeps the queue in order, whatever the bytes are, exactly when the write offset
      is zero and the ring is not empty. */
  lemma GrowthAppendsIff(s: Shape, n: nat)
    requires s.Valid() && s.count + n > s.cap
    ensures (forall mem: seq<Byte>, junk: seq<Byte>, data: seq<Byte> ::
               |mem| == s.cap && |data| == n && GrowsBy(s, junk, data) ==>
                 Appended(s, mem, junk, data))
            <==> s.WriteOffs() == 0 && s.count > 0
  {
    if s.WriteOffs() == 0 && s.count > 0 {
      forall mem: seq<Byte>, junk: seq<Byte>, data: seq<Byte>
        | |mem| == s.cap && |data| == n && GrowsBy(s, junk, data)
        ensures Appended(s, mem, junk, data)
      {
        GrowthAppends(s, mem, junk, data);
      }
    } else {
      var mem, junk, data := GrowthCorrupts(s, n);
    }
  }

  class RingBuffer {
    var buffer: array?<Byte>
    var bufferSize: nat
    var readOffs: nat
    var writeOffs: nat
    var bytesWritten: nat

    ghost predicate Valid()
      reads this
    {
      && bufferSize == (if buffer == null then 0 else buffer.Length)
      && (bufferSize == 0 ==> readOffs == writeOffs == bytesWritten == 0)
      && (bufferSize > 0 ==> GetShape().Valid() && writeOffs == GetShape().WriteOffs())
    }

    ghost function GetShape(): Shape
      reads this
    {
      Shape(bufferSize, readOffs, bytesWritten)
    }

    ghost function Mem(): seq<Byte>
      reads this, buffer
    {
      if buffer == null then [] else buffer[..]
    }

    /** The queued bytes, front first. */
    ghost function Contents(): (s: seq<Byte>)
      reads this, buffer
      requires Valid()
    {
      Ring(Mem(), readOffs, bytesWritten)
    }

    /** A push fits, is the first allocation, or grows a ring in the one state from which
        growing keeps the order. */
    ghost predicate CanPush(size: nat)
      reads this
    {
      || size <= bufferSize - bytesWritten
      || bufferSize == 0
      || (writeOffs == 0 && bytesWritten > 0)
    }

    constructor ()
      ensures Valid() && Contents() == [] && buffer == null
    {
      buffer := null;
      bufferSize, readOffs, writeOffs, bytesWritten := 0, 0, 0, 0;
    }

    constructor WithCapacity(initialSize: nat)
      ensures Valid() && Contents() == [] && bufferSize == initialSize && fresh(buffer)
    {
      buffer := new Byte[initialSize];
      bufferSize, readOffs, writeOffs, bytesWritten := initialSize, 0, 0, 0;
    }

    method EnsureCapacity(size: nat)
      requires bufferSize == (if buffer == null then 0 else buffer.Length)
      modifies this`buffer, this`bufferSize, this`writeOffs
      ensures buffer != null && fresh(buffer) && buffer.Length == bufferSize == old(bufferSize) + size
      ensures buffer[..old(bufferSize)] == old(Mem())
      ensures writeOffs == old(writeOffs) + if old(buffer) == null then 0 else old(bufferSize)
    {
      if buffer == null {
        buffer := new Byte[size];
        bufferSize := size;
      } else {
        var was, n := buffer, bufferSize;
        var grown := new Byte[n + size];
        forall i | 0 <= i < n {
          grown[i] := was[i];
        }
        buffer := grown;
        writeOffs := writeOffs + n;
        bufferSize := n + size;
      }
    }

    /** `memcpy(m_buffer + at, buf, |buf|)`. */
    method CopyIn(at: nat, buf: seq<Byte>)
      requires buffer != null && at + |buf| <= buffer.Length
      modifies buffer
      ensures buffer[..] == Overwrite(old(buffer[..]), at, buf)
    {
      var b := buffer;
      forall i | 0 <= i < |buf| {
        b[at + i] := buf[i];
      }
      assert buffer[..] == Overwrite(old(buffer[..]), at, buf);
    }

    /** The copying half of `push_back`. */
    method CopyPush(buf: seq<Byte>)
      requires buffer != null && bufferSize == buffer.Length && writeOffs <= bufferSize
      requires |buf| <= bufferSize
      modifies this`writeOffs, buffer
      ensures Pushed(buffer[..], writeOffs) == TwoCopyPush(old(buffer[..]), old(writeOffs), buf)
    {
      hide Overwrite;
      var size := |buf|;
      var bufBytesLeft := bufferSize - writeOffs;
      if size < bufBytesLeft {
        CopyIn(writeOffs, buf);
        writeOffs := writeOffs + size;
      } else if size > bufBytesLeft {
        CopyIn(writeOffs, buf[..bufBytesLeft]);
        writeOffs := size - bufBytesLeft;
        CopyIn(0, buf[bufBytesLeft..]);
      } else {
        CopyIn(writeOffs, buf);
        writeOffs := 0;
      }
    }

    /** Appends where that can be; where growing scrambles the ring, exactly what the copies
        make of the grown memory.  They must not run with a negative length. */
    method PushBack(buf: seq<Byte>)
      requires Valid()
      requires CanPush(|buf|) || writeOffs <= |buf| - (bufferSize - bytesWritten)
      modifies this, buffer
      ensures bytesWritten == old(bytesWritten) + |buf| && readOffs == old(readOffs)
      ensures old(CanPush(|buf|)) ==> Valid() && Contents() == old(Contents()) + buf
      // where there was room, exactly what the naive loop does
      ensures |buf| <= old(bufferSize - bytesWritten) && buf != [] ==>
                Pushed(Mem(), writeOffs) == NaivePush(old(Mem()), old(writeOffs), buf)
      ensures !old(CanPush(|buf|)) ==>
                exists junk :: GrowsBy(old(GetShape()), junk, buf)
                               && PushGrowing(old(Mem()), old(writeOffs), junk, buf)
                                  == Some(Pushed(Mem(), writeOffs))
    {
      hide Cell, Ring, TwoCopyPush, NaivePush;
      ghost var mem, w, s, fits := Mem(), writeOffs, GetShape(), CanPush(|buf|);
      ghost var junk: seq<Byte> := [];
      if |buf| > bufferSize - bytesWritten {
        EnsureCapacity(|buf| - (bufferSize - bytesWritten));
        junk := buffer[|mem|..];
        assert buffer[..] == mem + junk;
        if mem == [] {
          FirstPush(junk, buf);
          assert mem + junk == junk;
        } else if fits {
          GrowthAppends(s, mem, junk, buf);
        }
      } else if buffer == null {
        // the source copies zero bytes to offset 0 here
        assert old(Contents()) + buf == old(Contents());
        return;
      } else if bufferSize == 0 {
        assert old(Contents()) + buf == old(Contents());
        return;
      } else {
        TwoCopyPushIsNaive(mem, w, buf);
        NaivePushAppends(mem, s.r, s.count, buf);
      }
      CopyPush(buf);
      bytesWritten := bytesWritten + |buf|;
      if !fits {
        assert GrowsBy(s, junk, buf);
        assert PushGrowing(mem, w, junk, buf) == Some(Pushed(Mem(), writeOffs));
      }
    }

    /** `_pop_front`, behind `pop_front(buf, size)`: returns the bytes it copies out. */
    method PopFront(size: int) returns (rcvd: nat, out: seq<Byte>)
      requires Valid()
      modifies this`readOffs, this`bytesWritten
      ensures Valid() && Mem() == old(Mem())
      ensures rcvd == if size <= 0 then 0 else Min(size, |old(Contents())|)
      ensures out == old(Contents())[..rcvd] && Contents() == old(Contents())[rcvd..]
      ensures rcvd > 0 ==> Popped(out, readOffs) == NaivePop(Mem(), old(readOffs), rcvd)
    {
      hide Ring, Cell, NaivePop;
      var n := Min(size, bytesWritten);
      if n <= 0 {
        assert Contents()[0..] == Contents();
        return 0, [];
      }
      rcvd := n;
      ghost var mem, r, count := Mem(), readOffs, bytesWritten;
      TwoCopyPopIsNaive(mem, r, rcvd);
      NaivePopTakesFront(mem, r, rcvd, count);
      PopKeepsWriteOffs(GetShape(), rcvd);
      var bufBytesLeft := bufferSize - readOffs;
      if rcvd < bufBytesLeft {
        out := buffer[readOffs..readOffs + rcvd];
        readOffs := readOffs + rcvd;
      } else if rcvd > bufBytesLeft {
        out := buffer[readOffs..bufferSize];
        readOffs := rcvd - bufBytesLeft;
        out := out + buffer[..readOffs];
      } else {
        out := buffer[readOffs..readOffs + rcvd];
        readOffs := 0;
      }
      bytesWritten := bytesWritten - rcvd;
    }

    /** `pop_front(size)`, which only drops. */
    method Drop(size: int) returns (rcvd: nat)
      requires Valid()
      modifies this`readOffs, this`bytesWritten
      ensures Valid() && Mem() == old(Mem())
      ensures rcvd == if size <= 0 then 0 else Min(size, |old(Contents())|)
      ensures Contents() == old(Contents())[rcvd..]
    {
      hide Ring;
      var n := Min(size, bytesWritten);
      if n <= 0 {
        assert Contents()[0..] == Contents();
        return 0;
      }
      rcvd := n;
      NaivePopTakesFront(Mem(), readOffs, rcvd, bytesWritten);
      PopKeepsWriteOffs(GetShape(), rcvd);
      readOffs := (readOffs + rcvd) % bufferSize;
      bytesWritten := bytesWritten - rcvd;
    }
  }

  /** The write offset follows from the read offset and the count before and after a pop. */
  lemma PopKeepsWriteOffs(s: Shape, n: nat)
    requires s.Valid() && n <= s.count
    ensures Cell(Cell(s.r, n, s.cap), s.count - n, s.cap) == Cell(s.r, s.count, s.cap)
  {
    CellWraps(s.r, n, s.cap);
    CellWraps(s.r, s.count, s.cap);
    CellWraps(Cell(s.r, n, s.cap), s.count - n, s.cap);
  }
}
