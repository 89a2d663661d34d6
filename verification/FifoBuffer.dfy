/** The byte queue of src/memory/fifo_buffer.cpp: one allocation that holds exactly the
    queued bytes and is replaced on every push and pop. */
module FifoBuffers {
  import opened Bytes

  class FifoBuffer {
    var buffer: array?<Byte>
    var bufferSize: int

    ghost predicate Valid()
      reads this
    {
      && (buffer == null ==> bufferSize == 0)
      && (buffer != null ==> bufferSize == buffer.Length > 0)
    }

    /** The queued bytes, front first. */
    ghost function Contents(): (s: seq<Byte>)
      reads this, buffer
      requires Valid()
      ensures |s| == bufferSize
    {
      if buffer == null then [] else buffer[..]
    }

    constructor ()
      ensures Valid() && Contents() == []
    {
      buffer := null;
      bufferSize := 0;
    }

    method PushBack(buf: seq<Byte>, size: int)
      requires Valid() && size <= |buf|
      modifies this
      ensures Valid()
      ensures Contents() == old(Contents()) + if size <= 0 then [] else buf[..size]
      ensures buffer != old(buffer) ==> fresh(buffer)
    {
      if size <= 0 {
        return;
      }
      if buffer == null {
        buffer := new Byte[size](i requires 0 <= i < |buf| => buf[i]);
        bufferSize := size;
        assert Contents() == buf[..size];
      } else {
        var n, was := bufferSize, buffer;
        var grown := new Byte[n + size];
        forall i | 0 <= i < n {
          grown[i] := was[i];
        }
        forall i | 0 <= i < size {
          grown[n + i] := buf[i];
        }
        buffer := grown;
        bufferSize := n + size;
        assert Contents() == old(Contents()) + buf[..size];
      }
    }

    /** Drops up to `size` bytes from the front. */
    method PopFront(size: int) returns (rcvd: int)
      requires Valid()
      modifies this
      ensures Valid()
      ensures rcvd == if size <= 0 then 0 else Min(size, |old(Contents())|)
      ensures Contents() == old(Contents())[rcvd..]
      ensures buffer != old(buffer) && buffer != null ==> fresh(buffer)
    {
      if size <= 0 {
        return 0;
      }
      rcvd := DropFront(size);
    }

    /** Moves up to `size` bytes from the front into `buf`. */
    method PopFrontInto(buf: array<Byte>, size: int) returns (rcvd: int)
      requires Valid() && size <= buf.Length && buf != buffer
      modifies this, buf
      ensures Valid()
      ensures rcvd == if size <= 0 then 0 else Min(size, |old(Contents())|)
      ensures buf[..] == old(Contents())[..rcvd] + old(buf[..])[rcvd..]
      ensures Contents() == old(Contents())[rcvd..]
      ensures buffer != old(buffer) && buffer != null ==> fresh(buffer)
    {
      if size <= 0 {
        return 0;
      }
      rcvd := Min(size, bufferSize);
      if rcvd <= 0 {
        return 0;
      }
      var front := buffer;
      forall i | 0 <= i < rcvd {
        buf[i] := front[i];
      }
      assert buf[..] == old(Contents())[..rcvd] + old(buf[..])[rcvd..];
      assert Contents() == old(Contents());
      rcvd := DropFront(rcvd);
    }

    method DropFront(size: int) returns (rcvd: int)
      requires Valid() && size > 0
      modifies this
      ensures Valid()
      ensures rcvd == Min(size, |old(Contents())|)
      ensures Contents() == old(Contents())[rcvd..]
      ensures buffer != old(buffer) && buffer != null ==> fresh(buffer)
    {
      rcvd := Min(size, bufferSize);
      if rcvd <= 0 {
        return 0;
      }
      if rcvd == bufferSize {
        buffer := null;
        bufferSize := 0;
      } else {
        var was := buffer;
        var rest := new Byte[bufferSize - rcvd];
        forall i | 0 <= i < rest.Length {
          rest[i] := was[rcvd + i];
        }
        buffer := rest;
        bufferSize := rest.Length;
        assert Contents() == old(Contents())[rcvd..];
      }
    }

    /** Reads a value of `size` bytes without removing it; zeros if nothing was ever queued. */
    method Peek(size: nat) returns (r: seq<Byte>)
      requires Valid() && (buffer != null ==> size <= bufferSize)
      ensures r == if buffer == null then seq(size, i => 0) else Contents()[..size]
    {
      if buffer == null {
        r := seq(size, i => 0);
      } else {
        r := buffer[..size];
      }
    }

    method Size() returns (n: int)
      requires Valid()
      ensures n == |Contents()|
    {
      n := bufferSize;
    }
  }
}
