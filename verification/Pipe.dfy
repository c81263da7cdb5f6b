/** The pipe of xv6/pipe.c: its ring buffer with 32-bit counters, and the readers and writers that
    sleep on it. */
module Pipe {
  const PIPESIZE := 512
  const WRAP := 0x1_0000_0000

  type Byte = x: int | 0 <= x < 256

  type Uint = x: int | 0 <= x < WRAP

  function Min(a: nat, b: nat): nat {
    if a < b then a else b
  }

  // ---------------------------------------------------------------------------------------
  // The ring buffer
  // ---------------------------------------------------------------------------------------

  /** How a stretch of pipewrite under the lock ends: all written, asleep on a full pipe, or -1. */
  datatype WriteEnd = Wrote | MustWait | WriteFails

  /** How piperead ends: with bytes, asleep on an empty pipe, or with -1. */
  datatype ReadEnd = Got(bytes: seq<Byte>) | MustWaitForData | ReadFails

  lemma Wrapped(t: nat, w: nat)
    requires t <= w <= t + PIPESIZE
    ensures w % WRAP == (t % WRAP + PIPESIZE) % WRAP <==> w == t + PIPESIZE
    ensures w % WRAP == t % WRAP <==> w == t
    ensures (w % WRAP + 1) % WRAP == (w + 1) % WRAP
  {
  }

  lemma WrappedIndex(x: nat)
    ensures x % WRAP % PIPESIZE == x % PIPESIZE
  {
  }

  /** The slot of the next byte holds none of the bytes in flight. */
  lemma FreeSlot(t: nat, w: nat)
    requires t <= w < t + PIPESIZE
    ensures forall k | t <= k < w :: k % PIPESIZE != w % PIPESIZE
  {
  }

  class Buffer {
    const data: array<Byte>
    var nread: Uint
    var nwrite: Uint
    var readopen: bool
    var writeopen: bool
    /** Every byte ever written, and how many of them have been read. */
    ghost var written: seq<Byte>
    ghost var taken: nat

    ghost predicate Valid()
      reads this, data
    {
      && data.Length == PIPESIZE && taken <= |written| <= taken + PIPESIZE
      && nread == taken % WRAP && nwrite == |written| % WRAP
      && (forall k | taken <= k < |written| :: data[k % PIPESIZE] == written[k])
    }

    constructor ()
      ensures Valid() && fresh(data) && readopen && writeopen && written == [] && taken == 0
    {
      data := new Byte[PIPESIZE](i => 0);
      nread, nwrite, readopen, writeopen, written, taken := 0, 0, true, true, [], 0;
    }

    /** One byte into a pipe that is not full. */
    method Put(b: Byte)
      requires Valid() && |written| < taken + PIPESIZE
      modifies this`nwrite, this`written, data
      ensures Valid() && written == old(written) + [b]
    {
      Wrapped(taken, |written|);
      WrappedIndex(|written|);
      FreeSlot(taken, |written|);
      data[nwrite % PIPESIZE] := b;
      nwrite := (nwrite + 1) % WRAP;
      written := written + [b];
    }

    /** One byte out of a pipe that is not empty. */
    method Take() returns (b: Byte)
      requires Valid() && taken < |written|
      modifies this`nread, this`taken
      ensures Valid() && taken == old(taken) + 1 && b == written[old(taken)]
    {
      WrappedIndex(taken);
      Wrapped(taken, taken);
      b := data[nread % PIPESIZE];
      nread := (nread + 1) % WRAP;
      taken := taken + 1;
    }

    /** pipewrite from byte i of addr on, up to where it returns or sleeps: as much as there is room
        for is written, in order. */
    method WriteSome(addr: seq<Byte>, i: nat, killed: bool) returns (i': nat, end: WriteEnd)
      requires Valid() && i <= |addr|
      modifies this`nwrite, this`written, data
      ensures Valid() && i' == Min(|addr|, i + PIPESIZE - (|old(written)| - taken))
      ensures written == old(written) + addr[i..i']
      ensures end == if i' == |addr| then Wrote else if !readopen || killed then WriteFails else MustWait
    {
      i' := i;
      while i' < |addr|
        invariant i <= i' <= |addr| && Valid() && written == old(written) + addr[i..i']
      {
        Wrapped(taken, |written|);
        if nwrite == (nread + PIPESIZE) % WRAP {
          return i', if !readopen || killed then WriteFails else MustWait;
        }
        Put(addr[i']);
        i' := i' + 1;
      }
      end := Wrote;
    }

    /** piperead for up to n bytes: the oldest bytes not read yet, in order. */
    method ReadSome(n: int, killed: bool) returns (r: ReadEnd)
      requires Valid()
      modifies this`nread, this`taken
      ensures Valid()
      ensures old(taken) == |written| && writeopen ==> r == (if killed then ReadFails else MustWaitForData)
      ensures !r.Got? ==> taken == old(taken)
      ensures old(taken) < |written| || !writeopen ==> r.Got?
      ensures r.Got? ==> && taken == old(taken) + Min(if n < 0 then 0 else n, |written| - old(taken))
                         && r.bytes == written[old(taken)..taken]
    {
      Wrapped(taken, |written|);
      if nread == nwrite && writeopen {
        return if killed then ReadFails else MustWaitForData;
      }
      var bytes: seq<Byte> := [];
      while |bytes| < n
        invariant Valid() && taken == old(taken) + |bytes| && bytes == written[old(taken)..taken]
        invariant |bytes| == 0 || |bytes| <= n
      {
        Wrapped(taken, |written|);
        if nread == nwrite { break; }
        var b := Take();
        bytes := bytes + [b];
      }
      r := Got(bytes);
    }

    /** pipeclose of one end; the result says whether the pipe is to be freed. */
    method Close(writable: bool) returns (free: bool)
      modifies `readopen, `writeopen
      ensures readopen == (old(readopen) && writable) && writeopen == (old(writeopen) && !writable)
      ensures free <==> !readopen && !writeopen
    {
      if writable {
        writeopen := false;
      } else {
        readopen := false;
      }
      free := !readopen && !writeopen;
    }
  }
}
