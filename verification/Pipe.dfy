/**
 Pipes: a ring of 512 bytes with two 32-bit counters that wrap.  Each stretch of a
 read or write under the pipe's lock is one atomic step.
 */
module Pipe {
  import opened Bytes

  const PIPE_SIZE := 512
  const WRAP := 0x1_0000_0000

  datatype Outcome = Done | Blocked | Failed

  /** A count as a 32-bit counter shows it. */
  function Wrapped(n: nat): nat {
    n % WRAP
  }

  /** Adding d to a 32-bit counter. */
  function Bumped(m: nat, d: nat): nat {
    (m + d) % WRAP
  }

  /** The ring holds the bytes of written that are past taken, each at its position modulo the size. */
  ghost predicate RingHolds(ring: seq<byte>, taken: seq<byte>, written: seq<byte>) {
    |ring| == PIPE_SIZE && forall k :: |taken| <= k < |written| ==> ring[k % PIPE_SIZE] == written[k]
  }

  class Pipe {
    const data: array<byte>
    var nread: nat
    var nwrite: nat
    var readopen: bool
    var writeopen: bool
    ghost var written: seq<byte>
    ghost var taken: seq<byte>

    /** The bytes written and not yet taken. */
    ghost function Pending(): seq<byte>
      reads this
    {
      if |taken| <= |written| then written[|taken|..] else []
    }

    /** What has been taken is the beginning of what was written; the ring holds the rest. */
    ghost predicate Valid()
      reads this, data
    {
      && data.Length == PIPE_SIZE && taken <= written && |Pending()| <= PIPE_SIZE
      && nread == Wrapped(|taken|) && nwrite == Wrapped(|written|)
      && RingHolds(data[..], taken, written)
    }

    constructor ()
      ensures Valid() && fresh(data) && written == [] && taken == [] && readopen && writeopen
    {
      data := new byte[PIPE_SIZE](_ => 0);
      nread, nwrite, readopen, writeopen := 0, 0, true, true;
      written, taken := [], [];
    }

    /** Because 512 divides 2^32, the wrapped counters still tell how many bytes wait and where. */
    static lemma {:induction false} Counters(w: nat, r: nat)
      requires r <= w <= r + PIPE_SIZE
      ensures Wrapped(w) == Bumped(Wrapped(r), PIPE_SIZE) <==> w - r == PIPE_SIZE
      ensures Wrapped(w) == Wrapped(r) <==> w == r
      ensures Wrapped(w) % PIPE_SIZE == w % PIPE_SIZE && Bumped(Wrapped(w), 1) == Wrapped(w + 1)
    {
      hide Wrapped, Bumped;
      Below(r);
      Below(w);
      AddWrap(r, w - r);
      BumpIs(Wrapped(r), PIPE_SIZE);
      AddWrap(w, 1);
      BumpIs(Wrapped(w), 1);
      SameSlot(w);
    }

    static lemma {:induction false} Below(r: nat)
      ensures Wrapped(r) < WRAP
    {
    }

    static lemma {:induction false} SameSlot(w: nat)
      ensures Wrapped(w) % PIPE_SIZE == w % PIPE_SIZE
    {
      assert w == PIPE_SIZE * (w / WRAP * 0x80_0000) + w % WRAP;
    }

    static lemma {:induction false} BumpIs(m: nat, d: nat)
      requires m < WRAP && d <= PIPE_SIZE
      ensures Bumped(m, d) == if m + d < WRAP then m + d else m + d - WRAP
    {
    }

    static lemma {:induction false} AddWrap(r: nat, d: nat)
      requires d <= PIPE_SIZE
      ensures Wrapped(r + d) == if Wrapped(r) + d < WRAP then Wrapped(r) + d else Wrapped(r) + d - WRAP
    {
      assert r + d == r / WRAP * WRAP + (r % WRAP + d);
      assert r + d == (r / WRAP + 1) * WRAP + (r % WRAP + d - WRAP);
    }

    /** Stores one byte behind those waiting. */
    method Put(c: byte)
      requires Valid() && |Pending()| < PIPE_SIZE
      modifies this`nwrite, this`written, data
      ensures Valid() && written == old(written) + [c] && Pending() == old(Pending()) + [c]
    {
      hide Wrapped, Bumped;
      ghost var w, r := |written|, |taken|;
      Counters(w, r);
      data[nwrite % PIPE_SIZE] := c;
      nwrite := Bumped(nwrite, 1);
      written := written + [c];
      forall k | r <= k < w ensures data[k % PIPE_SIZE] == written[k] {
        SlotsDiffer(k, w);
      }
    }

    static lemma {:induction false} SlotsDiffer(k: nat, w: nat)
      requires k < w < k + PIPE_SIZE
      ensures k % PIPE_SIZE != w % PIPE_SIZE
    {
    }

    /** Takes the byte that has waited longest. */
    method Take() returns (c: byte)
      requires Valid() && |Pending()| > 0
      modifies this`nread, this`taken
      ensures Valid() && c == old(Pending())[0] && taken == old(taken) + [c] && Pending() == old(Pending())[1..]
    {
      hide Wrapped, Bumped;
      ghost var w, r := |written|, |taken|;
      Counters(w, r);
      Counters(r, r);
      c := data[nread % PIPE_SIZE];
      nread := Bumped(nread, 1);
      assert c == written[r];
      taken := taken + [c];
      assert written[r..][1..] == written[r + 1..];
    }

    /**
     Writes from position i of src until everything is written, the ring is full, or
     there is no reader or the writer is killed.
     */
    method Write(src: seq<byte>, start: nat, killed: bool) returns (r: Outcome, i: nat)
      requires Valid() && start <= |src|
      modifies this`nwrite, this`written, data
      ensures Valid() && start <= i <= |src| && written == old(written) + src[start..i] && taken == old(taken)
      ensures r == Done <==> i == |src|
      ensures r == Blocked ==> |Pending()| == PIPE_SIZE && readopen && !killed
      ensures r == Failed <==> start < |src| && (!readopen || killed)
      ensures r == Failed ==> i == start
    {
      hide Wrapped, Bumped, RingHolds;
      i := start;
      assert src[start..start] == [];
      while i < |src|
        invariant Valid() && start <= i <= |src| && written == old(written) + src[start..i] && taken == old(taken)
        invariant i > start ==> readopen && !killed
      {
        if !readopen || killed {
          return Failed, i;
        }
        Counters(|written|, |taken|);
        if nwrite == Bumped(nread, PIPE_SIZE) {
          return Blocked, i;
        }
        Put(src[i]);
        assert src[start..i] + [src[i]] == src[start..i + 1];
        i := i + 1;
      }
      r := Done;
    }

    /**
     Reads up to n bytes, in the order they were written.  With nothing to read it waits
     while a writer is left, and otherwise returns nothing.
     */
    method Read(n: nat, killed: bool) returns (r: Outcome, dest: seq<byte>)
      requires Valid()
      modifies this`nread, this`taken
      ensures Valid() && written == old(written) && taken == old(taken) + dest
      ensures r == Done <==> old(Pending()) != [] || !writeopen
      ensures r == Done ==> dest == old(Pending())[..if n <= |old(Pending())| then n else |old(Pending())|]
      ensures r != Done ==> dest == [] && (r == Failed <==> killed)
    {
      hide Wrapped, Bumped, RingHolds;
      Counters(|written|, |taken|);
      dest := [];
      if nread == nwrite && writeopen {
        return if killed then Failed else Blocked, [];
      }
      var i := 0;
      while i < n
        invariant Valid() && written == old(written) && taken == old(taken) + dest
        invariant i == |dest| <= n && i <= |old(Pending())| && dest == old(Pending())[..i] && Pending() == old(Pending())[i..]
      {
        Counters(|written|, |taken|);
        if nread == nwrite {
          break;
        }
        var c := Take();
        dest := dest + [c];
        i := i + 1;
      }
      r := Done;
    }

    /** Closes one end; the pipe is to be freed exactly when both are closed. */
    method Close(writable: bool) returns (free: bool)
      requires Valid()
      modifies this`readopen, this`writeopen
      ensures Valid() && written == old(written) && taken == old(taken)
      ensures writeopen == (old(writeopen) && !writable) && readopen == (old(readopen) && writable)
      ensures free <==> !readopen && !writeopen
    {
      if writable {
        writeopen := false;
      } else {
        readopen := false;
      }
      free := !readopen && !writeopen;
    }
  }
}
