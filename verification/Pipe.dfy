/** A pipe under its lock: every method runs from one point where the lock is free to the next, so any
    interleaving of readers, writers, closes and wakeups is a run of these methods. (kernel/pipe.c) */
module Pipe {
  import opened CTypes

  const PIPESIZE := 512

  /** A call returned, failed with -1, or sleeps with i bytes done. */
  datatype Outcome = Done(bytes: seq<Byte>) | Failed | Asleep(i: nat)

  /** The counters are the byte counts modulo 2^32, and the bytes in flight are in their slots. */
  ghost predicate Fifo(data: seq<Byte>, nread: nat, nwrite: nat, written: seq<Byte>, taken: seq<Byte>) {
    && |data| == PIPESIZE && taken <= written && |written| - |taken| <= PIPESIZE
    && nread == |taken| % UINT && nwrite == |written| % UINT
    && forall k: nat :: |taken| <= k < |written| ==> InSlot(data, written, k)
  }

  ghost predicate InSlot(data: seq<Byte>, written: seq<Byte>, k: nat)
    requires |data| == PIPESIZE && k < |written|
  {
    data[k % PIPESIZE] == written[k]
  }

  /** The code's tests for empty and full are right although the counters wrap: the counters differ by
      less than 2^32. */
  lemma Tests(data: seq<Byte>, nread: nat, nwrite: nat, written: seq<Byte>, taken: seq<Byte>)
    requires Fifo(data, nread, nwrite, written, taken)
    ensures nread == nwrite <==> |written| == |taken|
    ensures nwrite == (nread + PIPESIZE) % UINT <==> |written| - |taken| == PIPESIZE
    ensures nwrite % PIPESIZE == |written| % PIPESIZE && nread % PIPESIZE == |taken| % PIPESIZE
    ensures |data| == PIPESIZE && |taken| <= |written| <= |taken| + PIPESIZE
  {
    hide InSlot;
    Ahead(|taken|, |written| - |taken|);
    Ahead(|taken| % UINT, PIPESIZE);
    Residue(|written|);
    Residue(|taken|);
  }

  /** d more, modulo 2^32. */
  lemma Ahead(r: nat, d: nat)
    requires d < UINT
    ensures (r + d) % UINT == if r % UINT + d < UINT then r % UINT + d else r % UINT + d - UINT
  {
    var q, m := r / UINT, r % UINT;
    assert r + d == q * UINT + (m + d);
    if m + d < UINT {
      Quotient(r + d, q, m + d);
    } else {
      Quotient(r + d, q + 1, m + d - UINT);
    }
  }

  lemma Quotient(x: nat, q: nat, m: nat)
    requires x == q * UINT + m && m < UINT
    ensures x % UINT == m
  {}

  /** 512 divides 2^32. */
  lemma Residue(n: nat)
    ensures n % UINT % PIPESIZE == n % PIPESIZE
  {
    var q, m := n / UINT, n % UINT;
    var a, b := m / PIPESIZE, m % PIPESIZE;
    assert n == (q * (UINT / PIPESIZE) + a) * PIPESIZE + b;
  }

  lemma Put(data: seq<Byte>, nread: nat, nwrite: nat, written: seq<Byte>, taken: seq<Byte>, b: Byte)
    requires Fifo(data, nread, nwrite, written, taken) && |written| - |taken| < PIPESIZE
    ensures Fifo(data[nwrite % PIPESIZE := b], nread, (nwrite + 1) % UINT, written + [b], taken)
  {
    Tests(data, nread, nwrite, written, taken);
    var data', w := data[nwrite % PIPESIZE := b], written + [b];
    forall k: nat | |taken| <= k < |w| ensures InSlot(data', w, k) {
      if k < |written| {
        assert InSlot(data, written, k);
        Apart(k, |written|);
      }
    }
    Next(|written|);
  }

  lemma Get(data: seq<Byte>, nread: nat, nwrite: nat, written: seq<Byte>, taken: seq<Byte>)
    requires Fifo(data, nread, nwrite, written, taken) && |taken| < |written|
    ensures data[nread % PIPESIZE] == written[|taken|]
    ensures Fifo(data, (nread + 1) % UINT, nwrite, written, taken + [data[nread % PIPESIZE]])
  {
    Tests(data, nread, nwrite, written, taken);
    assert InSlot(data, written, |taken|);
    Next(|taken|);
    var t := taken + [written[|taken|]];
    forall k: nat | |t| <= k < |written| ensures InSlot(data, written, k) {}
  }

  lemma Apart(k: nat, n: nat)
    requires k < n < k + PIPESIZE
    ensures k % PIPESIZE != n % PIPESIZE
  {}

  lemma Next(n: nat)
    ensures (n + 1) % UINT == (n % UINT + 1) % UINT
  {}

  class PipeBuffer {
    const data: array<Byte>
    var nread: nat               // 32-bit, like nwrite
    var nwrite: nat
    var readopen: bool
    var writeopen: bool
    ghost var written: seq<Byte>     // all bytes ever written
    ghost var taken: seq<Byte>       // all bytes ever read
    ghost var readers: set<nat>      // processes asleep on &nread
    ghost var writers: set<nat>      // processes asleep on &nwrite

    ghost predicate Valid()
      reads this, data
    {
      Fifo(data[..], nread, nwrite, written, taken)
    }

    /** No wakeup was lost: who sleeps has a reason to. */
    ghost predicate Awake()
      reads this
    {
      && (readers != {} ==> |written| == |taken| && writeopen && readopen)
      && (writers != {} ==> |written| - |taken| == PIPESIZE && readopen && writeopen)
    }

    /** pipealloc's initial values */
    constructor ()
      ensures Valid() && Awake() && written == taken == [] && readopen && writeopen && fresh(data)
      ensures readers == {} && writers == {}
    {
      data := new Byte[PIPESIZE](_ => 0);
      nread, nwrite, readopen, writeopen := 0, 0, true, true;
      written, taken, readers, writers := [], [], {}, {};
    }

    /** pipewrite by process t, from its start or from where it slept with i bytes written. A writer that
        fails because it was killed wakes nobody: a reader then sleeps on although there are bytes, exactly
        if one was asleep before and the rest of the buffer does not fit in an empty pipe. */
    method Write(t: nat, buf: seq<Byte>, i0: nat, killed: bool) returns (o: Outcome)
      requires Valid() && Awake() && i0 <= |buf| && t !in readers && t !in writers && writeopen
      modifies this`nwrite, this`written, this`readers, this`writers, data
      ensures Valid() && (Awake() <==> !(killed && old(readers) != {} && |buf| - i0 > PIPESIZE))
      ensures old(written) <= written && written[|old(written)|..] <= buf[i0..]
      ensures o.Done? ==> o.bytes == buf && written == old(written) + buf[i0..] && readers == {}
      ensures o.Asleep? ==> i0 <= o.i < |buf| && written == old(written) + buf[i0..o.i] && t in writers && !killed
      ensures o.Failed? ==> |written| - |taken| == PIPESIZE && (killed || !readopen) && |written| - |old(written)| < |buf| - i0
      ensures writers == old(writers) + (if o.Asleep? then {t} else {}) && readers == if o.Failed? then old(readers) else {}
    {
      hide Fifo;
      var i := i0;
      assert buf[i0..i0] == [];
      Tests(data[..], nread, nwrite, written, taken);
      while i < |buf|
        invariant i0 <= i <= |buf| && Valid() && written == old(written) + buf[i0..i]
        invariant |taken| <= |written| <= |taken| + PIPESIZE
        invariant readers == old(readers) && writers == old(writers)
      {
        Tests(data[..], nread, nwrite, written, taken);
        if nwrite == (nread + PIPESIZE) % UINT {
          assert i0 < i || |old(written)| - |taken| == PIPESIZE;
          if !readopen || killed { return Failed; }
          readers := {};
          writers := writers + {t};
          return Asleep(i);
        }
        Put(data[..], nread, nwrite, written, taken, buf[i]);
        ghost var d := data[..];
        data[nwrite % PIPESIZE] := buf[i];
        assert data[..] == d[nwrite % PIPESIZE := buf[i]];
        nwrite := (nwrite + 1) % UINT;
        written := written + [buf[i]];
        i := i + 1;
        assert buf[i0..i] == buf[i0..i-1] + [buf[i-1]];
        Tests(data[..], nread, nwrite, written, taken);
      }
      readers := {};
      assert buf[i0..i] == buf[i0..];
      return Done(buf);
    }

    /** piperead by process t, from its start or after it slept. */
    method Read(t: nat, n: nat, killed: bool) returns (o: Outcome)
      requires Valid() && Awake() && t !in readers && t !in writers && readopen
      modifies this`nread, this`taken, this`readers, this`writers
      ensures Valid() && Awake()
      ensures var avail := |old(written)| - |old(taken)|;
              && (o.Asleep? <==> avail == 0 && writeopen && !killed)
              && (o.Failed? <==> avail == 0 && writeopen && killed)
              && (o.Done? ==> taken == old(taken) + o.bytes && |o.bytes| == (if n < avail then n else avail) && writers == {})
              && (!o.Done? ==> taken == old(taken) && writers == old(writers))
      ensures readers == (old(readers) + if o.Asleep? then {t} else {}) && (o.Asleep? ==> o.i == 0)
    {
      Tests(data[..], nread, nwrite, written, taken);
      if nread == nwrite && writeopen {
        if killed { return Failed; }
        readers := readers + {t};
        return Asleep(0);
      }
      var i := 0;
      var addr: seq<Byte> := [];
      while i < n
        invariant i <= n && |addr| == i && Valid() && taken == old(taken) + addr
        invariant readers == old(readers)
      {
        Tests(data[..], nread, nwrite, written, taken);
        if nread == nwrite { break; }
        Get(data[..], nread, nwrite, written, taken);
        addr := addr + [data[nread % PIPESIZE]];
        taken := taken + [data[nread % PIPESIZE]];
        nread := (nread + 1) % UINT;
        i := i + 1;
      }
      writers := {};
      return Done(addr);
    }

    /** pipeclose: the last descriptor of an end goes away, so nobody uses that end. */
    method Close(writable: bool) returns (freed: bool)
      requires Valid() && Awake() && (if writable then writers == {} else readers == {})
      modifies this`readopen, this`writeopen, this`readers, this`writers
      ensures Valid() && Awake() && readopen == (old(readopen) && writable) && writeopen == (old(writeopen) && !writable)
      ensures if writable then readers == {} && writers == old(writers) else writers == {} && readers == old(readers)
      ensures freed == (!readopen && !writeopen)
    {
      if writable {
        writeopen := false;
        readers := {};
      } else {
        readopen := false;
        writers := {};
      }
      freed := !readopen && !writeopen;
    }

    /** A sleeper is woken for another reason: a kill, or a wakeup meant for others. */
    method Spurious(t: nat)
      requires Valid() && Awake()
      modifies this`readers, this`writers
      ensures Valid() && Awake() && readers == old(readers) - {t} && writers == old(writers) - {t}
    {
      readers, writers := readers - {t}, writers - {t};
    }
  }

  /** A reader sleeps on the empty pipe; a writer with more than the pipe holds fills it, is killed and
      returns: the reader sleeps on although 512 bytes are there. */
  method StrandedReader() returns (p: PipeBuffer)
    ensures p.Valid() && !p.Awake() && 1 in p.readers && |p.written| - |p.taken| == PIPESIZE
  {
    p := new PipeBuffer();
    var o := p.Read(1, 1, false);
    var w := p.Write(2, seq(PIPESIZE + 1, _ => 0), 0, true);
  }
}
