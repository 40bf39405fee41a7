/** The web server's bounded buffer between the accept loop and any number of workers: every method runs
    under the mutex from one point where it is free to the next, so any interleaving, spurious wakeups
    included, is a run of these methods. (projects/p4/p4a/server.c) */
module Server {
  /** The slots from rd on, around the end, hold the connections that wait, in order. */
  ghost predicate Buffered(buff: seq<int>, rd: nat, count: nat, accepted: seq<int>, handed: nat) {
    && 0 < |buff| && rd < |buff| && count <= |buff| && |accepted| == handed + count
    && forall k: nat :: k < count ==> InSlot(buff, rd, accepted, handed, k)
  }

  ghost predicate InSlot(buff: seq<int>, rd: nat, accepted: seq<int>, handed: nat, k: nat)
    requires 0 < |buff| && handed + k < |accepted|
  {
    buff[(rd + k) % |buff|] == accepted[handed + k]
  }

  /** a mod n for one lap. */
  lemma Wrap(a: nat, n: nat)
    requires 0 < n && a < 2 * n
    ensures a % n == if a < n then a else a - n
  {
    if a < n { Mod(a, n, 0, a); } else { Mod(a, n, 1, a - n); }
  }

  lemma Mod(a: nat, n: nat, q: nat, r: nat)
    requires 0 < n && r < n && a == q * n + r && q <= 1
    ensures a % n == r
  {}

  lemma PutKeeps(buff: seq<int>, rd: nat, count: nat, accepted: seq<int>, handed: nat, wr: nat, conn: int)
    requires Buffered(buff, rd, count, accepted, handed) && count < |buff| && wr == (rd + count) % |buff|
    ensures wr < |buff| && Buffered(buff[wr := conn], rd, count + 1, accepted + [conn], handed)
    ensures (wr + 1) % |buff| == (rd + (count + 1)) % |buff|
  {
    var n, b, acc := |buff|, buff[wr := conn], accepted + [conn];
    Wrap(rd + count, n);
    Wrap(wr + 1, n);
    if rd + count + 1 < 2 * n { Wrap(rd + (count + 1), n); }
    forall k: nat | k < count + 1 ensures InSlot(b, rd, acc, handed, k) {
      if k < count {
        assert InSlot(buff, rd, accepted, handed, k);
        Wrap(rd + k, n);
      }
    }
  }

  lemma TakeKeeps(buff: seq<int>, rd: nat, count: nat, accepted: seq<int>, handed: nat)
    requires Buffered(buff, rd, count, accepted, handed) && count > 0
    ensures handed < |accepted| && buff[rd] == accepted[handed]
    ensures (rd + 1) % |buff| < |buff| && Buffered(buff, (rd + 1) % |buff|, count - 1, accepted, handed + 1)
    ensures (rd + count) % |buff| == ((rd + 1) % |buff| + (count - 1)) % |buff|
  {
    var n := |buff|;
    var rd' := (rd + 1) % n;
    assert InSlot(buff, rd, accepted, handed, 0);
    Wrap(rd, n);
    Wrap(rd + 1, n);
    Laps(rd, rd', count, n);
    var h: nat, c: nat := handed + 1, count - 1;
    forall k: nat | k < c ensures InSlot(buff, rd', accepted, h, k) {
      assert InSlot(buff, rd, accepted, handed, k + 1);
      Wrap(rd + (k + 1), n);
      Wrap(rd' + k, n);
    }
  }

  lemma Laps(rd: nat, rd': nat, count: nat, n: nat)
    requires 0 < count <= n && rd < n && rd' == if rd + 1 < n then rd + 1 else rd + 1 - n
    ensures (rd + count) % n == (rd' + (count - 1)) % n
  {
    if rd + 1 == n { Wrap(rd + count, n); Wrap(count - 1, n); }
  }

  class Queue {
    const buff: array<int>
    var count: nat
    var readBufferNo: nat
    var writeBufferNo: nat
    ghost var accepted: seq<int>          // every connection put into the buffer
    ghost var handed: seq<(nat, int)>     // every connection taken, with its worker
    ghost var waiting: set<nat>           // workers in the wait on fill that no signal has reached
    ghost var woken: set<nat>             // workers on their way out of that wait
    ghost var producerWaits: bool         // the accept loop is in its wait on empty, unsignalled

    /** Connections are handed out once each, in accept order, and the indices agree. */
    ghost predicate Valid()
      reads this, buff
    {
      && Buffered(buff[..], readBufferNo, count, accepted, |handed|)
      && writeBufferNo == (readBufferNo + count) % buff.Length
      && forall i :: 0 <= i < |handed| ==> handed[i].1 == accepted[i]
    }

    /** No signal was lost: a worker waits only while those already woken can take all there is, and the
        accept loop only while the buffer is full. */
    ghost predicate NoLostSignal()
      reads this, buff
    {
      && waiting !! woken
      && (waiting != {} ==> count <= |woken|)
      && (producerWaits ==> count == buff.Length)
    }

    constructor (numbuff: nat)
      requires numbuff >= 1            // getargs refuses less
      ensures Valid() && NoLostSignal() && buff.Length == numbuff && fresh(buff)
      ensures accepted == [] && handed == [] && waiting == woken == {} && !producerWaits
    {
      buff := new int[numbuff](_ => 0);
      count, readBufferNo, writeBufferNo := 0, 0, 0;
      accepted, handed, waiting, woken, producerWaits := [], [], {}, {}, false;
    }

    /** The accept loop with connection conn, from its lock or from its wait. wake is whom the signal
        reaches: somebody, if anybody waits. */
    method Put(conn: int, ghost wake: set<nat>) returns (waits: bool)
      requires Valid() && NoLostSignal() && !producerWaits
      requires wake <= waiting && (waiting != {} ==> wake != {})
      modifies this`count, this`writeBufferNo, this`accepted, this`waiting, this`woken, this`producerWaits, buff
      ensures Valid() && NoLostSignal() && waits == producerWaits && waits == (old(count) == buff.Length)
      ensures waits ==> accepted == old(accepted) && count == old(count) && waiting == old(waiting) && woken == old(woken)
      ensures !waits ==> accepted == old(accepted) + [conn] && count == old(count) + 1
      ensures !waits ==> waiting == old(waiting) - wake && woken == old(woken) + wake
    {
      if count == buff.Length {
        producerWaits := true;
        return true;
      }
      PutKeeps(buff[..], readBufferNo, count, accepted, |handed|, writeBufferNo, conn);
      ghost var b := buff[..];
      buff[writeBufferNo] := conn;
      assert buff[..] == b[writeBufferNo := conn];
      writeBufferNo := (writeBufferNo + 1) % buff.Length;
      count := count + 1;
      accepted := accepted + [conn];
      Signalled(waiting, woken, wake);
      waiting, woken := waiting - wake, woken + wake;
      return false;
    }

    /** Worker w, from its lock or from its wait; got says whether it has a connection to handle. */
    method Take(w: nat) returns (got: bool, conn: int)
      requires Valid() && NoLostSignal() && w !in waiting
      modifies this`count, this`readBufferNo, this`handed, this`waiting, this`woken, this`producerWaits
      ensures Valid() && NoLostSignal() && got == (old(count) > 0) && woken == old(woken) - {w} && accepted == old(accepted)
      ensures got ==> |handed| <= |accepted| && handed == old(handed) + [(w, conn)] && conn == accepted[|old(handed)|]
      ensures got ==> count == old(count) - 1 && waiting == old(waiting) && !producerWaits
      ensures !got ==> handed == old(handed) && waiting == old(waiting) + {w} && producerWaits == old(producerWaits)
    {
      if count == 0 {
        waiting, woken := waiting + {w}, woken - {w};
        return false, 0;
      }
      TakeKeeps(buff[..], readBufferNo, count, accepted, |handed|);
      conn := buff[readBufferNo];
      readBufferNo := readBufferNo + 1;
      readBufferNo := readBufferNo % buff.Length;
      producerWaits := false;      // signal empty
      count := count - 1;
      handed := handed + [(w, conn)];
      woken := woken - {w};
      return true, conn;
    }

    /** A wait may return without a signal. */
    method Spurious(w: nat)
      requires Valid() && NoLostSignal() && w in waiting
      modifies this`waiting, this`woken
      ensures Valid() && NoLostSignal() && waiting == old(waiting) - {w} && woken == old(woken) + {w}
    {
      Signalled(waiting, woken, {w});
      waiting, woken := waiting - {w}, woken + {w};
    }

    method SpuriousProducer()
      requires Valid() && NoLostSignal()
      modifies this`producerWaits
      ensures Valid() && NoLostSignal() && !producerWaits
    {
      producerWaits := false;
    }
  }

  lemma Signalled(waiting: set<nat>, woken: set<nat>, wake: set<nat>)
    requires waiting !! woken && wake <= waiting
    ensures |woken + wake| == |woken| + |wake| && (wake != {} ==> |woken + wake| >= |woken| + 1)
  {}
}
