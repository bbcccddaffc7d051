/**
 The ring buffer as pipe.c evidently means it to behave, used as the reference the
 as-written operations are compared against. It differs from pipe.c in three places:
 a write is clamped to the free space, both pointers advance by the bytes moved, and
 both wrap to the start at the end of the buffer. Every copy is split at the end of
 the buffer, the bottom copy being empty when nothing crosses it. Everything else
 (error outcomes, fault policy, the order of the copies) is the source's.
 */
module FixedRing {
  import opened PipeState
  import opened PipeOps

  /** An offset in [0, 2 * size) brought back into [0, size). */
  function Wrap(k: int, size: int): (w: int)
  {
    if k < size then k else k - size
  }

  /** A consistent ring: an allocated buffer of `size` bytes, both pointers inside
      it, at most `size` bytes buffered, and the unread bytes run from readp to writep. */
  predicate Valid(p: Pipe)
  {
    && p.size > 0
    && p.rbuf.Some?
    && |p.rbuf.value| == p.size
    && 0 <= p.readp < p.size
    && 0 <= p.count <= p.size
    && p.writep == Wrap(p.readp + p.count, p.size)
  }

  /** The unread bytes of a consistent ring, oldest first. */
  function Contents(p: Pipe): (c: seq<byte>)
    requires Valid(p)
    ensures |c| == p.count
    ensures forall i :: 0 <= i < p.count ==> c[i] == p.rbuf.value[Wrap(p.readp + i, p.size)]
  {
    seq(p.count, i requires 0 <= i < p.count => p.rbuf.value[Wrap(p.readp + i, p.size)])
  }

  /** Whether the fixed read of `req` bytes from a non-empty ring meets a fault: it
      copies from readp up to the end of the buffer, then the rest from 0. */
  predicate FixedReadFaults(p: Pipe, req: nat, copy: UserCopy)
  {
    var n := Min(req, p.count);
    var top := Min(p.size - p.readp, n);
    Fails(copy.firstFails, top) || Fails(copy.secondFails, n - top)
  }

  /** pipe_read with the read pointer advanced by the bytes read, wrapping at the end. */
  function FixedRead(p: Pipe, req: nat, nonblock: bool, interrupted: bool, copy: UserCopy): (r: ReadStep)
    requires Valid(p)
    ensures Valid(r.pipe)
    ensures r.status == Err(ERESTARTSYS) <==> interrupted
    ensures !r.status.Ok? ==> r.pipe == p && r.data == []
    ensures !interrupted && p.count == 0 ==> r.status == (if nonblock then Err(EAGAIN) else Blocked)
    ensures r.status == Err(EFAULT) ==> copy.firstFails || copy.secondFails
    ensures !interrupted && p.count != 0 && copy == NoFaults ==> r.status.Ok?
    ensures !interrupted && p.count != 0 ==>
      && (r.status.Ok? || r.status == Err(EFAULT))
      && (r.status == Err(EFAULT) <==> FixedReadFaults(p, req, copy))
    ensures r.status.Ok? ==>
      && r.status.n == Min(req, p.count)
      && |r.data| == r.status.n
      && r.pipe.count == p.count - r.status.n
      && r.pipe == p.(readp := r.pipe.readp, count := r.pipe.count)
  {
    if interrupted then ReadStep(Err(ERESTARTSYS), [], p)
    else if p.count == 0 then ReadStep(if nonblock then Err(EAGAIN) else Blocked, [], p)
    else
      var n := Min(req, p.count);
      var top := Min(p.size - p.readp, n);
      if Fails(copy.firstFails, top) then ReadStep(Err(EFAULT), [], p)
      else if n - top != 0 && Fails(copy.secondFails, n - top) then ReadStep(Err(EFAULT), [], p)
      else
        ReadStep(Ok(n), Take(p.rbuf, p.readp, top) + Take(p.rbuf, 0, n - top),
                 p.(readp := Wrap(p.readp + n, p.size), count := p.count - n))
  }

  /** FIFO order of the fixed read: it delivers the oldest unread bytes, and exactly
      those leave the ring. */
  lemma {:induction false} FixedReadTakesOldest(p: Pipe, req: nat, nonblock: bool, interrupted: bool, copy: UserCopy)
    requires Valid(p)
    ensures var r := FixedRead(p, req, nonblock, interrupted, copy);
            r.status.Ok? ==>
              && r.data == Contents(p)[..r.status.n]
              && Contents(r.pipe) == Contents(p)[r.status.n..]
  {
    var r := FixedRead(p, req, nonblock, interrupted, copy);
    if r.status.Ok? {
      var n := r.status.n;
      ReadFifo(p, n, Min(p.size - p.readp, n), r.data, r.pipe);
    }
  }

  /** Taking the top segment from readp and the bottom segment from 0 yields the
      oldest unread bytes, and advancing readp with wrap-around drops exactly those. */
  lemma ReadFifo(p: Pipe, n: int, top: int, data: seq<byte>, q: Pipe)
    requires Valid(p)
    requires 0 <= n <= p.count
    requires top == Min(p.size - p.readp, n)
    requires data == Take(p.rbuf, p.readp, top) + Take(p.rbuf, 0, n - top)
    requires q == p.(readp := Wrap(p.readp + n, p.size), count := p.count - n)
    ensures Valid(q)
    ensures data == Contents(p)[..n]
    ensures Contents(q) == Contents(p)[n..]
  {
    var c := Contents(p);
    forall i | 0 <= i < n
      ensures data[i] == c[i]
    {
      if i < top {
        assert data[i] == p.rbuf.value[p.readp + i];
      } else {
        assert data[i] == Take(p.rbuf, 0, n - top)[i - top];
      }
    }
    var cq := Contents(q);
    forall i | 0 <= i < q.count
      ensures cq[i] == c[n + i]
    {
    }
  }

  /** Whether the fixed write of `src` into a ring that is not full meets a fault: it
      copies to writep up to the end of the buffer, then the rest to 0, and only as
      many bytes as are free. */
  predicate FixedWriteFaults(p: Pipe, src: seq<byte>, copy: UserCopy)
  {
    var n := Min(|src|, p.size - p.count);
    var top := Min(p.size - p.writep, n);
    Fails(copy.firstFails, top) || Fails(copy.secondFails, n - top)
  }

  /** pipe_write clamped to the free space, split at the end of the buffer, with the
      write pointer wrapping. */
  function FixedWrite(p: Pipe, src: seq<byte>, nonblock: bool, interrupted: bool, copy: UserCopy): (r: Step)
    requires Valid(p)
    ensures Valid(r.pipe)
    ensures r.status == Err(ERESTARTSYS) <==> interrupted
    ensures !interrupted && p.count == p.size ==> r.status == (if nonblock then Err(EAGAIN) else Blocked)
    ensures r.status == Err(EFAULT) ==> copy.firstFails || copy.secondFails
    ensures !interrupted && p.count != p.size && copy == NoFaults ==> r.status.Ok?
    ensures !interrupted && p.count != p.size ==>
      && (r.status.Ok? || r.status == Err(EFAULT))
      && (r.status == Err(EFAULT) <==> FixedWriteFaults(p, src, copy))
    ensures !r.status.Ok? ==> r.pipe == p.(rbuf := r.pipe.rbuf)
    // never more than the free space
    ensures r.status.Ok? ==>
      && r.status.n == Min(|src|, p.size - p.count)
      && r.pipe.count == p.count + r.status.n
      && r.pipe == p.(rbuf := r.pipe.rbuf, writep := r.pipe.writep, count := r.pipe.count)
  {
    if interrupted then Step(Err(ERESTARTSYS), p)
    else if p.count == p.size then Step(if nonblock then Err(EAGAIN) else Blocked, p)
    else
      var n := Min(|src|, p.size - p.count);
      var top := Min(p.size - p.writep, n);
      if Fails(copy.firstFails, top) then Step(Err(EFAULT), p)
      else
        var afterTop := Put(p.rbuf, p.writep, src[..top]);
        if n - top != 0 && Fails(copy.secondFails, n - top) then Step(Err(EFAULT), p.(rbuf := afterTop))
        else
          Step(Ok(n), p.(rbuf := Put(afterTop, 0, src[top..n]), writep := Wrap(p.writep + n, p.size), count := p.count + n))
  }

  /** FIFO order of the fixed write: the stored bytes follow the unread ones, and a
      write that fails leaves the unread bytes as they were. */
  lemma {:induction false} FixedWriteAppends(p: Pipe, src: seq<byte>, nonblock: bool, interrupted: bool, copy: UserCopy)
    requires Valid(p)
    ensures var r := FixedWrite(p, src, nonblock, interrupted, copy);
            && (r.status.Ok? ==> Contents(r.pipe) == Contents(p) + src[..r.status.n])
            && (!r.status.Ok? ==> Contents(r.pipe) == Contents(p))
  {
    if !interrupted && p.count != p.size {
      var n := Min(|src|, p.size - p.count);
      var top := Min(p.size - p.writep, n);
      if !Fails(copy.firstFails, top) {
        if n - top != 0 && Fails(copy.secondFails, n - top) {
          WriteKeepsUnread(p, n, top, src[..top], []);
        } else {
          WriteKeepsUnread(p, n, top, src[..top], src[top..n]);
          WriteFifo(p, src, n, top, FixedWrite(p, src, nonblock, interrupted, copy).pipe);
        }
      }
    }
  }

  /** Storing at most the free space from writep on, split at the end of the buffer,
      leaves every unread byte where it was. */
  lemma WriteKeepsUnread(p: Pipe, n: int, top: int, topData: seq<byte>, bottomData: seq<byte>)
    requires Valid(p)
    requires 0 <= n <= p.size - p.count
    requires top == Min(p.size - p.writep, n)
    requires |topData| == top
    requires |bottomData| == 0 || |bottomData| == n - top
    ensures InBuffer(p.rbuf, p.writep, top)
    ensures InBuffer(Put(p.rbuf, p.writep, topData), 0, |bottomData|)
    ensures var q := p.(rbuf := Put(Put(p.rbuf, p.writep, topData), 0, bottomData));
            Valid(q) && Contents(q) == Contents(p)
  {
    var q := p.(rbuf := Put(Put(p.rbuf, p.writep, topData), 0, bottomData));
    forall i | 0 <= i < p.count
      ensures Contents(q)[i] == Contents(p)[i]
    {
      var k := Wrap(p.readp + i, p.size);
      assert !(p.writep <= k < p.writep + top);
      assert !(0 <= k < |bottomData|);
    }
  }

  /** Once the unread bytes are known to survive, the stored segments are exactly
      the bytes that follow them in ring order. */
  lemma WriteFifo(p: Pipe, src: seq<byte>, n: int, top: int, q: Pipe)
    requires Valid(p)
    requires 0 <= n <= p.size - p.count && n <= |src|
    requires top == Min(p.size - p.writep, n)
    requires InBuffer(p.rbuf, p.writep, top)
    requires InBuffer(Put(p.rbuf, p.writep, src[..top]), 0, n - top)
    requires q == p.(rbuf := Put(Put(p.rbuf, p.writep, src[..top]), 0, src[top..n]),
                     writep := Wrap(p.writep + n, p.size), count := p.count + n)
    requires Contents(p.(rbuf := q.rbuf)) == Contents(p)
    ensures Valid(q)
    ensures Contents(q) == Contents(p) + src[..n]
  {
    var kept := p.(rbuf := q.rbuf);
    forall i | 0 <= i < q.count
      ensures Contents(q)[i] == (Contents(p) + src[..n])[i]
    {
      if i < p.count {
        assert Contents(q)[i] == Contents(kept)[i];
      } else {
        var j := i - p.count;
        var k := Wrap(p.readp + i, p.size);
        if j < top {
          assert k == p.writep + j;
        } else {
          assert k == j - top;
        }
      }
    }
  }

  /** Bytes written into an empty ring come back unchanged by a read of the same length. */
  lemma FixedRoundTrip(p: Pipe, s: seq<byte>, nonblock: bool)
    requires Valid(p) && p.count == 0
    requires 0 < |s| <= p.size
    ensures var w := FixedWrite(p, s, nonblock, false, NoFaults);
            && w.status == Ok(|s|)
            && FixedRead(w.pipe, |s|, nonblock, false, NoFaults).status == Ok(|s|)
            && FixedRead(w.pipe, |s|, nonblock, false, NoFaults).data == s
  {
    var w := FixedWrite(p, s, nonblock, false, NoFaults);
    FixedWriteAppends(p, s, nonblock, false, NoFaults);
    FixedReadTakesOldest(w.pipe, |s|, nonblock, false, NoFaults);
    assert Contents(p) == [];
    assert Contents(w.pipe) == s by {
      assert s[..|s|] == s;
    }
    assert Contents(w.pipe)[..|s|] == s;
  }
}
