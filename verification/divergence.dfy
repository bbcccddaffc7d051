/**
 Where the operations of pipe.c agree with the consistent ring of FixedRing and
 where they leave it. On a consistent ring a read always delivers the right bytes,
 but when readp >= writep (the unread bytes reach the end of the buffer, or the ring
 is full) and the read stops short of that end, it loses its place. A write clamps
 to the bytes already buffered instead of the free space. When readp < writep, its
 split at the end of the buffer is right, but it sets the write pointer to the length
 of the bottom segment, which is 0 when the write ends before the end of the buffer.
 A wrapped ring below is one with writep < readp: the unread bytes run past the end
 of the buffer, and the free space is the stretch from writep to readp.
 */
module Divergence {
  import opened PipeState
  import opened PipeOps
  import opened FixedRing

  /** A successful read of pipe.c that sets readp to 0 although the bytes it read
      end before the end of the buffer. */
  predicate ReadLosesPlace(p: Pipe, req: nat, interrupted: bool)
  {
    && !interrupted
    && p.count > 0
    && p.readp >= p.writep
    && 0 < p.readp + Min(req, p.count) < p.size
  }

  /** On a consistent ring, pipe_read copies in bounds, reports what the fixed read
      reports and delivers the same bytes, the oldest unread ones. The two differ only
      in the new read pointer, and exactly when the read loses its place; the ring it
      leaves is then inconsistent. */
  lemma {:induction false} ReadAgainstFixed(p: Pipe, req: nat, nonblock: bool, interrupted: bool, copy: UserCopy)
    requires Valid(p)
    ensures ReadInBounds(p, req)
    ensures Read(p, req, nonblock, interrupted, copy).status == FixedRead(p, req, nonblock, interrupted, copy).status
    ensures Read(p, req, nonblock, interrupted, copy).data == FixedRead(p, req, nonblock, interrupted, copy).data
    ensures Read(p, req, nonblock, interrupted, copy).status.Ok? ==>
              Read(p, req, nonblock, interrupted, copy).data == Contents(p)[..Min(req, p.count)]
    ensures Read(p, req, nonblock, interrupted, copy).pipe.count == FixedRead(p, req, nonblock, interrupted, copy).pipe.count
    ensures Read(p, req, nonblock, interrupted, copy).pipe == FixedRead(p, req, nonblock, interrupted, copy).pipe
            <==> !(ReadLosesPlace(p, req, interrupted) && Read(p, req, nonblock, interrupted, copy).status.Ok?)
    ensures ReadLosesPlace(p, req, interrupted) && Read(p, req, nonblock, interrupted, copy).status.Ok? ==>
              !Valid(Read(p, req, nonblock, interrupted, copy).pipe)
  {
    var r := Read(p, req, nonblock, interrupted, copy);
    var f := FixedRead(p, req, nonblock, interrupted, copy);
    FixedReadTakesOldest(p, req, nonblock, interrupted, copy);
    if r.status.Ok? {
      var n := Min(req, p.count);
      assert r.data == f.data by {
        forall i | 0 <= i < n
          ensures r.data[i] == f.data[i]
        {
          assert f.data[i] == Contents(p)[i];
        }
      }
    }
  }

  /** On a consistent wrapped ring (writep < readp), a write
      small enough for both clamps is exactly the fixed write. */
  lemma WriteAgreesOnWrappedRing(p: Pipe, src: seq<byte>, nonblock: bool, interrupted: bool, copy: UserCopy)
    requires Valid(p)
    requires p.writep < p.readp
    requires |src| <= p.count && |src| <= p.size - p.count
    ensures WriteInBounds(p, src)
    ensures Write(p, src, nonblock, interrupted, copy) == FixedWrite(p, src, nonblock, interrupted, copy)
  {
    var n := |src|;
    assert src[..n][..n] == src[..n];
    assert src[n..n] == [];
  }

  /** On a consistent wrapped ring (writep < readp), pipe_write's single copy from
      writep stays inside the buffer exactly when the bytes it takes, clamped to the
      count and not to the free space, end by the end of the buffer. pipe.c checks no
      bound, so any larger write copies past the end of the ring buffer. The free-space
      clamp of the fixed write always stops at readp. */
  lemma WrappedWriteInBounds(p: Pipe, src: seq<byte>)
    requires Valid(p)
    requires p.writep < p.readp
    ensures WriteInBounds(p, src) <==> p.writep + Min(|src|, p.count) <= p.size
    ensures p.writep + Min(|src|, p.size - p.count) <= p.readp
  {
  }

  /** On a consistent ring with readp < writep, a write small enough for
      both clamps that reaches the end of the buffer is exactly the fixed write: the
      free space is writep to the end and then 0 to readp, so the two-segment branch
      is the right one, and the bottom length is where the write pointer belongs. */
  lemma SplitBranchAgreesWhenReachingEnd(p: Pipe, src: seq<byte>, nonblock: bool, interrupted: bool, copy: UserCopy)
    requires Valid(p)
    requires p.readp < p.writep
    requires |src| <= p.count && |src| <= p.size - p.count
    requires p.writep + |src| >= p.size
    ensures WriteInBounds(p, src)
    ensures Write(p, src, nonblock, interrupted, copy) == FixedWrite(p, src, nonblock, interrupted, copy)
  {
    var n := |src|;
    assert src[..n][..n] == src[..n];
  }

  /** A successful write of pipe.c into a consistent ring with readp < writep,
      which fits both clamps and stops short of the end of the buffer, sets writep to 0
      instead of past the bytes it stored, and leaves the ring inconsistent. */
  lemma WriteLosesPlace(p: Pipe, src: seq<byte>, nonblock: bool, interrupted: bool, copy: UserCopy)
    requires Valid(p)
    requires p.readp < p.writep
    requires 0 < |src| <= p.count
    requires |src| < p.size - p.writep
    ensures WriteInBounds(p, src)
    ensures Write(p, src, nonblock, interrupted, copy).status.Ok? ==>
              && Write(p, src, nonblock, interrupted, copy).pipe.writep == 0
              && FixedWrite(p, src, nonblock, interrupted, copy).pipe.writep == p.writep + |src|
              && !Valid(Write(p, src, nonblock, interrupted, copy).pipe)
  {
  }

  /** Every successful open of pipe.c, on a pipe whose buffer (if any) has the
      configured size, leaves an empty consistent ring. */
  lemma OpenGivesEmptyRing(p: Pipe, mode: Mode, pipeSize: int, interrupted: bool, allocOk: bool)
    requires pipeSize > 0
    requires p.rbuf.Some? ==> |p.rbuf.value| == pipeSize
    ensures Open(p, mode, pipeSize, interrupted, allocOk).status.Ok? ==>
              && Valid(Open(p, mode, pipeSize, interrupted, allocOk).pipe)
              && Contents(Open(p, mode, pipeSize, interrupted, allocOk).pipe) == []
  {
  }

  /** Right after a successful open, pipe_write stores nothing whatever it is given,
      while the fixed write stores as many bytes as the buffer holds; and a read that
      follows finds the pipe empty. */
  lemma WriteAfterOpenStoresNothing(p: Pipe, mode: Mode, pipeSize: int, allocOk: bool, src: seq<byte>, nonblock: bool)
    requires pipeSize > 0
    requires p.rbuf.Some? ==> |p.rbuf.value| == pipeSize
    requires Open(p, mode, pipeSize, false, allocOk).status.Ok?
    ensures var q := Open(p, mode, pipeSize, false, allocOk).pipe;
            && WriteInBounds(q, src)
            && Write(q, src, nonblock, false, NoFaults) == Step(Ok(0), q)
            && FixedWrite(q, src, nonblock, false, NoFaults).status == Ok(Min(|src|, pipeSize))
            && Read(q, |src|, nonblock, false, NoFaults).status == (if nonblock then Err(EAGAIN) else Blocked)
  {
    var q := Open(p, mode, pipeSize, false, allocOk).pipe;
    assert q.rbuf.value[..0] == [];
  }
}
