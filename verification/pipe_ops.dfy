/**
 The four file operations of the pipe device, as pipe.c writes them. Each call runs
 under the pipe's mutex, so each is one atomic step from a state to a new state.
 Sleeping on a wait queue is the outcome `Blocked`; the wake-up is not modelled.
 */
module PipeOps {
  import opened PipeState

  /** The outcome of open, write and release: the status and the new state. */
  datatype Step = Step(status: Status, pipe: Pipe)

  /** The outcome of read: the status, the bytes delivered to the caller, and the new state. */
  datatype ReadStep = ReadStep(status: Status, data: seq<byte>, pipe: Pipe)

  /** 1 for a mode bit that is set, 0 otherwise. */
  function OneIf(b: bool): (k: int)
  {
    if b then 1 else 0
  }

  /** pipe_open. `interrupted` says whether mutex_lock_interruptible was interrupted,
      `allocOk` whether kzalloc succeeds, `pipeSize` is the module parameter. */
  function Open(p: Pipe, mode: Mode, pipeSize: int, interrupted: bool, allocOk: bool): (r: Step)
    requires pipeSize > 0
    ensures interrupted ==> r == Step(Err(ERESTARTSYS), p)
    ensures !interrupted && p.rbuf.None? && !allocOk ==> r == Step(Err(ENOMEM), p)
    ensures r.status.Ok? <==> !interrupted && (p.rbuf.Some? || allocOk)
    ensures r.status.Ok? ==> r.status.n == 0
    // an existing buffer is kept; a missing one is allocated zero-filled
    ensures r.status.Ok? && p.rbuf.Some? ==> r.pipe.rbuf == p.rbuf
    ensures r.status.Ok? && p.rbuf.None? ==>
      && r.pipe.rbuf.Some?
      && |r.pipe.rbuf.value| == pipeSize
      && forall i :: 0 <= i < pipeSize ==> r.pipe.rbuf.value[i] == 0
    // the ring is reset on every open, not only the first
    ensures r.status.Ok? ==>
      && r.pipe.size == pipeSize
      && r.pipe.readp == 0 && r.pipe.writep == 0 && r.pipe.count == 0
    ensures r.status.Ok? ==>
      && r.pipe.nrReaders == p.nrReaders + OneIf(mode.read)
      && r.pipe.nrWriters == p.nrWriters + OneIf(mode.write)
  {
    if interrupted then Step(Err(ERESTARTSYS), p)
    else if p.rbuf.None? && !allocOk then Step(Err(ENOMEM), p)
    else
      var buf := if p.rbuf.None? then Some(seq(pipeSize, _ => 0)) else p.rbuf;
      Step(Ok(0), Pipe(buf, 0, 0, 0, pipeSize,
                       if mode.read then p.nrReaders + 1 else p.nrReaders,
                       if mode.write then p.nrWriters + 1 else p.nrWriters))
  }

  /** pipe_release. The mutex is taken without interruption and the call returns 0. */
  function Release(p: Pipe, mode: Mode): (r: Step)
    ensures r.status == Ok(0)
    ensures r.pipe.nrReaders == p.nrReaders - OneIf(mode.read)
    ensures r.pipe.nrWriters == p.nrWriters - OneIf(mode.write)
    // the buffer is freed exactly when no session is left
    ensures r.pipe.nrReaders + r.pipe.nrWriters == 0 ==> r.pipe.rbuf.None?
    ensures r.pipe.nrReaders + r.pipe.nrWriters != 0 ==> r.pipe.rbuf == p.rbuf
    // the ring fields are left as they were
    ensures r.pipe.readp == p.readp && r.pipe.writep == p.writep
    ensures r.pipe.count == p.count && r.pipe.size == p.size
  {
    var readers := if mode.read then p.nrReaders - 1 else p.nrReaders;
    var writers := if mode.write then p.nrWriters - 1 else p.nrWriters;
    var buf := if readers + writers == 0 then None else p.rbuf;
    Step(Ok(0), p.(rbuf := buf, nrReaders := readers, nrWriters := writers))
  }

  /** The copies a read of `req` bytes would make stay inside the ring buffer.
      pipe_read makes no such check; it relies on 0 <= p_count and, when the data
      wraps, on p_readp <= p_size. */
  predicate ReadInBounds(p: Pipe, req: nat)
  {
    p.count != 0 ==>
      && p.count > 0
      && var n := Min(req, p.count);
         if p.readp < p.writep then InBuffer(p.rbuf, p.readp, n)
         else
           && p.readp <= p.size
           && var top := Min(p.size - p.readp, n);
              InBuffer(p.rbuf, p.readp, top) && InBuffer(p.rbuf, 0, n - top)
  }

  /** Whether a read of `req` bytes from a non-empty pipe meets a fault. When
      readp < writep it makes one copy from readp; otherwise a top copy from readp
      to the end of the buffer and a bottom copy from 0. A copy of 0 bytes never faults. */
  predicate ReadCopyFaults(p: Pipe, req: nat, copy: UserCopy)
  {
    var n := Min(req, p.count);
    if p.readp < p.writep then Fails(copy.firstFails, n)
    else
      var top := Min(p.size - p.readp, n);
      Fails(copy.firstFails, top) || Fails(copy.secondFails, n - top)
  }

  /** pipe_read of `req` bytes. `nonblock` is O_NONBLOCK of the file. */
  function Read(p: Pipe, req: nat, nonblock: bool, interrupted: bool, copy: UserCopy): (r: ReadStep)
    requires !interrupted ==> ReadInBounds(p, req)
    ensures r.status == Err(ERESTARTSYS) <==> interrupted
    ensures !r.status.Ok? ==> r.pipe == p && r.data == []
    // an empty pipe never delivers: a non-blocking reader gets EAGAIN, a blocking one sleeps
    ensures !interrupted && p.count == 0 ==> r.status == (if nonblock then Err(EAGAIN) else Blocked)
    ensures r.status == Err(EFAULT) ==> copy.firstFails || copy.secondFails
    ensures !interrupted && p.count != 0 && copy == NoFaults ==> r.status.Ok?
    // on a non-empty pipe the read succeeds unless a copy that moves bytes faults
    ensures !interrupted && p.count != 0 ==>
      && (r.status.Ok? || r.status == Err(EFAULT))
      && (r.status == Err(EFAULT) <==> ReadCopyFaults(p, req, copy))
    // size and count: never more than requested, never more than buffered
    ensures r.status.Ok? ==>
      && p.count > 0
      && r.status.n == Min(req, p.count)
      && (req > 0 ==> r.status.n > 0)
      && |r.data| == r.status.n
      && r.pipe.count == p.count - r.status.n
      && r.pipe == p.(readp := r.pipe.readp, count := r.pipe.count)
    // contiguous window: bytes from readp on, readp advances and is reset at the end
    ensures r.status.Ok? && p.readp < p.writep ==>
      && (forall i :: 0 <= i < |r.data| ==> p.rbuf.Some? && 0 <= p.readp + i < |p.rbuf.value| && r.data[i] == p.rbuf.value[p.readp + i])
      && r.pipe.readp == (if p.readp + r.status.n == p.size then 0 else p.readp + r.status.n)
    // wrapped window: top bytes from readp to the end, then bottom bytes from 0;
    // readp becomes the bottom length, which is 0 when no bottom segment was copied
    ensures r.status.Ok? && p.readp >= p.writep ==>
      && (forall i :: 0 <= i < |r.data| && p.readp + i < p.size ==>
            p.rbuf.Some? && p.readp + i < |p.rbuf.value| && r.data[i] == p.rbuf.value[p.readp + i])
      && (forall i :: 0 <= i < |r.data| && p.readp + i >= p.size ==>
            p.rbuf.Some? && 0 <= p.readp + i - p.size < |p.rbuf.value| && r.data[i] == p.rbuf.value[p.readp + i - p.size])
      && r.pipe.readp == (if p.readp + r.status.n <= p.size then 0 else p.readp + r.status.n - p.size)
  {
    if interrupted then ReadStep(Err(ERESTARTSYS), [], p)
    else if p.count == 0 then ReadStep(if nonblock then Err(EAGAIN) else Blocked, [], p)
    else
      var n := Min(req, p.count);
      if p.readp < p.writep then
        if Fails(copy.firstFails, n) then ReadStep(Err(EFAULT), [], p)
        else
          var rp := p.readp + n;
          ReadStep(Ok(n), Take(p.rbuf, p.readp, n),
                   p.(readp := if rp == p.size then 0 else rp, count := p.count - n))
      else
        var top := Min(p.size - p.readp, n);
        if Fails(copy.firstFails, top) then ReadStep(Err(EFAULT), [], p)
        else if n - top != 0 && Fails(copy.secondFails, n - top) then ReadStep(Err(EFAULT), [], p)
        else
          ReadStep(Ok(n), Take(p.rbuf, p.readp, top) + Take(p.rbuf, 0, n - top),
                   p.(readp := n - top, count := p.count - n))
  }

  /** The copies a write of `src` would make stay inside the ring buffer.
      pipe_write makes no such check; it relies on 0 <= p_count and, in its
      two-segment branch, on p_writep <= p_size. */
  predicate WriteInBounds(p: Pipe, src: seq<byte>)
  {
    p.count != p.size ==>
      && p.count >= 0
      && var n := Min(|src|, p.count);
         if p.readp < p.writep then
           && p.writep <= p.size
           && var top := Min(p.size - p.writep, n);
              InBuffer(p.rbuf, p.writep, top) && InBuffer(p.rbuf, 0, n - top)
         else InBuffer(p.rbuf, p.writep, n)
  }

  /** Whether a write of `src` into a pipe that is not full meets a fault. When
      readp < writep it makes a top copy from writep to the end of the buffer and a
      bottom copy from 0; otherwise one copy from writep. A copy of 0 bytes never faults. */
  predicate WriteCopyFaults(p: Pipe, src: seq<byte>, copy: UserCopy)
  {
    var n := Min(|src|, p.count);
    if p.readp < p.writep then
      var top := Min(p.size - p.writep, n);
      Fails(copy.firstFails, top) || Fails(copy.secondFails, n - top)
    else Fails(copy.firstFails, n)
  }

  /** The branch of pipe_write taken when readp < writep: a top copy from writep to
      the end of the buffer, then a bottom copy from 0; writep becomes the bottom length. */
  function WriteTwoSegments(p: Pipe, src: seq<byte>, copy: UserCopy): (r: Step)
    requires p.count != p.size && p.readp < p.writep
    requires WriteInBounds(p, src)
    ensures r.status.Ok? || r.status == Err(EFAULT)
    ensures r.status == Err(EFAULT) <==> WriteCopyFaults(p, src, copy)
    // a fault moves no pointer or counter and changes no byte outside the top segment
    ensures r.status == Err(EFAULT) ==>
      && r.pipe == p.(rbuf := r.pipe.rbuf)
      && (r.pipe.rbuf.Some? <==> p.rbuf.Some?)
      && (p.rbuf.Some? ==> |r.pipe.rbuf.value| == |p.rbuf.value|)
      && (p.rbuf.Some? ==> forall k :: 0 <= k < |p.rbuf.value| && !(p.writep <= k < p.writep + Min(p.size - p.writep, Min(|src|, p.count))) ==>
            r.pipe.rbuf.value[k] == p.rbuf.value[k])
    // a fault in the bottom copy comes after the top segment was written
    ensures r.status == Err(EFAULT) && p.rbuf.Some? && !copy.firstFails ==>
      Holds(r.pipe.rbuf, p.writep, src[..Min(p.size - p.writep, Min(|src|, p.count))])
    ensures r.status.Ok? ==>
      && r.status.n == Min(|src|, p.count)
      && r.pipe.count == p.count + r.status.n
      && r.pipe == p.(rbuf := r.pipe.rbuf, writep := r.pipe.writep, count := r.pipe.count)
      && (r.pipe.rbuf.Some? <==> p.rbuf.Some?)
      && (p.rbuf.Some? ==> |r.pipe.rbuf.value| == |p.rbuf.value|)
    ensures r.status.Ok? ==>
      var n := r.status.n;
      var top := Min(p.size - p.writep, n);
      && r.pipe.writep == n - top
      && (p.rbuf.Some? ==> forall k :: 0 <= k < |p.rbuf.value| ==>
            r.pipe.rbuf.value[k] ==
              if k < n - top then src[top + k]
              else if p.writep <= k < p.writep + top then src[k - p.writep]
              else p.rbuf.value[k])
  {
    var n := Min(|src|, p.count);
    var top := Min(p.size - p.writep, n);
    if Fails(copy.firstFails, top) then Step(Err(EFAULT), p)
    else
      var afterTop := Put(p.rbuf, p.writep, src[..top]);
      if n - top != 0 && Fails(copy.secondFails, n - top) then Step(Err(EFAULT), p.(rbuf := afterTop))
      else
        Step(Ok(n), p.(rbuf := Put(afterTop, 0, src[top..n]), writep := n - top, count := p.count + n))
  }

  /** The branch of pipe_write taken when readp >= writep: one copy from writep on,
      and writep advances by the bytes stored without wrapping. */
  function WriteOneSegment(p: Pipe, src: seq<byte>, copy: UserCopy): (r: Step)
    requires p.count != p.size && p.readp >= p.writep
    requires WriteInBounds(p, src)
    ensures r.status.Ok? || r.status == Err(EFAULT)
    ensures r.status == Err(EFAULT) <==> WriteCopyFaults(p, src, copy)
    ensures r.status == Err(EFAULT) ==> r.pipe == p
    ensures r.status.Ok? ==>
      && r.status.n == Min(|src|, p.count)
      && r.pipe.count == p.count + r.status.n
      && r.pipe == p.(rbuf := r.pipe.rbuf, writep := r.pipe.writep, count := r.pipe.count)
      && (r.pipe.rbuf.Some? <==> p.rbuf.Some?)
      && (p.rbuf.Some? ==> |r.pipe.rbuf.value| == |p.rbuf.value|)
      && r.pipe.writep == p.writep + r.status.n
      && (p.rbuf.Some? ==> forall k :: 0 <= k < |p.rbuf.value| ==>
            r.pipe.rbuf.value[k] ==
              if p.writep <= k < p.writep + r.status.n then src[k - p.writep] else p.rbuf.value[k])
  {
    var n := Min(|src|, p.count);
    if Fails(copy.firstFails, n) then Step(Err(EFAULT), p)
    else Step(Ok(n), p.(rbuf := Put(p.rbuf, p.writep, src[..n]), writep := p.writep + n, count := p.count + n))
  }

  /** pipe_write of the caller's bytes `src` (the C `count` is |src|). */
  function Write(p: Pipe, src: seq<byte>, nonblock: bool, interrupted: bool, copy: UserCopy): (r: Step)
    requires !interrupted ==> WriteInBounds(p, src)
    ensures r.status == Err(ERESTARTSYS) <==> interrupted
    // a full pipe never accepts: a non-blocking writer gets EAGAIN, a blocking one sleeps
    ensures !interrupted && p.count == p.size ==> r.status == (if nonblock then Err(EAGAIN) else Blocked)
    ensures r.status == Err(ERESTARTSYS) || r.status.Blocked? || r.status == Err(EAGAIN) ==> r.pipe == p
    ensures r.status == Err(EFAULT) ==> copy.firstFails || copy.secondFails
    ensures !interrupted && p.count != p.size && copy == NoFaults ==> r.status.Ok?
    // on a pipe that is not full the write succeeds unless a copy that moves bytes faults
    ensures !interrupted && p.count != p.size ==>
      && (r.status.Ok? || r.status == Err(EFAULT))
      && (r.status == Err(EFAULT) <==> WriteCopyFaults(p, src, copy))
    // a fault changes no pointer or counter; only the ring bytes of a first
    // segment that was copied before the second copy faulted may differ
    ensures r.status == Err(EFAULT) ==>
      && r.pipe == p.(rbuf := r.pipe.rbuf)
      && (p.readp >= p.writep ==> r.pipe == p)
      && (r.pipe.rbuf.Some? <==> p.rbuf.Some?)
      && (p.rbuf.Some? ==> |r.pipe.rbuf.value| == |p.rbuf.value|)
      && (p.rbuf.Some? ==> forall k :: 0 <= k < |p.rbuf.value| && !(p.writep <= k < p.writep + Min(p.size - p.writep, Min(|src|, p.count))) ==>
            r.pipe.rbuf.value[k] == p.rbuf.value[k])
    // a fault in the bottom copy comes after the top segment was written
    ensures !interrupted && p.count != p.size && p.readp < p.writep && r.status == Err(EFAULT) && p.rbuf.Some? && !copy.firstFails ==>
      Holds(r.pipe.rbuf, p.writep, src[..Min(p.size - p.writep, Min(|src|, p.count))])
    // size and count: clamped to the bytes already buffered, not to the free space
    ensures r.status.Ok? ==>
      && r.status.n == Min(|src|, p.count)
      && r.pipe.count == p.count + r.status.n
      && r.pipe == p.(rbuf := r.pipe.rbuf, writep := r.pipe.writep, count := r.pipe.count)
      && (r.pipe.rbuf.Some? <==> p.rbuf.Some?)
      && (p.rbuf.Some? ==> |r.pipe.rbuf.value| == |p.rbuf.value|)
    // readp < writep: split at the end of the buffer, writep becomes the bottom length;
    // otherwise one contiguous segment from writep, and writep is not wrapped
    ensures r.status.Ok? ==>
      var n := r.status.n;
      var top := Min(p.size - p.writep, n);
      && r.pipe.writep == (if p.readp < p.writep then n - top else p.writep + n)
      && (p.rbuf.Some? ==> forall k :: 0 <= k < |p.rbuf.value| ==>
            r.pipe.rbuf.value[k] ==
              if p.readp < p.writep then
                if k < n - top then src[top + k]
                else if p.writep <= k < p.writep + top then src[k - p.writep]
                else p.rbuf.value[k]
              else if p.writep <= k < p.writep + n then src[k - p.writep]
              else p.rbuf.value[k])
  {
    if interrupted then Step(Err(ERESTARTSYS), p)
    else if p.count == p.size then Step(if nonblock then Err(EAGAIN) else Blocked, p)
    else
      if p.readp < p.writep then WriteTwoSegments(p, src, copy)
      else WriteOneSegment(p, src, copy)
  }
}
