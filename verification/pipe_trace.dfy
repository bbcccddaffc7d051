/**
 Runs of the pipe's file operations from the state the module leaves it in at load
 time. Because pipe_open zeroes p_count and pipe_write clamps to p_count, the
 buffered byte count never leaves 0: every read finds the pipe empty and every
 write stores nothing.
 */
module PipeTrace {
  import opened PipeState
  import opened PipeOps

  /** One call on the pipe, with the oracles that decide its environment. */
  datatype Op =
    | OpenOp(mode: Mode, interrupted: bool, allocOk: bool)
    | ReadOp(req: nat, nonblock: bool, interrupted: bool, copy: UserCopy)
    | WriteOp(src: seq<byte>, nonblock: bool, interrupted: bool, copy: UserCopy)
    | ReleaseOp(mode: Mode)

  /** The statuses of the calls of a run, in order, and the state after it. */
  datatype Trace = Trace(statuses: seq<Status>, last: Pipe)

  /** The ring fields as every run leaves them: nothing buffered, both pointers at 0. */
  predicate Quiet(p: Pipe)
  {
    p.count == 0 && p.readp == 0 && p.writep == 0
  }

  /** A call whose ring copies stay inside the buffer. An interrupted call makes no copy. */
  predicate OpInBounds(p: Pipe, op: Op)
  {
    match op
    case ReadOp(req, _, interrupted, _) => !interrupted ==> ReadInBounds(p, req)
    case WriteOp(src, _, interrupted, _) => !interrupted ==> WriteInBounds(p, src)
    case _ => true
  }

  /** One call, dispatched to its file operation. */
  function Apply(pipeSize: int, p: Pipe, op: Op): (s: Step)
    requires pipeSize > 0
    requires OpInBounds(p, op)
  {
    match op
    case OpenOp(mode, interrupted, allocOk) => Open(p, mode, pipeSize, interrupted, allocOk)
    case ReadOp(req, nonblock, interrupted, copy) =>
      var r := Read(p, req, nonblock, interrupted, copy);
      Step(r.status, r.pipe)
    case WriteOp(src, nonblock, interrupted, copy) => Write(p, src, nonblock, interrupted, copy)
    case ReleaseOp(mode) => Release(p, mode)
  }

  /** A quiet pipe makes no copy of a positive length, so every call is in bounds,
      no read succeeds, every successful write reports 0 bytes, and the pipe stays quiet. */
  lemma QuietStep(pipeSize: int, p: Pipe, op: Op)
    requires pipeSize > 0
    requires Quiet(p)
    ensures OpInBounds(p, op)
    ensures Quiet(Apply(pipeSize, p, op).pipe)
    ensures op.ReadOp? ==> !Apply(pipeSize, p, op).status.Ok?
    ensures op.WriteOp? && Apply(pipeSize, p, op).status.Ok? ==> Apply(pipeSize, p, op).status.n == 0
  {
    match op
    case OpenOp(_, _, _) =>
    case ReadOp(req, nonblock, interrupted, copy) =>
    case WriteOp(src, nonblock, interrupted, copy) =>
      assert Min(|src|, p.count) == 0;
    case ReleaseOp(_) =>
  }

  /** The run of `ops` from a quiet state. */
  function Run(pipeSize: int, p: Pipe, ops: seq<Op>): (t: Trace)
    requires pipeSize > 0
    requires Quiet(p)
    ensures |t.statuses| == |ops|
    ensures Quiet(t.last)
    ensures forall i :: 0 <= i < |ops| && ops[i].ReadOp? ==> !t.statuses[i].Ok?
    ensures forall i :: 0 <= i < |ops| && ops[i].WriteOp? && t.statuses[i].Ok? ==> t.statuses[i].n == 0
    decreases |ops|
  {
    if ops == [] then Trace([], p)
    else
      QuietStep(pipeSize, p, ops[0]);
      var s := Apply(pipeSize, p, ops[0]);
      var rest := Run(pipeSize, s.pipe, ops[1..]);
      var t := Trace([s.status] + rest.statuses, rest.last);
      assert forall i :: 1 <= i < |ops| ==> ops[i] == ops[1..][i - 1] && t.statuses[i] == rest.statuses[i - 1];
      t
  }

  /** From the state the module leaves the pipe in, no sequence of opens, reads,
      writes and releases ever buffers a byte: count stays 0, no read returns data,
      and every write that succeeds reports 0 bytes. */
  lemma NothingIsEverBuffered(pipeSize: int, ops: seq<Op>)
    requires pipeSize > 0
    ensures Run(pipeSize, Initial, ops).last.count == 0
    ensures forall i :: 0 <= i < |ops| && ops[i].ReadOp? ==> !Run(pipeSize, Initial, ops).statuses[i].Ok?
    ensures forall i :: 0 <= i < |ops| && ops[i].WriteOp? && Run(pipeSize, Initial, ops).statuses[i].Ok? ==>
              Run(pipeSize, Initial, ops).statuses[i].n == 0
  {
  }

  /** Releasing a session with the mode it was opened with restores both session
      counts; the buffer is freed exactly when the pipe had no session before the
      open, and otherwise is the one the open left. */
  lemma OpenThenRelease(p: Pipe, mode: Mode, pipeSize: int, interrupted: bool, allocOk: bool)
    requires pipeSize > 0
    requires Open(p, mode, pipeSize, interrupted, allocOk).status.Ok?
    ensures var q := Open(p, mode, pipeSize, interrupted, allocOk).pipe;
            var r := Release(q, mode).pipe;
            && r.nrReaders == p.nrReaders
            && r.nrWriters == p.nrWriters
            && (r.rbuf.None? <==> p.nrReaders + p.nrWriters == 0)
            && (p.nrReaders + p.nrWriters != 0 ==> r.rbuf == q.rbuf)
            && r.count == 0 && r.readp == 0 && r.writep == 0 && r.size == pipeSize
  {
  }
}
