/**
 The state of one pipe device and the vocabulary its four file operations share:
 bytes, the optional ring buffer, error codes, call outcomes, open modes, and the
 oracle that stands in for the kernel's user-copy primitives.
 */
module PipeState {

  newtype byte = x: int | 0 <= x < 256

  /** A kernel pointer that may be NULL. */
  datatype Option<+T> = None | Some(value: T)

  /** The negated errno values the pipe returns. */
  datatype Error = ERESTARTSYS | EAGAIN | EFAULT | ENOMEM

  /** What one call reports: a byte count (0 for open and release), a sleep on a
      wait queue, or an error. */
  datatype Status = Ok(n: nat) | Blocked | Err(error: Error)

  /** The FMODE_READ and FMODE_WRITE bits of the opened file. */
  datatype Mode = Mode(read: bool, write: bool)

  /** The fields of `struct pipe` that the ring logic touches. The C fields are
      32-bit `int`; the model uses unbounded integers (see the integer-width line
      under "Left out" in README.md). */
  datatype Pipe = Pipe(
    rbuf: Option<seq<byte>>,
    readp: int,
    writep: int,
    count: int,
    size: int,
    nrReaders: int,
    nrWriters: int)

  /** The pipes array is zero-filled when the module loads, so every pipe starts
      with no buffer and every counter at zero. */
  const Initial: Pipe := Pipe(None, 0, 0, 0, 0, 0, 0)

  /** Whether the first and the second copy_to_user / copy_from_user call of one
      operation fail. A copy of zero bytes never fails: the kernel primitives
      report the number of bytes left uncopied, which is then 0. */
  datatype UserCopy = UserCopy(firstFails: bool, secondFails: bool)

  const NoFaults: UserCopy := UserCopy(false, false)

  predicate Fails(fails: bool, len: int)
  {
    fails && len > 0
  }

  /** The smaller of two values: the `if (a > b) a = b;` clamps of pipe.c. */
  function Min(a: int, b: int): (m: int)
    ensures m <= a && m <= b
    ensures m == a || m == b
  {
    if a > b then b else a
  }

  /** A copy of `len` bytes at offset `off` of the ring buffer touches only
      allocated memory. A copy of zero bytes touches nothing, even through NULL. */
  predicate InBuffer(buf: Option<seq<byte>>, off: int, len: int)
  {
    len == 0 || (len > 0 && buf.Some? && 0 <= off && off + len <= |buf.value|)
  }

  /** The `len` bytes of the buffer starting at `off`. */
  function Take(buf: Option<seq<byte>>, off: int, len: int): (r: seq<byte>)
    requires InBuffer(buf, off, len)
    ensures |r| == len
    ensures forall i :: 0 <= i < len ==> r[i] == buf.value[off + i]
  {
    if len == 0 then [] else buf.value[off..off + len]
  }

  /** The buffer holds `data` from offset `off` on. */
  predicate Holds(buf: Option<seq<byte>>, off: int, data: seq<byte>)
  {
    && buf.Some?
    && InBuffer(buf, off, |data|)
    && forall k :: off <= k < off + |data| ==> buf.value[k] == data[k - off]
  }

  /** The buffer with `data` stored at offset `off`. */
  function Put(buf: Option<seq<byte>>, off: int, data: seq<byte>): (r: Option<seq<byte>>)
    requires InBuffer(buf, off, |data|)
    ensures r.Some? <==> buf.Some?
    ensures |data| == 0 ==> r == buf
    ensures buf.Some? ==> Holds(r, off, data)
    ensures buf.Some? ==> |r.value| == |buf.value|
    ensures buf.Some? ==> forall k :: 0 <= k < |buf.value| && off <= k < off + |data| ==> r.value[k] == data[k - off]
    ensures buf.Some? ==> forall k :: 0 <= k < |buf.value| && !(off <= k < off + |data|) ==> r.value[k] == buf.value[k]
  {
    if |data| == 0 then buf
    else Some(seq(|buf.value|, k requires 0 <= k < |buf.value| =>
                    if off <= k < off + |data| then data[k - off] else buf.value[k]))
  }
}
