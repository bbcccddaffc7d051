/**
 Concrete runs on an 8-byte pipe: the walk-through a FIFO pipe is expected to follow,
 and the inputs on which pipe.c departs from it.
 */
module Scenarios {
  import opened PipeState
  import opened PipeOps
  import opened FixedRing

  /** Bytes 0, 1, ..., 7 in a buffer of 8. */
  const Counting: seq<byte> := seq(8, i requires 0 <= i < 8 => i as byte)

  const Both: Mode := Mode(true, true)

  /** The fixed ring on a freshly opened 8-byte pipe: write 1..5, read three bytes,
      write six more, which fill the ring exactly with the pointer wrapping to 3;
      a non-blocking write then gets EAGAIN. */
  lemma FixedWalkThrough()
    ensures var q0 := Open(Initial, Both, 8, false, true).pipe;
            && Valid(q0)
            && var w1 := FixedWrite(q0, [1, 2, 3, 4, 5], false, false, NoFaults);
               && w1.status == Ok(5) && w1.pipe.writep == 5 && w1.pipe.count == 5
               && var r2 := FixedRead(w1.pipe, 3, false, false, NoFaults);
                  && r2.status == Ok(3) && r2.data == [1, 2, 3]
                  && r2.pipe.readp == 3 && r2.pipe.count == 2
                  && var w3 := FixedWrite(r2.pipe, [6, 7, 8, 9, 10, 11], false, false, NoFaults);
                     && w3.status == Ok(6) && w3.pipe.writep == 3 && w3.pipe.count == 8
                     && Contents(w3.pipe) == [4, 5, 6, 7, 8, 9, 10, 11]
                     && FixedWrite(w3.pipe, [12], true, false, NoFaults).status == Err(EAGAIN)
  {
    var q0 := Open(Initial, Both, 8, false, true).pipe;
    assert Contents(q0) == [];
    var w1 := FixedWrite(q0, [1, 2, 3, 4, 5], false, false, NoFaults);
    FixedWriteAppends(q0, [1, 2, 3, 4, 5], false, false, NoFaults);
    assert Contents(w1.pipe) == [1, 2, 3, 4, 5];
    var r2 := FixedRead(w1.pipe, 3, false, false, NoFaults);
    FixedReadTakesOldest(w1.pipe, 3, false, false, NoFaults);
    assert Contents(r2.pipe) == [4, 5];
    var w3 := FixedWrite(r2.pipe, [6, 7, 8, 9, 10, 11], false, false, NoFaults);
    FixedWriteAppends(r2.pipe, [6, 7, 8, 9, 10, 11], false, false, NoFaults);
    assert Contents(w3.pipe) == [4, 5] + [6, 7, 8, 9, 10, 11];
  }

  /** The same walk-through on pipe.c: the first write stores nothing and reports 0,
      and the read that follows finds the pipe empty. */
  lemma AsWrittenWalkThrough()
    ensures var q0 := Open(Initial, Both, 8, false, true).pipe;
            && WriteInBounds(q0, [1, 2, 3, 4, 5])
            && var w1 := Write(q0, [1, 2, 3, 4, 5], false, false, NoFaults);
               && w1 == Step(Ok(0), q0)
               && Read(w1.pipe, 3, true, false, NoFaults).status == Err(EAGAIN)
  {
  }

  /** A full 8-byte ring, readp and writep both at 0. */
  const Full: Pipe := Pipe(Some(Counting), 0, 0, 8, 8, 1, 1)

  /** pipe.c, reading one byte at a time from a full ring, delivers byte 0 twice:
      the first read resets readp to 0 instead of advancing it to 1. */
  lemma ReadTwiceFromFull()
    ensures Valid(Full)
    ensures var r1 := Read(Full, 1, false, false, NoFaults);
            && r1.status == Ok(1) && r1.data == [0] && r1.pipe.readp == 0 && r1.pipe.count == 7
            && FixedRead(Full, 1, false, false, NoFaults).pipe.readp == 1
            && ReadInBounds(r1.pipe, 1)
            && Read(r1.pipe, 1, false, false, NoFaults).data == [0]
  {
    var r1 := Read(Full, 1, false, false, NoFaults);
    assert r1.data[0] == Counting[0];
  }

  /** Two unread bytes at 3 and 4, the write pointer at 5: the state the walk-through
      reaches after its first read. */
  const Short: Pipe := Pipe(Some(Counting), 3, 5, 2, 8, 1, 1)

  /** pipe.c stores two bytes at 5 and 6 but sets writep to 0, not 7. */
  lemma WriteResetsPointer()
    ensures Valid(Short)
    ensures WriteInBounds(Short, [6, 7])
    ensures var w := Write(Short, [6, 7], false, false, NoFaults);
            && w.status == Ok(2) && w.pipe.writep == 0 && w.pipe.count == 4
            && w.pipe.rbuf.value[5] == 6 && w.pipe.rbuf.value[6] == 7
            && !Valid(w.pipe)
    ensures FixedWrite(Short, [6, 7], false, false, NoFaults).pipe.writep == 7
  {
  }

  /** Four unread bytes at 2..5, the write pointer at 6, four bytes free. */
  const Middle: Pipe := Pipe(Some(Counting), 2, 6, 4, 8, 1, 1)

  /** A write that reaches the end of the buffer splits correctly: pipe.c stores three
      bytes at 6, 7 and 0 and moves writep to 1, as the fixed write does. */
  lemma SplitWriteWraps()
    ensures Valid(Middle)
    ensures WriteInBounds(Middle, [9, 10, 11])
    ensures var w := Write(Middle, [9, 10, 11], false, false, NoFaults);
            && w.status == Ok(3) && w.pipe.writep == 1 && w.pipe.count == 7
            && w.pipe.rbuf.value[6] == 9 && w.pipe.rbuf.value[7] == 10 && w.pipe.rbuf.value[0] == 11
            && Valid(w.pipe)
            && w == FixedWrite(Middle, [9, 10, 11], false, false, NoFaults)
  {
  }

  /** Seven unread bytes from 7 round to 5, the write pointer at 6, one byte free. */
  const Wrapped: Pipe := Pipe(Some(Counting), 7, 6, 7, 8, 1, 1)

  /** A three-byte write into the consistent ring `Wrapped` would make pipe.c copy
      to 6, 7 and 8, one byte past the 8-byte buffer; the fixed write stores one byte.
      Interrupted, the same call makes no copy and gives ERESTARTSYS. */
  lemma WriteRunsPastBuffer()
    ensures Valid(Wrapped)
    ensures Wrapped.writep + Min(3, Wrapped.count) == Wrapped.size + 1
    ensures !WriteInBounds(Wrapped, [9, 9, 9])
    ensures Write(Wrapped, [9, 9, 9], false, true, NoFaults) == Step(Err(ERESTARTSYS), Wrapped)
    ensures var f := FixedWrite(Wrapped, [9, 9, 9], false, false, NoFaults);
            f.status == Ok(1) && f.pipe.writep == 7 && f.pipe.count == 8
  {
  }

  /** Seven unread bytes from 2 round to 0, the write pointer at 1, one byte free. */
  const Crowded: Pipe := Pipe(Some(Counting), 2, 1, 7, 8, 1, 1)

  /** pipe.c accepts all seven bytes of a write into one free byte: it overwrites the
      unread bytes at 2..7, leaves writep at 8, one past the buffer, and records 14
      bytes in an 8-byte ring. The fixed write accepts one byte. */
  lemma WriteOverrunsUnread()
    ensures Valid(Crowded)
    ensures WriteInBounds(Crowded, [9, 9, 9, 9, 9, 9, 9])
    ensures var w := Write(Crowded, [9, 9, 9, 9, 9, 9, 9], false, false, NoFaults);
            && w.status == Ok(7) && w.pipe.writep == 8 && w.pipe.count == 14
            && w.pipe.rbuf.value[2] == 9 && Counting[2] == 2
    ensures var f := FixedWrite(Crowded, [9, 9, 9, 9, 9, 9, 9], false, false, NoFaults);
            f.status == Ok(1) && f.pipe.writep == 2 && f.pipe.count == 8
  {
  }
}
