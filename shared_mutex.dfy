/**
 * concurrency/shared_mutex.h: `SharedMutex`, a reader-writer lock whose whole
 * state is one 32-bit word. Bit 31 means "a writer has entered" (passed the
 * reader gate) and bits 0-30 count the readers that hold the lock. The word
 * is a `u32`; the masking with bit 31 that the source does is written as the
 * arithmetic it amounts to (bit 31 is `s >= 2^31`, bits 0-30 are `s % 2^31`).
 *
 * Each method is one critical section under `mtx`. A blocking wait is the
 * method's precondition: the wait loop around it has just ended. The
 * condition-variable notification a step issues is returned as a `Gate`.
 * Whether `std::try_to_lock` obtained `mtx` is the parameter `gotLock`.
 */
module ReaderWriter {
  import opened MachineInt

  /** `1U << 31` and `WRITER_ENTERED_MASK - 1`. */
  const WRITER_ENTERED_MASK: nat := 0x8000_0000
  const NUM_READER_MASK: nat := WRITER_ENTERED_MASK - 1

  /** The condition variable an unlock notifies. */
  datatype Gate = NoGate | WriterGate | ReaderGate

  /** `s & WRITER_ENTERED_MASK`: bit 31 of a 32-bit word. */
  predicate WriterEntered(s: u32) {
    s >= WRITER_ENTERED_MASK
  }

  /** `s & NUM_READER_MASK`: the low 31 bits. */
  function ReaderCount(s: u32): nat {
    s % WRITER_ENTERED_MASK
  }

  /** `s | WRITER_ENTERED_MASK`. */
  function SetWriterBit(s: u32): u32 {
    if WriterEntered(s) then s else s + WRITER_ENTERED_MASK
  }

  /** `s & ~WRITER_ENTERED_MASK`. */
  function ClearWriterBit(s: u32): u32 {
    ReaderCount(s)
  }

  /** `s + 1` and `s - 1` on an unsigned 32-bit word. */
  function Inc(s: u32): u32 {
    (s + 1) % TWO_32
  }

  function Dec(s: u32): u32 {
    (s - 1) % TWO_32
  }

  /** The state word of a writer flag and a reader count of at most 2^31 - 1. */
  function Encode(writer: bool, readers: nat): u32
    requires readers <= NUM_READER_MASK
  {
    (if writer then WRITER_ENTERED_MASK else 0) + readers
  }

  /** The word is exactly the pair it encodes: decoding an encoding gives the
      pair back, and every word is the encoding of its decoding. */
  lemma EncodeDecode(writer: bool, readers: nat, s: u32)
    requires readers <= NUM_READER_MASK
    ensures WriterEntered(Encode(writer, readers)) == writer
    ensures ReaderCount(Encode(writer, readers)) == readers
    ensures ReaderCount(s) <= NUM_READER_MASK
    ensures Encode(WriterEntered(s), ReaderCount(s)) == s
  {
  }

  /** The guard of the reader gate in `lock_shared` and `try_lock_shared`. */
  predicate ReadGateOpen(s: u32) {
    !WriterEntered(s) && ReaderCount(s) != NUM_READER_MASK
  }

  /** `state += 1` past an open reader gate adds one reader and never carries
      into the writer bit. */
  lemma AddReader(s: u32)
    requires ReadGateOpen(s)
    ensures !WriterEntered(Inc(s)) && ReaderCount(Inc(s)) == ReaderCount(s) + 1
  {
  }

  /** `state -= 1` with a reader present removes one reader and keeps the
      writer bit. */
  lemma DropReader(s: u32)
    requires ReaderCount(s) > 0
    ensures WriterEntered(Dec(s)) == WriterEntered(s)
    ensures ReaderCount(Dec(s)) == ReaderCount(s) - 1
  {
  }

  /** `state |= WRITER_ENTERED_MASK` sets the writer bit only. */
  lemma SetWriter(s: u32)
    ensures WriterEntered(SetWriterBit(s)) && ReaderCount(SetWriterBit(s)) == ReaderCount(s)
  {
  }

  /** `state &= ~WRITER_ENTERED_MASK` clears the writer bit only. */
  lemma ClearWriter(s: u32)
    ensures !WriterEntered(ClearWriterBit(s)) && ReaderCount(ClearWriterBit(s)) == ReaderCount(s)
  {
  }

  /** `try_lock` as written: it reports success on an idle word but leaves the
      word as it is. */
  function TryLockAsWritten(s: u32, gotLock: bool): (bool, u32) {
    (gotLock && s == 0, s)
  }

  /** After a successful `try_lock` as written, the reader gate and the writer
      gate are both still open although the caller believes it holds the lock
      exclusively. */
  lemma TryLockLeavesGatesOpen()
    ensures TryLockAsWritten(0, true).0
    ensures ReadGateOpen(TryLockAsWritten(0, true).1)
    ensures !WriterEntered(TryLockAsWritten(0, true).1)
  {
  }

  class SharedMutex {
    var state: u32
    /** Readers holding the lock. */
    ghost var Readers: nat
    /** Writers that have passed the reader gate (bit 31 set). */
    ghost var Entered: nat
    /** The entered writer has also passed the writer gate. */
    ghost var Exclusive: bool

    /** The word holds the ghost counts; at most one writer has entered, and
        an exclusive owner excludes every reader. */
    ghost predicate Valid()
      reads this
    {
      && Entered <= 1
      && WriterEntered(state) == (Entered == 1)
      && ReaderCount(state) == Readers
      && (Exclusive ==> Entered == 1 && Readers == 0)
    }

    constructor ()
      ensures Valid() && state == 0 && Readers == 0 && Entered == 0 && !Exclusive
    {
      state := 0;
      Readers, Entered, Exclusive := 0, 0, false;
    }

    /** First half of `lock`: past the reader gate (no writer entered), set
        the writer bit. */
    method LockEnter()
      requires Valid() && !WriterEntered(state)
      modifies this
      ensures Valid()
      ensures state == SetWriterBit(old(state))
      ensures Entered == 1 && !Exclusive && Readers == old(Readers)
    {
      SetWriter(state);
      state := SetWriterBit(state);
      Entered := Entered + 1;
    }

    /** Second half of `lock`: the entered writer passes the writer gate once
        the last reader has left. */
    method LockComplete()
      requires Valid() && Entered == 1 && !Exclusive && ReaderCount(state) == 0
      modifies this
      ensures Valid()
      ensures state == old(state) && Exclusive && Readers == 0
    {
      Exclusive := true;
    }

    /** `unlock`: clear the writer bit (the reader count is 0 then) and
        notify the reader gate. */
    method Unlock() returns (g: Gate)
      requires Valid() && Exclusive
      modifies this
      ensures Valid()
      ensures state == ClearWriterBit(old(state)) && state == 0
      ensures Entered == 0 && !Exclusive && Readers == old(Readers)
      ensures g == ReaderGate
    {
      ClearWriter(state);
      state := ClearWriterBit(state);
      Entered, Exclusive := 0, false;
      g := ReaderGate;
    }

    /** `try_lock`: with `mtx` obtained and the word idle, take the lock
        exclusively, setting the writer bit. */
    method TryLock(gotLock: bool) returns (r: bool)
      requires Valid()
      modifies this
      ensures Valid()
      ensures r == (gotLock && old(state) == 0)
      ensures r ==> state == WRITER_ENTERED_MASK && Exclusive && Entered == 1 && Readers == 0
      ensures !r ==> unchanged(this)
    {
      if gotLock && state == 0 {
        state := WRITER_ENTERED_MASK;
        Entered, Exclusive := 1, true;
        return true;
      }
      return false;
    }

    /** `lock_shared`: past the reader gate, one more reader. */
    method LockShared()
      requires Valid() && ReadGateOpen(state)
      modifies this
      ensures Valid()
      ensures state == Inc(old(state)) && Readers == old(Readers) + 1
      ensures Entered == old(Entered) && Exclusive == old(Exclusive)
    {
      AddReader(state);
      state := Inc(state);
      Readers := Readers + 1;
    }

    /** `try_lock_shared`: the guard of `lock_shared` without waiting. */
    method TryLockShared(gotLock: bool) returns (r: bool)
      requires Valid()
      modifies this
      ensures Valid()
      ensures r == (gotLock && ReadGateOpen(old(state)))
      ensures r ==> state == Inc(old(state)) && Readers == old(Readers) + 1
      ensures !r ==> state == old(state) && Readers == old(Readers)
      ensures Entered == old(Entered) && Exclusive == old(Exclusive)
    {
      if gotLock && ReadGateOpen(state) {
        AddReader(state);
        state := Inc(state);
        Readers := Readers + 1;
        return true;
      }
      return false;
    }

    /** `unlock_shared`: one reader fewer; the last reader out wakes a waiting
        writer, and a reader leaving a full count wakes one gated reader. */
    method UnlockShared() returns (g: Gate)
      requires Valid() && Readers > 0
      modifies this
      ensures Valid()
      ensures state == Dec(old(state)) && Readers == old(Readers) - 1
      ensures Entered == old(Entered) && Exclusive == old(Exclusive)
      ensures g == WriterGate <==> Entered == 1 && Readers == 0
      ensures g == ReaderGate <==> !(Entered == 1 && Readers == 0) && Readers == NUM_READER_MASK - 1
    {
      DropReader(state);
      state := Dec(state);
      Readers := Readers - 1;
      var left := ReaderCount(state);
      if WriterEntered(state) && left == 0 {
        g := WriterGate;
      } else if left == NUM_READER_MASK - 1 {
        g := ReaderGate;
      } else {
        g := NoGate;
      }
    }
  }
}
