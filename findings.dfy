/**
 * Two defects of MString::RemoveAt, each as the code is written and as it
 * is evidently meant. The model's MString.RemoveAt is the corrected one.
 */
module RemoveAtFindings {
  import opened MStrings

  /** Range of `unsigned int`: the operands of RemoveAt are 32-bit. */
  const U32: nat := 0x1_0000_0000

  /** The guard as compiled: `idx + size` wraps modulo 2^32 before it is compared with count. */
  predicate ProceedsAsWritten(count: nat, idx: nat, size: nat)
    requires idx < U32 && size < U32
  {
    (idx + size) % U32 <= count
  }

  /** What the guard is for: the removed run lies inside the string. */
  predicate RunInside(count: nat, idx: nat, size: nat) {
    idx + size <= count
  }

  /**
   * The compiled guard lets a run through that does not lie inside the
   * string exactly when the sum wraps and its low 32 bits are at most count.
   */
  lemma GuardAdmitsOutOfRange(count: nat, idx: nat, size: nat)
    requires idx < U32 && size < U32 && count < U32
    ensures ProceedsAsWritten(count, idx, size) && !RunInside(count, idx, size)
            <==> U32 <= idx + size <= U32 + count
  {
  }

  /** An instance: on the four-character "Test", RemoveAt(1, 0xFFFFFFFF) gets past the guard. */
  lemma GuardAdmitsOutOfRangeExample()
    ensures ProceedsAsWritten(4, 1, 0xFFFF_FFFF) && !RunInside(4, 1, 0xFFFF_FFFF)
  {
  }

  /** When idx + size does not wrap, the guard as written admits exactly the runs inside the string. */
  lemma GuardAgreesWhenNoWrap(count: nat, idx: nat, size: nat)
    requires idx < U32 && size < U32 && idx + size < U32
    ensures ProceedsAsWritten(count, idx, size) <==> RunInside(count, idx, size)
  {
  }

  /** The length of the second memcpy in RemoveAt as written: count - idx + size. */
  function TailLengthAsWritten(count: nat, idx: nat, size: nat): (n: nat)
    requires idx + size <= count
    ensures n == RemoveAtTail(count, idx, size) + 2 * size
  {
    count - idx + size
  }

  /**
   * memcpy(temp + idx, string + idx + size, n) stays inside both buffers:
   * the old one has count + 1 characters, the new one count - size + 1.
   */
  predicate TailCopyInBounds(count: nat, idx: nat, size: nat, n: nat)
    requires idx + size <= count
  {
    idx + size + n <= count + 1 && idx + n <= count - size + 1
  }

  /** As written, the tail copy stays inside the buffers exactly when nothing is removed. */
  lemma TailAsWrittenInBoundsIff(count: nat, idx: nat, size: nat)
    requires idx + size <= count
    ensures TailCopyInBounds(count, idx, size, TailLengthAsWritten(count, idx, size)) <==> size == 0
  {
  }

  /**
   * The call at Win32Test/main.cpp:31, RemoveAt(1, 2) on the 14 characters
   * of "Tryest2TestTry", reads 3 characters past the old buffer and writes 3
   * past the new one.
   */
  lemma TailAsWrittenOverrunsInDemo()
    ensures TailLengthAsWritten(14, 1, 2) == 15
    ensures 1 + 2 + TailLengthAsWritten(14, 1, 2) == (14 + 1) + 3
    ensures 1 + TailLengthAsWritten(14, 1, 2) == (14 - 2 + 1) + 3
    ensures !TailCopyInBounds(14, 1, 2, TailLengthAsWritten(14, 1, 2))
  {
  }

  /** The intended length, count - idx - size, always stays inside both buffers and ends at count. */
  lemma TailInBounds(count: nat, idx: nat, size: nat)
    requires idx + size <= count
    ensures TailCopyInBounds(count, idx, size, RemoveAtTail(count, idx, size))
    ensures idx + size + RemoveAtTail(count, idx, size) == count
  {
  }
}
