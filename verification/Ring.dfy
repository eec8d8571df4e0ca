/** Positions in a ring of slots, and the sequence that lies between two of them. */
module Ring {

  /** Number of elements from slot `begin` to slot `end`, going round if need be. */
  function Size(slots: nat, begin: nat, end: nat): (n: int) {
    if begin <= end then end - begin else slots - begin + end
  }

  /** The slot `i` places after `begin`. */
  function Slot(slots: nat, begin: nat, i: nat): (k: int) {
    if begin + i < slots then begin + i else begin + i - slots
  }

  /** Slots in range, except that a ring without slots only has to be empty. */
  predicate InRange(slots: nat, begin: nat, end: nat) {
    if slots == 0 then begin == end else begin < slots && end < slots
  }

  /** The whole ring, read from slot `begin` on. */
  function Rotated<T>(buf: seq<T>, begin: nat): (r: seq<T>)
    requires begin < |buf|
    ensures |r| == |buf|
    ensures forall i :: 0 <= i < |r| ==> r[i] == buf[Slot(|buf|, begin, i)]
  {
    seq(|buf|, i requires 0 <= i < |buf| => buf[Slot(|buf|, begin, i)])
  }

  /** The elements from `begin` to `end`. */
  function Contents<T>(buf: seq<T>, begin: nat, end: nat): (s: seq<T>)
    requires InRange(|buf|, begin, end)
    ensures |s| == Size(|buf|, begin, end)
  {
    if |buf| == 0 then [] else Rotated(buf, begin)[..Size(|buf|, begin, end)]
  }

  /** Storing in the slot of place i changes place i only. */
  lemma StoreAt<T>(buf: seq<T>, begin: nat, i: nat, x: T)
    requires begin < |buf| && i < |buf|
    ensures 0 <= Slot(|buf|, begin, i) < |buf| && Rotated(buf, begin)[i] == buf[Slot(|buf|, begin, i)]
    ensures Rotated(buf[Slot(|buf|, begin, i) := x], begin) == Rotated(buf, begin)[i := x]
  {}

  /** Reading from n slots further on. */
  lemma RotateOn<T>(buf: seq<T>, begin: nat, n: nat)
    requires begin < |buf| && n < |buf|
    ensures 0 <= Slot(|buf|, begin, n) < |buf|
    ensures Rotated(buf, Slot(|buf|, begin, n)) == Rotated(buf, begin)[n..] + Rotated(buf, begin)[..n]
  {}

  lemma ContentsIs<T>(buf: seq<T>, begin: nat, end: nat)
    requires begin < |buf| && end < |buf|
    ensures 0 <= Size(|buf|, begin, end) < |buf|
    ensures Contents(buf, begin, end) == Rotated(buf, begin)[..Size(|buf|, begin, end)]
  {}

  /** What lies between two slots of the buffer itself. */
  lemma ContentsPieces<T>(buf: seq<T>, begin: nat, end: nat)
    requires begin < |buf| && end < |buf|
    ensures Contents(buf, begin, end) == if begin <= end then buf[begin..end] else buf[begin..] + buf[..end]
  {}

  /** Offset of a slot from `begin`, inverse to Slot. */
  function Offset(slots: nat, begin: nat, k: nat): (i: int) {
    if begin <= k then k - begin else slots - begin + k
  }

  predicate IsPosition(slots: nat, begin: nat, end: nat, k: nat) {
    InRange(slots, begin, end) && (if slots == 0 then k == begin else k < slots) &&
    Offset(slots, begin, k) <= Size(slots, begin, end)
  }

  lemma SlotOffset(slots: nat, begin: nat, k: nat)
    requires begin < slots && k < slots
    ensures 0 <= Offset(slots, begin, k) < slots && Slot(slots, begin, Offset(slots, begin, k)) == k
  {}

  lemma OffsetSlot(slots: nat, begin: nat, i: nat)
    requires begin < slots && i < slots
    ensures 0 <= Slot(slots, begin, i) < slots && Offset(slots, begin, Slot(slots, begin, i)) == i
  {}

  function Next(slots: nat, k: nat): nat { if k + 1 == slots then 0 else k + 1 }

  function Previous(slots: nat, k: nat): int { if k == 0 then slots - 1 else k - 1 }

  lemma PreviousSlot(slots: nat, begin: nat, i: nat)
    requires begin < slots && 0 < i < slots
    ensures 0 <= Slot(slots, begin, i) < slots && 0 <= Slot(slots, begin, i - 1) < slots
    ensures Previous(slots, Slot(slots, begin, i)) == Slot(slots, begin, i - 1)
  {}

  /** One place further on. */
  lemma StepOn(slots: nat, begin: nat, i: nat)
    requires begin < slots && i + 1 < slots
    ensures 0 <= Slot(slots, begin, i) < slots && 0 <= Slot(slots, begin, i + 1) < slots
    ensures Next(slots, Slot(slots, begin, i)) == Slot(slots, begin, i + 1)
    ensures Offset(slots, begin, Slot(slots, begin, i + 1)) == i + 1
  {}

  lemma SlotIsInjective(slots: nat, begin: nat, i: nat, j: nat)
    requires begin < slots && i < slots && j < slots
    ensures Slot(slots, begin, i) == Slot(slots, begin, j) <==> i == j
  {}

  lemma SlotSlot(slots: nat, begin: nat, i: nat, j: nat)
    requires begin < slots && i + j < slots
    ensures Slot(slots, begin, i) >= 0 && Slot(slots, Slot(slots, begin, i), j) == Slot(slots, begin, i + j)
  {}

  /** The end is the slot behind the last element. */
  lemma EndSlot(slots: nat, begin: nat, end: nat)
    requires begin < slots && end < slots
    ensures 0 <= Size(slots, begin, end) < slots && end == Slot(slots, begin, Size(slots, begin, end))
  {}

  lemma SizeOfSlot(slots: nat, begin: nat, n: nat)
    requires begin < slots && n < slots
    ensures 0 <= Slot(slots, begin, n) < slots && Size(slots, begin, Slot(slots, begin, n)) == n
  {}

  lemma ModWrap(slots: nat, begin: nat, i: nat)
    requires begin < slots && i <= slots
    ensures (begin + i) % slots == if i < slots then Slot(slots, begin, i) else begin
  {
    var r := if begin + i < slots then begin + i else begin + i - slots;
    var q := if begin + i < slots then 0 else 1;
    assert begin + i == q * slots + r;
    ModUnique(begin + i, slots, q, r);
  }

  lemma ModUnique(x: nat, d: nat, q: nat, r: nat)
    requires 0 <= r < d && x == q * d + r
    ensures x % d == r
  {
    var q', r' := x / d, x % d;
    assert (q - q') * d == r' - r;
    MultipleInside(q - q', d, r' - r);
  }

  lemma MultipleInside(m: int, d: int, x: int)
    requires m * d == x && -d < x < d
    ensures m == 0 && x == 0
  {
    assert m >= 1 ==> m * d >= d;
    assert m <= -1 ==> m * d <= -d;
  }
}
