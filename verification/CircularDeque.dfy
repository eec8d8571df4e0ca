/** A deque in a ring buffer. One slot stays unused, so that full and empty differ. */
module CircularDeque {
  import Ring
  import opened DequeCost

  /** Copies the elements `lo..hi` of one buffer to another, from `at` on. */
  method MoveRange<T>(from: array<T>, lo: nat, hi: nat, to: array<T>, at: nat)
    requires lo <= hi <= from.Length && at + (hi - lo) <= to.Length && from != to
    modifies to
    ensures to[..at + (hi - lo)] == old(to[..at]) + from[..][lo..hi]
  {
    for i := 0 to hi - lo
      invariant to[..at + i] == old(to[..at]) + from[..][lo..lo + i]
    {
      to[at + i] := from[lo + i];
      assert to[..at + i + 1] == to[..at + i] + [from[lo + i]];
    }
  }

  /** Moves the contents of a ring to the front of a larger buffer, in order. */
  method MoveBuffer<T>(from: array<T>, fromBegin: nat, fromEnd: nat, to: array<T>) returns (toBegin: nat, toEnd: nat)
    requires Ring.InRange(from.Length, fromBegin, fromEnd) && from != to
    requires Ring.Size(from.Length, fromBegin, fromEnd) < to.Length
    modifies to
    ensures toBegin == 0 && toEnd == Ring.Size(from.Length, fromBegin, fromEnd)
    ensures to[..toEnd] == Ring.Contents(from[..], fromBegin, fromEnd)
  {
    hide Ring.Contents;
    toBegin := 0;
    if from.Length > 0 { Ring.ContentsPieces(from[..], fromBegin, fromEnd); }
    if fromBegin < fromEnd {
      // Contiguous.
      MoveRange(from, fromBegin, fromEnd, to, 0);
      toEnd := fromEnd - fromBegin;
    } else if fromBegin > fromEnd {
      // The right side first, then the left side behind it.
      ghost var buf := from[..];
      assert buf[fromBegin..from.Length] == buf[fromBegin..] && buf[0..fromEnd] == buf[..fromEnd];
      MoveRange(from, fromBegin, from.Length, to, 0);
      var rightSize := from.Length - fromBegin;
      MoveRange(from, 0, fromEnd, to, rightSize);
      toEnd := rightSize + fromEnd;
    } else {
      toEnd := 0;
    }
  }

  class Deque<T(0)> {
    var buffer: array<T>
    var begin: nat
    var end: nat
    ghost var moved: nat  // elements moved by reallocations

    ghost predicate Valid()
      reads this
    {
      Ring.InRange(buffer.Length, begin, end)
    }

    /** The deque as a plain sequence. */
    ghost function Contents(): (s: seq<T>)
      reads this, buffer
      requires Valid()
      ensures |s| == Count()
      ensures buffer.Length == 0 ==> s == []
      ensures buffer.Length > 0 ==> |s| < buffer.Length
    {
      Ring.Contents(buffer[..], begin, end)
    }

    ghost function State(): Cost
      reads this, buffer
      requires Valid()
    {
      Cost(|Contents()|, Capacity(), moved)
    }

    function Capacity(): nat
      reads this
    {
      if buffer.Length == 0 then 0 else buffer.Length - 1
    }

    function Count(): nat
      reads this
      requires Valid()
    {
      Ring.Size(buffer.Length, begin, end)
    }

    predicate Empty()
      reads this
    {
      begin == end
    }

    /** An iterator: the slot of an element, or of the end. */
    ghost predicate IsPosition(pos: nat)
      reads this
    {
      Ring.IsPosition(buffer.Length, begin, end, pos)
    }

    function OffsetOf(pos: nat): (k: nat)
      reads this
      requires IsPosition(pos)
      ensures Valid() && k <= Count()
    {
      Ring.Offset(buffer.Length, begin, pos)
    }

    constructor ()
      ensures Valid() && fresh(buffer) && State() == Cost(0, 0, 0)
    {
      buffer := new T[0];
      begin, end, moved := 0, 0, 0;
    }

    // ---- capacity -----------------------------------------------------------------------

    method SetCapacityTo(newCapacity: nat)
      requires Valid() && Count() <= newCapacity
      modifies this
      ensures Valid() && fresh(buffer) && buffer.Length == newCapacity + 1 && begin == 0
      ensures Contents() == old(Contents())
      ensures moved == old(moved) + |Contents()|
    {
      hide Ring.Rotated, Ring.Slot;
      var newBuffer := new T[newCapacity + 1];
      ghost var contents := Contents();
      var b, e := MoveBuffer(buffer, begin, end, newBuffer);
      begin, end := b, e;
      buffer := newBuffer;
      moved := moved + |contents|;
      Ring.ContentsPieces(buffer[..], begin, end);
      assert Contents() == buffer[..end] == contents;
    }

    method ExpandCapacityIfNecessary(additional: nat)
      requires Valid()
      modifies this
      ensures Valid() && Contents() == old(Contents())
      ensures State() == Expanded(old(State()), additional)
      ensures Capacity() >= |Contents()| + additional
      ensures if old(Capacity()) >= old(|Contents()|) + additional
              then buffer == old(buffer) && begin == old(begin) && end == old(end)
              else fresh(buffer) && begin == 0
    {
      var minNewCapacity := Count() + additional;
      if Capacity() >= minNewCapacity {
        return;
      }
      minNewCapacity := Max(minNewCapacity, INITIAL_CAPACITY);
      SetCapacityTo(Max(minNewCapacity, Capacity() + Capacity() / 4));
    }

    method ShrinkCapacityIfNecessary()
      requires Valid()
      modifies this
      ensures Valid() && Contents() == old(Contents()) && (buffer == old(buffer) || fresh(buffer))
      ensures State() == Shrunk(old(State()))
    {
      if Capacity() <= INITIAL_CAPACITY {
        return;
      }
      var sz := Count();
      var emptySpaces := Capacity() - sz;
      if emptySpaces < sz {
        return;
      }
      var newCapacity := Max(INITIAL_CAPACITY, sz + sz / 4);
      if newCapacity < Capacity() {
        SetCapacityTo(newCapacity);
      }
    }

    method Reserve(newCapacity: nat)
      requires Valid()
      modifies this
      ensures Valid() && Contents() == old(Contents()) && (buffer == old(buffer) || fresh(buffer))
      ensures Capacity() == Max(newCapacity, old(Capacity()))
    {
      if newCapacity > Capacity() {
        SetCapacityTo(newCapacity);
      }
    }

    /** Drops the unused slots; an empty deque drops its buffer and keeps its stale positions. */
    method ShrinkToFit()
      requires Valid()
      modifies this
      ensures Valid() && Contents() == old(Contents()) && (buffer == old(buffer) || fresh(buffer))
      ensures Capacity() == |Contents()|
    {
      if Empty() {
        if buffer.Length != 0 {
          buffer := new T[0];
        }
      } else {
        SetCapacityTo(Count());
      }
    }

    method ClearRetainCapacity()
      requires Valid()
      modifies this
      ensures Valid() && Contents() == [] && buffer == old(buffer) && moved == old(moved)
    {
      begin, end := 0, 0;
    }

    method Clear()
      requires Valid()
      modifies this
      ensures Valid() && fresh(buffer) && Contents() == [] && Capacity() == 0
    {
      ClearRetainCapacity();
      buffer := new T[0];
    }

    // ---- access --------------------------------------------------------------------------

    method At(i: nat) returns (x: T)
      requires Valid() && i < |Contents()|
      ensures x == Contents()[i]
    {
      var rightSize := buffer.Length - begin;
      if begin <= end || i < rightSize {
        return buffer[begin + i];
      }
      return buffer[i - rightSize];
    }

    method Front() returns (x: T)
      requires Valid() && Contents() != []
      ensures x == Contents()[0]
    {
      x := buffer[begin];
    }

    method Back() returns (x: T)
      requires Valid() && Contents() != []
      ensures x == Contents()[|Contents()| - 1]
    {
      var last := if end == 0 then buffer.Length - 1 else end - 1;
      assert last == Ring.Slot(buffer.Length, begin, Count() - 1);
      x := buffer[last];
    }

    // ---- both ends ------------------------------------------------------------------------

    method PushFront(x: T)
      requires Valid()
      modifies this, buffer
      ensures Valid() && Contents() == [x] + old(Contents()) && (buffer == old(buffer) || fresh(buffer))
      ensures State() == Pushed(old(State()))
    {
      hide Ring.Contents, Expanded;
      ExpandCapacityIfNecessary(1);
      StepBack();
      StoreFirst(x);
    }

    /** Moves the beginning to the free slot in front of it. */
    method StepBack()
      requires Valid() && |Contents()| + 1 < buffer.Length
      modifies this`begin
      ensures Valid() && Contents() != [] && Contents()[1..] == old(Contents())
    {
      hide Ring.Rotated;
      Ring.RotateOn(buffer[..], begin, buffer.Length - 1);
      if begin == 0 {
        begin := buffer.Length - 1;
      } else {
        begin := begin - 1;
      }
    }

    method StoreFirst(x: T)
      requires Valid() && Contents() != []
      modifies buffer
      ensures Valid() && Contents() == [x] + old(Contents())[1..]
    {
      hide Ring.Rotated;
      Ring.StoreAt(buffer[..], begin, 0, x);
      buffer[begin] := x;
    }

    method PushBack(x: T)
      requires Valid()
      modifies this, buffer
      ensures Valid() && Contents() == old(Contents()) + [x] && (buffer == old(buffer) || fresh(buffer))
      ensures State() == Pushed(old(State()))
    {
      hide Ring.Rotated, Expanded;
      ghost var was := Contents();
      ExpandCapacityIfNecessary(1);
      Ring.StoreAt(buffer[..], begin, |was|, x);
      buffer[end] := x;
      if end == buffer.Length - 1 {
        end := 0;
      } else {
        end := end + 1;
      }
      assert Contents() == was + [x];
    }

    method PopFront()
      requires Valid() && Contents() != []
      modifies this
      ensures Valid() && Contents() == old(Contents())[1..] && (buffer == old(buffer) || fresh(buffer))
      ensures State() == Popped(old(State()))
    {
      hide Ring.Rotated, Shrunk;
      ghost var was := Contents();
      Ring.RotateOn(buffer[..], begin, if buffer.Length == 1 then 0 else 1);
      begin := begin + 1;
      if begin == buffer.Length {
        begin := 0;
      }
      assert Contents() == was[1..];
      ShrinkCapacityIfNecessary();
    }

    method PopBack()
      requires Valid() && Contents() != []
      modifies this
      ensures Valid() && Contents() == old(Contents())[..|old(Contents())| - 1]
      ensures buffer == old(buffer) || fresh(buffer)
      ensures State() == Popped(old(State()))
    {
      hide Ring.Rotated, Ring.Slot, Shrunk;
      ghost var was := Contents();
      if end == 0 {
        end := buffer.Length - 1;
      } else {
        end := end - 1;
      }
      assert Contents() == was[..|was| - 1];
      ShrinkCapacityIfNecessary();
    }

    // ---- in the middle -----------------------------------------------------------------------

    /** The slot `n` places further on, going round at the end of the buffer. */
    method Advance(pos: nat, n: nat) returns (r: nat)
      requires pos < buffer.Length && n < buffer.Length
      ensures r == Ring.Slot(buffer.Length, pos, n) < buffer.Length
    {
      Ring.ModWrap(buffer.Length, pos, n);
      r := (pos + n) % buffer.Length;
    }

    /**
     * Opens a hole of `count` slots in front of `pos`, shifting the elements behind it one
     * by one from the last to the first. Positions are taken anew, as the buffer may change.
     */
    method MakeRoomFor(count: nat, pos: nat) returns (insertBegin: nat, insertEnd: nat)
      requires Valid() && IsPosition(pos)
      modifies this, buffer
      ensures Valid() && |Contents()| == |old(Contents())| + count && (buffer == old(buffer) || fresh(buffer))
      ensures IsPosition(insertBegin) && OffsetOf(insertBegin) == old(OffsetOf(pos))
      ensures IsPosition(insertEnd) && OffsetOf(insertEnd) == old(OffsetOf(pos)) + count
      ensures Contents()[..old(OffsetOf(pos))] == old(Contents()[..OffsetOf(pos)])
      ensures Contents()[old(OffsetOf(pos)) + count..] == old(Contents()[OffsetOf(pos)..])
    {
      if count == 0 {
        return pos, pos;
      }
      hide Ring.Contents, Ring.Slot, Expanded;
      var k := OffsetOf(pos);
      ExpandCapacityIfNecessary(count);
      insertBegin, insertEnd := OpenHole(k, count);
    }

    /** Opens the hole at offset k in a buffer that has room for it. */
    method OpenHole(k: nat, count: nat) returns (insertBegin: nat, insertEnd: nat)
      requires Valid() && k <= |Contents()| && 0 < count && |Contents()| + count < buffer.Length
      modifies this`end, buffer
      ensures Valid() && |Contents()| == |old(Contents())| + count
      ensures IsPosition(insertBegin) && OffsetOf(insertBegin) == k
      ensures IsPosition(insertEnd) && OffsetOf(insertEnd) == k + count
      ensures Contents()[..k] == old(Contents())[..k] && Contents()[k + count..] == old(Contents())[k..]
    {
      hide Ring.Contents, Ring.Slot, Ring.Size;
      ghost var n := |Contents()|;
      Ring.EndSlot(buffer.Length, begin, end);
      Ring.SlotSlot(buffer.Length, begin, n, count);
      Ring.SlotSlot(buffer.Length, begin, k, count);
      Ring.OffsetSlot(buffer.Length, begin, k);
      Ring.OffsetSlot(buffer.Length, begin, k + count);
      Ring.SizeOfSlot(buffer.Length, begin, n + count);
      insertBegin := Advance(begin, k);
      insertEnd := Advance(insertBegin, count);
      var src := end;
      end := Advance(end, count);
      ShiftRight(src, end, insertBegin, k, count);
    }

    /** Moves the elements from offset k on `count` slots further, the last one first. */
    method ShiftRight(srcEnd: nat, destEnd: nat, stop: nat, ghost k: nat, ghost count: nat)
      requires begin < buffer.Length && srcEnd < buffer.Length && 0 < count
      requires k <= |Ring.Contents(buffer[..], begin, srcEnd)| < buffer.Length - count
      requires destEnd == Ring.Slot(buffer.Length, begin, |Ring.Contents(buffer[..], begin, srcEnd)| + count)
      requires stop == Ring.Slot(buffer.Length, begin, k) && destEnd < buffer.Length
      modifies buffer
      ensures var was, s := old(Ring.Contents(buffer[..], begin, srcEnd)), Ring.Contents(buffer[..], begin, destEnd);
        |s| == |was| + count && s[..k] == was[..k] && s[k + count..] == was[k..]
    {
      hide Ring.Rotated, Ring.Slot, Ring.Size;
      ghost var was := Ring.Contents(buffer[..], begin, srcEnd);
      Ring.EndSlot(buffer.Length, begin, srcEnd);
      Ring.SizeOfSlot(buffer.Length, begin, |was| + count);
      ShiftSlots(srcEnd, destEnd, stop, k, count, was);
      HoleOpened(Ring.Rotated(buffer[..], begin), was, k, count);
    }

    method ShiftSlots(srcEnd: nat, destEnd: nat, stop: nat, ghost k: nat, ghost count: nat, ghost was: seq<T>)
      requires begin < buffer.Length && 0 < count && k <= |was| < buffer.Length - count
      requires was == Ring.Rotated(buffer[..], begin)[..|was|]
      requires srcEnd == Ring.Slot(buffer.Length, begin, |was|)
      requires destEnd == Ring.Slot(buffer.Length, begin, |was| + count)
      requires stop == Ring.Slot(buffer.Length, begin, k)
      modifies buffer
      ensures var r := Ring.Rotated(buffer[..], begin); r[..k] == was[..k] && r[k + count..|was| + count] == was[k..]
    {
      hide Ring.Rotated, Ring.Slot, Ring.Previous, Shifting;
      var src: nat, dest: nat := srcEnd, destEnd;
      ghost var s := |was|;
      ShiftStarts(Ring.Rotated(buffer[..], begin), was, count);
      while src != stop
        invariant k <= s <= |was|
        invariant src == Ring.Slot(buffer.Length, begin, s) && dest == Ring.Slot(buffer.Length, begin, s + count)
        invariant Shifting(Ring.Rotated(buffer[..], begin), was, s, count)
        decreases s
      {
        Ring.SlotIsInjective(buffer.Length, begin, s, k);
        Ring.PreviousSlot(buffer.Length, begin, s);
        Ring.PreviousSlot(buffer.Length, begin, s + count);
        s := s - 1;
        src, dest := Ring.Previous(buffer.Length, src), Ring.Previous(buffer.Length, dest);
        MovedOne(Ring.Rotated(buffer[..], begin), was, s, count);
        Move(src, dest, s, s + count);
      }
      Ring.SlotIsInjective(buffer.Length, begin, s, k);
      ShiftEnds(Ring.Rotated(buffer[..], begin), was, k, count);
    }

    /** Copies the element at one place of the ring to another. */
    method Move(src: nat, dest: nat, ghost i: nat, ghost j: nat)
      requires begin < buffer.Length && i < buffer.Length && j < buffer.Length
      requires src == Ring.Slot(buffer.Length, begin, i) && dest == Ring.Slot(buffer.Length, begin, j)
      modifies buffer
      ensures var r := old(Ring.Rotated(buffer[..], begin)); Ring.Rotated(buffer[..], begin) == r[j := r[i]]
    {
      hide Ring.Rotated, Ring.Slot;
      Ring.OffsetSlot(buffer.Length, begin, i);
      Ring.StoreAt(buffer[..], begin, i, buffer[src]);
      Ring.StoreAt(buffer[..], begin, j, buffer[src]);
      buffer[dest] := buffer[src];
    }

    /** The elements from place s on have been moved by `count`, the ones before s are untouched. */
    static ghost predicate Shifting(r: seq<T>, was: seq<T>, s: nat, count: nat) {
      s <= |was| && |was| + count < |r| && r[..s] == was[..s] && r[s + count..|was| + count] == was[s..]
    }

    static lemma ShiftStarts(r: seq<T>, was: seq<T>, count: nat)
      requires |was| + count < |r| && was == r[..|was|]
      ensures Shifting(r, was, |was|, count)
    {}

    static lemma ShiftEnds(r: seq<T>, was: seq<T>, k: nat, count: nat)
      requires Shifting(r, was, k, count)
      ensures r[..k] == was[..k] && r[k + count..|was| + count] == was[k..]
    {}

    static lemma MovedOne(r: seq<T>, was: seq<T>, s: nat, count: nat)
      requires 0 < count && Shifting(r, was, s + 1, count)
      ensures s + count < |r| && Shifting(r[s + count := r[s]], was, s, count)
    {
      assert r[..s + 1][s] == was[..s + 1][s];
      assert r[..s] == r[..s + 1][..s];
    }

    static lemma HoleOpened(r: seq<T>, was: seq<T>, k: nat, count: nat)
      requires k <= |was| && |was| + count < |r|
      requires r[..k] == was[..k] && r[k + count..|was| + count] == was[k..]
      ensures var s := r[..|was| + count]; s[..k] == was[..k] && s[k + count..] == was[k..]
    {}

    /** Fills the slots from `start` up to `stop` with the items. */
    method FillHole(start: nat, stop: nat, items: seq<T>)
      requires Valid() && IsPosition(start) && IsPosition(stop) && OffsetOf(start) + |items| == OffsetOf(stop)
      modifies buffer
      ensures Valid()
      ensures Contents() == old(Contents())[..OffsetOf(start)] + items + old(Contents())[OffsetOf(stop)..]
    {
      ghost var was := Contents();
      if buffer.Length == 0 {
        assert [] + items + [] == [];
        return;
      }
      Ring.SlotOffset(buffer.Length, begin, start);
      FillSlots(start, stop, items, OffsetOf(start));
      FilledPrefix(old(Ring.Rotated(buffer[..], begin)), items, OffsetOf(start), |was|);
    }

    method FillSlots(start: nat, stop: nat, items: seq<T>, ghost k: nat)
      requires begin < buffer.Length && start < buffer.Length && stop < buffer.Length
      requires start == Ring.Slot(buffer.Length, begin, k) && Ring.Offset(buffer.Length, begin, start) == k
      requires Ring.Offset(buffer.Length, begin, stop) == k + |items| < buffer.Length
      modifies buffer
      ensures Ring.Rotated(buffer[..], begin) ==
        old(Ring.Rotated(buffer[..], begin))[..k] + items + old(Ring.Rotated(buffer[..], begin))[k + |items|..]
    {
      hide Ring.Rotated, Ring.Slot, Ring.Offset, Ring.Next, Filled;
      ghost var was := Ring.Rotated(buffer[..], begin);
      var cur: nat := start;
      var i := 0;
      FillBounds(was, items, k);
      while Ring.Offset(buffer.Length, begin, cur) < Ring.Offset(buffer.Length, begin, stop)
        invariant 0 <= i <= |items| && cur < buffer.Length
        invariant cur == Ring.Slot(buffer.Length, begin, k + i) && Ring.Offset(buffer.Length, begin, cur) == k + i
        invariant Ring.Rotated(buffer[..], begin) == Filled(was, items, k, i)
      {
        Ring.StepOn(buffer.Length, begin, k + i);
        FillStep(was, items, k, i);
        Store(cur, items[i], k + i);
        cur := Ring.Next(buffer.Length, cur);
        i := i + 1;
      }
    }

    /** Stores an element at a place of the ring. */
    method Store(slot: nat, x: T, ghost i: nat)
      requires begin < buffer.Length && i < buffer.Length && slot == Ring.Slot(buffer.Length, begin, i)
      modifies buffer
      ensures Ring.Rotated(buffer[..], begin) == old(Ring.Rotated(buffer[..], begin))[i := x]
    {
      hide Ring.Rotated, Ring.Slot;
      Ring.StoreAt(buffer[..], begin, i, x);
      buffer[slot] := x;
    }

    /** The first i items in place from k on. */
    static ghost function Filled(was: seq<T>, items: seq<T>, k: nat, i: nat): (r: seq<T>)
      requires k + |items| <= |was| && i <= |items|
      ensures |r| == |was|
    {
      was[..k] + items[..i] + was[k + i..]
    }

    static lemma FillBounds(was: seq<T>, items: seq<T>, k: nat)
      requires k + |items| <= |was|
      ensures Filled(was, items, k, 0) == was
      ensures Filled(was, items, k, |items|) == was[..k] + items + was[k + |items|..]
    {
      assert items[..|items|] == items;
    }

    static lemma FilledPrefix(r: seq<T>, items: seq<T>, k: nat, n: nat)
      requires k + |items| <= n <= |r|
      ensures (r[..k] + items + r[k + |items|..])[..n] == r[..n][..k] + items + r[..n][k + |items|..]
    {}

    static lemma FillStep(was: seq<T>, items: seq<T>, k: nat, i: nat)
      requires k + |items| <= |was| && i < |items|
      ensures Filled(was, items, k, i)[k + i := items[i]] == Filled(was, items, k, i + 1)
    {}

    /** Inserts behind the beginning: opens a hole and fills it. */
    method InsertInside(pos: nat, items: seq<T>) returns (at: nat)
      requires Valid() && IsPosition(pos)
      modifies this, buffer
      ensures Valid() && (buffer == old(buffer) || fresh(buffer))
      ensures Contents() == old(Contents()[..OffsetOf(pos)]) + items + old(Contents()[OffsetOf(pos)..])
      ensures IsPosition(at) && OffsetOf(at) == old(OffsetOf(pos))
    {
      hide Ring.Contents;
      var insertCur, insertEnd := MakeRoomFor(|items|, pos);
      FillHole(insertCur, insertEnd, items);
      return insertCur;
    }

    /** Inserts at the beginning: the hole is the block right in front of it, nothing has to be shifted. */
    method InsertInFront(items: seq<T>)
      requires Valid() && |items| > 0
      modifies this, buffer
      ensures Valid() && (buffer == old(buffer) || fresh(buffer))
      ensures Contents() == items + old(Contents())
    {
      hide Ring.Contents, Ring.Rotated, Expanded;
      ExpandCapacityIfNecessary(|items|);
      var insertEnd := begin;
      begin := Advance(begin, buffer.Length - |items|);
      Extended(buffer[..], insertEnd, begin, end, |items|);
      FillHole(begin, insertEnd, items);
      assert forall s: seq<T> :: s[..0] == [] && [] + items == items;
    }

    /** Moving the beginning back by m slots puts m elements in front of the old ones. */
    static lemma Extended(buf: seq<T>, oldBegin: nat, begin: nat, end: nat, m: nat)
      requires 0 < m && oldBegin < |buf| && end < |buf| && begin < |buf|
      requires Ring.Size(|buf|, oldBegin, end) + m < |buf|
      requires begin == Ring.Slot(|buf|, oldBegin, |buf| - m)
      ensures Ring.Contents(buf, begin, end)[m..] == Ring.Contents(buf, oldBegin, end)
      ensures |Ring.Contents(buf, begin, end)| == Ring.Size(|buf|, oldBegin, end) + m
      ensures Ring.Offset(|buf|, begin, oldBegin) == m
    {
      ExtendedSize(|buf|, oldBegin, begin, end, m);
      Ring.ContentsIs(buf, begin, end);
      Ring.ContentsIs(buf, oldBegin, end);
      hide Ring.Rotated, Ring.Slot, Ring.Size, Ring.Offset, Ring.Contents;
      Ring.RotateOn(buf, oldBegin, |buf| - m);
      Unwrapped(Ring.Rotated(buf, oldBegin), m, Ring.Size(|buf|, oldBegin, end));
    }

    static lemma ExtendedSize(slots: nat, oldBegin: nat, begin: nat, end: nat, m: nat)
      requires 0 < m && oldBegin < slots && end < slots && begin < slots
      requires Ring.Size(slots, oldBegin, end) + m < slots && begin == Ring.Slot(slots, oldBegin, slots - m)
      ensures Ring.Size(slots, begin, end) == Ring.Size(slots, oldBegin, end) + m >= m
      ensures Ring.Offset(slots, begin, oldBegin) == m
    {}

    static lemma Unwrapped(r: seq<T>, m: nat, n: nat)
      requires m + n <= |r|
      ensures (r[|r| - m..] + r[..|r| - m])[..n + m][m..] == r[..n]
    {}

    method InsertRange(pos: nat, items: seq<T>)
      requires Valid() && IsPosition(pos)
      modifies this, buffer
      ensures Valid() && (buffer == old(buffer) || fresh(buffer))
      ensures Contents() == old(Contents()[..OffsetOf(pos)]) + items + old(Contents()[OffsetOf(pos)..])
    {
      hide Ring.Contents;
      ghost var was, k := Contents(), OffsetOf(pos);
      if |items| == 0 {
        assert was == was[..k] + [] + was[k..];
        return;
      }
      if pos == begin {
        InsertInFront(items);
        assert was[..0] + items + was[0..] == items + was;
      } else {
        var _ := InsertInside(pos, items);
      }
    }

    /** Inserts `count` copies of a value. */
    method Insert(pos: nat, count: nat, x: T)
      requires Valid() && IsPosition(pos)
      modifies this, buffer
      ensures Valid() && (buffer == old(buffer) || fresh(buffer))
      ensures Contents() == old(Contents()[..OffsetOf(pos)]) + Copies(count, x) + old(Contents()[OffsetOf(pos)..])
    {
      hide Ring.Contents;
      ghost var was := Contents();
      if pos == begin {
        ExpandCapacityIfNecessary(count);
        PushFrontCopies(count, x);
        assert was[..0] + Copies(count, x) + was[0..] == Copies(count, x) + was;
        return;
      }
      var _ := InsertInside(pos, Copies(count, x));
    }

    method PushFrontCopies(count: nat, x: T)
      requires Valid()
      modifies this, buffer
      ensures Valid() && (buffer == old(buffer) || fresh(buffer))
      ensures Contents() == Copies(count, x) + old(Contents())
    {
      hide Ring.Contents, Pushed;
      ghost var was := Contents();
      assert was == Copies(0, x) + was;
      for i := 0 to count
        invariant Valid() && Contents() == Copies(i, x) + was && (buffer == old(buffer) || fresh(buffer))
      {
        PushFront(x);
        CopyInFront(i, x, was);
      }
    }

    /** Inserts one element and returns its position. */
    method Emplace(pos: nat, x: T) returns (at: nat)
      requires Valid() && IsPosition(pos)
      modifies this, buffer
      ensures Valid() && (buffer == old(buffer) || fresh(buffer))
      ensures Contents() == old(Contents()[..OffsetOf(pos)]) + [x] + old(Contents()[OffsetOf(pos)..])
      ensures IsPosition(at) && OffsetOf(at) == old(OffsetOf(pos))
    {
      hide Ring.Contents, Pushed;
      ghost var was := Contents();
      if pos == begin {
        PushFront(x);
        assert was[..0] + [x] + was[0..] == [x] + was;
        return begin;
      }
      at := InsertInside(pos, [x]);
    }

    /** Erases the elements between two positions and returns where the ones behind them went. */
    method EraseRange(first: nat, last: nat) returns (at: nat)
      requires Valid() && IsPosition(first) && IsPosition(last) && OffsetOf(first) <= OffsetOf(last)
      modifies this, buffer
      ensures Valid() && buffer == old(buffer) && moved == old(moved)
      ensures Contents() == old(Contents()[..OffsetOf(first)]) + old(Contents()[OffsetOf(last)..])
      ensures IsPosition(at) && OffsetOf(at) == old(OffsetOf(first))
    {
      hide Ring.Rotated;
      ghost var was, i, j := Contents(), OffsetOf(first), OffsetOf(last);
      if first == last {
        assert was == was[..i] + was[j..];
        return first;
      }
      if first == begin {
        // Nothing has to be moved.
        Ring.RotateOn(buffer[..], begin, j);
        begin := last;
        assert Contents() == was[j..] && was[..0] == [];
        return last;
      }
      end := ShiftLeft(first, last, i, j);
      return first;
    }

    /** Moves the elements from `last` on to `first`, the first one first; returns the new end. */
    method ShiftLeft(first: nat, last: nat, ghost i: nat, ghost j: nat) returns (dest: nat)
      requires Valid() && i < j <= |Contents()|
      requires first == Ring.Slot(buffer.Length, begin, i) && last == Ring.Slot(buffer.Length, begin, j)
      modifies buffer
      ensures dest < buffer.Length && dest == Ring.Slot(buffer.Length, begin, i + |old(Contents())| - j)
      ensures Ring.Contents(buffer[..], begin, dest) == old(Contents())[..i] + old(Contents())[j..]
    {
      hide Ring.Rotated, Ring.Slot, Ring.Size, Ring.Offset, Ring.Next, Closing;
      ghost var was := Contents();
      Ring.EndSlot(buffer.Length, begin, end);
      Ring.OffsetSlot(buffer.Length, begin, |was|);
      Ring.OffsetSlot(buffer.Length, begin, j);
      Ring.OffsetSlot(buffer.Length, begin, i);
      var src: nat := last;
      dest := first;
      ghost var s := j;
      CloseStarts(Ring.Rotated(buffer[..], begin), was, i, j);
      while Ring.Offset(buffer.Length, begin, src) < Ring.Offset(buffer.Length, begin, end)
        invariant j <= s <= |was| && Closing(Ring.Rotated(buffer[..], begin), was, i, j, s)
        invariant src == Ring.Slot(buffer.Length, begin, s) && dest == Ring.Slot(buffer.Length, begin, i + s - j)
        invariant src < buffer.Length && dest < buffer.Length && Ring.Offset(buffer.Length, begin, src) == s
        decreases |was| - s
      {
        ClosedOne(Ring.Rotated(buffer[..], begin), was, i, j, s);
        Move(src, dest, s, i + s - j);
        Ring.StepOn(buffer.Length, begin, s);
        Ring.StepOn(buffer.Length, begin, i + s - j);
        src, dest := Ring.Next(buffer.Length, src), Ring.Next(buffer.Length, dest);
        s := s + 1;
      }
      CloseEnds(Ring.Rotated(buffer[..], begin), was, i, j);
      Ring.SizeOfSlot(buffer.Length, begin, i + |was| - j);
    }

    /** The elements j..s have been moved down to i, the ones from s on are untouched. */
    static ghost predicate Closing(r: seq<T>, was: seq<T>, i: nat, j: nat, s: nat) {
      && i < j <= s <= |was| < |r|
      && r[..i + s - j] == was[..i] + was[j..s] && r[s..|was|] == was[s..]
    }

    static lemma CloseStarts(r: seq<T>, was: seq<T>, i: nat, j: nat)
      requires i < j <= |was| < |r| && was == r[..|was|]
      ensures Closing(r, was, i, j, j)
    {}

    static lemma CloseEnds(r: seq<T>, was: seq<T>, i: nat, j: nat)
      requires Closing(r, was, i, j, |was|)
      ensures r[..i + |was| - j] == was[..i] + was[j..]
    {
      assert was[j..|was|] == was[j..];
    }

    static lemma ClosedOne(r: seq<T>, was: seq<T>, i: nat, j: nat, s: nat)
      requires s < |was| && Closing(r, was, i, j, s)
      ensures i + s - j < |r| && Closing(r[i + s - j := r[s]], was, i, j, s + 1)
    {
      var d := i + s - j;
      var q := r[d := r[s]];
      assert r[s..|was|][0] == was[s..][0];
      assert q[..d + 1] == r[..d] + [r[s]];
      assert was[j..s + 1] == was[j..s] + [was[s]];
      assert q[s + 1..|was|] == r[s..|was|][1..];
    }

    method Erase(pos: nat) returns (at: nat)
      requires Valid() && IsPosition(pos) && OffsetOf(pos) < |Contents()|
      modifies this, buffer
      ensures Valid() && buffer == old(buffer)
      ensures Contents() == old(Contents()[..OffsetOf(pos)]) + old(Contents()[OffsetOf(pos) + 1..])
      ensures IsPosition(at) && OffsetOf(at) == old(OffsetOf(pos))
    {
      var k := OffsetOf(pos);
      Ring.OffsetSlot(buffer.Length, begin, k + 1);
      var next := Advance(begin, k + 1);
      at := EraseRange(pos, next);
    }

    // ---- the whole --------------------------------------------------------------------------

    method Resize(count: nat, x: T)
      requires Valid()
      modifies this, buffer
      ensures Valid() && (buffer == old(buffer) || fresh(buffer))
      ensures Contents() == if count <= |old(Contents())| then old(Contents())[..count]
                            else old(Contents()) + Copies(count - |old(Contents())|, x)
    {
      hide Ring.Contents, Expanded, Shrunk, Pushed;
      ghost var was := Contents();
      if count > Count() {
        ExpandCapacityIfNecessary(count - Count());
        assert Copies(0, x) == [];
        while Count() < count
          invariant Valid() && |was| <= |Contents()| <= count && (buffer == old(buffer) || fresh(buffer))
          invariant Contents() == was + Copies(|Contents()| - |was|, x)
          decreases count - |Contents()|
        {
          CopyBehind(|Contents()| - |was|, x, was);
          PushBack(x);
        }
      } else if count < Count() {
        end := Advance(begin, count);
        Truncated(buffer[..], begin, old(end), end, count);
        ShrinkCapacityIfNecessary();
      }
    }

    static lemma Truncated(buf: seq<T>, begin: nat, oldEnd: nat, end: nat, count: nat)
      requires begin < |buf| && oldEnd < |buf| && count < Ring.Size(|buf|, begin, oldEnd)
      requires end == Ring.Slot(|buf|, begin, count)
      ensures end < |buf| && Ring.Contents(buf, begin, end) == Ring.Contents(buf, begin, oldEnd)[..count]
    {}

    method Assign(count: nat, x: T)
      requires Valid()
      modifies this, buffer
      ensures Valid() && Contents() == Copies(count, x) && (buffer == old(buffer) || fresh(buffer))
    {
      hide Ring.Contents, Pushed;
      ClearRetainCapacity();
      Reserve(count);
      for i := 0 to count
        invariant Valid() && Contents() == Copies(i, x) && (buffer == old(buffer) || fresh(buffer))
      {
        CopyBehind(i, x, []);
        PushBack(x);
      }
    }

    method AssignRange(items: seq<T>)
      requires Valid()
      modifies this, buffer
      ensures Valid() && Contents() == items && (buffer == old(buffer) || fresh(buffer))
    {
      hide Ring.Contents, Pushed;
      ClearRetainCapacity();
      for i := 0 to |items|
        invariant Valid() && Contents() == items[..i] && (buffer == old(buffer) || fresh(buffer))
      {
        assert items[..i + 1] == items[..i] + [items[i]];
        PushBack(items[i]);
      }
      assert items[..|items|] == items;
    }

    method Swap(other: Deque<T>)
      requires Valid() && other.Valid()
      modifies this, other
      ensures Valid() && other.Valid()
      ensures Contents() == old(other.Contents()) && other.Contents() == old(Contents())
      ensures buffer == old(other.buffer) && other.buffer == old(buffer)
    {
      buffer, other.buffer := other.buffer, buffer;
      begin, other.begin := other.begin, begin;
      end, other.end := other.end, end;
    }

    /** Move assignment: takes over the other's buffer and leaves it empty. */
    method TakeFrom(other: Deque<T>)
      requires Valid() && other.Valid()
      modifies this, other
      ensures Valid() && other.Valid() && Contents() == old(other.Contents()) && buffer == old(other.buffer)
      ensures other != this ==> other.Contents() == [] && other.Capacity() == 0 && fresh(other.buffer)
    {
      if other == this {
        return;
      }
      ClearRetainCapacity();
      buffer, begin, end := other.buffer, other.begin, other.end;
      other.buffer := new T[0];
      other.begin, other.end := 0, 0;
    }
  }

  lemma CopyBehind<T>(n: nat, x: T, s: seq<T>)
    ensures s + Copies(n, x) + [x] == s + Copies(n + 1, x)
    ensures Copies(n, x) + [x] == Copies(n + 1, x)
  {}

  lemma CopyInFront<T>(n: nat, x: T, s: seq<T>)
    ensures [x] + (Copies(n, x) + s) == Copies(n + 1, x) + s
  {}

  function Copies<T>(n: nat, x: T): (s: seq<T>)
    ensures |s| == n && forall i :: 0 <= i < n ==> s[i] == x
  {
    seq(n, _ => x)
  }
}
