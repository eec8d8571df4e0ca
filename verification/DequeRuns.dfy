/** Whole runs of deque operations against a plain sequence. */
module DequeRuns {
  import opened CircularDeque
  import opened DequeCost

  datatype Command<T> =
    | PushFront(x: T)
    | PushBack(x: T)
    | PopFront
    | PopBack
    | Insert(at: nat, items: seq<T>)
    | InsertCopies(at: nat, count: nat, x: T)
    | Emplace(at: nat, x: T)
    | Erase(from: nat, to: nat)
    | Resize(count: nat, x: T)
    | AssignItems(items: seq<T>)
    | AssignCopies(count: nat, x: T)
    | Reserve(count: nat)
    | ShrinkToFit
    | Clear

  /** What the caller must respect: nothing is popped from an empty deque, positions exist. */
  predicate Legal<T>(s: seq<T>, c: Command<T>) {
    match c
    case PopFront => s != []
    case PopBack => s != []
    case Insert(at, _) => at <= |s|
    case InsertCopies(at, _, _) => at <= |s|
    case Emplace(at, _) => at <= |s|
    case Erase(from, to) => from <= to <= |s|
    case _ => true
  }

  /** The same operation on a plain sequence. */
  function Apply<T>(s: seq<T>, c: Command<T>): seq<T>
    requires Legal(s, c)
  {
    match c
    case PushFront(x) => [x] + s
    case PushBack(x) => s + [x]
    case PopFront => s[1..]
    case PopBack => s[..|s| - 1]
    case Insert(at, items) => s[..at] + items + s[at..]
    case InsertCopies(at, count, x) => s[..at] + Copies(count, x) + s[at..]
    case Emplace(at, x) => s[..at] + [x] + s[at..]
    case Erase(from, to) => s[..from] + s[to..]
    case Resize(count, x) => if count <= |s| then s[..count] else s + Copies(count - |s|, x)
    case AssignItems(items) => items
    case AssignCopies(count, x) => Copies(count, x)
    case Reserve(_) => s
    case ShrinkToFit => s
    case Clear => []
  }

  predicate LegalRun<T>(s: seq<T>, cs: seq<Command<T>>)
    decreases |cs|
  {
    cs == [] || (Legal(s, cs[0]) && LegalRun(Apply(s, cs[0]), cs[1..]))
  }

  function Final<T>(s: seq<T>, cs: seq<Command<T>>): seq<T>
    requires LegalRun(s, cs)
    decreases |cs|
  {
    if cs == [] then s else Final(Apply(s, cs[0]), cs[1..])
  }

  predicate AtAnEnd<T>(c: Command<T>) { c.PushFront? || c.PushBack? || c.PopFront? || c.PopBack? }

  predicate OnlyEnds<T>(cs: seq<Command<T>>) { forall i :: 0 <= i < |cs| ==> AtAnEnd(cs[i]) }

  /** The position k places after the beginning; adding nothing leaves it alone. */
  method PositionAt<T(0)>(d: Deque<T>, k: nat) returns (pos: nat)
    requires d.Valid() && k <= |d.Contents()|
    ensures d.IsPosition(pos) && d.OffsetOf(pos) == k
  {
    if k == 0 {
      return d.begin;
    }
    pos := d.Advance(d.begin, k);
  }

  method Execute<T(0)>(d: Deque<T>, c: Command<T>)
    requires d.Valid() && Legal(d.Contents(), c)
    modifies d, d.buffer
    ensures d.Valid() && (d.buffer == old(d.buffer) || fresh(d.buffer))
    ensures d.Contents() == Apply(old(d.Contents()), c)
    ensures c.PushFront? || c.PushBack? ==> d.State() == Pushed(old(d.State()))
    ensures c.PopFront? || c.PopBack? ==> d.State() == Popped(old(d.State()))
  {
    match c
    case PushFront(x) => d.PushFront(x);
    case PushBack(x) => d.PushBack(x);
    case PopFront => d.PopFront();
    case PopBack => d.PopBack();
    case Insert(at, items) =>
      var pos := PositionAt(d, at);
      d.InsertRange(pos, items);
    case InsertCopies(at, count, x) =>
      var pos := PositionAt(d, at);
      d.Insert(pos, count, x);
    case Emplace(at, x) =>
      var pos := PositionAt(d, at);
      var _ := d.Emplace(pos, x);
    case Erase(from, to) =>
      var first := PositionAt(d, from);
      var last := PositionAt(d, to);
      var _ := d.EraseRange(first, last);
    case Resize(count, x) => d.Resize(count, x);
    case AssignItems(items) => d.AssignRange(items);
    case AssignCopies(count, x) => d.Assign(count, x);
    case Reserve(count) => d.Reserve(count);
    case ShrinkToFit => d.ShrinkToFit();
    case Clear => d.Clear();
  }

  /**
   * Any legal run from a new deque ends with what the plain sequence holds; if it only
   * touched the ends, its reallocations moved at most 17 elements per operation.
   */
  method Replay<T(0)>(cs: seq<Command<T>>) returns (d: Deque<T>)
    requires LegalRun([], cs)
    ensures d.Valid() && fresh(d) && d.Contents() == Final([], cs)
    ensures OnlyEnds(cs) ==> d.moved <= 17 * |cs|
  {
    hide Apply, Legal, Pushed, Popped, Potential;
    d := new Deque();
    NoPotential();
    for i := 0 to |cs|
      invariant d.Valid() && fresh(d) && fresh(d.buffer)
      invariant LegalRun(d.Contents(), cs[i..]) && Final(d.Contents(), cs[i..]) == Final([], cs)
      invariant d.State().size <= d.State().capacity
      invariant OnlyEnds(cs[..i]) ==> d.moved + Potential(d.State()) <= 17 * i
    {
      assert cs[i..][1..] == cs[i + 1..];
      assert OnlyEnds(cs[..i + 1]) ==> OnlyEnds(cs[..i]) && AtAnEnd(cs[..i + 1][i]);
      ghost var before := d.State();
      PushIsCheap(before);
      if before.size > 0 { PopIsCheap(before); }
      PopsNeedElements(d.Contents(), cs[i]);
      Execute(d, cs[i]);
    }
    assert cs[..|cs|] == cs;
    PotentialIsNonnegative(d.State());
  }

  lemma PopsNeedElements<T>(s: seq<T>, c: Command<T>)
    requires Legal(s, c)
    ensures c.PopFront? || c.PopBack? ==> s != []
  {}

  lemma NoPotential()
    ensures Potential(Cost(0, 0, 0)) == 0
  {}

  lemma PotentialIsNonnegative(c: Cost)
    ensures Potential(c) >= 0
  {}

  // ---- two deques ----------------------------------------------------------------------------

  /** A command on one of two deques, or on both: swapping them, or moving one into the other or itself. */
  datatype Joint<T> =
    | First(c: Command<T>)
    | Second(c: Command<T>)
    | Exchange
    | IntoFirst
    | IntoSecond
    | OntoItself

  predicate LegalOn<T>(s: seq<T>, t: seq<T>, j: Joint<T>) {
    (j.First? ==> Legal(s, j.c)) && (j.Second? ==> Legal(t, j.c))
  }

  /** The same on two plain sequences. */
  function ApplyOn<T>(s: seq<T>, t: seq<T>, j: Joint<T>): (seq<T>, seq<T>)
    requires LegalOn(s, t, j)
  {
    match j
    case First(c) => (Apply(s, c), t)
    case Second(c) => (s, Apply(t, c))
    case Exchange => (t, s)
    case IntoFirst => (t, [])
    case IntoSecond => ([], s)
    case OntoItself => (s, t)
  }

  predicate LegalRunOn<T>(s: seq<T>, t: seq<T>, js: seq<Joint<T>>)
    decreases |js|
  {
    js == [] || (LegalOn(s, t, js[0]) && var n := ApplyOn(s, t, js[0]); LegalRunOn(n.0, n.1, js[1..]))
  }

  function FinalOn<T>(s: seq<T>, t: seq<T>, js: seq<Joint<T>>): (seq<T>, seq<T>)
    requires LegalRunOn(s, t, js)
    decreases |js|
  {
    if js == [] then (s, t)
    else
      var n := ApplyOn(s, t, js[0]);
      FinalOn(n.0, n.1, js[1..])
  }

  method ExecuteOn<T(0)>(d: Deque<T>, e: Deque<T>, j: Joint<T>)
    requires d != e && d.buffer != e.buffer && d.Valid() && e.Valid() && LegalOn(d.Contents(), e.Contents(), j)
    modifies d, d.buffer, e, e.buffer
    ensures d.Valid() && e.Valid() && d.buffer != e.buffer
    ensures fresh({d.buffer, e.buffer} - {old(d.buffer), old(e.buffer)})
    ensures (d.Contents(), e.Contents()) == ApplyOn(old(d.Contents()), old(e.Contents()), j)
  {
    hide Apply;
    match j
    case First(c) => Execute(d, c);
    case Second(c) => Execute(e, c);
    case Exchange => d.Swap(e);
    case IntoFirst => d.TakeFrom(e);
    case IntoSecond => e.TakeFrom(d);
    case OntoItself => d.TakeFrom(d);
  }

  /** Any legal run over two new deques ends with what the two plain sequences hold. */
  method ReplayOn<T(0)>(js: seq<Joint<T>>) returns (d: Deque<T>, e: Deque<T>)
    requires LegalRunOn([], [], js)
    ensures d.Valid() && e.Valid() && (d.Contents(), e.Contents()) == FinalOn([], [], js)
  {
    hide ApplyOn, LegalOn;
    d := new Deque();
    e := new Deque();
    for i := 0 to |js|
      invariant d != e && d.buffer != e.buffer && fresh({d, e, d.buffer, e.buffer}) && d.Valid() && e.Valid()
      invariant LegalRunOn(d.Contents(), e.Contents(), js[i..])
      invariant FinalOn(d.Contents(), e.Contents(), js[i..]) == FinalOn([], [], js)
    {
      assert js[i..][1..] == js[i + 1..];
      ExecuteOn(d, e, js[i]);
    }
  }
}
