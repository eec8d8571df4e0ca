/** The flat container: a strictly sorted vector, updated in place. */
module FlatTree {
  import opened FlatOrder
  import opened FlatBatch

  /** Inserting without a hint: the container, where the key is now, and whether it is new. */
  function Emplaced<K(!new), V(!new)>(o: Order<K, V>, s: seq<V>, v: V): (seq<V>, nat, bool) {
    (InsertOne(o, KEEP_FIRST_OF_DUPES, s, v), LowerBound(o, s, o.key(v)), Absent(o, s, o.key(v)))
  }

  /**
   * The flag tells whether the key was new, and the position is where the one value of the
   * key now is: the inserted one, or the one that was there.
   */
  lemma EmplacedExactly<K(!new), V(!new)>(o: Order<K, V>, dupes: Dupes, s: seq<V>, v: V)
    requires o.Valid() && Strict(o, s)
    ensures
      var k := o.key(v);
      var r, pos := InsertOne(o, dupes, s, v), LowerBound(o, s, k);
      && (Absent(o, s, k) <==> Like(o, s, k) == [])
      && pos < |r| && Like(o, r, k) == [r[pos]]
      && (if Like(o, s, k) == [] || dupes.KEEP_LAST_OF_DUPES? then r[pos] == v else r == s)
  {
    var k := o.key(v);
    AbsentExactly(o, s, k);
    InsertOneStrict(o, dupes, s, v);
    var r, pos := InsertOne(o, dupes, s, v), LowerBound(o, s, k);
    hide Like, Strict, LowerBound;
    LikeOnce(o, r, pos, k);
  }

  /** Where a hint fits, it is where the search would have ended. */
  lemma HintIsLowerBound<K(!new), V(!new)>(o: Order<K, V>, s: seq<V>, hint: nat, k: K)
    requires o.Valid() && Strict(o, s) && hint <= |s|
    requires hint == 0 || o.less(o.key(s[hint - 1]), k)
    requires hint == |s| || !o.less(o.key(s[hint]), k)
    ensures LowerBound(o, s, k) == hint
  {}

  /** One candidate decided: kept unless its neighbour is the same. */
  lemma RunStep<V>(same: (V, V) -> bool, s: seq<V>, i: nat, last: nat)
    requires i < last <= |s|
    ensures
      var own := if i + 1 < last && same(s[i], s[i + 1]) then [] else [s[i]];
      LastOfRuns(same, s[i..last]) == own + LastOfRuns(same, s[i + 1..last])
  {
    assert s[i..last][1..] == s[i + 1..last];
  }

  lemma RunAdded<V>(a: seq<V>, x: V, b: seq<V>)
    ensures a + ([x] + b) == a + [x] + b
  {}

  lemma Pieces<V>(a: seq<V>, b: seq<V>)
    ensures (a + b)[..|a|] == a && (a + b)[|a|..] == b && (a + b)[|a|..|a + b|] == b
  {}

  lemma Front<V>(s: seq<V>, first: nat, end: nat)
    requires first <= end <= |s|
    ensures s[..end] == s[..first] + s[first..end]
  {}

  lemma NoRuns<V>(same: (V, V) -> bool, s: seq<V>)
    requires |s| <= 1
    ensures LastOfRuns(same, s) == s
  {}

  /** Values of one key are all of an equivalent key, and none of another. */
  lemma {:induction false} LikeAll<K(!new), V(!new)>(o: Order<K, V>, s: seq<V>, k: K, j: K)
    requires o.Valid() && forall x :: x in s ==> o.Same(o.key(x), k)
    ensures Like(o, s, j) == if o.Same(k, j) then s else []
    decreases |s|
  {
    if s != [] {
      assert s[0] in s;
      LikeAll(o, s[1..], k, j);
      assert s == [s[0]] + s[1..];
    }
  }

  /** Without the values of one key, every other key keeps its own. */
  lemma Erased<K(!new), V(!new)>(o: Order<K, V>, a: seq<V>, m: seq<V>, b: seq<V>, k: K, j: K)
    requires o.Valid() && m == Like(o, a + m + b, k)
    ensures Like(o, a + b, j) == if o.Same(k, j) then [] else Like(o, a + m + b, j)
  {
    LikeAll(o, m, k, j);
    if o.Same(k, j) { SameLike(o, a + m + b, k, j); }
    ErasedLike(o, a, m, b, j);
  }

  lemma StrictWithout<K(!new), V(!new)>(o: Order<K, V>, s: seq<V>, lower: nat, upper: nat)
    requires Strict(o, s) && lower <= upper <= |s|
    ensures Strict(o, s[..lower] + s[upper..])
  {}

  lemma RangeErased<K(!new), V(!new)>(o: Order<K, V>, s: seq<V>, lower: nat, upper: nat, k: K)
    requires o.Valid() && Strict(o, s) && lower <= upper <= |s| && s[lower..upper] == Like(o, s, k)
    ensures var r := s[..lower] + s[upper..];
      Strict(o, r) && forall j :: Like(o, r, j) == if o.Same(k, j) then [] else Like(o, s, j)
  {
    var a, m, b := s[..lower], s[lower..upper], s[upper..];
    StrictWithout(o, s, lower, upper);
    hide Like, Strict;
    assert s == a + m + b;
    forall j ensures Like(o, a + b, j) == if o.Same(k, j) then [] else Like(o, s, j) {
      Erased(o, a, m, b, k, j);
    }
  }

  lemma ErasedLike<K(!new), V(!new)>(o: Order<K, V>, a: seq<V>, m: seq<V>, b: seq<V>, j: K)
    requires Like(o, m, j) == [] || Like(o, m, j) == Like(o, a + m + b, j)
    ensures Like(o, a + b, j) == if Like(o, m, j) == [] then Like(o, a + m + b, j) else []
  {
    hide Like;
    LikeAppend(o, a + m, b, j);
    LikeAppend(o, a, m, j);
    LikeAppend(o, a, b, j);
    var x, y, z := Like(o, a, j), Like(o, m, j), Like(o, b, j);
    assert Like(o, a + m + b, j) == x + y + z;
    if y != [] { assert |x + y + z| == |x| + |y| + |z|; }
  }

  /** A value that differs from its neighbour is kept. */
  lemma NoRunYet<V>(same: (V, V) -> bool, s: seq<V>, first: nat, i: nat, last: nat)
    requires first <= i && i + 1 < last <= |s| && !same(s[i], s[i + 1])
    requires LastOfRuns(same, s[first..last]) == s[first..i] + LastOfRuns(same, s[i..last])
    ensures LastOfRuns(same, s[first..last]) == s[first..i + 1] + LastOfRuns(same, s[i + 1..last])
  {
    hide LastOfRuns;
    RunStep(same, s, i, last);
    RunAdded(s[first..i], s[i], LastOfRuns(same, s[i + 1..last]));
    assert s[first..i + 1] == s[first..i] + [s[i]];
  }

  lemma NoRunAtAll<V>(same: (V, V) -> bool, s: seq<V>, first: nat, i: nat, last: nat)
    requires first <= i <= last <= i + 1 && last <= |s|
    requires LastOfRuns(same, s[first..last]) == s[first..i] + LastOfRuns(same, s[i..last])
    ensures LastOfRuns(same, s[first..last]) == s[first..last]
  {
    NoRuns(same, s[i..last]);
    hide LastOfRuns;
    assert s[first..last] == s[first..i] + s[i..last];
  }

  class FlatTree<K(!new), V(!new)> {
    const order: Order<K, V>
    var body: seq<V>

    ghost predicate Valid()
      reads this
    {
      order.Valid() && Strict(order, body)
    }

    constructor (order: Order<K, V>)
      requires order.Valid()
      ensures this.order == order && Valid() && body == []
    {
      this.order, body := order, [];
    }

    /** A container made from a range: the same as inserting the range one by one. */
    constructor FromRange(order: Order<K, V>, items: seq<V>, dupes: Dupes)
      requires order.Valid()
      ensures this.order == order && Valid() && body == InsertEach(order, dupes, [], items)
    {
      this.order, body := order, items;
      new;
      SortAndUnique(0, dupes);
      RangeIsEach(order, dupes, items);
      InsertEachStrict(order, dupes, [], items);
    }

    method EqualRange(k: K) returns (lower: nat, upper: nat)
      requires Valid()
      ensures lower <= upper <= |body| && body[lower..upper] == Like(order, body, k)
      ensures lower == LowerBound(order, body, k)
    {
      AbsentExactly(order, body, k);
      lower := LowerBound(order, body, k);
      if lower == |body| || order.less(k, order.key(body[lower])) {
        upper := lower;
      } else {
        upper := lower + 1;
      }
    }

    method Insert(v: V) returns (pos: nat, inserted: bool)
      requires Valid()
      modifies this
      ensures Valid() && (body, pos, inserted) == Emplaced(order, old(body), v)
      ensures inserted <==> Like(order, old(body), order.key(v)) == []
      ensures pos < |body| && Like(order, body, order.key(v)) == [body[pos]]
      ensures if inserted then body[pos] == v else body == old(body)
    {
      EmplacedExactly(order, KEEP_FIRST_OF_DUPES, body, v);
      InsertOneStrict(order, KEEP_FIRST_OF_DUPES, body, v);
      var lower := LowerBound(order, body, order.key(v));
      if lower == |body| || order.less(order.key(v), order.key(body[lower])) {
        body := body[..lower] + [v] + body[lower..];
        return lower, true;
      }
      return lower, false;
    }

    /** Whatever the hint, the result is that of inserting without one. */
    method InsertHint(hint: nat, v: V) returns (pos: nat, inserted: bool)
      requires Valid() && hint <= |body|
      modifies this
      ensures Valid() && (body, pos, inserted) == Emplaced(order, old(body), v)
      ensures inserted <==> Like(order, old(body), order.key(v)) == []
      ensures pos < |body| && Like(order, body, order.key(v)) == [body[pos]]
      ensures if inserted then body[pos] == v else body == old(body)
    {
      EmplacedExactly(order, KEEP_FIRST_OF_DUPES, body, v);
      var k := order.key(v);
      if hint == 0 || order.less(order.key(body[hint - 1]), k) {
        if hint == |body| || order.less(k, order.key(body[hint])) {
          HintIsLowerBound(order, body, hint, k);
          InsertOneStrict(order, KEEP_FIRST_OF_DUPES, body, v);
          body := body[..hint] + [v] + body[hint..];
          return hint, true;
        }
        if !order.less(order.key(body[hint]), k) {
          HintIsLowerBound(order, body, hint, k);
          return hint, false;
        }
      }
      pos, inserted := Insert(v);
    }

    method InsertOrAssign(v: V) returns (pos: nat, inserted: bool)
      requires Valid()
      modifies this
      ensures Valid() && body == InsertOne(order, KEEP_LAST_OF_DUPES, old(body), v)
      ensures pos == LowerBound(order, old(body), order.key(v))
      ensures inserted <==> Like(order, old(body), order.key(v)) == []
      ensures pos < |body| && body[pos] == v && Like(order, body, order.key(v)) == [v]
    {
      EmplacedExactly(order, KEEP_LAST_OF_DUPES, body, v);
      InsertOneStrict(order, KEEP_LAST_OF_DUPES, body, v);
      pos := LowerBound(order, body, order.key(v));
      if pos == |body| || order.less(order.key(v), order.key(body[pos])) {
        body := body[..pos] + [v] + body[pos..];
        return pos, true;
      }
      body := body[pos := v];
      return pos, false;
    }

    /** Like InsertOrAssign among the first `last` values, with a new one put at the very end. */
    method AppendOrAssign(last: nat, v: V) returns (pos: nat, inserted: bool)
      requires last <= |body|
      modifies this
      ensures pos == LowerBound(order, old(body)[..last], order.key(v))
      ensures inserted == Absent(order, old(body)[..last], order.key(v)) && (inserted || pos < last)
      ensures body == if inserted then old(body) + [v] else old(body)[pos := v]
    {
      pos := LowerBound(order, body[..last], order.key(v));
      if pos == last || order.less(order.key(v), order.key(body[pos])) {
        body := body + [v];
        return pos, true;
      }
      body := body[pos := v];
      return pos, false;
    }

    method AppendUnique(last: nat, v: V) returns (pos: nat, inserted: bool)
      requires last <= |body|
      modifies this
      ensures pos == LowerBound(order, old(body)[..last], order.key(v))
      ensures inserted == Absent(order, old(body)[..last], order.key(v)) && (inserted || pos < last)
      ensures body == if inserted then old(body) + [v] else old(body)
    {
      pos := LowerBound(order, body[..last], order.key(v));
      if pos == last || order.less(order.key(v), order.key(body[pos])) {
        body := body + [v];
        return pos, true;
      }
      return pos, false;
    }

    /** Keeps the last of each run in a range, moving the kept ones together at its front. */
    method LastUnique(first: nat, last: nat, same: (V, V) -> bool) returns (end: nat)
      requires first <= last <= |body|
      modifies this
      ensures first <= end <= last && |body| == |old(body)|
      ensures body[..first] == old(body)[..first] && body[last..] == old(body)[last..]
      ensures body[first..end] == LastOfRuns(same, old(body)[first..last])
    {
      var slot := AdjacentFind(first, last, same);
      if slot == last {
        assert body[last..last] == [];
        return last;
      }
      var from := slot + 1;
      end := Compact(first, last, slot, from, same);
    }

    /** The loop of LastUnique: `slot` is where the next kept value goes, `from` the next candidate. */
    method Compact(first: nat, last: nat, slot0: nat, from0: nat, same: (V, V) -> bool) returns (slot: nat)
      requires first <= slot0 < from0 < last <= |body|
      modifies this
      ensures first <= slot <= last && |body| == |old(body)|
      ensures body[..first] == old(body)[..first] && body[last..] == old(body)[last..]
      ensures body[first..slot] == old(body)[first..slot0] + LastOfRuns(same, old(body)[from0..last])
    {
      hide LastOfRuns;
      slot := slot0;
      var from := from0;
      ghost var was, kept := body, body[first..slot0];
      ghost var goal := kept + LastOfRuns(same, was[from0..last]);
      for next := from0 + 1 to last
        invariant first <= slot < from && from + 1 == next && |body| == |was|
        invariant forall j :: 0 <= j < first || from <= j < |was| ==> body[j] == was[j]
        invariant body[first..slot] == kept
        invariant kept + LastOfRuns(same, was[from..last]) == goal
      {
        RunStep(same, was, from, last);
        if !same(body[from], body[next]) {
          RunAdded(kept, was[from], LastOfRuns(same, was[next..last]));
          Keep(first, slot, from);
          kept, slot := kept + [was[from]], slot + 1;
        }
        from := next;
      }
      RunStep(same, was, from, last);
      assert LastOfRuns(same, was[last..last]) == [] by { NoRuns(same, was[last..last]); }
      Keep(first, slot, from);
      slot := slot + 1;
    }

    /** Moves a value down to the slot. */
    method Keep(first: nat, slot: nat, from: nat)
      requires first <= slot < from < |body|
      modifies this
      ensures |body| == |old(body)| && body[first..slot + 1] == old(body)[first..slot] + [old(body)[from]]
      ensures forall j :: 0 <= j < |body| && j != slot ==> body[j] == old(body)[j]
    {
      body := body[slot := body[from]];
    }

    /** The first of two neighbours in a range that compare as the same, or the end. */
    method AdjacentFind(first: nat, last: nat, same: (V, V) -> bool) returns (i: nat)
      requires first <= last <= |body|
      ensures first <= i <= last && (i < last ==> i + 1 < last && same(body[i], body[i + 1]))
      ensures i == last ==> LastOfRuns(same, body[first..last]) == body[first..last]
      ensures i < last ==> LastOfRuns(same, body[first..last]) == body[first..i] + LastOfRuns(same, body[i + 1..last])
    {
      hide LastOfRuns;
      i := first;
      while i + 1 < last && !same(body[i], body[i + 1])
        invariant first <= i <= last
        invariant LastOfRuns(same, body[first..last]) == body[first..i] + LastOfRuns(same, body[i..last])
      {
        NoRunYet(same, body, first, i, last);
        i := i + 1;
      }
      if i + 1 < last {
        RunStep(same, body, i, last);
      } else {
        NoRunAtAll(same, body, first, i, last);
        i := last;
      }
    }

    /** Sorts the values from `first` on and keeps one of each key. */
    method SortAndUnique(first: nat, dupes: Dupes)
      requires first <= |body|
      modifies this
      ensures body == old(body)[..first] + Thinned(order, dupes, StableSorted(order, old(body)[first..]))
    {
      hide StableSorted, FirstOfRuns, LastOfRuns;
      Pieces(body[..first], StableSorted(order, body[first..]));
      body := body[..first] + StableSorted(order, body[first..]);
      match dupes
      case KEEP_FIRST_OF_DUPES =>
        body := body[..first] + FirstOfRuns(NotLess(order), body[first..]);
      case KEEP_LAST_OF_DUPES =>
        var end := LastUnique(first, |body|, NotLess(order));
        Front(body, first, end);
        body := body[..end];
    }

    /** A whole range at once: the same container as one by one, whichever duplicate is to stay. */
    method InsertRange(items: seq<V>, dupes: Dupes, multipass: bool)
      requires Valid()
      modifies this
      ensures Valid() && body == InsertEach(order, dupes, old(body), items)
    {
      if items == [] {
        return;
      }
      if multipass && |items| == 1 {
        assert items[1..] == [];
        if dupes == KEEP_LAST_OF_DUPES {
          var _, _ := InsertOrAssign(items[0]);
        } else {
          var _, _ := InsertHint(|body|, items[0]);
        }
        return;
      }
      InsertBatch(items, dupes);
    }

    method InsertBatch(items: seq<V>, dupes: Dupes)
      requires Valid()
      modifies this
      ensures Valid() && body == InsertEach(order, dupes, old(body), items)
    {
      ghost var s := body;
      var middle := |body|;
      var pos := Offer(items, dupes);
      ghost var t, waiting := body[..middle], body[middle..];
      SortAndUnique(middle, dupes);
      ghost var u := Thinned(order, dupes, StableSorted(order, waiting));
      assert body[..pos] == t[..pos] && body[pos..middle] == t[pos..] && body[middle..] == u;
      body := body[..pos] + Merged(order, body[pos..middle], body[middle..]);
      BatchIsEach(order, dupes, s, items, t, waiting, pos);
      InsertEachStrict(order, dupes, s, items);
    }

    /** Appends what is new and overwrites what is not; finds the first place something goes to. */
    method Offer(items: seq<V>, dupes: Dupes) returns (pos: nat)
      requires Valid()
      modifies this
      ensures |body| >= |old(body)|
      ensures Offered(order, dupes, old(body), items, body[..|old(body)|], body[|old(body)|..], pos)
    {
      hide Offered, Strict;
      ghost var s := body;
      var middle := |body|;
      pos := middle;
      NothingOffered(order, dupes, s);
      assert body[..middle] == s && body[middle..] == [] && items[..0] == [];
      for i := 0 to |items|
        invariant middle == |s| <= |body|
        invariant Offered(order, dupes, s, items[..i], body[..middle], body[middle..], pos)
      {
        assert items[..i + 1] == items[..i] + [items[i]];
        pos := OfferOne(middle, items[i], dupes, pos, s, items[..i]);
      }
      assert items[..|items|] == items;
    }

    method OfferOne(middle: nat, v: V, dupes: Dupes, first: nat, ghost s: seq<V>, ghost done: seq<V>) returns (pos: nat)
      requires order.Valid() && middle <= |body|
      requires Offered(order, dupes, s, done, body[..middle], body[middle..], first)
      modifies this
      ensures middle <= |body|
      ensures Offered(order, dupes, s, done + [v], body[..middle], body[middle..], pos)
    {
      hide Offered, Absent, Strict, LowerBound;
      ghost var t, waiting := body[..middle], body[middle..];
      assert body == t + waiting;
      var p, inserted;
      if dupes == KEEP_LAST_OF_DUPES {
        p, inserted := AppendOrAssign(middle, v);
      } else {
        p, inserted := AppendUnique(middle, v);
      }
      if inserted {
        assert body == t + (waiting + [v]);
        Pieces(t, waiting + [v]);
        OfferNew(order, dupes, s, done, t, waiting, first, v);
        pos := if p < first then p else first;
      } else {
        ghost var u := if dupes.KEEP_FIRST_OF_DUPES? then t else t[p := v];
        assert body == u + waiting;
        Pieces(u, waiting);
        OfferOld(order, dupes, s, done, t, waiting, first, v);
        pos := first;
      }
    }

    /** Removes a key and says how many values went. */
    method EraseKey(k: K) returns (count: nat)
      requires Valid()
      modifies this
      ensures Valid() && count == |Like(order, old(body), k)| && Like(order, body, k) == []
      ensures forall j :: !order.Same(k, j) ==> Like(order, body, j) == Like(order, old(body), j)
    {
      hide Like, Strict;
      var lower, upper := EqualRange(k);
      count := upper - lower;
      RangeErased(order, body, lower, upper, k);
      body := body[..lower] + body[upper..];
    }
  }

  lemma RangeIsEach<K(!new), V(!new)>(o: Order<K, V>, dupes: Dupes, items: seq<V>)
    requires o.Valid()
    ensures Thinned(o, dupes, StableSorted(o, items)) == InsertEach(o, dupes, [], items)
  {
    var thinned, each := Thinned(o, dupes, StableSorted(o, items)), InsertEach(o, dupes, [], items);
    ThinnedPicks(o, dupes, items);
    InsertEachStrict(o, dupes, [], items);
    forall k ensures Like(o, thinned, k) == Like(o, each, k) {
      InsertEachLike(o, dupes, [], items, k);
      assert Like<K, V>(o, [], k) + Like(o, items, k) == Like(o, items, k);
    }
    StrictIsUnique(o, thinned, each);
  }
}
