/** Sorting, thinning out and merging a batch of new values, each described key by key. */
module FlatBatch {
  import opened FlatOrder

  // ---- the standard algorithms -----------------------------------------------------------

  /** A stable sort: each value goes before those after it that are not less. */
  function StableSorted<K(!new), V(!new)>(o: Order<K, V>, s: seq<V>): seq<V>
    decreases |s|
  {
    if s == [] then []
    else
      var t := StableSorted(o, s[1..]);
      var p := LowerBound(o, t, o.key(s[0]));
      t[..p] + [s[0]] + t[p..]
  }

  /** The first of each run of values the comparison takes for the same. */
  function FirstOfRuns<V>(same: (V, V) -> bool, s: seq<V>): (r: seq<V>)
    ensures forall x :: x in r ==> x in s
    decreases |s|
  {
    if |s| <= 1 then s
    else if same(s[0], s[1]) then FirstOfRuns(same, [s[0]] + s[2..])
    else [s[0]] + FirstOfRuns(same, s[1..])
  }

  /** The last of each run. */
  function LastOfRuns<V>(same: (V, V) -> bool, s: seq<V>): (r: seq<V>)
    ensures |r| <= |s| && forall x :: x in r ==> x in s
    decreases |s|
  {
    if |s| <= 1 then s
    else if same(s[0], s[1]) then LastOfRuns(same, s[1..])
    else [s[0]] + LastOfRuns(same, s[1..])
  }

  function Merged<K(!new), V(!new)>(o: Order<K, V>, a: seq<V>, b: seq<V>): (r: seq<V>)
    ensures forall x :: x in r ==> x in a || x in b
    decreases |a| + |b|
  {
    if a == [] then b
    else if b == [] then a
    else if o.Lt(b[0], a[0]) then [b[0]] + Merged(o, a, b[1..])
    else [a[0]] + Merged(o, a[1..], b)
  }

  // ---- what they do ----------------------------------------------------------------------

  lemma {:induction false} SortKeeps<K(!new), V(!new)>(o: Order<K, V>, s: seq<V>)
    requires o.Valid()
    ensures Weak(o, StableSorted(o, s))
    ensures forall k :: Like(o, StableSorted(o, s), k) == Like(o, s, k)
    decreases |s|
  {
    if s != [] {
      var t := StableSorted(o, s[1..]);
      var p := LowerBound(o, t, o.key(s[0]));
      var r := t[..p] + [s[0]] + t[p..];
      SortKeeps(o, s[1..]);
      PlacedWeak(o, t, p, s[0]);
      hide Like, Weak;
      forall k ensures Like(o, r, k) == Like(o, s, k) {
        PlacedStably(o, t, p, s[0], k);
        LikeFirst(o, s, k);
      }
    }
  }

  lemma LikeFirst<K(!new), V(!new)>(o: Order<K, V>, s: seq<V>, k: K)
    requires s != []
    ensures Like(o, s, k) == (if o.Same(o.key(s[0]), k) then [s[0]] else []) + Like(o, s[1..], k)
  {
    hide Like;
    assert s == [] + [s[0]] + s[1..];
    LikeAround(o, [], s[0], s[1..], k);
    LikeNone(o, [], k);
  }

  lemma PlacedWeak<K(!new), V(!new)>(o: Order<K, V>, t: seq<V>, p: nat, v: V)
    requires o.Valid() && Weak(o, t) && p == LowerBound(o, t, o.key(v))
    ensures Weak(o, t[..p] + [v] + t[p..])
  {
    forall i | p <= i < |t| ensures !o.Lt(t[i], v) {
      if p < i { assert !o.Lt(t[i], t[p]); }
    }
    var r := t[..p] + [v] + t[p..];
    forall i, j | 0 <= i < j < |r| ensures !o.Lt(r[j], r[i]) {}
  }

  /** A value placed at its lower bound comes first of its key. */
  lemma PlacedStably<K(!new), V(!new)>(o: Order<K, V>, t: seq<V>, p: nat, v: V, k: K)
    requires o.Valid() && p == LowerBound(o, t, o.key(v))
    ensures Like(o, t[..p] + [v] + t[p..], k) == (if o.Same(o.key(v), k) then [v] else []) + Like(o, t, k)
  {
    hide Like;
    LikeAround(o, t[..p], v, t[p..], k);
    LikeAppend(o, t[..p], t[p..], k);
    assert t == t[..p] + t[p..];
    if o.Same(o.key(v), k) { NoneBelow(o, t[..p], v, k); }
    Regrouped(Like(o, t[..p], k), if o.Same(o.key(v), k) then [v] else [], Like(o, t[p..], k));
  }

  lemma Regrouped<V>(a: seq<V>, b: seq<V>, c: seq<V>)
    ensures a + (b + c) == a + b + c
    ensures a == [] || b == [] ==> a + b + c == b + (a + c)
  {}

  lemma NoneBelow<K(!new), V(!new)>(o: Order<K, V>, t: seq<V>, v: V, k: K)
    requires o.Valid() && o.Same(o.key(v), k) && forall i :: 0 <= i < |t| ==> o.Lt(t[i], v)
    ensures Like(o, t, k) == []
  {
    LikeNone(o, t, k);
  }

  /** The comparison by which a sorted range is thinned out. */
  function NotLess<K(!new), V(!new)>(o: Order<K, V>): (V, V) -> bool { (x, y) => !o.Lt(x, y) }

  lemma {:induction false} FirstOfRunsPicks<K(!new), V(!new)>(o: Order<K, V>, s: seq<V>)
    requires o.Valid() && Weak(o, s)
    ensures Strict(o, FirstOfRuns(NotLess(o), s))
    ensures forall k :: Like(o, FirstOfRuns(NotLess(o), s), k) == Pick(KEEP_FIRST_OF_DUPES, Like(o, s, k))
    decreases |s|
  {
    if |s| <= 1 {
    } else if !o.Lt(s[0], s[1]) {
      var t := [s[0]] + s[2..];
      assert Weak(o, t);
      FirstOfRunsPicks(o, t);
      forall k ensures Pick(KEEP_FIRST_OF_DUPES, Like(o, t, k)) == Pick(KEEP_FIRST_OF_DUPES, Like(o, s, k)) {
        SkipSecond(o, s, k);
      }
    } else {
      FirstOfRunsPicks(o, s[1..]);
      RunEnds(o, s, FirstOfRuns(NotLess(o), s[1..]), KEEP_FIRST_OF_DUPES);
    }
  }

  lemma SkipSecond<K(!new), V(!new)>(o: Order<K, V>, s: seq<V>, k: K)
    requires o.Valid() && Weak(o, s) && |s| >= 2 && !o.Lt(s[0], s[1])
    ensures Pick(KEEP_FIRST_OF_DUPES, Like(o, [s[0]] + s[2..], k)) == Pick(KEEP_FIRST_OF_DUPES, Like(o, s, k))
  {
    assert !o.Lt(s[1], s[0]);
    assert s[1..][1..] == s[2..] && ([s[0]] + s[2..])[1..] == s[2..];
  }

  lemma {:induction false} LastOfRunsPicks<K(!new), V(!new)>(o: Order<K, V>, s: seq<V>)
    requires o.Valid() && Weak(o, s)
    ensures Strict(o, LastOfRuns(NotLess(o), s))
    ensures forall k :: Like(o, LastOfRuns(NotLess(o), s), k) == Pick(KEEP_LAST_OF_DUPES, Like(o, s, k))
    decreases |s|
  {
    if |s| <= 1 {
    } else {
      LastOfRunsPicks(o, s[1..]);
      if !o.Lt(s[0], s[1]) {
        forall k ensures Pick(KEEP_LAST_OF_DUPES, Like(o, s[1..], k)) == Pick(KEEP_LAST_OF_DUPES, Like(o, s, k)) {
          SkipFirst(o, s, k);
        }
      } else {
        RunEnds(o, s, LastOfRuns(NotLess(o), s[1..]), KEEP_LAST_OF_DUPES);
      }
    }
  }

  lemma SkipFirst<K(!new), V(!new)>(o: Order<K, V>, s: seq<V>, k: K)
    requires o.Valid() && Weak(o, s) && |s| >= 2 && !o.Lt(s[0], s[1])
    ensures Pick(KEEP_LAST_OF_DUPES, Like(o, s[1..], k)) == Pick(KEEP_LAST_OF_DUPES, Like(o, s, k))
  {
    assert !o.Lt(s[1], s[0]);
    if o.Same(o.key(s[0]), k) { LikeHas(o, s[1..], 0, k); }
  }

  /** A run of one in front of a thinned out rest. */
  lemma RunEnds<K(!new), V(!new)>(o: Order<K, V>, s: seq<V>, r: seq<V>, dupes: Dupes)
    requires o.Valid() && Weak(o, s) && |s| >= 2 && o.Lt(s[0], s[1])
    requires Strict(o, r) && (forall x :: x in r ==> x in s[1..])
    requires forall k :: Like(o, r, k) == Pick(dupes, Like(o, s[1..], k))
    ensures Strict(o, [s[0]] + r)
    ensures forall k :: Like(o, [s[0]] + r, k) == Pick(dupes, Like(o, s, k))
  {
    hide Like, Pick, Weak;
    var q := [s[0]] + r;
    FirstBelow(o, s);
    forall i, j | 0 <= i < j < |q| ensures o.Lt(q[i], q[j]) {
      if i == 0 { assert q[j] in r; }
    }
    forall k ensures Like(o, q, k) == Pick(dupes, Like(o, s, k)) {
      assert Like(o, r, k) == Pick(dupes, Like(o, s[1..], k));
      RunEndsLike(o, s, r, dupes, k);
    }
  }

  /** What is above the second is above the first. */
  lemma FirstBelow<K(!new), V(!new)>(o: Order<K, V>, s: seq<V>)
    requires o.Valid() && Weak(o, s) && |s| >= 2 && o.Lt(s[0], s[1])
    ensures forall x :: x in s[1..] ==> o.Lt(s[0], x)
  {
    forall x | x in s[1..] ensures o.Lt(s[0], x) {
      var j :| 1 <= j < |s| && s[j] == x;
      assert j == 1 || !o.Lt(s[j], s[1]);
    }
  }

  lemma RunEndsLike<K(!new), V(!new)>(o: Order<K, V>, s: seq<V>, r: seq<V>, dupes: Dupes, k: K)
    requires s != [] && Like(o, r, k) == Pick(dupes, Like(o, s[1..], k))
    requires o.Valid() && forall x :: x in s[1..] ==> o.Lt(s[0], x)
    ensures Like(o, [s[0]] + r, k) == Pick(dupes, Like(o, s, k))
  {
    hide Like;
    HeadLike(o, s[0], r, k);
    HeadLike(o, s[0], s[1..], k);
    assert s == [s[0]] + s[1..];
    if o.Same(o.key(s[0]), k) { OthersAbove(o, s[0], s[1..], k); }
  }

  /** No value above a given one has its key. */
  lemma OthersAbove<K(!new), V(!new)>(o: Order<K, V>, x: V, t: seq<V>, k: K)
    requires o.Valid() && o.Same(o.key(x), k) && forall y :: y in t ==> o.Lt(x, y)
    ensures Like(o, t, k) == []
  {
    forall i | 0 <= i < |t| ensures !o.Same(o.key(t[i]), k) {
      assert t[i] in t;
    }
    LikeNone(o, t, k);
  }

  ghost predicate Apart<K(!new), V(!new)>(o: Order<K, V>, a: seq<V>, b: seq<V>) {
    forall i, j :: 0 <= i < |a| && 0 <= j < |b| ==> o.Lt(a[i], b[j]) || o.Lt(b[j], a[i])
  }

  lemma {:induction false} MergeStrict<K(!new), V(!new)>(o: Order<K, V>, a: seq<V>, b: seq<V>)
    requires o.Valid() && Strict(o, a) && Strict(o, b) && Apart(o, a, b)
    ensures Strict(o, Merged(o, a, b))
    decreases |a| + |b|
  {
    if a == [] || b == [] {
    } else if o.Lt(b[0], a[0]) {
      MergeStrict(o, a, b[1..]);
      HeadStrict(o, b[0], a, b[1..]);
    } else {
      MergeStrict(o, a[1..], b);
      assert o.Lt(a[0], b[0]);
      HeadStrict(o, a[0], a[1..], b);
    }
  }

  lemma {:induction false} MergeLike<K(!new), V(!new)>(o: Order<K, V>, a: seq<V>, b: seq<V>, k: K)
    requires o.Valid() && Apart(o, a, b)
    ensures Like(o, Merged(o, a, b), k) == Like(o, a, k) + Like(o, b, k)
    decreases |a| + |b|
  {
    hide Like;
    if a == [] || b == [] {
      LikeNone(o, [], k);
    } else if o.Lt(b[0], a[0]) {
      MergeLike(o, a, b[1..], k);
      HeadLike(o, b[0], Merged(o, a, b[1..]), k);
      HeadLike(o, b[0], b[1..], k);
      assert b == [b[0]] + b[1..];
      if o.Same(o.key(b[0]), k) { NoneApart(o, a, b, k); }
    } else {
      MergeLike(o, a[1..], b, k);
      HeadLike(o, a[0], Merged(o, a[1..], b), k);
      HeadLike(o, a[0], a[1..], k);
      assert a == [a[0]] + a[1..];
    }
  }

  lemma NoneApart<K(!new), V(!new)>(o: Order<K, V>, a: seq<V>, b: seq<V>, k: K)
    requires o.Valid() && Apart(o, a, b) && b != [] && o.Same(o.key(b[0]), k)
    ensures Like(o, a, k) == []
  {
    forall i | 0 <= i < |a| ensures !o.Same(o.key(a[i]), k) {
      assert o.Lt(a[i], b[0]) || o.Lt(b[0], a[i]);
    }
    LikeNone(o, a, k);
  }

  lemma HeadLike<K(!new), V(!new)>(o: Order<K, V>, x: V, r: seq<V>, k: K)
    ensures Like(o, [x] + r, k) == (if o.Same(o.key(x), k) then [x] else []) + Like(o, r, k)
  {
    assert ([x] + r)[1..] == r;
  }

  lemma HeadStrict<K(!new), V(!new)>(o: Order<K, V>, x: V, a: seq<V>, b: seq<V>)
    requires o.Valid() && Strict(o, a) && Strict(o, b) && Strict(o, Merged(o, a, b))
    requires (a == [] || o.Lt(x, a[0])) && (b == [] || o.Lt(x, b[0]))
    ensures Strict(o, [x] + Merged(o, a, b))
  {
    var m := Merged(o, a, b);
    var q := [x] + m;
    forall i, j | 0 <= i < j < |q| ensures o.Lt(q[i], q[j]) {
      if i == 0 {
        assert q[j] in m;
        if q[j] in a {
          var h :| 0 <= h < |a| && a[h] == q[j];
          assert h > 0 ==> o.Lt(a[0], a[h]);
        } else {
          var h :| 0 <= h < |b| && b[h] == q[j];
          assert h > 0 ==> o.Lt(b[0], b[h]);
        }
      }
    }
  }

  // ---- a batch under way -------------------------------------------------------------------

  function Thinned<K(!new), V(!new)>(o: Order<K, V>, dupes: Dupes, s: seq<V>): seq<V> {
    if dupes.KEEP_FIRST_OF_DUPES? then FirstOfRuns(NotLess(o), s) else LastOfRuns(NotLess(o), s)
  }

  /**
   * Items `done` have been offered to `s`: those with a key of their own in `s` went to `t`,
   * which is `s` apart from them, the others wait, and belong at position `pos` or after.
   */
  ghost predicate Offered<K(!new), V(!new)>(
    o: Order<K, V>, dupes: Dupes, s: seq<V>, done: seq<V>, t: seq<V>, waiting: seq<V>, pos: nat)
  {
    && Strict(o, s) && Strict(o, t) && |t| == |s| && pos <= |s|
    && (forall k :: Like(o, t, k) == if Like(o, s, k) == [] then [] else Pick(dupes, Like(o, s, k) + Like(o, done, k)))
    && (forall k :: Like(o, waiting, k) == if Like(o, s, k) == [] then Like(o, done, k) else [])
    && (forall i, j :: 0 <= i < pos && 0 <= j < |waiting| ==> o.Lt(t[i], waiting[j]))
  }

  lemma NothingOffered<K(!new), V(!new)>(o: Order<K, V>, dupes: Dupes, s: seq<V>)
    requires o.Valid() && Strict(o, s)
    ensures Offered(o, dupes, s, [], s, [], |s|)
  {
    forall k ensures Like(o, s, k) == Pick(dupes, Like(o, s, k) + Like(o, [], k)) {
      NothingMore(o, dupes, s, k);
    }
  }

  /** An item whose key is not there waits. */
  lemma OfferNew<K(!new), V(!new)>(
    o: Order<K, V>, dupes: Dupes, s: seq<V>, done: seq<V>, t: seq<V>, waiting: seq<V>, pos: nat, v: V)
    requires o.Valid() && Offered(o, dupes, s, done, t, waiting, pos) && Absent(o, t, o.key(v))
    ensures
      var p := LowerBound(o, t, o.key(v));
      Offered(o, dupes, s, done + [v], t, waiting + [v], if p < pos then p else pos)
  {
    hide Like, Strict, Absent;
    forall k
      ensures Like(o, waiting + [v], k) == if Like(o, s, k) == [] then Like(o, done + [v], k) else []
      ensures Like(o, s, k) != [] ==> Like(o, done + [v], k) == Like(o, done, k)
    {
      NewWaits(o, dupes, s, done, t, waiting, pos, v, k);
    }
  }

  lemma NewWaits<K(!new), V(!new)>(
    o: Order<K, V>, dupes: Dupes, s: seq<V>, done: seq<V>, t: seq<V>, waiting: seq<V>, pos: nat, v: V, k: K)
    requires o.Valid() && Offered(o, dupes, s, done, t, waiting, pos) && Absent(o, t, o.key(v))
    ensures Like(o, waiting + [v], k) == if Like(o, s, k) == [] then Like(o, done + [v], k) else []
    ensures Like(o, s, k) != [] ==> Like(o, done + [v], k) == Like(o, done, k)
  {
    hide Like, Absent, Strict;
    AbsentExactly(o, t, o.key(v));
    assert Like(o, s, o.key(v)) == [] by { assert Like(o, t, o.key(v)) == []; }
    LikeAppend(o, waiting, [v], k);
    LikeAppend(o, done, [v], k);
    LikeSingle(o, v, k);
    if o.Same(o.key(v), k) { SameLike(o, s, o.key(v), k); }
    assert Like(o, waiting, k) == if Like(o, s, k) == [] then Like(o, done, k) else [];
  }

  /** An item whose key is there takes its place, or does not, as the policy has it. */
  lemma OfferOld<K(!new), V(!new)>(
    o: Order<K, V>, dupes: Dupes, s: seq<V>, done: seq<V>, t: seq<V>, waiting: seq<V>, pos: nat, v: V)
    requires o.Valid() && Offered(o, dupes, s, done, t, waiting, pos) && !Absent(o, t, o.key(v))
    ensures
      var p := LowerBound(o, t, o.key(v));
      Offered(o, dupes, s, done + [v], if dupes.KEEP_FIRST_OF_DUPES? then t else t[p := v], waiting, pos)
  {
    var p := LowerBound(o, t, o.key(v));
    var u := if dupes.KEEP_FIRST_OF_DUPES? then t else t[p := v];
    assert o.Same(o.key(t[p]), o.key(v));
    assert Strict(o, u) by { AssignedLike(o, t, p, v, o.key(v)); }
    forall i, j | 0 <= i < pos && 0 <= j < |waiting| ensures o.Lt(u[i], waiting[j]) {
      assert o.Lt(t[i], waiting[j]);
    }
    forall k
      ensures Like(o, u, k) == if Like(o, s, k) == [] then [] else Pick(dupes, Like(o, s, k) + Like(o, done + [v], k))
      ensures Like(o, waiting, k) == if Like(o, s, k) == [] then Like(o, done + [v], k) else []
    {
      OldTaken(o, dupes, s, done, t, waiting, pos, v, k);
    }
  }

  lemma OldTaken<K(!new), V(!new)>(
    o: Order<K, V>, dupes: Dupes, s: seq<V>, done: seq<V>, t: seq<V>, waiting: seq<V>, pos: nat, v: V, k: K)
    requires o.Valid() && Offered(o, dupes, s, done, t, waiting, pos) && !Absent(o, t, o.key(v))
    ensures
      var u := if dupes.KEEP_FIRST_OF_DUPES? then t else t[LowerBound(o, t, o.key(v)) := v];
      Like(o, u, k) == if Like(o, s, k) == [] then [] else Pick(dupes, Like(o, s, k) + Like(o, done + [v], k))
    ensures Like(o, waiting, k) == if Like(o, s, k) == [] then Like(o, done + [v], k) else []
  {
    hide Like, Absent, Strict, Offered, Pick;
    var p := LowerBound(o, t, o.key(v));
    OfferedAt(o, dupes, s, done, t, waiting, pos, k);
    AbsentExactly(o, t, o.key(v));
    assert Like(o, t, o.key(v)) == [t[p]];
    LikeTells(o, t, p, o.key(v));
    LikeAppend(o, done, [v], k);
    LikeSingle(o, v, k);
    AssignedLike(o, t, p, v, k);
    if o.Same(o.key(v), k) {
      SameLike(o, t, o.key(v), k);
      PickOne(dupes, Like(o, s, k), Like(o, done, k), v);
    } else {
      assert Like(o, done, k) + [] == Like(o, done, k);
    }
  }

  /** What being offered means for one key. */
  lemma OfferedAt<K(!new), V(!new)>(
    o: Order<K, V>, dupes: Dupes, s: seq<V>, done: seq<V>, t: seq<V>, waiting: seq<V>, pos: nat, k: K)
    requires Offered(o, dupes, s, done, t, waiting, pos)
    ensures Strict(o, t) && pos <= |t|
    ensures Like(o, t, k) == if Like(o, s, k) == [] then [] else Pick(dupes, Like(o, s, k) + Like(o, done, k))
    ensures Like(o, waiting, k) == if Like(o, s, k) == [] then Like(o, done, k) else []
  {}

  /** One more value: the first stays the first, the new one is the last. */
  lemma PickOne<V>(dupes: Dupes, a: seq<V>, b: seq<V>, v: V)
    ensures a != [] ==> Pick(dupes, a + (b + [v])) == if dupes.KEEP_FIRST_OF_DUPES? then Pick(dupes, a + b) else [v]
  {}

  lemma LikeTells<K(!new), V(!new)>(o: Order<K, V>, t: seq<V>, p: nat, k: K)
    requires p < |t| && Like(o, t, k) == [t[p]]
    ensures o.Same(o.key(t[p]), k)
  {
    assert t[p] in Like(o, t, k);
  }

  /** The waiting items, sorted, thinned out and merged from `pos` on, complete the batch. */
  lemma BatchIsEach<K(!new), V(!new)>(
    o: Order<K, V>, dupes: Dupes, s: seq<V>, items: seq<V>, t: seq<V>, waiting: seq<V>, pos: nat)
    requires o.Valid() && Offered(o, dupes, s, items, t, waiting, pos)
    ensures InsertEach(o, dupes, s, items) ==
      t[..pos] + Merged(o, t[pos..], Thinned(o, dupes, StableSorted(o, waiting)))
  {
    var u := Thinned(o, dupes, StableSorted(o, waiting));
    var r := t[..pos] + Merged(o, t[pos..], u);
    ThinnedPicks(o, dupes, waiting);
    BatchStrict(o, dupes, s, items, t, waiting, pos, u);
    forall k ensures Like(o, r, k) == Like(o, InsertEach(o, dupes, s, items), k) {
      BatchLike(o, dupes, s, items, t, waiting, pos, u, k);
      InsertEachLike(o, dupes, s, items, k);
    }
    InsertEachStrict(o, dupes, s, items);
    StrictIsUnique(o, r, InsertEach(o, dupes, s, items));
  }

  lemma {:induction false} InsertEachStrict<K(!new), V(!new)>(o: Order<K, V>, dupes: Dupes, s: seq<V>, items: seq<V>)
    requires o.Valid() && Strict(o, s)
    ensures Strict(o, InsertEach(o, dupes, s, items))
    decreases |items|
  {
    if items != [] {
      InsertOneStrict(o, dupes, s, items[0]);
      InsertEachStrict(o, dupes, InsertOne(o, dupes, s, items[0]), items[1..]);
    }
  }

  lemma ThinnedPicks<K(!new), V(!new)>(o: Order<K, V>, dupes: Dupes, waiting: seq<V>)
    requires o.Valid()
    ensures Strict(o, Thinned(o, dupes, StableSorted(o, waiting)))
    ensures forall k :: Like(o, Thinned(o, dupes, StableSorted(o, waiting)), k) == Pick(dupes, Like(o, waiting, k))
  {
    hide Like;
    SortKeeps(o, waiting);
    FirstOfRunsPicks(o, StableSorted(o, waiting));
    LastOfRunsPicks(o, StableSorted(o, waiting));
  }

  lemma ComesFrom<K(!new), V(!new)>(o: Order<K, V>, dupes: Dupes, waiting: seq<V>, u: seq<V>, j: nat)
    requires o.Valid() && j < |u| && (forall k :: Like(o, u, k) == Pick(dupes, Like(o, waiting, k)))
    ensures u[j] in waiting && u[j] in Like(o, waiting, o.key(u[j]))
  {
    LikeHas(o, u, j, o.key(u[j]));
    assert Like(o, u, o.key(u[j])) == Pick(dupes, Like(o, waiting, o.key(u[j])));
  }

  lemma BatchStrict<K(!new), V(!new)>(
    o: Order<K, V>, dupes: Dupes, s: seq<V>, items: seq<V>, t: seq<V>, waiting: seq<V>, pos: nat, u: seq<V>)
    requires o.Valid() && Offered(o, dupes, s, items, t, waiting, pos) && Strict(o, u)
    requires forall k :: Like(o, u, k) == Pick(dupes, Like(o, waiting, k))
    ensures Apart(o, t, u) && Strict(o, t[..pos] + Merged(o, t[pos..], u))
  {
    forall i, j | 0 <= i < |t| && 0 <= j < |u| ensures o.Lt(t[i], u[j]) || o.Lt(u[j], t[i]) {
      ComesFrom(o, dupes, waiting, u, j);
      var k := o.key(u[j]);
      assert Like(o, waiting, k) == if Like(o, s, k) == [] then Like(o, items, k) else [];
      assert Like(o, t, k) == [];
      if o.Same(o.key(t[i]), k) { LikeHas(o, t, i, k); }
    }
    MergeStrict(o, t[pos..], u);
    var m := Merged(o, t[pos..], u);
    var r := t[..pos] + m;
    forall i, j | 0 <= i < j < |r| ensures o.Lt(r[i], r[j]) {
      if i < pos <= j {
        assert r[j] in m;
        if r[j] in u {
          var h :| 0 <= h < |u| && u[h] == r[j];
          ComesFrom(o, dupes, waiting, u, h);
        }
      } else if pos <= i {
        assert o.Lt(m[i - pos], m[j - pos]);
      }
    }
  }

  lemma BatchLike<K(!new), V(!new)>(
    o: Order<K, V>, dupes: Dupes, s: seq<V>, items: seq<V>, t: seq<V>, waiting: seq<V>, pos: nat, u: seq<V>, k: K)
    requires o.Valid() && Offered(o, dupes, s, items, t, waiting, pos) && Strict(o, u) && Apart(o, t, u)
    requires forall k :: Like(o, u, k) == Pick(dupes, Like(o, waiting, k))
    ensures Like(o, t[..pos] + Merged(o, t[pos..], u), k) == Pick(dupes, Like(o, s, k) + Like(o, items, k))
  {
    hide Like, Offered, Merged;
    OfferedAt(o, dupes, s, items, t, waiting, pos, k);
    MergeLike(o, t[pos..], u, k);
    LikeAppend(o, t[..pos], Merged(o, t[pos..], u), k);
    LikeAppend(o, t[..pos], t[pos..], k);
    assert t == t[..pos] + t[pos..];
    Regrouped(Like(o, t[..pos], k), Like(o, t[pos..], k), Like(o, u, k));
    assert Like(o, u, k) == Pick(dupes, Like(o, waiting, k));
    assert Like(o, s, k) == [] ==> Like(o, s, k) + Like(o, items, k) == Like(o, items, k);
  }
}
