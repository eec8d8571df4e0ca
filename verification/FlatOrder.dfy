/** Strictly sorted sequences as sets of keys: what a flat container holds, key by key. */
module FlatOrder {

  /** How values are ordered: by a key, under a strict weak order on keys. */
  datatype Order<!K(!new), !V(!new)> = Order(key: V -> K, less: (K, K) -> bool) {

    ghost predicate Valid() {
      && (forall a :: !less(a, a))
      && (forall a, b, c :: less(a, b) && less(b, c) ==> less(a, c))
      && (forall a, b, c :: less(a, b) ==> less(a, c) || less(c, b))
    }

    predicate Lt(x: V, y: V) { less(key(x), key(y)) }

    /** Neither comes first: equivalent keys. */
    predicate Same(a: K, b: K) { !less(a, b) && !less(b, a) }
  }

  datatype Dupes = KEEP_FIRST_OF_DUPES | KEEP_LAST_OF_DUPES

  ghost predicate Strict<K(!new), V(!new)>(o: Order<K, V>, s: seq<V>) {
    forall i, j :: 0 <= i < j < |s| ==> o.Lt(s[i], s[j])
  }

  ghost predicate Weak<K(!new), V(!new)>(o: Order<K, V>, s: seq<V>) {
    forall i, j :: 0 <= i < j < |s| ==> !o.Lt(s[j], s[i])
  }

  /** The values of a sequence with a given key, in order. */
  function Like<K(!new), V(!new)>(o: Order<K, V>, s: seq<V>, k: K): (r: seq<V>)
    ensures forall x :: x in r ==> x in s && o.Same(o.key(x), k)
    decreases |s|
  {
    if s == [] then []
    else (if o.Same(o.key(s[0]), k) then [s[0]] else []) + Like(o, s[1..], k)
  }

  lemma {:induction false} LikeAppend<K(!new), V(!new)>(o: Order<K, V>, s: seq<V>, t: seq<V>, k: K)
    ensures Like(o, s + t, k) == Like(o, s, k) + Like(o, t, k)
    decreases |s|
  {
    if s == [] {
      assert s + t == t;
    } else {
      assert (s + t)[1..] == s[1..] + t;
      LikeAppend(o, s[1..], t, k);
    }
  }

  lemma LikeSingle<K(!new), V(!new)>(o: Order<K, V>, v: V, k: K)
    ensures Like(o, [v], k) == if o.Same(o.key(v), k) then [v] else []
  {}

  lemma LikeAround<K(!new), V(!new)>(o: Order<K, V>, before: seq<V>, v: V, after: seq<V>, k: K)
    ensures Like(o, before + [v] + after, k)
         == Like(o, before, k) + (if o.Same(o.key(v), k) then [v] else []) + Like(o, after, k)
  {
    hide Like;
    LikeAppend(o, before + [v], after, k);
    LikeAppend(o, before, [v], k);
    LikeSingle(o, v, k);
  }

  lemma {:induction false} LikeNone<K(!new), V(!new)>(o: Order<K, V>, s: seq<V>, k: K)
    requires forall i :: 0 <= i < |s| ==> !o.Same(o.key(s[i]), k)
    ensures Like(o, s, k) == []
    decreases |s|
  {
    if s != [] { LikeNone(o, s[1..], k); }
  }

  /** A value is among those with its own key. */
  lemma {:induction false} LikeHas<K(!new), V(!new)>(o: Order<K, V>, s: seq<V>, i: nat, k: K)
    requires i < |s| && o.Same(o.key(s[i]), k)
    ensures s[i] in Like(o, s, k)
    decreases |s|
  {
    if i > 0 { LikeHas(o, s[1..], i - 1, k); }
  }

  /** In a strictly sorted sequence a key occurs at most once. */
  lemma LikeOnce<K(!new), V(!new)>(o: Order<K, V>, s: seq<V>, i: nat, k: K)
    requires o.Valid() && Strict(o, s) && i < |s| && o.Same(o.key(s[i]), k)
    ensures Like(o, s, k) == [s[i]]
  {
    var before, after := s[..i], s[i + 1..];
    assert s == before + [s[i]] + after;
    LikeAround(o, before, s[i], after, k);
    forall j | 0 <= j < |before| ensures !o.Same(o.key(before[j]), k) { assert o.Lt(s[j], s[i]); }
    forall j | 0 <= j < |after| ensures !o.Same(o.key(after[j]), k) { assert o.Lt(s[i], s[i + 1 + j]); }
    LikeNone(o, before, k);
    LikeNone(o, after, k);
  }

  lemma LikeShort<K(!new), V(!new)>(o: Order<K, V>, s: seq<V>, k: K)
    requires o.Valid() && Strict(o, s)
    ensures |Like(o, s, k)| <= 1
  {
    var r := Like(o, s, k);
    if r != [] {
      assert r[0] in r;
      var i :| 0 <= i < |s| && s[i] == r[0];
      LikeOnce(o, s, i, k);
    }
  }

  /** The first of a strictly sorted sequence is the first of any other with the same values. */
  lemma FirstAgrees<K(!new), V(!new)>(o: Order<K, V>, s: seq<V>, t: seq<V>)
    requires o.Valid() && Strict(o, s) && Strict(o, t) && s != [] && t != []
    requires forall k :: Like(o, s, k) == Like(o, t, k)
    ensures s[0] == t[0]
  {
    LikeOnce(o, s, 0, o.key(s[0]));
    LikeOnce(o, t, 0, o.key(t[0]));
    assert Like(o, t, o.key(s[0])) == [s[0]] && Like(o, s, o.key(t[0])) == [t[0]];
    assert s[0] in Like(o, t, o.key(s[0])) && t[0] in Like(o, s, o.key(t[0]));
    var i :| 0 <= i < |t| && t[i] == s[0];
    var j :| 0 <= j < |s| && s[j] == t[0];
    var a, b := s[0], t[0];
    assert i == 0 || o.Lt(b, a);
    assert j == 0 || o.Lt(a, b);
  }

  /** A strictly sorted sequence is determined by what it holds for each key. */
  lemma {:induction false} StrictIsUnique<K(!new), V(!new)>(o: Order<K, V>, s: seq<V>, t: seq<V>)
    requires o.Valid() && Strict(o, s) && Strict(o, t)
    requires forall k :: Like(o, s, k) == Like(o, t, k)
    ensures s == t
    decreases |s|
  {
    if s == [] || t == [] {
      if s != [] { LikeHas(o, s, 0, o.key(s[0])); }
      if t != [] { LikeHas(o, t, 0, o.key(t[0])); }
    } else {
      FirstAgrees(o, s, t);
      forall k ensures Like(o, s[1..], k) == Like(o, t[1..], k) {
        assert Like(o, s, k) == Like(o, t, k);
        var h := if o.Same(o.key(s[0]), k) then [s[0]] else [];
        assert (h + Like(o, s[1..], k))[|h|..] == (h + Like(o, t[1..], k))[|h|..];
      }
      StrictIsUnique(o, s[1..], t[1..]);
      assert s == [s[0]] + s[1..] && t == [t[0]] + t[1..];
    }
  }

  // ---- one insertion -------------------------------------------------------------------

  /** The first position whose key is not less than k. */
  function LowerBound<K(!new), V(!new)>(o: Order<K, V>, s: seq<V>, k: K): (p: nat)
    ensures p <= |s|
    ensures forall i :: 0 <= i < p ==> o.less(o.key(s[i]), k)
    ensures p < |s| ==> !o.less(o.key(s[p]), k)
    decreases |s|
  {
    if s == [] || !o.less(o.key(s[0]), k) then 0 else 1 + LowerBound(o, s[1..], k)
  }

  /** Whether the lower bound of a key is where it would have to be inserted. */
  predicate Absent<K(!new), V(!new)>(o: Order<K, V>, s: seq<V>, k: K) {
    var p := LowerBound(o, s, k);
    p == |s| || o.less(k, o.key(s[p]))
  }

  function InsertOne<K(!new), V(!new)>(o: Order<K, V>, dupes: Dupes, s: seq<V>, v: V): seq<V> {
    var p := LowerBound(o, s, o.key(v));
    if Absent(o, s, o.key(v)) then s[..p] + [v] + s[p..]
    else if dupes.KEEP_FIRST_OF_DUPES? then s
    else s[p := v]
  }

  /** Items inserted one after the other. */
  function InsertEach<K(!new), V(!new)>(o: Order<K, V>, dupes: Dupes, s: seq<V>, items: seq<V>): seq<V>
    decreases |items|
  {
    if items == [] then s else InsertEach(o, dupes, InsertOne(o, dupes, s, items[0]), items[1..])
  }

  /** Which of several values with the same key stays. */
  function Pick<V>(dupes: Dupes, vs: seq<V>): seq<V> {
    if vs == [] then [] else if dupes.KEEP_FIRST_OF_DUPES? then [vs[0]] else [vs[|vs| - 1]]
  }

  /** In a strictly sorted sequence, a key is absent exactly if nothing has it. */
  lemma AbsentExactly<K(!new), V(!new)>(o: Order<K, V>, s: seq<V>, k: K)
    requires o.Valid() && Strict(o, s)
    ensures Absent(o, s, k) <==> Like(o, s, k) == []
    ensures !Absent(o, s, k) ==> LowerBound(o, s, k) < |s| && Like(o, s, k) == [s[LowerBound(o, s, k)]]
    ensures forall i :: LowerBound(o, s, k) <= i < |s| && Absent(o, s, k) ==> o.less(k, o.key(s[i]))
  {}

  /** A new value among others adds itself to its own key. */
  lemma PlacedLike<K(!new), V(!new)>(o: Order<K, V>, s: seq<V>, p: nat, v: V, k: K)
    requires p <= |s| && (o.Same(o.key(v), k) ==> Like(o, s, k) == [])
    ensures Like(o, s[..p] + [v] + s[p..], k) == Like(o, s, k) + Like(o, [v], k)
  {
    hide Like;
    LikeSingle(o, v, k);
    LikeAround(o, s[..p], v, s[p..], k);
    LikeAppend(o, s[..p], s[p..], k);
    assert s == s[..p] + s[p..];
  }

  /** A value put in the place of one with the same key is all there is of that key. */
  lemma AssignedLike<K(!new), V(!new)>(o: Order<K, V>, s: seq<V>, p: nat, v: V, k: K)
    requires o.Valid() && Strict(o, s) && p < |s| && o.Same(o.key(s[p]), o.key(v))
    ensures Strict(o, s[p := v])
    ensures Like(o, s[p := v], k) == if o.Same(o.key(v), k) then [v] else Like(o, s, k)
  {
    var r := s[p := v];
    forall i, j | 0 <= i < j < |r| ensures o.Lt(r[i], r[j]) {
      assert o.Lt(s[i], s[j]);
    }
    assert s == s[..p] + [s[p]] + s[p + 1..];
    assert s[p := v] == s[..p] + [v] + s[p + 1..];
    if o.Same(o.key(v), k) {
      LikeOnce(o, s[p := v], p, k);
    } else {
      LikeAround(o, s[..p], s[p], s[p + 1..], k);
      LikeAround(o, s[..p], v, s[p + 1..], k);
    }
  }

  lemma InsertOneStrict<K(!new), V(!new)>(o: Order<K, V>, dupes: Dupes, s: seq<V>, v: V)
    requires o.Valid() && Strict(o, s)
    ensures Strict(o, InsertOne(o, dupes, s, v))
  {
    AbsentExactly(o, s, o.key(v));
    var p := LowerBound(o, s, o.key(v));
    if !Absent(o, s, o.key(v)) {
      AssignedLike(o, s, p, v, o.key(v));
    } else {
      var r := s[..p] + [v] + s[p..];
      forall i, j | 0 <= i < j < |r| ensures o.Lt(r[i], r[j]) {}
    }
  }

  /** After one insertion a key has what it had and what was inserted for it, the right one of them. */
  lemma InsertOneLike<K(!new), V(!new)>(o: Order<K, V>, dupes: Dupes, s: seq<V>, v: V, k: K)
    requires o.Valid() && Strict(o, s)
    ensures Like(o, InsertOne(o, dupes, s, v), k) == Pick(dupes, Like(o, s, k) + Like(o, [v], k))
  {
    hide Like, Strict;
    var p := LowerBound(o, s, o.key(v));
    AbsentExactly(o, s, o.key(v));
    LikeShort(o, s, k);
    LikeSingle(o, v, k);
    if o.Same(o.key(v), k) { SameLike(o, s, o.key(v), k); }
    if Absent(o, s, o.key(v)) {
      PlacedLike(o, s, p, v, k);
    } else {
      AssignedLike(o, s, p, v, k);
    }
  }

  lemma {:induction false} SameLike<K(!new), V(!new)>(o: Order<K, V>, s: seq<V>, a: K, b: K)
    requires o.Valid() && o.Same(a, b)
    ensures Like(o, s, a) == Like(o, s, b)
    decreases |s|
  {
    if s != [] { SameLike(o, s[1..], a, b); }
  }

  /** Picking twice is picking once. */
  lemma PickMore<V>(dupes: Dupes, a: seq<V>, b: seq<V>, c: seq<V>)
    ensures Pick(dupes, Pick(dupes, a + b) + c) == Pick(dupes, a + (b + c))
  {
    assert a + (b + c) == a + b + c;
  }

  /** What a container holds after items were inserted one by one, for every key. */
  lemma {:induction false} InsertEachLike<K(!new), V(!new)>(
    o: Order<K, V>, dupes: Dupes, s: seq<V>, items: seq<V>, k: K)
    requires o.Valid() && Strict(o, s)
    ensures Strict(o, InsertEach(o, dupes, s, items))
    ensures Like(o, InsertEach(o, dupes, s, items), k) == Pick(dupes, Like(o, s, k) + Like(o, items, k))
    decreases |items|
  {
    hide InsertOne, Strict, Like, Pick;
    if items == [] {
      NothingMore(o, dupes, s, k);
    } else {
      var v, rest := items[0], items[1..];
      var t := InsertOne(o, dupes, s, v);
      InsertOneStrict(o, dupes, s, v);
      InsertEachLike(o, dupes, t, rest, k);
      InsertOneLike(o, dupes, s, v, k);
      assert items == [v] + rest;
      LikeAppend(o, [v], rest, k);
      PickMore(dupes, Like(o, s, k), Like(o, [v], k), Like(o, rest, k));
    }
  }

  lemma NothingMore<K(!new), V(!new)>(o: Order<K, V>, dupes: Dupes, s: seq<V>, k: K)
    requires o.Valid() && Strict(o, s)
    ensures Pick(dupes, Like(o, s, k) + Like(o, [], k)) == Like(o, s, k)
  {
    LikeShort(o, s, k);
    assert Like(o, s, k) + [] == Like(o, s, k);
  }

  // ---- which values a container holds ---------------------------------------------------

  /** Of all values with its key, this one comes first, or last. */
  ghost predicate Prevails<K(!new), V(!new)>(o: Order<K, V>, dupes: Dupes, t: seq<V>, i: nat) {
    && i < |t|
    && forall j :: 0 <= j < |t| && o.Same(o.key(t[j]), o.key(t[i])) ==>
      if dupes.KEEP_FIRST_OF_DUPES? then i <= j else j <= i
  }

  lemma PickedLike<K(!new), V(!new)>(o: Order<K, V>, dupes: Dupes, t: seq<V>, i: nat)
    requires o.Valid() && Prevails(o, dupes, t, i)
    ensures Pick(dupes, Like(o, t, o.key(t[i]))) == [t[i]]
  {
    var k, before, after := o.key(t[i]), t[..i], t[i + 1..];
    assert t == before + [t[i]] + after;
    LikeAround(o, before, t[i], after, k);
    if dupes.KEEP_FIRST_OF_DUPES? {
      forall j | 0 <= j < |before| ensures !o.Same(o.key(before[j]), k) { assert before[j] == t[j]; }
      LikeNone(o, before, k);
    } else {
      forall j | 0 <= j < |after| ensures !o.Same(o.key(after[j]), k) { assert after[j] == t[i + 1 + j]; }
      LikeNone(o, after, k);
    }
  }

  /** Some value of a key prevails if there is any. */
  lemma {:induction false} SomePrevails<K(!new), V(!new)>(o: Order<K, V>, dupes: Dupes, t: seq<V>, i: nat)
    returns (p: nat)
    requires o.Valid() && i < |t|
    ensures Prevails(o, dupes, t, p) && o.Same(o.key(t[p]), o.key(t[i]))
    decreases if dupes.KEEP_FIRST_OF_DUPES? then i else |t| - i
  {
    if Prevails(o, dupes, t, i) {
      p := i;
    } else {
      var j :| 0 <= j < |t| && o.Same(o.key(t[j]), o.key(t[i])) && if dupes.KEEP_FIRST_OF_DUPES? then j < i else i < j;
      p := SomePrevails(o, dupes, t, j);
    }
  }

  lemma OwnKey<K(!new), V(!new)>(o: Order<K, V>, r: seq<V>, v: V)
    requires o.Valid()
    ensures v in r <==> v in Like(o, r, o.key(v))
  {
    if v in r {
      var i :| 0 <= i < |r| && r[i] == v;
      LikeHas(o, r, i, o.key(v));
    }
  }

  /**
   * Inserting items into a container leaves exactly the values that come first, or last, of
   * their key in the container followed by the items.
   */
  lemma InsertEachHolds<K(!new), V(!new)>(o: Order<K, V>, dupes: Dupes, s: seq<V>, items: seq<V>, v: V)
    requires o.Valid() && Strict(o, s)
    ensures v in InsertEach(o, dupes, s, items) <==>
      exists i :: 0 <= i < |s + items| && (s + items)[i] == v && Prevails(o, dupes, s + items, i)
  {
    hide InsertEach, Strict, Like, Prevails;
    var t, r, k := s + items, InsertEach(o, dupes, s, items), o.key(v);
    InsertEachLike(o, dupes, s, items, k);
    LikeAppend(o, s, items, k);
    OwnKey(o, r, v);
    forall i | 0 <= i < |t| && t[i] == v && Prevails(o, dupes, t, i) ensures v in r { PickedLike(o, dupes, t, i); }
    if v in r {
      PickedIsThere(dupes, Like(o, t, k), v);
      OwnKey(o, t, v);
      var i :| 0 <= i < |t| && t[i] == v;
      var p := SomePrevails(o, dupes, t, i);
      PickedLike(o, dupes, t, p);
      SameLike(o, t, o.key(t[p]), k);
    }
  }

  lemma PickedIsThere<V>(dupes: Dupes, vs: seq<V>, v: V)
    requires v in Pick(dupes, vs)
    ensures v in vs
  {}
}
