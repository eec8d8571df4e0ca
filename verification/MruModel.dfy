/** Recency lists as values, and how caches of different sizes compare over whole runs. */
module MruModel {
  import opened Wrappers

  datatype Entry<K, P> = Entry(key: K, payload: P)

  const NO_AUTO_EVICT: nat := 0

  predicate Has<K(==), P>(s: seq<Entry<K, P>>, k: K) { exists i :: 0 <= i < |s| && s[i].key == k }

  /** The list without a key. */
  function Without<K(==), P>(s: seq<Entry<K, P>>, k: K): (r: seq<Entry<K, P>>)
    ensures |r| <= |s| && !Has(r, k)
    ensures forall e :: e in r ==> e in s && e.key != k
    decreases |s|
  {
    if s == [] then [] else (if s[0].key == k then [] else [s[0]]) + Without(s[1..], k)
  }

  function Lookup<K(==), P>(s: seq<Entry<K, P>>, k: K): Option<P>
    decreases |s|
  {
    if s == [] then None else if s[0].key == k then Some(s[0].payload) else Lookup(s[1..], k)
  }

  function Shrunk<K, P>(s: seq<Entry<K, P>>, n: nat): seq<Entry<K, P>> { if |s| > n then s[..n] else s }

  function Put<K(==), P>(limit: nat, s: seq<Entry<K, P>>, k: K, p: P): seq<Entry<K, P>> {
    [Entry(k, p)] +
    if Has(s, k) then Without(s, k)
    else if limit != NO_AUTO_EVICT then Shrunk(s, limit - 1)
    else s
  }

  function Get<K(==), P>(s: seq<Entry<K, P>>, k: K): seq<Entry<K, P>> {
    match Lookup(s, k)
    case None => s
    case Some(p) => [Entry(k, p)] + Without(s, k)
  }

  datatype Command<K, P> = DoPut(key: K, payload: P) | DoGet(key: K)

  function Step<K(==), P>(limit: nat, s: seq<Entry<K, P>>, c: Command<K, P>): seq<Entry<K, P>> {
    match c
    case DoPut(k, p) => Put(limit, s, k, p)
    case DoGet(k) => Get(s, k)
  }

  /** The list after a run of commands on an empty cache. */
  function Run<K(==), P>(limit: nat, cs: seq<Command<K, P>>): seq<Entry<K, P>>
    decreases |cs|
  {
    if cs == [] then [] else Step(limit, Run(limit, cs[..|cs| - 1]), cs[|cs| - 1])
  }

  // ---- subsequences -------------------------------------------------------------------------

  predicate Within<T(==)>(a: seq<T>, b: seq<T>)
    decreases |b|
  {
    a == [] || (b != [] && if a[0] == b[0] then Within(a[1..], b[1..]) else Within(a, b[1..]))
  }

  lemma {:induction false} WithinBounds<T>(a: seq<T>, b: seq<T>)
    requires Within(a, b)
    ensures |a| <= |b| && (|a| == |b| ==> a == b) && forall x :: x in a ==> x in b
    decreases |b|
  {
    if a != [] {
      if a[0] == b[0] {
        WithinBounds(a[1..], b[1..]);
        assert a == [a[0]] + a[1..] && b == [b[0]] + b[1..];
      } else {
        WithinBounds(a, b[1..]);
      }
    }
  }

  lemma {:induction false} WithinTail<T>(a: seq<T>, b: seq<T>)
    requires a != [] && Within(a, b)
    ensures Within(a[1..], b)
    decreases |b|, 0
  {
    if a[0] == b[0] {
      WithinWider(a[1..], b[0], b[1..]);
      assert b == [b[0]] + b[1..];
    } else {
      WithinTail(a, b[1..]);
      WithinWider(a[1..], b[0], b[1..]);
      assert b == [b[0]] + b[1..];
    }
  }

  lemma {:induction false} WithinWider<T>(a: seq<T>, x: T, b: seq<T>)
    requires Within(a, b)
    ensures Within(a, [x] + b)
    decreases |b|, 1
  {
    assert ([x] + b)[1..] == b;
    if a != [] && a[0] == x { WithinTail(a, b); }
  }

  lemma WithinFront<T>(x: T, a: seq<T>, b: seq<T>)
    requires Within(a, b)
    ensures Within([x] + a, [x] + b)
  {
    assert ([x] + a)[1..] == a && ([x] + b)[1..] == b;
  }

  /** Both lists lose their last. */
  lemma {:induction false} WithinButLast<T>(a: seq<T>, b: seq<T>)
    requires a != [] && Within(a, b)
    ensures b != [] && Within(a[..|a| - 1], b[..|b| - 1])
    decreases |b|
  {
    var a', b' := a[..|a| - 1], b[..|b| - 1];
    if a' != [] {
      assert b'[1..] == b[1..][..|b| - 2] by { WithinBounds(a, b); }
      if a[0] == b[0] {
        WithinButLast(a[1..], b[1..]);
        assert a'[1..] == a[1..][..|a| - 2];
      } else {
        WithinBounds(a, b[1..]);
        WithinButLast(a, b[1..]);
      }
    }
  }

  lemma WithoutStep<K, P>(s: seq<Entry<K, P>>, k: K)
    requires s != []
    ensures Without(s, k) == if s[0].key == k then Without(s[1..], k) else [s[0]] + Without(s[1..], k)
  {}

  lemma LookupStep<K, P>(s: seq<Entry<K, P>>, k: K)
    requires s != []
    ensures Lookup(s, k) == if s[0].key == k then Some(s[0].payload) else Lookup(s[1..], k)
  {}

  lemma FirstAndRest<T>(s: seq<T>)
    requires s != []
    ensures s == [s[0]] + s[1..]
  {}

  lemma HasStep<K, P>(s: seq<Entry<K, P>>, k: K)
    requires s != []
    ensures Has(s, k) <==> s[0].key == k || Has(s[1..], k)
  {
    var t := s[1..];
    if Has(t, k) { var i :| 0 <= i < |t| && t[i].key == k; assert s[i + 1].key == k; }
    if Has(s, k) { var i :| 0 <= i < |s| && s[i].key == k; assert i == 0 || t[i - 1].key == k; }
  }

  lemma {:induction false} WithinWithout<K, P>(a: seq<Entry<K, P>>, b: seq<Entry<K, P>>, k: K)
    requires Within(a, b)
    ensures Within(Without(a, k), Without(b, k))
    decreases |b|
  {
    if a == [] {
    } else if a[0] == b[0] {
      WithinWithout(a[1..], b[1..], k);
      hide Within, Without;
      WithoutStep(a, k);
      WithoutStep(b, k);
      if a[0].key != k { WithinFront(a[0], Without(a[1..], k), Without(b[1..], k)); }
    } else {
      WithinWithout(a, b[1..], k);
      hide Within, Without;
      WithoutStep(b, k);
      if b[0].key != k { WithinWider(Without(a, k), b[0], Without(b[1..], k)); }
    }
  }

  lemma {:induction false} WithoutMissing<K, P>(s: seq<Entry<K, P>>, k: K)
    requires !Has(s, k)
    ensures Without(s, k) == s && Lookup(s, k) == None
    decreases |s|
  {
    if s != [] {
      hide Has, Without, Lookup;
      HasStep(s, k);
      WithoutStep(s, k);
      LookupStep(s, k);
      WithoutMissing(s[1..], k);
      FirstAndRest(s);
    }
  }

  // ---- one list --------------------------------------------------------------------------------

  predicate Distinct<K(==), P>(s: seq<Entry<K, P>>) { forall i, j :: 0 <= i < j < |s| ==> s[i].key != s[j].key }

  predicate Fits(limit: nat, n: nat) { limit == NO_AUTO_EVICT || n <= limit }

  lemma {:induction false} WithoutDistinct<K, P>(s: seq<Entry<K, P>>, k: K)
    requires Distinct(s)
    ensures Distinct(Without(s, k))
    ensures |Without(s, k)| == if Has(s, k) then |s| - 1 else |s|
    decreases |s|
  {
    if s != [] {
      var t := s[1..];
      WithoutDistinct(t, k);
      HasStep(s, k);
      if s[0].key == k {
        assert !Has(t, k);
      } else {
        var r := Without(t, k);
        forall i, j | 0 <= i < j < |[s[0]] + r| ensures ([s[0]] + r)[i].key != ([s[0]] + r)[j].key {
          if i == 0 { assert r[j - 1] in t; }
        }
      }
    }
  }

  lemma {:induction false} LookupFinds<K, P>(s: seq<Entry<K, P>>, k: K)
    ensures Lookup(s, k).Some? <==> Has(s, k)
    ensures Lookup(s, k).Some? ==> Entry(k, Lookup(s, k).value) in s
    decreases |s|
  {
    if s != [] {
      var t := s[1..];
      LookupFinds(t, k);
      HasStep(s, k);
    }
  }

  lemma {:induction false} LookupUnique<K, P>(s: seq<Entry<K, P>>, e: Entry<K, P>)
    requires Distinct(s) && e in s
    ensures Lookup(s, e.key) == Some(e.payload)
    decreases |s|
  {
    if s[0] != e {
      assert e in s[1..];
      LookupUnique(s[1..], e);
    }
  }

  /** Distinct keys, and no more than the limit allows. */
  predicate Sound<K(==), P>(limit: nat, s: seq<Entry<K, P>>) { Distinct(s) && Fits(limit, |s|) }

  lemma StepSound<K, P>(limit: nat, s: seq<Entry<K, P>>, c: Command<K, P>)
    requires Sound(limit, s)
    ensures Sound(limit, Step(limit, s, c))
  {
    WithoutDistinct(s, c.key);
    LookupFinds(s, c.key);
    var t := Step(limit, s, c);
    if c.DoPut? || Has(s, c.key) {
      var r := t[1..];
      assert !Has(r, c.key) && Distinct(r) by {
        if Has(s, c.key) { assert r == Without(s, c.key); }
        else if limit != NO_AUTO_EVICT { assert r == Shrunk(s, limit - 1); }
        else { assert r == s; }
      }
      assert t == [t[0]] + r && t[0].key == c.key;
      forall i, j | 0 <= i < j < |t| ensures t[i].key != t[j].key {
        if i == 0 { assert t[j] == r[j - 1]; } else { assert t[i] == r[i - 1] && t[j] == r[j - 1]; }
      }
    }
  }

  lemma {:induction false} RunSound<K, P>(limit: nat, cs: seq<Command<K, P>>)
    ensures Sound(limit, Run(limit, cs))
    decreases |cs|
  {
    if cs != [] {
      RunSound(limit, cs[..|cs| - 1]);
      StepSound(limit, Run(limit, cs[..|cs| - 1]), cs[|cs| - 1]);
    }
  }

  // ---- two caches ---------------------------------------------------------------------------------

  /** The second cache is allowed at least as much as the first. */
  predicate Larger(m: nat, n: nat) { m != NO_AUTO_EVICT && (n == NO_AUTO_EVICT || m <= n) }

  function Least(a: nat, b: nat): nat { if a < b then a else b }

  predicate Included<K(==), P(==)>(m: nat, small: seq<Entry<K, P>>, large: seq<Entry<K, P>>) {
    Within(small, large) && |small| == Least(m, |large|)
  }

  /** Making room for a new key in both. */
  lemma RoomIncluded<K, P>(m: nat, n: nat, small: seq<Entry<K, P>>, large: seq<Entry<K, P>>)
    requires Larger(m, n) && Included(m, small, large) && Fits(n, |large|)
    ensures
      var a := Shrunk(small, m - 1);
      var b := if n != NO_AUTO_EVICT then Shrunk(large, n - 1) else large;
      Within(a, b) && |a| + 1 == Least(m, |b| + 1)
  {
    WithinBounds(small, large);
    if |small| == m {
      assert Shrunk(small, m - 1) == small[..|small| - 1];
      WithinButLast(small, large);
      if n == NO_AUTO_EVICT || |large| < n {
        WithinWiderLast(small[..|small| - 1], large[..|large| - 1], large[|large| - 1]);
        assert large == large[..|large| - 1] + [large[|large| - 1]];
      } else {
        assert Shrunk(large, n - 1) == large[..|large| - 1];
      }
    }
  }

  lemma {:induction false} WithinWiderLast<T>(a: seq<T>, b: seq<T>, x: T)
    requires Within(a, b)
    ensures Within(a, b + [x])
    decreases |b|
  {
    if a != [] {
      assert (b + [x])[1..] == b[1..] + [x];
      if a[0] == b[0] { WithinWiderLast(a[1..], b[1..], x); } else { WithinWiderLast(a, b[1..], x); }
    }
  }

  lemma HasWithin<K, P>(a: seq<Entry<K, P>>, b: seq<Entry<K, P>>, k: K)
    requires Within(a, b) && Has(a, k)
    ensures Has(b, k)
  {
    WithinBounds(a, b);
    var i :| 0 <= i < |a| && a[i].key == k;
    assert a[i] in b;
  }

  lemma PutIncluded<K, P>(m: nat, n: nat, small: seq<Entry<K, P>>, large: seq<Entry<K, P>>, k: K, p: P)
    requires Larger(m, n) && Included(m, small, large) && Sound(m, small) && Sound(n, large)
    ensures Included(m, Put(m, small, k, p), Put(n, large, k, p))
  {
    WithinBounds(small, large);
    WithinWithout(small, large, k);
    WithoutDistinct(small, k);
    WithoutDistinct(large, k);
    if Has(small, k) {
      HasWithin(small, large, k);
      WithinFront(Entry(k, p), Without(small, k), Without(large, k));
    } else if Has(large, k) {
      WithoutMissing(small, k);
      WithinPrefix(small, Without(large, k), m - 1);
      WithinFront(Entry(k, p), Shrunk(small, m - 1), Without(large, k));
    } else {
      RoomIncluded(m, n, small, large);
      WithinFront(Entry(k, p), Shrunk(small, m - 1), if n != NO_AUTO_EVICT then Shrunk(large, n - 1) else large);
    }
  }

  lemma {:induction false} WithinPrefix<K, P>(a: seq<Entry<K, P>>, b: seq<Entry<K, P>>, n: nat)
    requires Within(a, b)
    ensures Within(Shrunk(a, n), b)
    decreases |b|
  {
    if a != [] && n > 0 {
      if a[0] == b[0] {
        WithinPrefix(a[1..], b[1..], n - 1);
        assert Shrunk(a, n)[1..] == Shrunk(a[1..], n - 1);
      } else {
        WithinPrefix(a, b[1..], n);
      }
    }
  }

  lemma GetIncluded<K, P>(m: nat, n: nat, small: seq<Entry<K, P>>, large: seq<Entry<K, P>>, k: K)
    requires Included(m, small, large) && Sound(m, small) && Sound(n, large)
    ensures Included(m, Get(small, k), Get(large, k))
    ensures Lookup(small, k).Some? ==> Lookup(large, k) == Lookup(small, k)
  {
    LookupFinds(small, k);
    LookupFinds(large, k);
    WithinWithout(small, large, k);
    WithoutDistinct(small, k);
    WithoutDistinct(large, k);
    if Has(small, k) {
      HasWithin(small, large, k);
      var p := Lookup(small, k).value;
      WithinBounds(small, large);
      LookupUnique(large, Entry(k, p));
      WithinFront(Entry(k, p), Without(small, k), Without(large, k));
    } else if Has(large, k) {
      WithoutMissing(small, k);
      WithinWider(small, Entry(k, Lookup(large, k).value), Without(large, k));
    }
  }

  /**
   * LRU inclusion: after any run, what the smaller cache holds the larger one holds too, payloads
   * and order included; and the smaller is full whenever the larger holds more.
   */
  lemma {:induction false} RunIncluded<K, P>(m: nat, n: nat, cs: seq<Command<K, P>>)
    requires Larger(m, n)
    ensures Included(m, Run(m, cs), Run(n, cs))
    decreases |cs|
  {
    if cs != [] {
      var before := cs[..|cs| - 1];
      RunIncluded(m, n, before);
      RunSound(m, before);
      RunSound(n, before);
      match cs[|cs| - 1]
      case DoPut(k, p) => PutIncluded(m, n, Run(m, before), Run(n, before), k, p);
      case DoGet(k) => GetIncluded(m, n, Run(m, before), Run(n, before), k);
    }
  }

  /** A larger cache never misses where a smaller one hits, and hits with the same payload. */
  lemma HitsGrow<K, P>(m: nat, n: nat, cs: seq<Command<K, P>>, k: K)
    requires Larger(m, n) && Lookup(Run(m, cs), k).Some?
    ensures Lookup(Run(n, cs), k) == Lookup(Run(m, cs), k)
  {
    RunIncluded(m, n, cs);
    RunSound(m, cs);
    RunSound(n, cs);
    GetIncluded(m, n, Run(m, cs), Run(n, cs), k);
  }
}
