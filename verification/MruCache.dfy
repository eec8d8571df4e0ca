/** The cache object: a recency list of nodes and an index of where each key's node is. */
module MruCache {
  import opened Wrappers
  import opened MruModel

  /** A list node; its identity is what an iterator holds on to. */
  datatype Node<K, P> = Node(id: nat, key: K, payload: P)

  function Entries<K, P>(ns: seq<Node<K, P>>): (r: seq<Entry<K, P>>)
    ensures |r| == |ns| && forall i :: 0 <= i < |ns| ==> r[i] == Entry(ns[i].key, ns[i].payload)
  {
    seq(|ns|, i requires 0 <= i < |ns| => Entry(ns[i].key, ns[i].payload))
  }

  /** Where a node is in the list. */
  function PositionOf<K, P>(ns: seq<Node<K, P>>, id: nat): (i: nat)
    requires exists j :: 0 <= j < |ns| && ns[j].id == id
    ensures i < |ns| && ns[i].id == id
    decreases |ns|
  {
    if ns[0].id == id then 0
    else
      assert exists j :: 0 <= j < |ns[1..]| && ns[1..][j].id == id by {
        var j :| 0 <= j < |ns| && ns[j].id == id;
        assert ns[1..][j - 1].id == id;
      }
      1 + PositionOf(ns[1..], id)
  }

  /** Distinct nodes with distinct keys, each indexed under its own key, and nothing else indexed. */
  ghost predicate Indexed<K, P>(ns: seq<Node<K, P>>, index: map<K, nat>) {
    && (forall i, j :: 0 <= i < j < |ns| ==> ns[i].id != ns[j].id && ns[i].key != ns[j].key)
    && (forall i :: 0 <= i < |ns| ==> ns[i].key in index && index[ns[i].key] == ns[i].id)
    && (forall k :: k in index ==> exists i :: 0 <= i < |ns| && ns[i].key == k)
  }

  /** A list without its element at p. */
  function Drop<T>(s: seq<T>, p: nat): (r: seq<T>)
    requires p < |s|
    ensures |r| == |s| - 1
    ensures forall i :: 0 <= i < p ==> r[i] == s[i]
    ensures forall i :: p <= i < |r| ==> r[i] == s[i + 1]
  {
    s[..p] + s[p + 1..]
  }

  lemma IndexedErase<K, P>(ns: seq<Node<K, P>>, index: map<K, nat>, p: nat)
    requires Indexed(ns, index) && p < |ns|
    ensures Indexed(Drop(ns, p), index - {ns[p].key})
  {
    hide Drop;
    var r, m := Drop(ns, p), index - {ns[p].key};
    forall i | 0 <= i < |r| ensures r[i].key in m && m[r[i].key] == r[i].id {
      var was := if i < p then i else i + 1;
      assert r[i] == ns[was] && ns[was].key in index;
    }
    forall k | k in m ensures exists i :: 0 <= i < |r| && r[i].key == k {
      var i :| 0 <= i < |ns| && ns[i].key == k;
      var now := if i < p then i else i - 1;
      assert i != p && r[now] == ns[i];
    }
  }

  lemma DropCons<T>(s: seq<T>, p: nat)
    requires p < |s|
    ensures Drop(s, p) == if p == 0 then s[1..] else [s[0]] + Drop(s[1..], p - 1)
  {}

  lemma IndexedFront<K, P>(ns: seq<Node<K, P>>, index: map<K, nat>, n: Node<K, P>)
    requires Indexed(ns, index) && n.key !in index && forall i :: 0 <= i < |ns| ==> ns[i].id != n.id
    ensures Indexed([n] + ns, index[n.key := n.id])
  {
    var r, m := [n] + ns, index[n.key := n.id];
    forall k | k in m ensures exists i :: 0 <= i < |r| && r[i].key == k {
      if k == n.key {
        assert r[0].key == k;
      } else {
        var i :| 0 <= i < |ns| && ns[i].key == k;
        assert r[i + 1].key == k;
      }
    }
  }

  lemma IndexedTouch<K, P>(ns: seq<Node<K, P>>, index: map<K, nat>, p: nat)
    requires Indexed(ns, index) && p < |ns|
    ensures Indexed([ns[p]] + Drop(ns, p), index)
  {
    hide Drop;
    var n, r := ns[p], Drop(ns, p);
    IndexedErase(ns, index, p);
    IndexedFront(r, index - {n.key}, n);
    assert (index - {n.key})[n.key := n.id] == index;
  }

  /** No other node has the identity of the last. */
  lemma OnlyLast<K, P>(ns: seq<Node<K, P>>, p: nat)
    requires p < |ns| && ns[p].id == ns[|ns| - 1].id
    requires forall i, j :: 0 <= i < j < |ns| ==> ns[i].id != ns[j].id
    ensures Drop(ns, p) == ns[..|ns| - 1]
  {}

  /** The index finds a key's node exactly if the list has the key. */
  lemma IndexFinds<K, P>(ns: seq<Node<K, P>>, index: map<K, nat>, k: K)
    requires Indexed(ns, index)
    ensures k in index <==> Has(Entries(ns), k)
    ensures k in index ==> exists j :: 0 <= j < |ns| && ns[j].id == index[k]
    ensures k in index ==> forall p :: 0 <= p < |ns| && ns[p].id == index[k] ==> ns[p].key == k
    ensures k !in index ==> Lookup(Entries(ns), k) == None
  {
    if Has(Entries(ns), k) {
      var i :| 0 <= i < |ns| && Entries(ns)[i].key == k;
      assert ns[i].key in index;
    } else {
      WithoutMissing(Entries(ns), k);
    }
    if k in index {
      var i :| 0 <= i < |ns| && ns[i].key == k;
      assert Entries(ns)[i].key == k && ns[i].id == index[k];
    }
  }

  lemma KeysDiffer<K, P>(ns: seq<Node<K, P>>, index: map<K, nat>)
    requires Indexed(ns, index)
    ensures forall i, j :: 0 <= i < j < |ns| ==> ns[i].key != ns[j].key
  {}

  lemma EntriesWithout<K, P>(ns: seq<Node<K, P>>, p: nat)
    requires p < |ns| && forall i, j :: 0 <= i < j < |ns| ==> ns[i].key != ns[j].key
    ensures Entries(Drop(ns, p)) == Without(Entries(ns), ns[p].key) && Has(Entries(ns), ns[p].key)
    ensures Lookup(Entries(ns), ns[p].key) == Some(ns[p].payload)
  {
    var es, k := Entries(ns), ns[p].key;
    assert es[p].key == k;
    assert Distinct(es);
    hide Entries, Without, Lookup, Drop, Has, Distinct;
    LookupUnique(es, es[p]);
    DropOne(es, p);
    EntriesDropped(ns, p);
  }

  lemma EntriesDropped<K, P>(ns: seq<Node<K, P>>, p: nat)
    requires p < |ns|
    ensures Entries(Drop(ns, p)) == Drop(Entries(ns), p)
  {
    hide Entries, Drop;
    var x, y := Entries(Drop(ns, p)), Drop(Entries(ns), p);
    forall i | 0 <= i < |x| ensures x[i] == y[i] {
      var n := Drop(ns, p)[i];
      assert x[i] == Entry(n.key, n.payload);
    }
  }

  /** A node moved to the front: the same list, and the same identities, otherwise. */
  lemma Touched<K, P>(ns: seq<Node<K, P>>, p: nat, unused: nat)
    requires p < |ns| && forall i :: 0 <= i < |ns| ==> ns[i].id < unused
    ensures
      var rest := Drop(ns, p);
      var r := [ns[p]] + rest;
      && Entries(r) == [Entry(ns[p].key, ns[p].payload)] + Entries(rest) && |r| == |ns|
      && forall i :: 0 <= i < |r| ==> r[i].id < unused
  {}

  lemma {:induction false} DropOne<K, P>(es: seq<Entry<K, P>>, p: nat)
    requires p < |es| && Distinct(es)
    ensures Without(es, es[p].key) == Drop(es, p)
    decreases |es|
  {
    TailDistinct(es, p);
    hide Without, Drop, Lookup, Distinct, Has;
    var k := es[p].key;
    WithoutStep(es, k);
    DropCons(es, p);
    if p == 0 {
      WithoutMissing(es[1..], k);
    } else {
      assert es[1..][p - 1] == es[p];
      DropOne(es[1..], p - 1);
    }
  }

  lemma TailDistinct<K, P>(es: seq<Entry<K, P>>, p: nat)
    requires p < |es| && Distinct(es)
    ensures Distinct(es[1..]) && !Has(es[1..], es[0].key) && (p > 0 ==> es[0].key != es[p].key)
  {}

  class MRUCache<K(==), P> {
    var ordering: seq<Node<K, P>>
    var index: map<K, nat>
    var unused: nat  // node identities from here on are free
    const maxSize: nat

    ghost predicate Valid()
      reads this
    {
      && Indexed(ordering, index) && Fits(maxSize, |ordering|)
      && forall i :: 0 <= i < |ordering| ==> ordering[i].id < unused
    }

    ghost function List(): seq<Entry<K, P>>
      reads this
    {
      Entries(ordering)
    }

    constructor (maxSize: nat)
      ensures Valid() && List() == [] && this.maxSize == maxSize
    {
      ordering, index, unused, this.maxSize := [], map[], 0, maxSize;
    }

    /** Takes a node out of the list and its key out of the index; returns the node behind it. */
    method Erase(id: nat) returns (ghost p: nat, next: Option<nat>)
      requires Valid() && exists i :: 0 <= i < |ordering| && ordering[i].id == id
      modifies this
      ensures Valid() && unused == old(unused) && p < |old(ordering)| && old(ordering)[p].id == id
      ensures ordering == Drop(old(ordering), p) && index == old(index) - {old(ordering)[p].key}
      ensures next == if p + 1 < |old(ordering)| then Some(old(ordering)[p + 1].id) else None
    {
      hide Indexed;
      var at := PositionOf(ordering, id);
      IndexedErase(ordering, index, at);
      index := index - {ordering[at].key};
      ordering := Drop(ordering, at);
      p := at;
      next := if at < |ordering| then Some(ordering[at].id) else None;
    }

    method EraseLast()
      requires Valid() && ordering != []
      modifies this
      ensures Valid() && ordering == old(ordering)[..|old(ordering)| - 1]
      ensures index.Keys <= old(index.Keys) && unused == old(unused)
    {
      var p, _ := Erase(ordering[|ordering| - 1].id);
      OnlyLast(old(ordering), p);
    }

    /** Evicts from the old end until few enough are left. */
    method ShrinkToSize(newSize: nat)
      requires Valid()
      modifies this
      ensures Valid() && List() == Shrunk(old(List()), newSize)
      ensures index.Keys <= old(index.Keys) && unused == old(unused)
      ensures |ordering| <= newSize || ordering == old(ordering)
    {
      var i := |ordering|;
      while i > newSize
        invariant Valid() && |ordering| == i && ordering <= old(ordering) && (i >= newSize || ordering == old(ordering))
        invariant index.Keys <= old(index.Keys) && unused == old(unused)
      {
        EraseLast();
        i := i - 1;
      }
    }

    method Put(k: K, payload: P)
      requires Valid()
      modifies this
      ensures Valid() && List() == MruModel.Put(maxSize, old(List()), k, payload)
    {
      hide Indexed, Has, Without;
      MakeRoom(k);
      IndexedFront(ordering, index, Node(unused, k, payload));
      ordering, index, unused := [Node(unused, k, payload)] + ordering, index[k := unused], unused + 1;
    }

    /** Before an insertion: an old node of the key goes, or else perhaps the oldest. */
    method MakeRoom(k: K)
      requires Valid()
      modifies this
      ensures Valid() && k !in index && Fits(maxSize, |ordering| + 1)
      ensures List() == if Has(old(List()), k) then Without(old(List()), k)
                        else if maxSize != NO_AUTO_EVICT then Shrunk(old(List()), maxSize - 1)
                        else old(List())
    {
      hide Indexed, Has, Without;
      IndexFinds(ordering, index, k);
      if k in index {
        ghost var was := ordering;
        KeysDiffer(ordering, index);
        var p, _ := Erase(index[k]);
        EntriesWithout(was, p);
      } else if maxSize != NO_AUTO_EVICT {
        ShrinkToSize(maxSize - 1);
      }
    }

    /** Finds a key and makes it the most recent; says what it holds. */
    method Get(k: K) returns (found: Option<P>)
      requires Valid()
      modifies this
      ensures Valid() && List() == MruModel.Get(old(List()), k) && found == Lookup(old(List()), k)
      ensures found.Some? ==> List() == [Entry(k, found.value)] + Without(old(List()), k)
      ensures found.None? ==> List() == old(List()) && !Has(List(), k)
    {
      hide Indexed, Has, Without, Lookup, Entries;
      IndexFinds(ordering, index, k);
      if k !in index {
        return None;
      }
      var p := PositionOf(ordering, index[k]);
      KeysDiffer(ordering, index);
      EntriesWithout(ordering, p);
      IndexedTouch(ordering, index, p);
      Touched(ordering, p, unused);
      ordering := [ordering[p]] + Drop(ordering, p);
      return Some(ordering[0].payload);
    }

    /** Finds a key and leaves the order alone. */
    method Peek(k: K) returns (found: Option<P>)
      requires Valid()
      ensures found == Lookup(List(), k)
    {
      hide Indexed, Has, Without, Lookup;
      IndexFinds(ordering, index, k);
      if k !in index {
        return None;
      }
      var p := PositionOf(ordering, index[k]);
      KeysDiffer(ordering, index);
      EntriesWithout(ordering, p);
      return Some(ordering[p].payload);
    }
  }
}
