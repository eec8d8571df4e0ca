/** What a cache holds after a run, told from the commands alone: which keys, in which order, with which payloads. */
module MruRecency {
  import opened Wrappers
  import opened MruModel

  /** When a key was last named, counting commands from 1; 0 if it never was. */
  function LastUse<K(==), P>(cs: seq<Command<K, P>>, k: K): (n: nat)
    ensures n <= |cs|
    decreases |cs|
  {
    if cs == [] then 0 else if cs[|cs| - 1].key == k then |cs| else LastUse(cs[..|cs| - 1], k)
  }

  /** What was last put under a key. */
  function LastPut<K(==), P>(cs: seq<Command<K, P>>, k: K): Option<P>
    decreases |cs|
  {
    if cs == [] then None
    else
      var c := cs[|cs| - 1];
      if c.DoPut? && c.key == k then Some(c.payload) else LastPut(cs[..|cs| - 1], k)
  }

  /** The most recently named first. */
  predicate ByRecency<K(==), P>(cs: seq<Command<K, P>>, s: seq<Entry<K, P>>) {
    forall i, j :: 0 <= i < j < |s| ==> LastUse(cs, s[i].key) > LastUse(cs, s[j].key)
  }

  predicate Latest<K(==), P(==)>(cs: seq<Command<K, P>>, s: seq<Entry<K, P>>) {
    forall e :: e in s ==> LastPut(cs, e.key) == Some(e.payload)
  }

  /** A key that the next command does not name is as recent as before. */
  lemma Unnamed<K, P>(cs: seq<Command<K, P>>, c: Command<K, P>, k: K)
    ensures LastUse(cs + [c], k) == if c.key == k then |cs| + 1 else LastUse(cs, k)
    ensures LastPut(cs + [c], k) == if c.DoPut? && c.key == k then Some(c.payload) else LastPut(cs, k)
  {
    assert (cs + [c])[..|cs|] == cs;
  }

  lemma {:induction false} WithoutByRecency<K, P>(cs: seq<Command<K, P>>, s: seq<Entry<K, P>>, k: K)
    requires ByRecency(cs, s)
    ensures ByRecency(cs, Without(s, k))
    decreases |s|
  {
    if s != [] {
      var r := Without(s[1..], k);
      WithoutByRecency(cs, s[1..], k);
      hide LastUse, Without;
      WithoutStep(s, k);
      if s[0].key != k { InFront(cs, s[0], s[1..], r); }
    }
  }

  lemma InFront<K, P>(cs: seq<Command<K, P>>, e: Entry<K, P>, s: seq<Entry<K, P>>, r: seq<Entry<K, P>>)
    requires ByRecency(cs, r) && forall x :: x in r ==> x in s
    requires forall j :: 0 <= j < |s| ==> LastUse(cs, e.key) > LastUse(cs, s[j].key)
    ensures ByRecency(cs, [e] + r)
  {
    hide LastUse;
    var t := [e] + r;
    forall i, j | 0 <= i < j < |t| ensures LastUse(cs, t[i].key) > LastUse(cs, t[j].key) {
      assert t[j] == r[j - 1] && r[j - 1] in s;
    }
  }

  /** A list none of whose keys the next command names keeps its order and its payloads. */
  lemma Untouched<K, P>(cs: seq<Command<K, P>>, s: seq<Entry<K, P>>, c: Command<K, P>)
    requires ByRecency(cs, s) && Latest(cs, s) && !Has(s, c.key)
    ensures ByRecency(cs + [c], s) && Latest(cs + [c], s)
  {
    hide LastUse, LastPut;
    forall e | e in s
      ensures e.key != c.key
      ensures LastUse(cs + [c], e.key) == LastUse(cs, e.key) && LastPut(cs + [c], e.key) == LastPut(cs, e.key)
    {
      var i :| 0 <= i < |s| && s[i] == e;
      Unnamed(cs, c, e.key);
    }
  }

  /** The named entry at the front of such a list. */
  lemma ToTheFront<K, P>(cs: seq<Command<K, P>>, s: seq<Entry<K, P>>, c: Command<K, P>, p: P)
    requires ByRecency(cs, s) && Latest(cs, s) && !Has(s, c.key)
    requires LastPut(cs + [c], c.key) == Some(p)
    ensures ByRecency(cs + [c], [Entry(c.key, p)] + s) && Latest(cs + [c], [Entry(c.key, p)] + s)
  {
    hide LastUse, LastPut;
    Untouched(cs, s, c);
    forall j | 0 <= j < |s| ensures LastUse(cs + [c], c.key) > LastUse(cs + [c], s[j].key) {
      Unnamed(cs, c, c.key);
      Unnamed(cs, c, s[j].key);
    }
    InFront(cs + [c], Entry(c.key, p), s, s);
  }

  lemma StepByRecency<K, P>(limit: nat, cs: seq<Command<K, P>>, s: seq<Entry<K, P>>, c: Command<K, P>)
    requires Sound(limit, s) && ByRecency(cs, s) && Latest(cs, s)
    ensures ByRecency(cs + [c], Step(limit, s, c)) && Latest(cs + [c], Step(limit, s, c))
  {
    LookupFinds(s, c.key);
    Unnamed(cs, c, c.key);
    WithoutByRecency(cs, s, c.key);
    assert Latest(cs, Without(s, c.key));
    hide LastUse, LastPut, Without, Lookup;
    match c
    case DoPut(k, p) =>
      if Has(s, k) {
        ToTheFront(cs, Without(s, k), c, p);
      } else if limit != NO_AUTO_EVICT {
        ToTheFront(cs, Shrunk(s, limit - 1), c, p);
      } else {
        ToTheFront(cs, s, c, p);
      }
    case DoGet(k) =>
      if Has(s, k) {
        ToTheFront(cs, Without(s, k), c, Lookup(s, k).value);
      } else {
        Untouched(cs, s, c);
      }
  }

  lemma {:induction false} RunByRecency<K, P>(limit: nat, cs: seq<Command<K, P>>)
    ensures ByRecency(cs, Run(limit, cs)) && Latest(cs, Run(limit, cs))
    decreases |cs|
  {
    hide ByRecency, Latest, Run, Step, Sound;
    RunStep(limit, cs);
    if cs == [] {
      EmptyIsOrdered(cs);
    } else {
      var before, c := cs[..|cs| - 1], cs[|cs| - 1];
      RunByRecency(limit, before);
      RunSound(limit, before);
      StepByRecency(limit, before, Run(limit, before), c);
      assert cs == before + [c];
    }
  }

  lemma RunStep<K, P>(limit: nat, cs: seq<Command<K, P>>)
    ensures Run(limit, cs) == if cs == [] then [] else Step(limit, Run(limit, cs[..|cs| - 1]), cs[|cs| - 1])
  {
    hide Step;
  }

  lemma EmptyIsOrdered<K, P>(cs: seq<Command<K, P>>)
    ensures ByRecency(cs, []) && Latest(cs, [])
  {}

  /** After any run the list is in the order of last use, and every entry has the payload last put under its key. */
  lemma RecencyOrder<K, P>(limit: nat, cs: seq<Command<K, P>>)
    ensures forall i, j :: 0 <= i < j < |Run(limit, cs)| ==>
      LastUse(cs, Run(limit, cs)[i].key) > LastUse(cs, Run(limit, cs)[j].key)
    ensures forall e :: e in Run(limit, cs) ==> LastPut(cs, e.key) == Some(e.payload)
  {
    hide Run, LastUse, LastPut;
    RunByRecency(limit, cs);
  }

  /** A cache without a limit holds exactly the keys ever put. */
  lemma {:induction false} UnlimitedHoldsAll<K, P>(cs: seq<Command<K, P>>, k: K)
    ensures Has(Run(NO_AUTO_EVICT, cs), k) <==> LastPut(cs, k).Some?
    decreases |cs|
  {
    if cs != [] {
      var before, c := cs[..|cs| - 1], cs[|cs| - 1];
      UnlimitedHoldsAll(before, k);
      RunSound(NO_AUTO_EVICT, before);
      HasAfter(NO_AUTO_EVICT, Run(NO_AUTO_EVICT, before), c, k);
    }
  }

  lemma HasCons<K, P>(e: Entry<K, P>, r: seq<Entry<K, P>>, k: K)
    ensures Has([e] + r, k) <==> e.key == k || Has(r, k)
  {
    HasStep([e] + r, k);
    assert ([e] + r)[1..] == r;
  }

  lemma {:induction false} HasWithout<K, P>(s: seq<Entry<K, P>>, gone: K, k: K)
    ensures Has(Without(s, gone), k) <==> Has(s, k) && k != gone
    decreases |s|
  {
    if s != [] {
      HasWithout(s[1..], gone, k);
      hide Has, Without;
      WithoutStep(s, gone);
      HasStep(s, k);
      HasCons(s[0], Without(s[1..], gone), k);
    }
  }

  lemma HasButLast<K, P>(s: seq<Entry<K, P>>, k: K)
    requires Distinct(s) && s != []
    ensures Has(s[..|s| - 1], k) <==> Has(s, k) && s[|s| - 1].key != k
  {
    var front := s[..|s| - 1];
    if Has(s, k) && s[|s| - 1].key != k {
      var i :| 0 <= i < |s| && s[i].key == k;
      assert front[i].key == k;
    }
    if Has(front, k) {
      var i :| 0 <= i < |front| && front[i].key == k;
      assert s[i].key == k;
    }
  }

  /** Whether making room for a new key costs the oldest entry. */
  predicate Evicts<K(==), P>(limit: nat, s: seq<Entry<K, P>>, c: Command<K, P>) {
    c.DoPut? && !Has(s, c.key) && limit != NO_AUTO_EVICT && |s| == limit
  }

  /** Which keys a command leaves: all that were there and the one put, less the last of a full list. */
  lemma HasAfter<K, P>(limit: nat, s: seq<Entry<K, P>>, c: Command<K, P>, k: K)
    requires Sound(limit, s)
    ensures Has(Step(limit, s, c), k) <==>
      (c.DoPut? && c.key == k) || (Has(s, k) && !(Evicts(limit, s, c) && s[|s| - 1].key == k))
  {
    hide Has, Without, Lookup;
    LookupFinds(s, c.key);
    HasWithout(s, c.key, k);
    match c
    case DoPut(key, p) =>
      var r := if Has(s, key) then Without(s, key) else if limit != NO_AUTO_EVICT then Shrunk(s, limit - 1) else s;
      HasCons(Entry(key, p), r, k);
      if Evicts(limit, s, c) { HasButLast(s, k); }
    case DoGet(key) =>
      if Has(s, key) { HasCons(Entry(key, Lookup(s, key).value), Without(s, key), k); }
  }

  /**
   * A key leaves a cache only when a new one is put into it at its limit, and then it is the
   * key whose last use is longest ago; every other key stays.
   */
  lemma EvictsOldest<K, P>(limit: nat, cs: seq<Command<K, P>>, c: Command<K, P>, k: K)
    requires Has(Run(limit, cs), k) && !Has(Run(limit, cs + [c]), k)
    ensures limit != NO_AUTO_EVICT && c.DoPut? && !Has(Run(limit, cs), c.key) && |Run(limit, cs)| == limit
    ensures forall j :: j != k && Has(Run(limit, cs), j) ==>
      Has(Run(limit, cs + [c]), j) && LastUse(cs, j) > LastUse(cs, k)
  {
    var s := Run(limit, cs);
    assert (cs + [c])[..|cs|] == cs;
    assert Run(limit, cs + [c]) == Step(limit, s, c);
    hide Run, Step, LastUse;
    RunSound(limit, cs);
    RecencyOrder(limit, cs);
    HasAfter(limit, s, c, k);
    forall j | j != k && Has(s, j) ensures Has(Step(limit, s, c), j) && LastUse(cs, j) > LastUse(cs, k) {
      HasAfter(limit, s, c, j);
      var i :| 0 <= i < |s| && s[i].key == j;
      assert i < |s| - 1;
    }
  }
}
