/**
 * The pool of send requests behind a UDP writer: the part that the dialer and the
 * listener have in common. A request is free, in flight on the open socket, in flight on
 * a socket that is closing, or gone for good. A writer that runs out of requests is
 * blocked until every request is free again.
 */
module SendPool {

  const MAX_FLYING: nat := 1024

  datatype Status = Ok | Blocked | Error

  /** `free` is a stack, its top last. */
  datatype Pool = Pool(free: seq<nat>, flying: set<nat>, orphaned: set<nat>, lost: set<nat>, open: bool, blocked: bool)

  function Elements<T>(s: seq<T>): set<T> { set x | x in s }

  predicate Distinct<T(==)>(s: seq<T>) { forall i, j :: 0 <= i < j < |s| ==> s[i] != s[j] }

  /** The requests made at construction. */
  function Requests(): seq<nat> { seq(MAX_FLYING, i => i) }

  /** Every request is in exactly one place; a closed socket is blocked; a blocked one misses some request. */
  ghost predicate Inv(p: Pool) {
    && Distinct(p.free)
    && Elements(p.free) !! p.flying !! p.orphaned !! p.lost
    && Elements(p.free) + p.flying + p.orphaned + p.lost == Elements(Requests())
    && (!p.open ==> p.flying == {} && p.blocked)
    && (p.open && p.blocked ==> |p.free| < MAX_FLYING)
  }

  const Initial: Pool := Pool(Requests(), {}, {}, {}, false, true)

  // ---- the operations --------------------------------------------------------------------

  /** Hands a packet to the socket; `accepted` is what the socket answers. */
  function Write(p: Pool, accepted: bool): (r: (Pool, Status)) {
    if p.blocked then (p, Blocked)
    else if p.free == [] then (p.(blocked := true), Blocked)
    else
      var top, rest := p.free[|p.free| - 1], p.free[..|p.free| - 1];
      if accepted then (p.(free := rest, flying := p.flying + {top}), Ok)
      else (p.(free := rest, lost := p.lost + {top}), Error)
  }

  /** A send has completed. On a closing socket its request is released for good. */
  function Complete(p: Pool, r: nat): Pool {
    if r in p.flying then
      var q := p.(free := p.free + [r], flying := p.flying - {r});
      if q.blocked && |q.free| == MAX_FLYING then q.(blocked := false) else q
    else if r in p.orphaned then p.(orphaned := p.orphaned - {r}, lost := p.lost + {r})
    else p
  }

  function Open(p: Pool): Pool { if p.open then p else p.(open := true, blocked := false) }

  /** Closing leaves the sends in flight to complete on a closing socket. */
  function Close(p: Pool): Pool {
    p.(open := false, blocked := true, orphaned := p.orphaned + p.flying, flying := {})
  }

  // ---- what every operation keeps ------------------------------------------------------------

  lemma ElementsSnoc<T>(t: seq<T>, x: T)
    ensures Elements(t + [x]) == Elements(t) + {x}
    ensures x in Elements(t) <==> x in t
  {}

  lemma {:induction false} DistinctSize<T>(s: seq<T>)
    requires Distinct(s)
    ensures |Elements(s)| == |s|
  {
    if s != [] {
      hide Elements;
      var t, x := s[..|s| - 1], s[|s| - 1];
      DistinctSize(t);
      assert s == t + [x];
      ElementsSnoc(t, x);
    }
  }

  /** Free, flying, orphaned and lost requests always add up to 1024. */
  lemma Conservation(p: Pool)
    requires Inv(p)
    ensures |p.free| + |p.flying| + |p.orphaned| + |p.lost| == MAX_FLYING
  {
    DistinctSize(p.free);
    DistinctSize(Requests());
    var f := Elements(p.free);
    assert |f + p.flying + p.orphaned + p.lost| == |f + p.flying + p.orphaned| + |p.lost|;
    assert |f + p.flying + p.orphaned| == |f + p.flying| + |p.orphaned|;
  }

  lemma InitialInv()
    ensures Inv(Initial)
  {}

  /** A packet takes a free request, never one that is still in flight. */
  lemma WriteInv(p: Pool, accepted: bool)
    requires Inv(p)
    ensures var (q, status) := Write(p, accepted);
      && Inv(q) && q.open == p.open
      && (status == Blocked <==> q.blocked)
      && (status == Blocked ==> q == p.(blocked := true))
      && (status == Ok ==> exists r :: r in p.free && r !in p.flying + p.orphaned && q.flying == p.flying + {r})
  {}

  /**
   * A packet is sent exactly if the writer is not blocked, a request is free and the socket
   * takes it; refused exactly if only the last fails. Its request is then in flight, or lost.
   */
  lemma WriteExactly(p: Pool, accepted: bool)
    requires Inv(p)
    ensures var (q, status) := Write(p, accepted);
      && (status == Ok <==> !p.blocked && p.free != [] && accepted)
      && (status == Error <==> !p.blocked && p.free != [] && !accepted)
      && (status == Blocked <==> p.blocked || p.free == [])
      && (status != Blocked ==> p.free == q.free + [p.free[|p.free| - 1]])
      && q.flying == p.flying + (if status == Ok then {p.free[|p.free| - 1]} else {})
      && q.lost == p.lost + (if status == Error then {p.free[|p.free| - 1]} else {})
      && q.orphaned == p.orphaned
  {}

  /** A completion unblocks the writer exactly if it brings back the last of the 1024 requests. */
  lemma CompleteExactly(p: Pool, r: nat)
    requires Inv(p)
    ensures var q := Complete(p, r);
      && (!q.blocked <==> !p.blocked || (r in p.flying && |p.free| == MAX_FLYING - 1))
      && (r in p.flying ==> q.free == p.free + [r] && q.flying == p.flying - {r} && Missing(q) == Missing(p))
      && (r in p.orphaned ==> q.lost == p.lost + {r} && q.orphaned == p.orphaned - {r} && q.free == p.free)
  {}

  lemma CompleteInv(p: Pool, r: nat)
    requires Inv(p)
    ensures Inv(Complete(p, r)) && Complete(p, r).open == p.open
    ensures Complete(p, r).blocked ==> p.blocked
  {}

  lemma OpenCloseInv(p: Pool)
    requires Inv(p)
    ensures Inv(Close(p)) && !Close(p).open && Missing(Close(p)) == Missing(p) + p.flying && Close(p).free == p.free
    ensures Inv(Open(p)) && Open(p).open && (!p.open ==> !Open(p).blocked) && Open(p).free == p.free
  {}

  // ---- waking up ---------------------------------------------------------------------------------

  /** Requests that can never come back to the open socket. */
  function Missing(p: Pool): set<nat> { p.orphaned + p.lost }

  /** A blocked writer with nothing missing has a send in flight whose completion will come. */
  lemma NoLostWakeup(p: Pool)
    requires Inv(p) && p.open && p.blocked && Missing(p) == {}
    ensures p.flying != {}
  {
    Conservation(p);
    assert p.orphaned == {} && p.lost == {};
  }

  function CompleteAll(p: Pool, order: seq<nat>): Pool
    decreases |order|
  {
    if order == [] then p else CompleteAll(Complete(p, order[0]), order[1..])
  }

  /** Completing all sends in flight, in any order, unblocks the writer if nothing is missing, else not. */
  lemma {:induction false} Drain(p: Pool, order: seq<nat>)
    requires Inv(p) && p.open && p.blocked
    requires Distinct(order) && Elements(order) == p.flying
    ensures var q := CompleteAll(p, order);
      && Inv(q) && q.flying == {} && q.open && Missing(q) == Missing(p)
      && (q.blocked <==> Missing(p) != {})
    decreases |order|
  {
    hide Inv, Requests;
    if order == [] {
      if Missing(p) == {} { NoLostWakeup(p); }
    } else {
      var r, rest := order[0], order[1..];
      var q := Complete(p, r);
      CompleteInv(p, r);
      FreeAgainMissing(p, r);
      RestOf(order);
      if q.blocked {
        Drain(q, rest);
      } else {
        // The last missing request has come back: nothing is in flight, nothing is missing.
        AllFree(q);
        assert rest == [];
      }
    }
  }

  lemma RestOf(order: seq<nat>)
    requires Distinct(order) && order != []
    ensures Distinct(order[1..]) && order[0] in Elements(order) && Elements(order[1..]) == Elements(order) - {order[0]}
    ensures Elements(order[1..]) == {} ==> order[1..] == []
  {
    assert forall x :: x in order <==> x == order[0] || x in order[1..];
    if order[1..] != [] { assert order[1..][0] in Elements(order[1..]); }
  }

  lemma FreeAgainMissing(p: Pool, r: nat)
    requires Inv(p) && r in p.flying
    ensures var q := Complete(p, r);
      q.flying == p.flying - {r} && Missing(q) == Missing(p) && (p.blocked && !q.blocked ==> |q.free| == MAX_FLYING)
  {}

  lemma AllFree(p: Pool)
    requires Inv(p) && |p.free| == MAX_FLYING
    ensures p.flying == {} && Missing(p) == {}
  {
    Conservation(p);
  }

  datatype Act = Packet(accepted: bool) | Done(request: nat)

  function RunActs(p: Pool, acts: seq<Act>): Pool
    decreases |acts|
  {
    if acts == [] then p
    else
      var q := match acts[0] case Packet(accepted) => Write(p, accepted).0 case Done(r) => Complete(p, r);
      RunActs(q, acts[1..])
  }

  /** Once a request is missing, a blocked writer stays blocked whatever is sent or completes. */
  lemma {:induction false} StuckForever(p: Pool, acts: seq<Act>)
    requires Inv(p) && p.open && p.blocked && Missing(p) != {}
    ensures RunActs(p, acts).blocked && Missing(RunActs(p, acts)) == Missing(p)
    decreases |acts|
  {
    if acts != [] {
      match acts[0]
      case Packet(accepted) =>
        StuckForever(p, acts[1..]);
      case Done(r) =>
        var q := Complete(p, r);
        CompleteInv(p, r);
        assert Missing(q) == Missing(p);
        Conservation(q);
        assert q.orphaned != {} || q.lost != {};
        StuckForever(q, acts[1..]);
    }
  }

  /** While its socket stays open, a blocked writer can ever write again exactly if no request is missing. */
  lemma CanWakeExactly(p: Pool)
    requires Inv(p) && p.open && p.blocked
    ensures (exists acts :: !RunActs(p, acts).blocked) <==> Missing(p) == {}
  {
    if Missing(p) == {} {
      var order := Listing(p.flying);
      Drain(p, order);
      DoneRun(p, order);
      assert !RunActs(p, Dones(order)).blocked;
    } else {
      forall acts ensures RunActs(p, acts).blocked { StuckForever(p, acts); }
    }
  }

  function Dones(order: seq<nat>): seq<Act> { seq(|order|, i requires 0 <= i < |order| => Done(order[i])) }

  lemma {:induction false} DoneRun(p: Pool, order: seq<nat>)
    ensures RunActs(p, Dones(order)) == CompleteAll(p, order)
    decreases |order|
  {
    if order != [] {
      assert Dones(order)[1..] == Dones(order[1..]);
      DoneRun(Complete(p, order[0]), order[1..]);
    }
  }

  /** The elements of a set in some order. */
  ghost function Listing(s: set<nat>): (order: seq<nat>)
    ensures Distinct(order) && Elements(order) == s
  {
    if s == {} then []
    else
      var x :| x in s;
      var rest := Listing(s - {x});
      assert Elements([x] + rest) == {x} + Elements(rest);
      [x] + rest
  }
}
