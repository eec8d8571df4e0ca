/**
 * The promise that a blocked dialer wakes up again is not kept by every run: when the last
 * connection closes, the dialer closes its socket, and a send then in flight takes its
 * request with it. The pool never fills up again, and the next block is for good.
 */
module DialerDeadlock {
  import opened SendPool
  import opened DialerProtocol
  import opened DialerLiveness

  function Sends(id: Conn, n: nat): seq<Step> { seq(n, _ => Send(id, true)) }

  /** A session that keeps sending uses up the free requests. */
  lemma {:induction false} SendsUseUp(s: Dialer, id: Conn, n: nat)
    requires !s.phase.Testing? && id in s.writers && !s.pool.blocked && n == |s.pool.free|
    ensures var t := Run(s, Sends(id, n));
      t == s.(pool := s.pool.(free := [], flying := s.pool.flying + Elements(s.pool.free)))
    decreases n
  {
    if n == 0 {
      assert s.pool.flying + Elements(s.pool.free) == s.pool.flying;
    } else {
      var top, rest := s.pool.free[n - 1], s.pool.free[..n - 1];
      var t := Do(s, Send(id, true));
      assert t == s.(pool := s.pool.(free := rest, flying := s.pool.flying + {top}));
      assert Sends(id, n)[1..] == Sends(id, n - 1);
      SendsUseUp(t, id, n - 1);
      assert s.pool.free == rest + [top];
      ElementsSnoc(rest, top);
      assert s.pool.flying + {top} + Elements(rest) == s.pool.flying + Elements(s.pool.free);
    }
  }

  /** A connection sends one packet and closes; the dialer stops, and the next connection restarts it. */
  const Prelude: seq<Step> :=
    [Create(1, true), Send(1, true), CloseConn(1), Alarm, Create(2, true), SendDone(1023)]

  lemma AfterPrelude()
    ensures var s := Run(InitialDialer, Prelude);
      && s.phase.Idle? && s.writers == map[2 := false] && s.waiting == []
      && s.pool == Pool(Requests()[..1023], {}, {}, {1023}, true, false)
  {
    var free := Requests()[..1023];
    var s1 := Do(InitialDialer, Create(1, true));
    assert s1.writers == map[1 := false];
    var s2 := Do(s1, Send(1, true));
    assert s2.pool == Pool(free, {1023}, {}, {}, true, false);
    var s3 := Do(s2, CloseConn(1));
    assert s3.writers == map[] && s3.alarm;
    var s4 := Do(s3, Alarm);
    assert s4.pool == Pool(free, {}, {1023}, {}, false, true);
    var s5 := Do(s4, Create(2, true));
    var s6 := Do(s5, SendDone(1023));
    assert s6.pool == Pool(free, {}, {}, {1023}, true, false);
    UnfoldSix(InitialDialer, Prelude);
  }

  lemma UnfoldSix(s: Dialer, p: seq<Step>)
    requires |p| == 6
    ensures Run(s, p) == Do(Do(Do(Do(Do(Do(s, p[0]), p[1]), p[2]), p[3]), p[4]), p[5])
  {
    hide Do;
    UnfoldThree(s, p[..3]);
    UnfoldThree(Run(s, p[..3]), p[3..]);
    RunAppend(s, p[..3], p[3..]);
    assert p == p[..3] + p[3..];
  }

  lemma UnfoldThree(s: Dialer, p: seq<Step>)
    requires |p| == 3
    ensures Run(s, p) == Do(Do(Do(s, p[0]), p[1]), p[2])
  {
    hide Do;
    assert p[1..][1..] == [p[2]] && p[1..][0] == p[1];
    assert [p[2]][1..] == [];
    assert Run(Do(Do(s, p[0]), p[1]), [p[2]]) == Do(Do(Do(s, p[0]), p[1]), p[2]);
  }

  /** The whole pool is used up, then one more packet blocks the writer. */
  lemma ThenBlocked()
    ensures var s := Run(InitialDialer, Prelude + Sends(2, 1023) + [Send(2, true)]);
      && s.phase.Idle? && s.pool.open && s.pool.blocked && s.pool.orphaned == {} && s.pool.lost == {1023}
      && s.waiting == [2]
  {
    AfterPrelude();
    var s := Run(InitialDialer, Prelude);
    assert |s.pool.free| == 1023;
    SendsUseUp(s, 2, 1023);
    var t := Run(s, Sends(2, 1023));
    RunAppend(InitialDialer, Prelude, Sends(2, 1023));
    RunAppend(InitialDialer, Prelude + Sends(2, 1023), [Send(2, true)]);
    assert Run(t, [Send(2, true)]) == Do(t, Send(2, true)) by { assert [Send(2, true)][1..] == []; }
  }

  /**
   * There is a run after which a connection waits on an open dialer, no send is in flight,
   * and no further run can unblock it without stopping the dialer.
   */
  lemma DeadlockIsReachable()
    ensures exists steps ::
      var s := Run(InitialDialer, steps);
      && s.pool.open && s.pool.blocked && s.waiting == [2] && s.pool.flying == {} && s.pool.orphaned == {}
      && forall more :: StaysOpen(s, more) ==> Run(s, more).pool.blocked
  {
    hide Do, Run, Sends, StaysOpen;
    var steps := Prelude + Sends(2, 1023) + [Send(2, true)];
    ThenBlocked();
    ReachableInv(steps);
    var s := Run(InitialDialer, steps);
    var order := Listing(s.pool.flying);
    Drain(s.pool, order);
    DrainWhileStuck(s, order);
    var t := Run(s, SendDones(order));
    RunAppend(InitialDialer, steps, SendDones(order));
    ReachableInv(steps + SendDones(order));
    forall more | StaysOpen(t, more) ensures Run(t, more).pool.blocked { MissingMeansStuck(t, more); }
    assert t == Run(InitialDialer, steps + SendDones(order));
  }

  lemma {:induction false} DrainWhileStuck(s: Dialer, order: seq<nat>)
    requires DialerInv(s) && s.phase.Idle? && s.pool.open && s.pool.blocked
    requires Missing(s.pool) != {} && s.pool.orphaned == {}
    requires Distinct(order) && Elements(order) == s.pool.flying
    ensures Run(s, SendDones(order)) == s.(pool := CompleteAll(s.pool, order))
    ensures CompleteAll(s.pool, order).orphaned == {} && CompleteAll(s.pool, order).blocked
    decreases |order|
  {
    hide Inv, WaitingInv, OwnershipInv, Missing;
    if order != [] {
      var r := order[0];
      RestOf(order);
      StepWhileStuck(s, SendDone(r));
      StepInv(s, SendDone(r));
      assert SendDones(order)[1..] == SendDones(order[1..]);
      DrainWhileStuck(Do(s, SendDone(r)), order[1..]);
    }
  }
}
