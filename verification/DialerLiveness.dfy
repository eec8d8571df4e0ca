/** What the dialer guarantees over whole runs: no lost wakeup, bounded and fair wakeups, no leak. */
module DialerLiveness {
  import opened SendPool
  import opened DialerProtocol

  // ---- no lost wakeup, and exactly when ---------------------------------------------------------

  /** In every reachable state the dialer either can write, or waits for a send in flight, or has lost one. */
  lemma BlockedHasSendInFlight(steps: seq<Step>)
    ensures var s := Run(InitialDialer, steps);
      s.pool.open && s.pool.blocked && Missing(s.pool) == {} ==> s.pool.flying != {}
  {
    ReachableInv(steps);
    var s := Run(InitialDialer, steps);
    if s.pool.open && s.pool.blocked && Missing(s.pool) == {} { NoLostWakeup(s.pool); }
  }

  /** Outside a wakeup somebody waits only on a blocked dialer; a writer is blocked exactly if it waits. */
  lemma NobodyIsForgotten(steps: seq<Step>)
    ensures var s := Run(InitialDialer, steps);
      && (s.phase.Idle? && s.waiting != [] ==> s.pool.blocked)
      && (forall c :: c in s.writers ==> (s.writers[c] <==> c in s.waiting))
      && (forall c :: c in s.waiting ==> c in s.writers)
  {
    ReachableInv(steps);
  }

  /** The requests of every reachable state add up. */
  lemma RequestsAreConserved(steps: seq<Step>)
    ensures var p := Run(InitialDialer, steps).pool;
      |p.free| + |p.flying| + |p.orphaned| + |p.lost| == MAX_FLYING
  {
    ReachableInv(steps);
    Conservation(Run(InitialDialer, steps).pool);
  }

  /** No step of the run stops an open dialer. */
  predicate StaysOpen(s: Dialer, steps: seq<Step>)
    decreases |steps|
  {
    steps == [] || (Do(s, steps[0]).pool.open && StaysOpen(Do(s, steps[0]), steps[1..]))
  }

  /** Completions that start a wakeup. */
  function Wakes(s: Dialer, steps: seq<Step>): nat
    decreases |steps|
  {
    if steps == [] then 0
    else
      var t := Do(s, steps[0]);
      (if s.phase.Idle? && t.phase.Testing? then 1 else 0) + Wakes(t, steps[1..])
  }

  lemma StepWhileStuck(s: Dialer, step: Step)
    requires DialerInv(s) && s.phase.Idle? && s.pool.open && s.pool.blocked && Missing(s.pool) != {}
    requires Do(s, step).pool.open
    ensures var t := Do(s, step); t.phase.Idle? && t.pool.blocked && Missing(t.pool) == Missing(s.pool)
    ensures Enabled(s, step) && step.CloseConn? ==> Do(s, step).waiting == Without(s.waiting, step.id)
    ensures !step.CloseConn? ==> s.waiting <= Do(s, step).waiting
  {
    hide Inv, WaitingInv, OwnershipInv;
    if step.SendDone? {
      CompleteInv(s.pool, step.request);
      StuckForever(s.pool, [Done(step.request)]);
      assert RunActs(s.pool, [Done(step.request)]) == Complete(s.pool, step.request);
    }
  }

  /**
   * Once a request is missing, a blocked dialer that is not stopped stays blocked for good:
   * a waiting connection never gets to write again, it can only be closed.
   */
  lemma {:induction false} MissingMeansStuck(s: Dialer, steps: seq<Step>)
    requires DialerInv(s) && s.phase.Idle? && s.pool.open && s.pool.blocked && Missing(s.pool) != {}
    requires StaysOpen(s, steps)
    ensures var t := Run(s, steps); t.pool.blocked && t.phase.Idle?
    ensures Wakes(s, steps) == 0
    decreases |steps|
  {
    hide Inv, WaitingInv, OwnershipInv, Do, Missing;
    if steps != [] {
      StepWhileStuck(s, steps[0]);
      StepInv(s, steps[0]);
      MissingMeansStuck(Do(s, steps[0]), steps[1..]);
    }
  }

  function SendDones(order: seq<nat>): seq<Step> { seq(|order|, i requires 0 <= i < |order| => SendDone(order[i])) }

  /** The completion that frees the last request starts a wakeup with everybody still in the list. */
  lemma {:induction false} DrainWakes(s: Dialer, order: seq<nat>)
    requires DialerInv(s) && s.phase.Idle? && s.pool.open && s.pool.blocked && Missing(s.pool) == {}
    requires Distinct(order) && Elements(order) == s.pool.flying
    ensures var t := Run(s, SendDones(order));
      t == s.(pool := CompleteAll(s.pool, order), phase := Testing) && !t.pool.blocked
    decreases |order|
  {
    hide Inv, WaitingInv, OwnershipInv, Complete, Missing;
    Drain(s.pool, order);
    if order == [] {
      NoLostWakeup(s.pool);
    } else {
      var r := order[0];
      RestOf(order);
      CompleteInv(s.pool, r);
      FreeAgainMissing(s.pool, r);
      assert SendDones(order)[1..] == SendDones(order[1..]);
      var t := Do(s, SendDone(r));
      if t.pool.blocked {
        StepInv(s, SendDone(r));
        DrainWakes(t, order[1..]);
      } else {
        AllFree(t.pool);
        assert order[1..] == [];
      }
    }
  }

  /** While the dialer stays blocked, nothing goes missing and sends leave it by completing only. */
  lemma StepWhileWhole(s: Dialer, step: Step)
    requires DialerInv(s) && s.phase.Idle? && s.pool.open && s.pool.blocked && Missing(s.pool) == {}
    requires Do(s, step).pool.open
    ensures var t := Do(s, step);
      !t.phase.Testing? ==>
        && t.phase.Idle? && t.pool.blocked && Missing(t.pool) == {}
        && t.pool.flying == s.pool.flying - if step.SendDone? then {step.request} else {}
  {
    hide Inv, WaitingInv, OwnershipInv;
  }

  /** The run completes every send in flight. */
  predicate CompletesAll(s: Dialer, steps: seq<Step>) { forall r :: r in s.pool.flying ==> SendDone(r) in steps }

  /** Whatever else happens in between, once all sends in flight have completed a wakeup has started. */
  lemma {:induction false} CompletionsWake(s: Dialer, steps: seq<Step>)
    requires DialerInv(s) && s.phase.Idle? && s.pool.open && s.pool.blocked && Missing(s.pool) == {}
    requires StaysOpen(s, steps) && CompletesAll(s, steps)
    ensures Wakes(s, steps) >= 1
    decreases |steps|
  {
    hide Inv, WaitingInv, OwnershipInv, Do, Missing;
    NoLostWakeup(s.pool);
    if steps != [] {
      var t := Do(s, steps[0]);
      StepWhileWhole(s, steps[0]);
      StepInv(s, steps[0]);
      if !t.phase.Testing? {
        assert forall x :: x in steps ==> x == steps[0] || x in steps[1..];
        CompletionsWake(t, steps[1..]);
      }
    }
  }

  /**
   * A blocked dialer wakes once its sends have completed, however they are interleaved with
   * other steps, exactly if no request is missing: none was refused by the socket, none was
   * in flight when an earlier socket closed. Otherwise no run at all wakes it, short of a stop.
   */
  lemma WakesExactly(s: Dialer)
    requires DialerInv(s) && s.phase.Idle? && s.pool.open && s.pool.blocked
    ensures (forall steps :: StaysOpen(s, steps) && CompletesAll(s, steps) ==> Wakes(s, steps) >= 1) <==>
      Missing(s.pool) == {}
    ensures (exists steps :: StaysOpen(s, steps) && Wakes(s, steps) >= 1) <==> Missing(s.pool) == {}
  {
    hide Inv, WaitingInv, OwnershipInv, Missing, Do, StaysOpen, Wakes;
    var order := Listing(s.pool.flying);
    SendDonesStayOpen(s, order);
    SendDonesComplete(s, order);
    if Missing(s.pool) == {} {
      forall steps | StaysOpen(s, steps) && CompletesAll(s, steps) ensures Wakes(s, steps) >= 1 {
        CompletionsWake(s, steps);
      }
      assert StaysOpen(s, SendDones(order)) && Wakes(s, SendDones(order)) >= 1;
    } else {
      forall steps | StaysOpen(s, steps) ensures Wakes(s, steps) == 0 { MissingMeansStuck(s, steps); }
      assert StaysOpen(s, SendDones(order)) && CompletesAll(s, SendDones(order));
    }
  }

  lemma SendDonesComplete(s: Dialer, order: seq<nat>)
    requires Elements(order) == s.pool.flying
    ensures CompletesAll(s, SendDones(order))
  {
    forall r | r in s.pool.flying ensures SendDone(r) in SendDones(order) {
      var i :| 0 <= i < |order| && order[i] == r;
      assert SendDones(order)[i] == SendDone(r);
    }
  }

  lemma {:induction false} SendDonesStayOpen(s: Dialer, order: seq<nat>)
    requires s.pool.open
    ensures StaysOpen(s, SendDones(order))
    decreases |order|
  {
    if order != [] {
      assert SendDones(order)[1..] == SendDones(order[1..]);
      SendDonesStayOpen(Do(s, SendDone(order[0])), order[1..]);
    }
  }

  // ---- a wakeup ends ----------------------------------------------------------------------------------

  function Pops(s: Dialer, steps: seq<Step>): nat
    decreases |steps|
  {
    if steps == [] then 0
    else (if steps[0].Pop? && Enabled(s, steps[0]) then 1 else 0) + Pops(Do(s, steps[0]), steps[1..])
  }

  /** No step of the run ends the wakeup. */
  predicate StaysAwake(s: Dialer, steps: seq<Step>)
    decreases |steps|
  {
    !s.phase.Idle? && (steps == [] || StaysAwake(Do(s, steps[0]), steps[1..]))
  }

  /** What is left to do in a wakeup: nothing once the writer is blocked again. */
  function LeftToWake(s: Dialer): nat { if s.pool.blocked then 0 else |s.waiting| }

  lemma WakeShrinks(s: Dialer, step: Step)
    requires DialerInv(s) && !s.phase.Idle?
    ensures LeftToWake(Do(s, step)) <= LeftToWake(s)
    ensures step.Pop? && Enabled(s, step) ==> LeftToWake(Do(s, step)) < LeftToWake(s)
  {
    hide Inv, OwnershipInv;
    if Enabled(s, step) {
      match step
      case CloseConn(id) => WithoutMembers(s.waiting, id);
      case Report(id) => ReportInv(s, id);
      case Send(id, accepted) => WriteInv(s.pool, accepted);
      case _ =>
    }
  }

  /** Whatever the sessions do while they are served, a wakeup makes at most one pass per waiting connection. */
  lemma {:induction false} WakeIsBounded(s: Dialer, steps: seq<Step>)
    requires DialerInv(s) && StaysAwake(s, steps)
    ensures Pops(s, steps) + LeftToWake(Run(s, steps)) <= LeftToWake(s)
    decreases |steps|
  {
    hide Inv, WaitingInv, OwnershipInv, Do, LeftToWake, Enabled;
    if steps != [] {
      WakeShrinks(s, steps[0]);
      StepInv(s, steps[0]);
      WakeIsBounded(Do(s, steps[0]), steps[1..]);
    }
  }

  // ---- nobody starves -----------------------------------------------------------------------------------

  function Place(waiting: seq<Conn>, c: Conn): nat
    requires c in waiting
  {
    if waiting[0] == c then 0 else 1 + Place(waiting[1..], c)
  }

  predicate StaysWaiting(s: Dialer, steps: seq<Step>, c: Conn)
    decreases |steps|
  {
    c in s.waiting && (steps == [] || StaysWaiting(Do(s, steps[0]), steps[1..], c))
  }

  lemma {:induction false} PlaceAfterAppend(waiting: seq<Conn>, tail: seq<Conn>, c: Conn)
    requires c in waiting
    ensures Place(waiting + tail, c) == Place(waiting, c)
  {
    if waiting[0] != c {
      PlaceAfterAppend(waiting[1..], tail, c);
      assert (waiting + tail)[1..] == waiting[1..] + tail;
    }
  }

  lemma {:induction false} PlaceAfterRemoval(waiting: seq<Conn>, d: Conn, c: Conn)
    requires c in waiting && c in Without(waiting, d)
    ensures Place(Without(waiting, d), c) <= Place(waiting, c)
  {
    if d == c {
      NotWithout(waiting, d);
      assert false;
    } else if waiting[0] == d {
      PlaceAfterRemoval(waiting[1..], d, c);
    } else if waiting[0] != c {
      assert Without(waiting, d)[1..] == Without(waiting[1..], d);
      PlaceAfterRemoval(waiting[1..], d, c);
    }
  }

  lemma {:induction false} NotWithout(waiting: seq<Conn>, d: Conn)
    ensures d !in Without(waiting, d)
  {
    if waiting != [] { NotWithout(waiting[1..], d); }
  }

  /** A connection that goes on waiting never falls back, and moves up at every pass. */
  lemma StepKeepsPlace(s: Dialer, step: Step, c: Conn)
    requires DialerInv(s) && c in s.waiting && c in Do(s, step).waiting
    ensures Place(Do(s, step).waiting, c) + (if step.Pop? && Enabled(s, step) then 1 else 0) <= Place(s.waiting, c)
  {
    hide Inv, OwnershipInv, Write, Complete, Place;
    if Enabled(s, step) {
      match step
      case CloseConn(id) => PlaceAfterRemoval(s.waiting, id, c);
      case Report(id) => ReportInv(s, id);
      case Send(id, accepted) => PlaceAfterAppend(s.waiting, [id], c);
      case Pop => PlaceAfterPop(s.waiting, c);
      case _ =>
    }
  }

  lemma PlaceAfterPop(waiting: seq<Conn>, c: Conn)
    requires Distinct(waiting) && waiting != [] && c in waiting[1..]
    ensures Place(waiting[1..], c) + 1 <= Place(waiting, c)
  {
    assert waiting[0] != c;
  }

  /** A wakeup has begun and its first pass is still to come. */
  function PassDue(s: Dialer): nat { if s.phase.Testing? && !s.pool.blocked then 1 else 0 }

  lemma StepPaysForWake(s: Dialer, step: Step)
    requires DialerInv(s) && s.waiting != []
    ensures (if s.phase.Idle? && Do(s, step).phase.Testing? then 1 else 0) + PassDue(s)
         <= (if step.Pop? && Enabled(s, step) then 1 else 0) + PassDue(Do(s, step))
  {
    hide Inv, WaitingInv, OwnershipInv;
  }

  lemma {:induction false} WaitingRun(s: Dialer, steps: seq<Step>, c: Conn)
    requires DialerInv(s) && StaysWaiting(s, steps, c)
    ensures var t := Run(s, steps);
      && c in t.waiting && Place(t.waiting, c) + Pops(s, steps) <= Place(s.waiting, c)
      && Wakes(s, steps) + PassDue(s) <= Pops(s, steps) + PassDue(t)
    decreases |steps|
  {
    hide Inv, WaitingInv, OwnershipInv, Do, Place, PassDue, Enabled;
    if steps != [] {
      StepInv(s, steps[0]);
      StepKeepsPlace(s, steps[0], c);
      StepPaysForWake(s, steps[0]);
      WaitingRun(Do(s, steps[0]), steps[1..], c);
    }
  }

  /** The k-th waiting connection does not wait through more than k + 1 wakeups. */
  lemma ServedWithin(s: Dialer, steps: seq<Step>, c: Conn)
    requires DialerInv(s) && s.phase.Idle? && c in s.waiting
    requires Run(s, steps).phase.Idle? && Wakes(s, steps) >= Place(s.waiting, c) + 1
    ensures !StaysWaiting(s, steps, c)
  {
    hide Inv, WaitingInv, OwnershipInv, Place, Do;
    if StaysWaiting(s, steps, c) {
      WaitingRun(s, steps, c);
    }
  }

  /** It stops waiting only by being served with its writer cleared, by being closed, or by a stop. */
  lemma LeavesBy(s: Dialer, step: Step, c: Conn)
    requires DialerInv(s) && c in s.waiting && c !in Do(s, step).waiting
    ensures var t := Do(s, step);
      || (step.Pop? && s.waiting[0] == c && c in t.writers && !t.writers[c] && t.phase.Serving?)
      || (step == CloseConn(c) && c in t.closed)
      || (step.Stop? && c in t.destroyed)
  {
    hide Inv, OwnershipInv;
    if step.CloseConn? { WithoutMembers(s.waiting, step.id); }
    if step.Pop? { PopWaiting(s.writers, s.waiting); }
  }

  // ---- ownership ------------------------------------------------------------------------------------------

  ghost function Everybody(s: Dialer): set<Conn> { s.writers.Keys + Elements(s.closed) + s.destroyed }

  /** Connections appear by creation only, never vanish, and are never deleted twice. */
  lemma NobodyVanishes(s: Dialer, step: Step)
    requires DialerInv(s)
    ensures Everybody(Do(s, step)) ==
      Everybody(s) + if step.Create? && Enabled(s, step) && Do(s, step).pool.open then {step.id} else {}
    ensures s.destroyed <= Do(s, step).destroyed
    ensures forall c :: c in Do(s, step).destroyed - s.destroyed ==> c in s.writers || c in s.closed
  {
    hide Inv, Append, Without, Write, Complete, Close;
  }

  /** The connections a run creates: a creation fails only if the dialer cannot be started for it. */
  function CreatedBy(s: Dialer, steps: seq<Step>): set<Conn>
    decreases |steps|
  {
    if steps == [] then {}
    else
      var t := Do(s, steps[0]);
      (if steps[0].Create? && Enabled(s, steps[0]) && t.pool.open then {steps[0].id} else {}) + CreatedBy(t, steps[1..])
  }

  /** Over a whole run, exactly the connections that were there or were created are still accounted for. */
  lemma {:induction false} EverybodyIsKept(s: Dialer, steps: seq<Step>)
    requires DialerInv(s)
    ensures Everybody(Run(s, steps)) == Everybody(s) + CreatedBy(s, steps)
    ensures s.destroyed <= Run(s, steps).destroyed
    decreases |steps|
  {
    hide Inv, WaitingInv, OwnershipInv, Do, Everybody, Enabled;
    if steps != [] {
      NobodyVanishes(s, steps[0]);
      StepInv(s, steps[0]);
      EverybodyIsKept(Do(s, steps[0]), steps[1..]);
    }
  }

  /** Exactly one of three. */
  predicate ExactlyOne(a: bool, b: bool, c: bool) { (a || b || c) && !(a && b) && !(a && c) && !(b && c) }

  /**
   * After any run every connection ever created is in exactly one of live, closed and
   * destroyed, and nothing else is; only live ones wait; closed ones have the alarm set.
   */
  lemma OneOwner(steps: seq<Step>)
    ensures var s, all := Run(InitialDialer, steps), CreatedBy(InitialDialer, steps);
      && (forall c :: c in all ==> ExactlyOne(c in s.writers, c in s.closed, c in s.destroyed))
      && (forall c :: c in s.writers || c in s.closed || c in s.destroyed ==> c in all)
      && (forall c :: c in s.waiting ==> c in s.writers)
      && (s.closed != [] ==> s.alarm)
  {
    hide Inv;
    InitialInv();
    EverybodyIsKept(InitialDialer, steps);
    ReachableInv(steps);
    var s := Run(InitialDialer, steps);
    assert Everybody(InitialDialer) == {};
    assert Everybody(s) == CreatedBy(InitialDialer, steps);
    assert forall c :: c in s.closed <==> c in Elements(s.closed);
  }

  /**
   * What becomes of a connection. It lives from its creation until it is closed or the dialer
   * is stopped, whatever else happens; a closed one is destroyed when the alarm rings or at a stop.
   */
  lemma LifeExactly(s: Dialer, step: Step, c: Conn)
    requires DialerInv(s)
    ensures
      var t, does := Do(s, step), Enabled(s, step);
      && (c in t.writers <==>
        || (does && step.Create? && step.id == c && (s.pool.open || step.bound))
        || (c in s.writers && !(does && (step == CloseConn(c) || step.Stop?))))
      && (c in t.closed <==>
        (does && step == CloseConn(c)) || (c in s.closed && !(does && (step.Alarm? || step.Stop?))))
      && (c in t.destroyed <==>
        || c in s.destroyed
        || (does && step.Alarm? && c in s.closed)
        || (does && step.Stop? && (c in s.closed || c in s.writers)))
  {
    hide Inv, Append, Without, Write, Complete;
  }

  /** Over a whole run a live connection goes only if it is closed or the dialer is stopped. */
  lemma {:induction false} LivesOn(s: Dialer, steps: seq<Step>, c: Conn)
    requires DialerInv(s) && c in s.writers && CloseConn(c) !in steps && Stop !in steps
    ensures c in Run(s, steps).writers
    decreases |steps|
  {
    hide DialerInv, Do, Enabled;
    if steps != [] {
      assert steps[0] in steps;
      LifeExactly(s, steps[0], c);
      StepInv(s, steps[0]);
      LivesOn(Do(s, steps[0]), steps[1..], c);
    }
  }

  /** The socket is opened by a start or a creation, and closed by a stop or an alarm that finds nobody alive. */
  lemma OpenExactly(s: Dialer, step: Step)
    requires DialerInv(s)
    ensures var does := Enabled(s, step);
      Do(s, step).pool.open <==>
      || (does && (step.Start? || step.Create?) && step.bound)
      || (s.pool.open && !(does && (step.Stop? || (step.Alarm? && s.writers == map[]))))
    ensures !s.pool.open && Do(s, step).pool.open ==> !Do(s, step).pool.blocked
  {
    hide Inv, WaitingInv, OwnershipInv, Append, Without;
  }

  /** A session's writer is blocked by a send that finds no request, and cleared only when it is woken. */
  lemma WriterExactly(s: Dialer, step: Step, c: Conn)
    requires DialerInv(s) && c in Do(s, step).writers
    ensures
      var t, does := Do(s, step), Enabled(s, step);
      t.writers[c] <==>
      || (does && step.Send? && step.id == c && (s.pool.blocked || s.pool.free == []))
      || (c in s.writers && s.writers[c] && !(does && step.Pop? && s.waiting[0] == c))
  {
    hide Inv, OwnershipInv, Append, Without, Complete;
  }

  /**
   * The alarm is set by a close, also by the first one that a stop makes; it is cleared when it
   * rings and when the socket is opened again.
   */
  lemma AlarmExactly(s: Dialer, step: Step)
    requires DialerInv(s) && Enabled(s, step)
    ensures
      var t := Do(s, step);
      match step
      case CloseConn(_) => t.alarm
      case Alarm => !t.alarm
      case Stop => t.alarm == if s.pool.open then s.writers != map[] && s.closed == [] else s.alarm
      case Start(bound) => t.alarm == (s.alarm && (s.pool.open || !bound))
      case Create(_, bound) => t.alarm == (s.alarm && (s.pool.open || !bound))
      case _ => t.alarm == s.alarm
  {
    hide Inv, WaitingInv, Append, Without;
    if s.writers != map[] { assert s.writers.Keys != {}; }
  }

  /** An alarm that finds somebody alive leaves the socket and the waiting ones alone. */
  lemma AlarmSpares(s: Dialer)
    requires DialerInv(s) && Enabled(s, Alarm)
    ensures s.writers != map[] ==> Do(s, Alarm).pool == s.pool && Do(s, Alarm).waiting == s.waiting
    ensures !s.pool.open ==> Do(s, Alarm) == s.(alarm := false)
  {
    hide Inv, WaitingInv;
  }

  /** Stopping leaves nothing alive and nothing pending; everything that ever lived has been destroyed. */
  lemma StopDestroysAll(s: Dialer)
    requires DialerInv(s) && s.phase.Idle? && s.pool.open
    ensures var t := Do(s, Stop);
      t.writers == map[] && t.closed == [] && t.waiting == [] && t.destroyed == Everybody(s) && !t.pool.open
  {}
}
