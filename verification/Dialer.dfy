/** The dialer itself: the same fields and the same loops, tied to the step system. */
module Dialer {
  import opened SendPool
  import opened DialerProtocol
  import opened DialerLiveness

  /** Steps a session or the caller may take while a session is being served. */
  predicate BySession(step: Step) {
    step.Start? || step.Create? || step.Send? || step.Report? || step.CloseConn?
  }

  class PuicDialer {
    var started: bool
    var availSendReqs: seq<nat>
    var writeBlocked: bool
    var conns: map<Conn, bool>  // with the flag of each session's own writer
    var closedConns: seq<Conn>
    var blockedConns: seq<Conn>
    var deleteConnsAlarm: bool

    // The other side: requests held by sockets, released requests, deleted connections,
    // and how far the wakeup loop has come.
    var flying: set<nat>
    var orphaned: set<nat>
    var lost: set<nat>
    var destroyed: set<Conn>
    var phase: Phase

    function State(): DialerProtocol.Dialer
      reads this
    {
      DialerProtocol.Dialer(Pool(availSendReqs, flying, orphaned, lost, started, writeBlocked),
                            conns, blockedConns, closedConns, destroyed, deleteConnsAlarm, phase)
    }

    constructor ()
      ensures State() == InitialDialer
    {
      started, writeBlocked := false, true;
      availSendReqs := Requests();
      conns, closedConns, blockedConns, deleteConnsAlarm := map[], [], [], false;
      flying, orphaned, lost, destroyed, phase := {}, {}, {}, {}, Idle;
    }

    /** Opens the socket; `bound` is whether binding it and starting to receive succeeded. */
    method Start(bound: bool) returns (ok: bool)
      modifies this
      ensures State() == Started(old(State()), bound) && (ok <==> !old(started) && bound)
    {
      if started {
        return false;
      }
      if !bound {
        return false;
      }
      writeBlocked := false;
      deleteConnsAlarm := false;
      started := true;
      return true;
    }

    method CreateConn(id: Conn, bound: bool) returns (created: bool)
      modifies this
      ensures State() == Created(old(State()), id, bound) && created == (old(started) || bound)
    {
      if !started {
        var ok := Start(bound);
        if !ok {
          return false;
        }
      }
      conns := conns[id := false];
      return true;
    }

    method WritePacket(accepted: bool) returns (status: Status)
      modifies this
      ensures (State().pool, status) == Write(old(State()).pool, accepted)
      ensures State() == old(State()).(pool := State().pool)
      ensures status == Ok <==> !old(writeBlocked) && old(availSendReqs) != [] && accepted
      ensures status == Blocked <==> old(writeBlocked) || old(availSendReqs) == []
    {
      if writeBlocked {
        return Blocked;
      }
      if availSendReqs == [] {
        writeBlocked := true;
        return Blocked;
      }
      var req := availSendReqs[|availSendReqs| - 1];
      availSendReqs := availSendReqs[..|availSendReqs| - 1];
      if !accepted {
        lost := lost + {req};
        return Error;
      }
      flying := flying + {req};
      return Ok;
    }

    method OnConnWriteBlocked(id: Conn)
      modifies this
      ensures State() == old(State()).(waiting := Append(old(State()).waiting, id))
    {
      if id !in blockedConns {
        blockedConns := blockedConns + [id];
      }
    }

    /** A session writes through its own writer and reports a block at once. */
    method SessionWrite(id: Conn, accepted: bool)
      requires id in conns
      modifies this
      ensures State() == Sent(old(State()), id, accepted)
    {
      var status := WritePacket(accepted);
      if status == Blocked {
        conns := conns[id := true];
        OnConnWriteBlocked(id);
      }
    }

    method OnConnClosed(id: Conn)
      modifies this
      ensures State() == if id in old(conns) then Closed(old(State()), id) else old(State())
    {
      if id !in conns {
        return;
      }
      if closedConns == [] {
        deleteConnsAlarm := true;
      }
      closedConns := closedConns + [id];
      conns := conns - {id};
      blockedConns := Without(blockedConns, id);
    }

    /** A session closes; it may try to send a last packet, which a stopping dialer refuses. */
    method SessionClose(id: Conn, lastPacket: bool)
      requires id in conns && writeBlocked
      modifies this
      ensures State() == Closed(old(State()), id)
    {
      ghost var s := State();
      if lastPacket {
        SessionWrite(id, true);
        AppendThenWithout(s.waiting, id);
        assert s.writers[id := true] - {id} == s.writers - {id};
      }
      OnConnClosed(id);
    }

    /** Closes the socket and every session, and deletes them. */
    method Stop(lastPackets: Conn -> bool)
      requires DialerInv(State())
      modifies this
      ensures State() == Stopped(old(State()))
    {
      if !started {
        return;
      }
      hide DialerInv, Closing, Stopped, Closed;
      ghost var s := State();
      CloseSocket();
      ClosingBegins(s, State());
      while conns != map[]
        invariant Closing(s, State())
        decreases |conns.Keys|
      {
        var id :| id in conns;
        ClosingOne(s, State(), id);
        SessionClose(id, lastPackets(id));
      }
      ClosingDone(s, State());
      DeleteAll();
    }

    /** The socket starts to close; what was in flight on it will complete there. */
    method CloseSocket()
      requires started
      modifies this
      ensures State() == old(State()).(pool := Close(old(State()).pool).(open := true), alarm := false)
    {
      orphaned, flying := orphaned + flying, {};
      writeBlocked := true;
      deleteConnsAlarm := false;
    }

    method DeleteAll()
      modifies this
      ensures var s := old(State());
        State() == s.(closed := [], destroyed := s.destroyed + Elements(s.closed), pool := s.pool.(open := false))
    {
      destroyed := destroyed + Elements(closedConns);
      closedConns := [];
      started := false;
    }

    /** The delete alarm: deletes the closed connections, and stops a dialer that has none left. */
    method OnAlarm(lastPackets: Conn -> bool)
      requires DialerInv(State()) && phase.Idle?
      modifies this
      ensures State() == Rang(old(State()))
      ensures conns == old(conns) && closedConns == [] && destroyed == old(destroyed) + Elements(old(closedConns))
      ensures started <==> old(started) && conns != map[]
    {
      ghost var s := State();
      deleteConnsAlarm := false;
      destroyed := destroyed + Elements(closedConns);
      closedConns := [];
      if conns == map[] {
        RangStillInv(s);
        Stop(lastPackets);
      }
    }

    static lemma RangStillInv(s: DialerProtocol.Dialer)
      requires DialerInv(s)
      ensures DialerInv(s.(alarm := false, closed := [], destroyed := s.destroyed + Elements(s.closed)))
    {
      hide Inv, WaitingInv;
    }

    /** Carries out one step of a session, unless the session may not take it. */
    method React(step: Step)
      requires BySession(step) && phase.Serving?
      modifies this
      ensures State() == Do(old(State()), step)
    {
      match step
      case Start(bound) =>
        var _ := Start(bound);
      case Create(id, bound) =>
        if id !in conns && id !in closedConns && id !in destroyed {
          var _ := CreateConn(id, bound);
        }
      case Send(id, accepted) =>
        if id in conns {
          SessionWrite(id, accepted);
        }
      case Report(id) =>
        if id in conns && conns[id] {
          OnConnWriteBlocked(id);
        }
      case CloseConn(id) =>
        OnConnClosed(id);
    }

    /** Serving one session: whatever steps it takes. */
    method Serve(steps: seq<Step>)
      requires DialerInv(State()) && phase.Serving? && forall i :: 0 <= i < |steps| ==> BySession(steps[i])
      modifies this
      ensures DialerInv(State()) && phase.Serving? && State() == Run(old(State()), steps)
      ensures LeftToWake(State()) <= LeftToWake(old(State()))
      ensures Pops(old(State()), steps) == 0
    {
      hide DialerInv, Do, LeftToWake;
      assert steps[..0] == [];
      for i := 0 to |steps|
        invariant DialerInv(State()) && phase.Serving? && State() == Run(old(State()), steps[..i])
        invariant LeftToWake(State()) <= LeftToWake(old(State()))
        invariant Pops(old(State()), steps[..i]) == 0
      {
        assert steps[..i + 1] == steps[..i] + [steps[i]];
        RunOne(State(), steps[i]);
        RunAppend(old(State()), steps[..i], [steps[i]]);
        PopsAppend(old(State()), steps[..i], [steps[i]]);
        StepInv(State(), steps[i]);
        WakeShrinks(State(), steps[i]);
        SessionKeepsServing(State(), steps[i]);
        React(steps[i]);
      }
      assert steps[..|steps|] == steps;
    }

    method PopFirst()
      requires phase.Testing? && blockedConns != [] && !writeBlocked
      modifies this
      ensures State() == Do(old(State()), Pop) && phase.Serving? && Enabled(old(State()), Pop)
    {
      var conn := blockedConns[0];
      blockedConns := blockedConns[1..];
      conns := conns[conn := false];
      phase := Serving;
    }

    method BackToTest()
      requires phase.Serving?
      modifies this
      ensures State() == Do(old(State()), Served) && phase.Testing? && LeftToWake(State()) == LeftToWake(old(State()))
    {
      phase := Testing;
    }

    method FinishWake()
      requires phase.Testing? && (blockedConns == [] || writeBlocked)
      modifies this
      ensures State() == Do(old(State()), EndWake) && phase.Idle?
      ensures blockedConns == old(blockedConns) && writeBlocked == old(writeBlocked)
    {
      phase := Idle;
    }

    /**
     * The wakeup loop. However the sessions behave when served, it ends, after at most one
     * pass per waiting connection, with nobody waiting or the writer blocked again.
     */
    method Wakeup(serve: nat -> seq<Step>) returns (ghost trace: seq<Step>)
      requires DialerInv(State()) && phase.Testing? && !writeBlocked
      requires forall n: nat, i: nat :: i < |serve(n)| ==> BySession(serve(n)[i])
      modifies this
      ensures DialerInv(State()) && phase.Idle? && (blockedConns == [] || writeBlocked)
      ensures State() == Run(old(State()), trace) && Pops(old(State()), trace) <= |old(blockedConns)|
    {
      hide DialerInv, Do, Enabled;
      trace := [];
      ghost var s := State();
      var pass := 0;
      while blockedConns != [] && !writeBlocked
        invariant DialerInv(State()) && phase.Testing? && State() == Run(s, trace)
        invariant Pops(s, trace) + LeftToWake(State()) <= LeftToWake(s)
        decreases LeftToWake(State())
      {
        ghost var before := State();
        StepInv(before, Pop);
        WakeShrinks(before, Pop);
        PopFirst();
        Serve(serve(pass));
        StepInv(State(), Served);
        BackToTest();
        OnePass(s, trace, serve(pass));
        trace := trace + [Pop] + serve(pass) + [Served];
        pass := pass + 1;
      }
      ghost var last := State();
      StepInv(last, EndWake);
      FinishWake();
      RunOne(last, EndWake);
      RunAppend(s, trace, [EndWake]);
      PopsAppend(s, trace, [EndWake]);
      trace := trace + [EndWake];
    }

    /** A send completed on the open socket, or on one that is closing. */
    method OnUvSend(req: nat, closing: bool, serve: nat -> seq<Step>) returns (ghost trace: seq<Step>)
      requires DialerInv(State()) && phase.Idle?
      requires if closing then req in orphaned else req in flying
      requires forall n: nat, i: nat :: i < |serve(n)| ==> BySession(serve(n)[i])
      modifies this
      ensures DialerInv(State()) && phase.Idle?
      ensures State() == Run(old(State()), [SendDone(req)] + trace)
      ensures trace == [] || Completed(old(State()), req).phase.Testing?
    {
      ghost var s := State();
      trace := [];
      StepInv(s, SendDone(req));
      RunOne(s, SendDone(req));
      if closing {
        SeparateSets(s, req);
        orphaned := orphaned - {req};
        lost := lost + {req};
        assert State() == Do(s, SendDone(req));
        assert [SendDone(req)] + trace == [SendDone(req)];
        return;
      }
      flying := flying - {req};
      availSendReqs := availSendReqs + [req];
      if writeBlocked && |availSendReqs| == MAX_FLYING {
        writeBlocked := false;
        phase := Testing;
        assert State() == Do(s, SendDone(req));
        trace := Wakeup(serve);
        RunAppend(s, [SendDone(req)], trace);
      } else {
        assert State() == Do(s, SendDone(req));
        assert [SendDone(req)] + trace == [SendDone(req)];
      }
    }
  }

  /** How far stopping a dialer has come: nobody is left out, the alarm went off at the first close. */
  ghost predicate Closing(s: DialerProtocol.Dialer, t: DialerProtocol.Dialer) {
    && t.pool == Close(s.pool).(open := true)
    && Elements(t.closed) + t.writers.Keys == Elements(s.closed) + s.writers.Keys
    && (forall c :: c in t.waiting ==> c in t.writers)
    && t.destroyed == s.destroyed && t.phase == s.phase
    && |s.closed| <= |t.closed|
    && t.alarm == (|s.closed| == 0 < |t.closed|)
    && if |t.closed| == |s.closed| then t.closed == s.closed && t.writers == s.writers else s.writers.Keys != {}
  }

  lemma ClosingBegins(s: DialerProtocol.Dialer, t: DialerProtocol.Dialer)
    requires DialerInv(s) && t == s.(pool := Close(s.pool).(open := true), alarm := false)
    ensures Closing(s, t)
  {
    hide Inv;
  }

  lemma ClosingOne(s: DialerProtocol.Dialer, t: DialerProtocol.Dialer, id: Conn)
    requires Closing(s, t) && id in t.writers
    ensures t.pool.blocked
    ensures Closing(s, Closed(t, id)) && |Closed(t, id).writers.Keys| < |t.writers.Keys|
  {
    hide Elements, Without;
    ElementsSnoc(t.closed, id);
    assert id in t.writers.Keys;
    assert (t.writers - {id}).Keys == t.writers.Keys - {id};
    MoveOver(Elements(t.closed), t.writers.Keys, id);
    WithoutOnly(t.waiting, id);
  }

  lemma MoveOver(a: set<Conn>, b: set<Conn>, x: Conn)
    requires x in b
    ensures (a + {x}) + (b - {x}) == a + b && |b - {x}| < |b|
  {}

  lemma ClosingDone(s: DialerProtocol.Dialer, t: DialerProtocol.Dialer)
    requires Closing(s, t) && t.writers == map[] && s.pool.open
    ensures t.waiting == []
    ensures Stopped(s) ==
      t.(closed := [], destroyed := t.destroyed + Elements(t.closed), pool := t.pool.(open := false))
  {
    HasMember(t.waiting);
    assert t.writers.Keys == {};
    assert t.destroyed + Elements(t.closed) == s.destroyed + Elements(s.closed) + s.writers.Keys;
  }

  lemma SeparateSets(s: DialerProtocol.Dialer, r: nat)
    requires DialerInv(s) && r in s.pool.orphaned
    ensures r !in s.pool.flying
  {}

  lemma RunOne(s: DialerProtocol.Dialer, step: Step)
    ensures Run(s, [step]) == Do(s, step)
    ensures Pops(s, [step]) == if step.Pop? && Enabled(s, step) then 1 else 0
  {
    hide Do;
    assert [step][1..] == [];
  }

  lemma {:induction false} PopsAppend(s: DialerProtocol.Dialer, a: seq<Step>, b: seq<Step>)
    ensures Pops(s, a + b) == Pops(s, a) + Pops(Run(s, a), b)
    decreases |a|
  {
    hide Do, Enabled;
    if a == [] {
      assert a + b == b;
    } else {
      assert (a + b)[1..] == a[1..] + b;
      PopsAppend(Do(s, a[0]), a[1..], b);
    }
  }

  /** One pass of the loop, as steps: a pop, what the session does, and the return to the test. */
  lemma OnePass(s: DialerProtocol.Dialer, trace: seq<Step>, steps: seq<Step>)
    ensures var t := trace + [Pop] + steps + [Served];
      var popped := Do(Run(s, trace), Pop);
      && Run(s, t) == Do(Run(popped, steps), Served)
      && Pops(s, t) == Pops(s, trace) + (if Enabled(Run(s, trace), Pop) then 1 else 0) + Pops(popped, steps)
  {
    hide Do, Enabled;
    RunAppend(s, trace, [Pop]);
    RunAppend(s, trace + [Pop], steps);
    RunAppend(s, trace + [Pop] + steps, [Served]);
    PopsAppend(s, trace, [Pop]);
    PopsAppend(s, trace + [Pop], steps);
    PopsAppend(s, trace + [Pop] + steps, [Served]);
    RunOne(Run(s, trace), Pop);
    RunOne(Run(s, trace + [Pop] + steps), Served);
  }

  lemma SessionKeepsServing(s: DialerProtocol.Dialer, step: Step)
    requires BySession(step) && s.phase.Serving?
    ensures Do(s, step).phase.Serving?
  {}

  lemma {:induction false} WithoutOnly(waiting: seq<Conn>, c: Conn)
    ensures forall d :: d in Without(waiting, c) ==> d in waiting && d != c
  {
    if waiting != [] {
      WithoutOnly(waiting[1..], c);
    }
  }

  lemma {:induction false} AppendThenWithout(waiting: seq<Conn>, c: Conn)
    ensures Without(Append(waiting, c), c) == Without(waiting, c)
  {
    if c !in waiting {
      WithoutLast(waiting, c);
    }
  }

  lemma {:induction false} WithoutLast(waiting: seq<Conn>, c: Conn)
    ensures Without(waiting + [c], c) == Without(waiting, c)
  {
    if waiting == [] {
      assert [c][1..] == [];
      assert waiting + [c] == [c];
    } else {
      assert (waiting + [c])[1..] == waiting[1..] + [c];
      WithoutLast(waiting[1..], c);
    }
  }
}
