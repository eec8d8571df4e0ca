/**
 * What an event does to a running job, told from the event and the state it comes in: whether
 * the job ends, whether TCP is read, what is relayed, and when the socket closes.
 */
module RelayOutcome {
  import opened RelayProtocol
  import opened RelaySafety

  // ---- one event -------------------------------------------------------------------------

  /** Passing on goes wrong: QUIC dies of being asked, or libuv refuses a write of what is left. */
  predicate FailsToPass(left: bool, writeof: bool, next: Next) { next.dies || (left && !writeof && !next.ok) }

  /** The events that report a failure or a death, or run into one. */
  predicate Fails(s: Relay, e: Event) {
    match e
    case Connected(ok, named, readOk) =>
      !s.tcp.closing && (!ok || (named && !readOk && !s.tcp.reading && !s.tcp.readeof))
    case Read(_, _, dies, _) => dies
    case ReadEof(_, dies) => dies
    case ReadFailed => true
    case Written(ok, dies, next) =>
      && !s.tcp.closing
      && (!ok || dies || FailsToPass(s.quic.consumed + |s.tcp.inFlight| < |s.quic.received|, s.tcp.writeof, next))
    case ShutDone(ok) => !s.tcp.closing && !ok
    case QuicReadable(data, _, next) =>
      !s.tcp.writing && FailsToPass(s.quic.consumed < |s.quic.received + data|, s.tcp.writeof, next)
    case QuicDrained(u, readOk) =>
      !s.quic.finWritten && u <= WRITEBUF_LOWER && !readOk && !s.tcp.reading && !s.tcp.readeof
    case QuicGone => true
    case UvClosed => false
    case Collected => false
  }

  /** Whether TCP is read after an event that does not fail. */
  predicate ReadsAfter(s: Relay, e: Event) {
    match e
    case Connected(_, named, _) => s.tcp.reading || (named && !s.tcp.closing && !s.tcp.readeof)
    case Read(_, u, _, _) => u < WRITEBUF_UPPER
    case ReadEof(_, _) => false
    case UvClosed => false
    case QuicDrained(u, _) =>
      !s.tcp.readeof && (u <= WRITEBUF_LOWER || (u < WRITEBUF_UPPER && s.tcp.reading))
    case _ => s.tcp.reading
  }

  /** The address of the connection becomes known when it comes up with a name. */
  predicate Binds(s: Relay, e: Event) { e.Connected? && e.ok && e.named && !s.tcp.closing }

  /** What an event brings from TCP, what it brings from QUIC, and what it reports as written to TCP. */
  function FromTcp(s: Relay, e: Event): seq<Byte> { if e.Read? && !s.tcp.closing then e.data else [] }

  function FromQuic(e: Event): seq<Byte> { if e.QuicReadable? then e.data else [] }

  function ToTcp(s: Relay, e: Event): seq<Byte> {
    if e.Written? && e.ok && !s.tcp.closing then s.tcp.inFlight else []
  }

  /** What was in the books, and what the event adds to them. */
  predicate Relays(s: Relay, e: Event, t: Relay) {
    && t.quic.accepted == s.quic.accepted + FromTcp(s, e)
    && t.quic.received == s.quic.received + FromQuic(e)
    && t.quic.forwarded == s.quic.forwarded + ToTcp(s, e)
    && (t.quic.finWritten <==> s.quic.finWritten || (e.ReadEof? && !s.tcp.closing))
    && (t.quic.fin <==> s.quic.fin || (e.QuicReadable? && e.fin))
  }

  /** A socket whose job runs is closing exactly when both directions have ended. */
  predicate ClosesInTime(s: Relay) { s.job.running ==> (s.tcp.closing <==> s.tcp.readeof && s.tcp.writeof) }

  /** All of this, of a state before and a state after. */
  predicate Outcome(s: Relay, e: Event, t: Relay) {
    && (t.job.running <==> !Fails(s, e))
    && (t.job.running ==>
      && t.job == s.job.(bound := s.job.bound || Binds(s, e))
      && (t.tcp.reading <==> ReadsAfter(s, e))
      && Relays(s, e, t)
      && (ClosesInTime(s) ==> ClosesInTime(t)))
  }

  lemma Nothing<T>(a: seq<T>)
    ensures a + [] == a == [] + a
  {}

  lemma ErrorEnds(s: Relay)
    requires LifetimeInv(s) && !s.tcp.closing
    ensures !TcpError(s).job.running
  {}

  lemma ConnectedOutcome(s: Relay, ok: bool, named: bool, readOk: bool)
    requires RelayInv(s) && s.job.running && !s.tcp.connected
    ensures Outcome(s, Connected(ok, named, readOk), OnConnected(s, ok, named, readOk))
  {
    hide Clean;
    Nothing(s.quic.accepted);
    if !s.tcp.closing {
      CleanEnds(s.(tcp := s.tcp.(connected := true)));
      CleanEnds(s.(tcp := s.tcp.(connected := true), job := s.job.(bound := true)));
    }
  }

  lemma DiesOutcome(s: Relay)
    requires LifetimeInv(s) && s.job.running
    ensures !QuicClose(s).job.running
  {
    hide Clean;
    StillAttached(s);
    CleanEnds(s.(quic := s.quic.(alive := false)));
  }

  /** The bytes taken over, before the thresholds are looked at. */
  function Taken(s: Relay, data: seq<Byte>, u: nat): Relay {
    s.(tcp := s.tcp.(arrived := s.tcp.arrived + data),
       quic := s.quic.(accepted := s.quic.accepted + data, unsent := u))
  }

  lemma ReadIs(s: Relay, data: seq<Byte>, u: nat, dies: bool, readOk: bool)
    requires RelayInv(s) && s.job.running && s.tcp.reading
    ensures !s.tcp.closing && LifetimeInv(Taken(s, data, u))
    ensures
      var t := Taken(s, data, u);
      OnRead(s, data, u, dies, readOk) ==
      if !dies then MayTcpToPuic(t, u, readOk)
      else if QuicClose(t).job.running then MayTcpToPuic(QuicClose(t), QuicClose(t).quic.unsent, readOk)
      else QuicClose(t)
  {
    hide QuicClose, MayTcpToPuic;
  }

  lemma ReadOutcome(s: Relay, data: seq<Byte>, u: nat, dies: bool, readOk: bool)
    requires RelayInv(s) && s.job.running && s.tcp.reading
    ensures Outcome(s, Read(data, u, dies, readOk), OnRead(s, data, u, dies, readOk))
  {
    hide QuicClose, OnRead, TcpError, ForwardInv, BackpressureInv;
    Nothing(s.quic.received);
    Nothing(s.quic.forwarded);
    ReadIs(s, data, u, dies, readOk);
    StillOpen(s);
    if dies { DiesOutcome(Taken(s, data, u)); }
  }

  lemma StillOpen(s: Relay)
    requires RelayInv(s) && s.tcp.reading
    ensures !s.tcp.readeof
  {}

  lemma ReadEofOutcome(s: Relay, u: nat, dies: bool)
    requires RelayInv(s) && s.job.running && s.tcp.reading
    ensures Outcome(s, ReadEof(u, dies), OnReadEof(s, u, dies))
  {
    hide Clean, QuicClose;
    Nothing(s.quic.received);
    if dies {
      DiesOutcome(s.(quic := s.quic.(accepted := s.quic.accepted + [], unsent := u, finWritten := true)));
    }
  }

  lemma PassOnOutcome(s: Relay, next: Next)
    requires RelayInv(s) && s.job.running && !s.tcp.writing
    ensures
      var t := PassOn(s, next);
      && (t.job.running <==> !(s.quic.consumed < |s.quic.received| && !s.tcp.writeof && !next.ok))
      && (t.job.running ==> t.job == s.job && t.quic == s.quic && SameEnds(s, t))
  {
    hide Clean, Readable;
    if s.quic.consumed < |s.quic.received| {
      ReadableIsNext(s, next.take);
      if !s.tcp.writeof && !next.ok { EndedInv(s); }
    }
  }

  /** The same as to reading and closing. */
  predicate SameEnds(s: Relay, t: Relay) {
    t.tcp.reading == s.tcp.reading && t.tcp.readeof == s.tcp.readeof && t.tcp.writeof == s.tcp.writeof &&
    t.tcp.closing == s.tcp.closing
  }

  lemma MayOutcome(s: Relay, next: Next)
    requires RelayInv(s) && s.job.running
    ensures
      var t := MayPuicToTcp(s, next);
      && (t.job.running <==>
        s.tcp.writing || !FailsToPass(s.quic.consumed < |s.quic.received|, s.tcp.writeof, next))
      && (t.job.running ==> t.job == s.job && t.quic == s.quic && SameEnds(s, t))
  {
    hide Clean, PassOn, QuicClose;
    if !s.tcp.writing {
      if next.dies { DiesOutcome(s); } else { PassOnOutcome(s, next); }
    }
  }

  lemma WrittenOutcome(s: Relay, ok: bool, dies: bool, next: Next)
    requires RelayInv(s) && s.job.running && s.tcp.inFlight != []
    ensures Outcome(s, Written(ok, dies, next), OnWritten(s, ok, dies, next))
  {
    hide RelayInv, MayPuicToTcp, QuicClose, TcpError;
    Nothing(s.quic.received);
    Nothing(s.quic.accepted);
    Nothing(s.quic.forwarded);
    if !s.tcp.closing {
      if !ok {
        Cleared(s);
        ErrorEnds(s.(tcp := s.tcp.(inFlight := [])));
      } else {
        ConsumedInv(s);
        Lives(s);
        WrittenIs(s, dies, next);
        if dies { Lives(Consumed(s)); DiesOutcome(Consumed(s)); } else { MayOutcome(Consumed(s), next); }
      }
    }
  }

  lemma Lives(s: Relay)
    requires RelayInv(s)
    ensures LifetimeInv(s)
  {}

  lemma Cleared(s: Relay)
    requires RelayInv(s)
    ensures LifetimeInv(s.(tcp := s.tcp.(inFlight := [])))
  {}

  lemma ShutDoneOutcome(s: Relay, ok: bool)
    requires RelayInv(s) && s.job.running && s.tcp.inFlight == []
    ensures Outcome(s, ShutDone(ok), OnShutDone(s, ok))
  {
    hide TcpError;
    Nothing(s.quic.accepted);
    Nothing(s.quic.forwarded);
    if !s.tcp.closing { ErrorEnds(s); }
  }

  lemma ReadableOutcome(s: Relay, data: seq<Byte>, fin: bool, next: Next)
    requires RelayInv(s) && s.job.running && (s.quic.fin ==> data == [])
    ensures Outcome(s, QuicReadable(data, fin, next), OnQuicReadable(s, data, fin, next))
  {
    hide RelayInv, MayPuicToTcp, FailsToPass;
    Lives(s);
    ExtendedInv(s, data, fin);
    Nothing(s.quic.accepted);
    Nothing(s.quic.forwarded);
    MayOutcome(Extended(s, data, fin), next);
    ReadableIs(s, data, fin, next);
  }

  lemma ReadableIs(s: Relay, data: seq<Byte>, fin: bool, next: Next)
    requires LifetimeInv(s) && s.job.running
    ensures OnQuicReadable(s, data, fin, next) == MayPuicToTcp(Extended(s, data, fin), next)
  {
    hide MayPuicToTcp;
  }

  lemma DrainedOutcome(s: Relay, u: nat, readOk: bool)
    requires RelayInv(s) && s.job.running && u <= s.quic.unsent
    ensures Outcome(s, QuicDrained(u, readOk), OnQuicDrained(s, u, readOk))
  {
    hide TcpError;
    Nothing(s.quic.accepted);
    Nothing(s.quic.received);
    Nothing(s.quic.forwarded);
    if !s.tcp.closing { ErrorEnds(s.(quic := s.quic.(unsent := u))); }
  }

  lemma OtherOutcome(s: Relay, e: Event)
    requires RelayInv(s) && s.job.running && Possible(s, e)
    requires e.ReadFailed? || e.UvClosed? || e.QuicGone? || e.Collected?
    ensures Outcome(s, e, Step(s, e))
  {
    hide TcpError, QuicClose;
    Nothing(s.quic.accepted);
    Nothing(s.quic.received);
    Nothing(s.quic.forwarded);
    if e.ReadFailed? { ErrorEnds(s); }
    if e.QuicGone? { DiesOutcome(s); }
  }

  lemma StepOutcome(s: Relay, e: Event)
    requires RelayInv(s) && s.job.running && Possible(s, e)
    ensures Outcome(s, e, Step(s, e))
  {
    hide RelayInv, Outcome, OnConnected, OnRead, OnReadEof, OnWritten, OnShutDone, OnUvClosed, OnQuicReadable,
         OnQuicDrained, QuicClose, TcpError;
    match e
    case Connected(ok, named, readOk) => ConnectedOutcome(s, ok, named, readOk);
    case Read(data, u, dies, readOk) => ReadOutcome(s, data, u, dies, readOk);
    case ReadEof(u, dies) => ReadEofOutcome(s, u, dies);
    case Written(ok, dies, next) => WrittenOutcome(s, ok, dies, next);
    case ShutDone(ok) => ShutDoneOutcome(s, ok);
    case QuicReadable(data, fin, next) => ReadableOutcome(s, data, fin, next);
    case QuicDrained(u, readOk) => DrainedOutcome(s, u, readOk);
    case _ => OtherOutcome(s, e);
  }

  // ---- the laws -------------------------------------------------------------------------------

  /** A running job ends exactly by an event that fails; otherwise it stays the job it was. */
  lemma EndsExactly(s: Relay, e: Event)
    requires Reachable(s) && s.job.running && Possible(s, e)
    ensures Step(s, e).job.running <==> !Fails(s, e)
    ensures Step(s, e).job.running ==> Step(s, e).job == s.job.(bound := s.job.bound || Binds(s, e))
  {
    hide Reachable, Step, RelayInv;
    ReachableInv(s);
    StepOutcome(s, e);
  }

  /** When TCP is read: from the moment it is connected, off from 8192 unsent bytes, on again from 4096 down. */
  lemma ReadsExactly(s: Relay, e: Event)
    requires Reachable(s) && s.job.running && Possible(s, e) && !Fails(s, e)
    ensures Step(s, e).tcp.reading <==> ReadsAfter(s, e)
  {
    hide Reachable, Step, RelayInv, Fails;
    ReachableInv(s);
    StepOutcome(s, e);
  }

  /** A connection that comes up is read at once. */
  lemma ConnectedReads(s: Relay)
    requires Reachable(s) && Possible(s, Connected(true, true, true)) && !s.tcp.closing && !s.tcp.readeof
    ensures var t := Step(s, Connected(true, true, true)); t.job.running && t.job.bound && t.tcp.reading
  {
    hide Reachable, Step;
    ReachableInv(s);
    StepOutcome(s, Connected(true, true, true));
  }

  /** A backlog of 8192 bytes stops reading and does nothing else to the job. */
  lemma FullStopsReading(s: Relay, data: seq<Byte>, u: nat, readOk: bool)
    requires Reachable(s) && s.job.running && Possible(s, Read(data, u, false, readOk)) && u >= WRITEBUF_UPPER
    ensures var t := Step(s, Read(data, u, false, readOk)); t.job == s.job && t.job.running && !t.tcp.reading
  {
    hide Reachable, Step;
    ReachableInv(s);
    StepOutcome(s, Read(data, u, false, readOk));
  }

  /** When libuv is done with the socket, nothing is called back any more; an ended job's connection is deleted. */
  lemma UvClosedExactly(s: Relay)
    requires Reachable(s) && Possible(s, UvClosed)
    ensures
      var t := Step(s, UvClosed);
      && t.tcp.uvclosed && !t.tcp.callback && !t.tcp.reading && !t.tcp.writing
      && t.tcp.deleted == (if s.job.running then 0 else 1) && t.job == s.job && t.quic == s.quic
  {
    hide Reachable;
    ReachableInv(s);
  }

  /** The socket's close and a round of the timer, in either order, delete an ended job and its connection once. */
  lemma NothingLeaks(s: Relay)
    requires Reachable(s) && !s.job.running
    ensures var t := Step(Step(s, UvClosed), Collected); t.tcp.deleted == 1 && t.job.deleted == 1 && !t.fault
    ensures var t := Step(Step(s, Collected), UvClosed); t.tcp.deleted == 1 && t.job.deleted == 1 && !t.fault
  {
    hide Reachable;
    ReachableInv(s);
  }

  // ---- over runs --------------------------------------------------------------------------------

  lemma {:induction false} RunCloses(s: Relay, events: seq<Event>)
    requires RelayInv(s) && ClosesInTime(s)
    ensures ClosesInTime(Run(s, events))
    decreases |events|
  {
    hide RelayInv, Step, Fails, ReadsAfter, Relays;
    if events != [] {
      var e := events[0];
      StepInv(s, e);
      StepCloses(s, e);
      RunCloses(Step(s, e), events[1..]);
    }
  }

  lemma StepCloses(s: Relay, e: Event)
    requires RelayInv(s) && ClosesInTime(s)
    ensures ClosesInTime(Step(s, e))
  {
    hide RelayInv, Step, Fails, ReadsAfter, Relays;
    StepInv(s, e);
    if Possible(s, e) {
      if s.job.running { StepOutcome(s, e); } else { EndedStays(s, e); }
    } else {
      Impossible(s, e);
    }
  }

  lemma Impossible(s: Relay, e: Event)
    requires !Possible(s, e)
    ensures Step(s, e) == s
  {}

  lemma EndedStays(s: Relay, e: Event)
    requires RelayInv(s) && !s.job.running
    ensures !Step(s, e).job.running
  {
    hide RelayInv, Step;
    StepInv(s, e);
    if e == Collected { OnlyDeleted(s); }
  }

  lemma OnlyDeleted(s: Relay)
    ensures Step(s, Collected).job.running == s.job.running
  {}

  /** The socket of a running job closes as soon as both directions have ended, and not before. */
  lemma ClosesExactly(connectOk: bool, headOk: bool, events: seq<Event>)
    ensures
      var s := Run(Begin(connectOk, headOk), events);
      s.job.running ==> (s.tcp.closing <==> s.tcp.readeof && s.tcp.writeof)
  {
    BeginInv(connectOk, headOk);
    Begins(connectOk, headOk);
    hide Run, Begin;
    RunCloses(Begin(connectOk, headOk), events);
  }

  /** A job runs from the start exactly if connecting and the header did not fail at once. */
  lemma Begins(connectOk: bool, headOk: bool)
    ensures
      var b := Begin(connectOk, headOk);
      && (b.job.running <==> connectOk && headOk) && ClosesInTime(b)
      && b.quic.accepted == b.quic.received == b.quic.forwarded == [] && !b.quic.fin && !b.quic.finWritten
      && !b.tcp.reading && !b.job.bound
  {}

  /** What a run brought from either side and reported as written, and which sides have ended. */
  datatype Trace = Trace(fromTcp: seq<Byte>, fromQuic: seq<Byte>, toTcp: seq<Byte>, tcpEnded: bool, quicEnded: bool)

  /** An event, and what comes after it. */
  function InFrontOf(s: Relay, e: Event, rest: Trace): Trace {
    Trace(FromTcp(s, e) + rest.fromTcp, FromQuic(e) + rest.fromQuic, ToTcp(s, e) + rest.toTcp,
          (e.ReadEof? && !s.tcp.closing) || rest.tcpEnded, (e.QuicReadable? && e.fin) || rest.quicEnded)
  }

  function Traced(s: Relay, events: seq<Event>): Trace
    decreases |events|
  {
    if events == [] then Trace([], [], [], false, false)
    else
      var e, rest := events[0], Traced(Step(s, events[0]), events[1..]);
      if Possible(s, e) then InFrontOf(s, e, rest) else rest
  }

  /** The books after a run are those before it and what the run added. */
  predicate Adds(s: Relay, tr: Trace, t: Relay) {
    && t.quic.accepted == s.quic.accepted + tr.fromTcp
    && t.quic.received == s.quic.received + tr.fromQuic
    && t.quic.forwarded == s.quic.forwarded + tr.toTcp
    && (t.quic.finWritten <==> s.quic.finWritten || tr.tcpEnded)
    && (t.quic.fin <==> s.quic.fin || tr.quicEnded)
  }

  lemma AddsNothing(s: Relay)
    ensures Adds(s, Trace([], [], [], false, false), s)
  {}

  lemma Longer<T>(a: seq<T>, b: seq<T>, c: seq<T>)
    ensures a + b + c == a + (b + c)
  {}

  lemma AddsMore(s: Relay, e: Event, u: Relay, rest: Trace, t: Relay)
    requires Relays(s, e, u) && Adds(u, rest, t)
    ensures Adds(s, InFrontOf(s, e, rest), t)
  {
    hide FromTcp, FromQuic, ToTcp;
    Longer(s.quic.accepted, FromTcp(s, e), rest.fromTcp);
    Longer(s.quic.received, FromQuic(e), rest.fromQuic);
    Longer(s.quic.forwarded, ToTcp(s, e), rest.toTcp);
  }

  lemma StepRelays(s: Relay, e: Event)
    requires RelayInv(s) && Possible(s, e) && Step(s, e).job.running
    ensures s.job.running && Relays(s, e, Step(s, e))
  {
    hide RelayInv, Step, Fails, ReadsAfter, Relays, ClosesInTime, Possible;
    if !s.job.running { EndedStays(s, e); }
    StepOutcome(s, e);
  }

  lemma {:induction false} RunRelays(s: Relay, events: seq<Event>)
    requires RelayInv(s) && Run(s, events).job.running
    ensures s.job.running && Adds(s, Traced(s, events), Run(s, events))
    decreases |events|
  {
    hide RelayInv, Step, Adds, Relays, InFrontOf, Possible;
    if events == [] {
      AddsNothing(s);
    } else {
      var e := events[0];
      StepInv(s, e);
      RunRelays(Step(s, e), events[1..]);
      if Possible(s, e) {
        StepRelays(s, e);
        AddsMore(s, e, Step(s, e), Traced(Step(s, e), events[1..]), Run(s, events));
      } else {
        Impossible(s, e);
      }
    }
  }

  /**
   * While a job runs, QUIC has been handed exactly what TCP brought, in order; the bytes that
   * TCP has taken are a prefix of what QUIC brought; and each end arrives on the other side.
   */
  lemma RelaysExactly(connectOk: bool, headOk: bool, events: seq<Event>)
    requires Run(Begin(connectOk, headOk), events).job.running
    ensures
      var s, tr := Run(Begin(connectOk, headOk), events), Traced(Begin(connectOk, headOk), events);
      && s.quic.accepted == tr.fromTcp && (s.quic.finWritten <==> tr.tcpEnded)
      && tr.toTcp + (if s.tcp.closing then [] else s.tcp.inFlight) <= tr.fromQuic
      && (s.tcp.shutIssued ==> tr.quicEnded && tr.toTcp == tr.fromQuic)
  {
    Begins(connectOk, headOk);
    BeginInv(connectOk, headOk);
    hide Run, Traced, Begin, RelayInv;
    var b := Begin(connectOk, headOk);
    var tr := Traced(b, events);
    RunInv(b, events);
    RunRelays(b, events);
    Nothing(tr.fromTcp);
    Nothing(tr.fromQuic);
    Nothing(tr.toTcp);
    InOrder(Run(b, events));
  }

  lemma InOrder(s: Relay)
    requires RelayInv(s)
    ensures s.quic.forwarded + (if s.tcp.closing then [] else s.tcp.inFlight) <= s.quic.received
    ensures s.tcp.shutIssued ==> s.quic.fin && s.quic.forwarded == s.quic.received
  {}
}
