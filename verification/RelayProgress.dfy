/** Nothing that QUIC has received is left lying: it is on its way to TCP, and so is the end of it. */
module RelayProgress {
  import opened RelayProtocol
  import opened RelaySafety

  /** All of the stream has been sent. */
  predicate AtEnd(s: Relay) { s.quic.fin && s.quic.consumed == |s.quic.received| }

  /** While there are bytes to send, a write is under way. */
  predicate Forwarding(s: Relay) {
    s.job.running && !s.tcp.closing && s.quic.consumed < |s.quic.received| ==> s.tcp.writing
  }

  /** Once all is sent, the shutdown has been asked for. */
  predicate ShutDown(s: Relay) { s.job.running && !s.tcp.closing && AtEnd(s) ==> s.tcp.shutIssued }

  lemma PassOnForwards(s: Relay, next: Next)
    requires RelayInv(s) && s.job.running && !s.tcp.writing
    ensures Forwarding(PassOn(s, next)) && (next.ok ==> ShutDown(PassOn(s, next)))
  {
    hide Clean, Readable;
    if s.quic.consumed < |s.quic.received| {
      ReadableIsNext(s, next.take);
      if !next.ok { EndedInv(s); }
    }
  }

  lemma MayForwards(s: Relay, next: Next)
    requires RelayInv(s) && s.job.running
    ensures Forwarding(MayPuicToTcp(s, next)) && (next.ok ==> ShutDown(MayPuicToTcp(s, next)))
  {
    hide Clean, PassOn, QuicClose;
    if !s.tcp.writing {
      if next.dies { QuicCloseInv(s); } else { PassOnForwards(s, next); }
    }
  }

  lemma EndedForwards(s: Relay)
    requires !s.job.running || s.tcp.closing
    ensures Forwarding(s) && ShutDown(s)
  {}

  lemma WriteErrorEnds(s: Relay)
    requires LifetimeInv(s) && !s.tcp.closing
    ensures var t := TcpError(s.(tcp := s.tcp.(inFlight := []))); Forwarding(t) && ShutDown(t)
  {
    hide TcpError;
    ErrorStops(s.(tcp := s.tcp.(inFlight := [])));
  }

  lemma WrittenForwards(s: Relay, ok: bool, dies: bool, next: Next)
    requires RelayInv(s) && s.tcp.inFlight != []
    ensures Forwarding(OnWritten(s, ok, dies, next)) && (next.ok ==> ShutDown(OnWritten(s, ok, dies, next)))
  {
    hide Forwarding, ShutDown, ForwardInv, BackpressureInv, TcpError, MayPuicToTcp, QuicClose;
    if s.tcp.closing {
      EndedForwards(s.(tcp := s.tcp.(inFlight := [])));
    } else if !ok {
      WriteErrorEnds(s);
    } else {
      ConsumedInv(s);
      WrittenIs(s, dies, next);
      if dies {
        ConsumedGone(s);
        EndedForwards(QuicClose(Consumed(s)));
      } else {
        MayForwards(Consumed(s), next);
      }
    }
  }

  lemma ReadableForwards(s: Relay, data: seq<Byte>, fin: bool, next: Next)
    requires RelayInv(s) && s.quic.alive && (s.quic.fin ==> data == [])
    ensures var t := OnQuicReadable(s, data, fin, next); Forwarding(t) && (next.ok ==> ShutDown(t))
  {
    hide ForwardInv, BackpressureInv, Clean, MayPuicToTcp;
    ExtendedInv(s, data, fin);
    if s.quic.attached { MayForwards(Extended(s, data, fin), next); }
  }

  /** An event that asks for the shutdown and is refused it. */
  predicate Refuses(s: Relay, e: Event) { (e.Written? || e.QuicReadable?) && !e.next.ok && AtEnd(Step(s, e)) }

  /** A step aside from the stream: it ends or closes, or leaves alone what is sent on. */
  predicate Aside(s: Relay, t: Relay) {
    t.job.running && !t.tcp.closing ==>
      && s.job.running && !s.tcp.closing
      && t.quic.received == s.quic.received && t.quic.fin == s.quic.fin && t.quic.consumed == s.quic.consumed
      && t.tcp.shutIssued == s.tcp.shutIssued && (t.tcp.writing == s.tcp.writing || AtEnd(s))
  }

  lemma AsideForwards(s: Relay, t: Relay)
    requires Aside(s, t)
    ensures Forwarding(s) ==> Forwarding(t)
    ensures ShutDown(s) ==> ShutDown(t)
  {}

  lemma CleanStops(s: Relay)
    requires s.job.deleted == 0
    ensures !Clean(s).job.running
  {}

  lemma ErrorStops(s: Relay)
    requires LifetimeInv(s) && !s.tcp.closing
    ensures !TcpError(s).job.running
  {
    hide Clean;
    CleanStops(s);
  }

  lemma StartReadAside(s: Relay, ok: bool)
    requires LifetimeInv(s) && s.job.running
    ensures Aside(s, StartRead(s, ok))
  {
    hide Clean, TcpError;
    if !s.tcp.reading && !s.tcp.readeof && !ok { ErrorStops(s); }
  }

  lemma ConnectedAside(s: Relay, ok: bool, named: bool, readOk: bool)
    requires LifetimeInv(s)
    ensures Aside(s, OnConnected(s, ok, named, readOk))
  {
    hide Clean, StartRead, TcpError;
    if !s.tcp.closing {
      ErrorStops(s.(tcp := s.tcp.(connected := true)));
      StartReadAside(s.(tcp := s.tcp.(connected := true), job := s.job.(bound := true)), readOk);
    }
  }

  lemma MayTcpToPuicAside(s: Relay, buffered: nat, ok: bool)
    requires LifetimeInv(s) && s.job.running
    ensures Aside(s, MayTcpToPuic(s, buffered, ok))
  {
    hide StartRead;
    StartReadAside(s, ok);
  }

  lemma GoneAside(s: Relay)
    requires LifetimeInv(s)
    ensures !QuicClose(s).job.running
  {
    hide Clean;
    if s.job.running { CleanStops(s.(quic := s.quic.(alive := false))); }
  }

  lemma QuicWriteAside(s: Relay, data: seq<Byte>, fin: bool, unsentAfter: nat, dies: bool)
    requires LifetimeInv(s) && s.job.running
    ensures var t := QuicWrite(s, data, fin, unsentAfter, dies);
      Aside(s, t) && (t.job.running ==> LifetimeInv(t))
  {
    hide QuicClose;
    var t := QuicWrite(s, data, fin, unsentAfter, false);
    assert LifetimeInv(t) && Aside(s, t);
    GoneAside(t);
  }

  lemma ReadAside(s: Relay, data: seq<Byte>, unsentAfter: nat, dies: bool, readOk: bool)
    requires LifetimeInv(s)
    ensures Aside(s, OnRead(s, data, unsentAfter, dies, readOk))
  {
    hide QuicWrite, MayTcpToPuic;
    if !s.tcp.closing {
      var u := s.(tcp := s.tcp.(arrived := s.tcp.arrived + data));
      QuicWriteAside(u, data, false, unsentAfter, dies);
      var t := QuicWrite(u, data, false, unsentAfter, dies);
      if t.job.running { MayTcpToPuicAside(t, if u.quic.finWritten then 0 else t.quic.unsent, readOk); }
    }
  }

  lemma ReadEofAside(s: Relay, unsentAfter: nat, dies: bool)
    requires LifetimeInv(s)
    ensures Aside(s, OnReadEof(s, unsentAfter, dies))
  {
    hide QuicWrite, Aside;
    if s.tcp.closing {
      ClosingAside(s, s);
    } else {
      QuicWriteAside(s, [], true, unsentAfter, dies);
      EofAside(s, QuicWrite(s, [], true, unsentAfter, dies));
    }
  }

  lemma ClosingAside(s: Relay, t: Relay)
    requires t.tcp.closing
    ensures Aside(s, t)
  {}

  lemma EofAside(s: Relay, q: Relay)
    requires Aside(s, q)
    ensures var u := q.(tcp := q.tcp.(reading := false, readeof := true));
      Aside(s, if u.tcp.writeof then UvClose(u) else u)
  {}

  lemma ShutDoneAside(s: Relay, ok: bool)
    requires RelayInv(s) && s.tcp.shutIssued
    ensures Aside(s, OnShutDone(s, ok))
  {
    hide TcpError;
    if !s.tcp.closing { ErrorStops(s); }
  }

  lemma DrainedAside(s: Relay, unsentAfter: nat, readOk: bool)
    requires LifetimeInv(s)
    ensures Aside(s, OnQuicDrained(s, unsentAfter, readOk))
  {
    hide MayTcpToPuic;
    var t := s.(quic := s.quic.(unsent := unsentAfter));
    if t.quic.attached && !t.quic.finWritten { MayTcpToPuicAside(t, unsentAfter, readOk); }
  }

  /** Every event but those that bring bytes or take them. */
  lemma OthersAside(s: Relay, e: Event)
    requires RelayInv(s) && Possible(s, e) && !e.Written? && !e.QuicReadable?
    ensures Aside(s, Step(s, e))
  {
    hide OnConnected, OnRead, OnReadEof, TcpError, OnShutDone, OnQuicDrained, QuicClose, ForwardInv, BackpressureInv;
    match e
    case Connected(ok, named, readOk) => ConnectedAside(s, ok, named, readOk);
    case Read(data, u, dies, readOk) => ReadAside(s, data, u, dies, readOk);
    case ReadEof(u, dies) => ReadEofAside(s, u, dies);
    case ReadFailed => if !s.tcp.closing { ErrorStops(s); }
    case ShutDone(ok) => ShutDoneAside(s, ok);
    case QuicDrained(u, readOk) => DrainedAside(s, u, readOk);
    case QuicGone => GoneAside(s);
    case UvClosed =>
    case Collected =>
  }

  lemma NotYet(s: Relay)
    ensures !AtEnd(s) ==> ShutDown(s)
  {}

  lemma StepForwards(s: Relay, e: Event)
    requires RelayInv(s) && Forwarding(s)
    ensures Forwarding(Step(s, e))
    ensures ShutDown(s) && !Refuses(s, e) ==> ShutDown(Step(s, e))
  {
    hide RelayInv, Forwarding, ShutDown, Aside, OnConnected, OnRead, OnReadEof, TcpError, OnWritten, OnShutDone,
         OnUvClosed, OnQuicReadable, OnQuicDrained, QuicClose;
    if Possible(s, e) {
      match e
      case Written(ok, dies, next) =>
        WrittenForwards(s, ok, dies, next);
        NotYet(Step(s, e));
      case QuicReadable(data, fin, next) =>
        ReadableForwards(s, data, fin, next);
        NotYet(Step(s, e));
      case _ =>
        OthersAside(s, e);
        AsideForwards(s, Step(s, e));
    }
  }

  predicate NeverRefused(s: Relay, events: seq<Event>)
    decreases |events|
  {
    events == [] || (!Refuses(s, events[0]) && NeverRefused(Step(s, events[0]), events[1..]))
  }

  lemma {:induction false} RunForwards(s: Relay, events: seq<Event>)
    requires RelayInv(s) && Forwarding(s)
    ensures Forwarding(Run(s, events))
    ensures ShutDown(s) && NeverRefused(s, events) ==> ShutDown(Run(s, events))
    decreases |events|
  {
    hide RelayInv, Forwarding, ShutDown, Step, Refuses;
    if events != [] {
      StepInv(s, events[0]);
      StepForwards(s, events[0]);
      RunForwards(Step(s, events[0]), events[1..]);
    }
  }

  /**
   * After any run: bytes that wait to be sent have a write under way; and if libuv never
   * refused a shutdown, one has been asked for as soon as the whole stream was sent.
   */
  lemma ForwardNeverStalls(connectOk: bool, headOk: bool, events: seq<Event>)
    ensures var b := Begin(connectOk, headOk); var s := Run(b, events);
      && (s.job.running && !s.tcp.closing && s.quic.consumed < |s.quic.received| ==> s.tcp.writing)
      && (s.job.running && !s.tcp.closing && AtEnd(s) && NeverRefused(b, events) ==> s.tcp.shutIssued)
  {
    hide Run, Step, NeverRefused;
    BeginInv(connectOk, headOk);
    RunForwards(Begin(connectOk, headOk), events);
  }
}
