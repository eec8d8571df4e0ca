/** What a relay job keeps over every run of events. */
module RelaySafety {
  import opened RelayProtocol

  /** An ended job does not come back, and only the manager's timer deletes a job. */
  predicate Advances(s: Relay, t: Relay) { t.job.deleted == s.job.deleted && (t.job.running ==> s.job.running) }

  /** The invariant, and no step back. */
  predicate Keeps(s: Relay, t: Relay) { RelayInv(t) && Advances(s, t) }

  /** The backpressure rules that an ended job still has to keep. */
  predicate Bounded(s: Relay) {
    && s.quic.unsent < WRITEBUF_UPPER + READBUF_SIZE && (s.tcp.readeof ==> !s.tcp.reading)
    && (s.job.bound ==> s.tcp.connected) && (!s.tcp.connected ==> s.quic.unsent == 0)
  }

  /** The rules that do not depend on whether TCP is being read. */
  predicate Coupled(s: Relay) {
    && Bounded(s) && s.quic.accepted == s.tcp.arrived
    && (s.tcp.closing || (s.quic.finWritten ==> s.tcp.readeof)) && (s.tcp.readeof ==> s.quic.finWritten)
  }

  /** What ending a running job comes to. */
  function Ended(s: Relay): Relay {
    s.(job := s.job.(running := false, hasSrc := false, hasDst := false, queued := 1),
       quic := s.quic.(attached := false, alive := false),
       tcp := s.tcp.(closed := true, closing := true, deleted := if s.tcp.uvclosed then 1 else 0))
  }

  /** The same with QUIC still alive. */
  function Revived(s: Relay): Relay { s.(quic := s.quic.(alive := true)) }

  lemma CleanEnds(s: Relay)
    requires LifetimeInv(Revived(s)) && s.job.running
    ensures Clean(s) == Ended(s) && LifetimeInv(Ended(s))
  {}

  /** Ending a job keeps the order of the bytes; the other rules then ask for no more than this. */
  lemma EndedInv(s: Relay)
    requires LifetimeInv(s) && s.job.running && ForwardInv(s)
    requires Bounded(s)
    ensures Clean(s) == Ended(s) && RelayInv(Clean(s))
  {
    hide Clean;
    assert Revived(s) == s;
    CleanEnds(s);
  }

  lemma TcpErrorInv(s: Relay)
    requires RelayInv(s) && !s.tcp.closing
    ensures Keeps(s, TcpError(s))
    ensures Keeps(s, TcpError(s.(tcp := s.tcp.(connected := true))))
  {
    hide Clean;
    EndedInv(s);
    EndedInv(s.(tcp := s.tcp.(connected := true)));
  }

  /** The same when the write in flight has just been taken off libuv's hands. */
  lemma WriteErrorInv(s: Relay)
    requires RelayInv(s) && !s.tcp.closing
    ensures Keeps(s, TcpError(s.(tcp := s.tcp.(inFlight := []))))
  {
    hide Clean;
    CleanEnds(s.(tcp := s.tcp.(inFlight := [])));
  }

  /** Reading may start, or go on, when QUIC has little to send. */
  lemma StartReadInv(s: Relay, ok: bool)
    requires LifetimeInv(s) && ForwardInv(s) && s.job.running
    requires Coupled(s) && s.quic.unsent <= WRITEBUF_LOWER
    ensures Keeps(s, StartRead(s, ok))
    ensures ok && !s.tcp.readeof ==> StartRead(s, ok).tcp.reading && StartRead(s, ok).job.running
  {
    hide Clean, ForwardInv;
    if !s.tcp.reading && !s.tcp.readeof && !ok { EndedInv(s); } else { KeepForward(s); }
  }

  lemma KeepForward(s: Relay)
    requires ForwardInv(s)
    ensures ForwardInv(s.(tcp := s.tcp.(reading := true))) && ForwardInv(s.(tcp := s.tcp.(reading := false)))
  {}

  lemma MayTcpToPuicInv(s: Relay, ok: bool)
    requires LifetimeInv(s) && ForwardInv(s) && s.job.running
    requires Coupled(s)
    ensures Keeps(s, MayTcpToPuic(s, s.quic.unsent, ok))
  {
    hide ForwardInv, StartRead;
    KeepForward(s);
    if s.quic.unsent <= WRITEBUF_LOWER { StartReadInv(s, ok); }
  }

  lemma ConnectedInv(s: Relay, ok: bool, named: bool, readOk: bool)
    requires RelayInv(s) && !s.tcp.connected
    ensures Keeps(s, OnConnected(s, ok, named, readOk))
  {
    hide Clean, StartRead;
    if !s.tcp.closing {
      TcpErrorInv(s);
      if ok && named { StartReadInv(s.(tcp := s.tcp.(connected := true), job := s.job.(bound := true)), readOk); }
    }
  }

  lemma ReadInv(s: Relay, data: seq<Byte>, unsentAfter: nat, dies: bool, readOk: bool)
    requires RelayInv(s) && s.tcp.connected && s.tcp.reading
    requires 0 < |data| <= READBUF_SIZE && unsentAfter <= s.quic.unsent + |data|
    ensures Keeps(s, OnRead(s, data, unsentAfter, dies, readOk))
  {
    hide Clean, MayTcpToPuic;
    if !s.tcp.closing {
      var u := s.(tcp := s.tcp.(arrived := s.tcp.arrived + data),
                  quic := s.quic.(accepted := s.quic.accepted + data, unsent := unsentAfter));
      assert LifetimeInv(u) && ForwardInv(u);
      if dies { QuicCloseInv(u); } else { MayTcpToPuicInv(u, readOk); }
    }
  }

  lemma StillAttached(s: Relay)
    requires LifetimeInv(s) && s.job.running
    ensures s.quic.attached && s.quic.(alive := true) == s.quic
    ensures Ended(s.(quic := s.quic.(alive := false))) == Ended(s)
  {}

  /** QUIC closing under a running job ends it. */
  lemma QuicCloseInv(s: Relay)
    requires LifetimeInv(s) && s.job.running && ForwardInv(s)
    requires Bounded(s)
    ensures QuicClose(s) == Ended(s) && RelayInv(QuicClose(s)) && !QuicClose(s).job.running
  {
    hide Clean, ForwardInv, LifetimeInv, RelayInv;
    StillAttached(s);
    CleanEnds(s.(quic := s.quic.(alive := false)));
    EndedInv(s);
  }

  lemma ReadEofInv(s: Relay, unsentAfter: nat, dies: bool)
    requires RelayInv(s) && s.tcp.connected && s.tcp.reading && unsentAfter <= s.quic.unsent
    ensures Keeps(s, OnReadEof(s, unsentAfter, dies))
  {
    hide Clean;
    if !s.tcp.closing {
      var t := s.(quic := s.quic.(finWritten := true, unsent := unsentAfter, accepted := s.quic.accepted + []));
      assert s.quic.accepted + [] == s.quic.accepted;
      if dies { QuicCloseInv(t); }
    }
  }

  lemma ShutDoneInv(s: Relay, ok: bool)
    requires RelayInv(s) && s.tcp.shutIssued && !s.tcp.writeof && s.tcp.inFlight == []
    ensures Keeps(s, OnShutDone(s, ok))
  {
    hide Clean;
    if !s.tcp.closing && !ok { TcpErrorInv(s); }
  }

  lemma UvClosedInv(s: Relay)
    requires RelayInv(s) && s.tcp.closing && !s.tcp.uvclosed
    ensures Keeps(s, OnUvClosed(s))
  {}

  lemma ReadableIsNext(s: Relay, take: nat)
    requires s.quic.consumed < |s.quic.received|
    ensures var r := Readable(s, take);
      && r != [] && s.quic.consumed + |r| <= |s.quic.received|
      && r == s.quic.received[s.quic.consumed..s.quic.consumed + |r|]
  {}

  lemma MayPuicToTcpInv(s: Relay, next: Next)
    requires RelayInv(s) && s.job.running
    ensures Keeps(s, MayPuicToTcp(s, next))
  {
    hide Clean, PassOn, QuicClose;
    if !s.tcp.writing {
      if next.dies { QuicCloseInv(s); } else { PassOnInv(s, next); }
    }
  }

  lemma PassOnInv(s: Relay, next: Next)
    requires RelayInv(s) && s.job.running && !s.tcp.writing
    ensures Keeps(s, PassOn(s, next))
  {
    hide Clean, Readable;
    if s.quic.consumed < |s.quic.received| {
      ReadableIsNext(s, next.take);
      if !s.tcp.writeof && !next.ok { EndedInv(s); }
    }
  }

  /** The write in flight has completed and its bytes are consumed. */
  function Consumed(s: Relay): Relay {
    s.(tcp := s.tcp.(inFlight := [], writing := false),
       quic := s.quic.(consumed := s.quic.consumed + |s.tcp.inFlight|, forwarded := s.quic.forwarded + s.tcp.inFlight))
  }

  lemma ConsumedForward(s: Relay)
    requires ForwardInv(s) && !s.tcp.closing && s.tcp.inFlight != []
    ensures ForwardInv(Consumed(s)) && s.tcp.writing
  {
    var n := s.quic.consumed + |s.tcp.inFlight|;
    assert s.quic.received[..n] == s.quic.received[..s.quic.consumed] + s.quic.received[s.quic.consumed..n];
  }

  lemma ConsumedInv(s: Relay)
    requires RelayInv(s) && !s.tcp.closing && s.tcp.inFlight != []
    ensures RelayInv(Consumed(s)) && s.tcp.writing
  {
    hide ForwardInv;
    ConsumedForward(s);
  }

  /** A write that completed, step by step. */
  lemma WrittenIs(s: Relay, dies: bool, next: Next)
    requires LifetimeInv(s) && !s.tcp.closing && s.tcp.writing
    ensures var t := Consumed(s);
      OnWritten(s, true, dies, next) ==
      if dies then if QuicClose(t).job.running then MayPuicToTcp(QuicClose(t), next) else QuicClose(t)
      else MayPuicToTcp(t, next)
    ensures s.job.running
  {
    hide QuicClose, MayPuicToTcp, TcpError;
  }

  lemma WrittenInv(s: Relay, ok: bool, dies: bool, next: Next)
    requires RelayInv(s) && s.tcp.inFlight != []
    ensures Keeps(s, OnWritten(s, ok, dies, next))
  {
    hide ForwardInv, BackpressureInv, Clean, MayPuicToTcp, QuicClose;
    if s.tcp.closing {
      GivenUpInv(s);
    } else if !ok {
      WriteErrorInv(s);
    } else {
      ConsumedInv(s);
      WrittenIs(s, dies, next);
      if dies { ConsumedGone(s); } else { MayPuicToTcpInv(Consumed(s), next); }
    }
  }

  lemma ConsumedGone(s: Relay)
    requires RelayInv(Consumed(s)) && Consumed(s).job.running
    ensures var t := QuicClose(Consumed(s)); RelayInv(t) && !t.job.running && t.job.deleted == s.job.deleted
  {
    hide Clean, QuicClose;
    QuicCloseInv(Consumed(s));
  }

  /** On a closing socket nothing depends on the write in flight. */
  lemma GivenUpInv(s: Relay)
    requires RelayInv(s) && s.tcp.closing
    ensures RelayInv(s.(tcp := s.tcp.(inFlight := [])))
  {}

  /** More of the stream has arrived. */
  function Extended(s: Relay, data: seq<Byte>, fin: bool): Relay {
    s.(quic := s.quic.(received := s.quic.received + data, fin := s.quic.fin || fin))
  }

  lemma ExtendedForward(s: Relay, data: seq<Byte>, fin: bool)
    requires ForwardInv(s) && (s.quic.fin ==> data == [])
    ensures ForwardInv(Extended(s, data, fin))
  {
    if data == [] { assert s.quic.received + data == s.quic.received; }
    assert (s.quic.received + data)[..s.quic.consumed] == s.quic.received[..s.quic.consumed];
  }

  lemma ExtendedInv(s: Relay, data: seq<Byte>, fin: bool)
    requires RelayInv(s) && (s.quic.fin ==> data == [])
    ensures RelayInv(Extended(s, data, fin))
  {
    hide ForwardInv;
    ExtendedForward(s, data, fin);
  }

  lemma QuicReadableInv(s: Relay, data: seq<Byte>, fin: bool, next: Next)
    requires RelayInv(s) && s.quic.alive && (s.quic.fin ==> data == [])
    ensures Keeps(s, OnQuicReadable(s, data, fin, next))
  {
    hide ForwardInv, BackpressureInv, Clean, MayPuicToTcp;
    ExtendedInv(s, data, fin);
    if s.quic.attached { MayPuicToTcpInv(Extended(s, data, fin), next); }
  }

  lemma QuicDrainedInv(s: Relay, unsentAfter: nat, readOk: bool)
    requires RelayInv(s) && s.quic.alive && unsentAfter <= s.quic.unsent
    ensures Keeps(s, OnQuicDrained(s, unsentAfter, readOk))
  {
    hide Clean, MayTcpToPuic;
    var t := s.(quic := s.quic.(unsent := unsentAfter));
    if t.quic.attached && !t.quic.finWritten { MayTcpToPuicInv(t, readOk); }
  }

  /** Every event keeps the invariant; in particular no fault ever happens. */
  lemma StepInv(s: Relay, e: Event)
    requires RelayInv(s)
    ensures RelayInv(Step(s, e)) && (e != Collected ==> Advances(s, Step(s, e)))
  {
    hide RelayInv, OnConnected, OnRead, OnReadEof, OnWritten, OnShutDone, OnUvClosed, OnQuicReadable, OnQuicDrained,
         QuicClose, TcpError;
    if Possible(s, e) {
      match e
      case Connected(ok, named, readOk) => ConnectedInv(s, ok, named, readOk);
      case Read(data, u, dies, readOk) => ReadInv(s, data, u, dies, readOk);
      case ReadEof(u, dies) => ReadEofInv(s, u, dies);
      case ReadFailed => if !s.tcp.closing { TcpErrorInv(s); }
      case Written(ok, dies, next) => WrittenInv(s, ok, dies, next);
      case ShutDone(ok) => ShutDoneInv(s, ok);
      case UvClosed => UvClosedInv(s);
      case QuicReadable(data, fin, next) => QuicReadableInv(s, data, fin, next);
      case QuicDrained(u, readOk) => QuicDrainedInv(s, u, readOk);
      case QuicGone => QuicGoneInv(s);
      case Collected => CollectedInv(s);
    }
  }

  lemma QuicGoneInv(s: Relay)
    requires RelayInv(s) && s.quic.alive
    ensures Keeps(s, QuicClose(s))
  {
    hide Clean;
    if s.quic.attached { QuicCloseInv(s); }
  }

  lemma CollectedInv(s: Relay)
    requires RelayInv(s) && s.job.deleted < s.job.queued
    ensures RelayInv(s.(job := s.job.(deleted := s.job.deleted + 1)))
  {}

  lemma BeginInv(connectOk: bool, headOk: bool)
    ensures RelayInv(Begin(connectOk, headOk))
  {}

  lemma {:induction false} RunInv(s: Relay, events: seq<Event>)
    requires RelayInv(s)
    ensures RelayInv(Run(s, events))
    decreases |events|
  {
    hide RelayInv, Step;
    if events != [] {
      StepInv(s, events[0]);
      RunInv(Step(s, events[0]), events[1..]);
    }
  }

  // ---- the guarantees ---------------------------------------------------------------------------

  ghost predicate Reachable(s: Relay) {
    exists connectOk, headOk, events :: s == Run(Begin(connectOk, headOk), events)
  }

  lemma ReachableInv(s: Relay)
    requires Reachable(s)
    ensures RelayInv(s)
  {
    hide Run, Begin, RelayInv;
    var connectOk, headOk, events :| s == Run(Begin(connectOk, headOk), events);
    BeginInv(connectOk, headOk);
    RunInv(Begin(connectOk, headOk), events);
  }

  /** No run calls a null or deleted job or connection, or fails an assertion of the code. */
  lemma NoFault(s: Relay)
    requires Reachable(s)
    ensures !s.fault
  {
    hide Run, Reachable;
    ReachableInv(s);
  }

  /**
   * The bytes completed on TCP are the consumed prefix of the stream; a write in flight is
   * exactly what comes next; once shutdown was asked for, TCP has had the whole stream.
   */
  lemma BytesInOrder(s: Relay)
    requires Reachable(s)
    ensures s.quic.consumed <= |s.quic.received| && s.quic.forwarded == s.quic.received[..s.quic.consumed]
    ensures !s.tcp.closing && s.tcp.writing ==>
      s.tcp.inFlight != [] && s.quic.forwarded + s.tcp.inFlight <= s.quic.received
    ensures !s.tcp.closing && !s.tcp.writing ==> s.tcp.inFlight == []
    ensures s.tcp.shutIssued ==> s.quic.fin && s.quic.forwarded == s.quic.received
    ensures s.job.running ==> s.quic.accepted == s.tcp.arrived
  {
    hide Run, Reachable;
    ReachableInv(s);
  }

  /** While TCP is read, QUIC has less than 8192 bytes to send, and never 8192 + 16384 or more. */
  lemma BoundedBacklog(s: Relay)
    requires Reachable(s)
    ensures s.quic.unsent < WRITEBUF_UPPER + READBUF_SIZE
    ensures s.job.running && !s.tcp.closing && !s.quic.finWritten && s.tcp.reading ==> s.quic.unsent < WRITEBUF_UPPER
  {
    hide Run, Reachable;
    ReachableInv(s);
  }

  /** Reading stops only for a backlog above 4096 bytes, and the drain that ends it starts reading again. */
  lemma NeverStalls(s: Relay, unsentAfter: nat)
    requires Reachable(s) && s.job.running && !s.tcp.closing && s.job.bound && !s.tcp.readeof
    ensures s.tcp.reading || s.quic.unsent > WRITEBUF_LOWER
    ensures unsentAfter <= Smaller(s.quic.unsent, WRITEBUF_LOWER) ==>
      Step(s, QuicDrained(unsentAfter, true)).tcp.reading
  {
    hide Run, Reachable;
    ReachableInv(s);
  }

  /** The connection and the job are deleted at most once, and once both sides are done, exactly once. */
  lemma DeletedOnce(s: Relay)
    requires Reachable(s)
    ensures s.tcp.deleted <= 1 && s.job.deleted <= s.job.queued <= 1
    ensures s.tcp.deleted == 1 <==> !s.job.running && s.tcp.uvclosed
    ensures s.job.queued == 1 <==> !s.job.running
    ensures !s.job.running ==> !s.quic.alive && (s.tcp.uvclosed || Possible(s, UvClosed))
  {
    hide Run, Reachable;
    ReachableInv(s);
  }

  /** A connection that closed by itself, with the job still running, has relayed everything both ways. */
  lemma NaturalCloseIsComplete(s: Relay)
    requires Reachable(s) && s.job.running && s.tcp.closing
    ensures s.quic.fin && s.quic.forwarded == s.quic.received && s.quic.finWritten && s.quic.accepted == s.tcp.arrived
  {
    hide Run, Reachable;
    ReachableInv(s);
  }
}
