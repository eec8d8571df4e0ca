/**
 * One relay job between a QUIC stream and a TCP connection, as an event system. Handlers
 * do what the code does, nested callbacks included; libuv and QUIC choose the events and
 * the outcome of every call. Calling a null or deleted object, or failing one of the
 * code's assertions, sets `fault`.
 */
module RelayProtocol {

  type Byte = x: int | 0 <= x < 256

  const READBUF_SIZE: nat := 16384
  const WRITEBUF_LOWER: nat := 4096
  const WRITEBUF_UPPER: nat := 8192

  /** The job: which connections it holds, how often it was queued and deleted, whether its address is known. */
  datatype Job = Job(running: bool, hasSrc: bool, hasDst: bool, queued: nat, deleted: nat, bound: bool)

  /**
   * The TCP connection's own fields and how often it was deleted; then libuv's side of it:
   * the write in flight, a shutdown asked for, and all bytes read.
   */
  datatype Tcp = Tcp(
    callback: bool, reading: bool, readeof: bool, writing: bool, writeof: bool, closed: bool, uvclosed: bool,
    deleted: nat, connected: bool, closing: bool, inFlight: seq<Byte>, shutIssued: bool, arrived: seq<Byte>)

  /**
   * QUIC's side: whether the job is its user data, what it received and how much of that is
   * consumed, what it has not sent yet; then the bytes that TCP has had and those taken from it.
   */
  datatype Quic = Quic(
    attached: bool, alive: bool, received: seq<Byte>, fin: bool, consumed: nat, unsent: nat, finWritten: bool,
    forwarded: seq<Byte>, accepted: seq<Byte>)

  datatype Relay = Relay(job: Job, tcp: Tcp, quic: Quic, fault: bool)

  function Faulty(s: Relay): Relay { s.(fault := true) }

  // ---- closing ------------------------------------------------------------------------

  /** The callback may be invoked: it is set, and the job it points to exists. */
  predicate CanCall(s: Relay) { s.tcp.callback && s.job.deleted == 0 }

  function UvClose(s: Relay): Relay {
    if s.tcp.closing then s
    else if s.tcp.callback && s.job.deleted > 0 then Faulty(s)
    else s.(tcp := s.tcp.(closing := true))
  }

  /** The job gives up its TCP connection: deleted at once if libuv is done with it, else closed. */
  function TcpClose(s: Relay): Relay {
    if s.tcp.deleted > 0 then Faulty(s)
    else if s.tcp.uvclosed then
      s.(tcp := s.tcp.(closed := true, deleted := s.tcp.deleted + 1), fault := s.fault || s.tcp.callback)
    else UvClose(s.(tcp := s.tcp.(closed := true)))
  }

  /** Ends the job: detaches it from QUIC, closes both connections, queues it for deletion. */
  function Clean(s: Relay): Relay {
    if s.job.deleted > 0 then Faulty(s)
    else if !s.job.running then s
    else
      var a := s.(job := s.job.(running := false));
      var b := if a.job.hasSrc then
                 a.(quic := a.quic.(attached := false, alive := false), job := a.job.(hasSrc := false))
               else a;
      var c := if b.job.hasDst then TcpClose(b) else b;
      c.(job := c.job.(hasDst := false, queued := c.job.queued + 1))
  }

  function TcpError(s: Relay): Relay { if CanCall(s) then Clean(s) else Faulty(s) }

  /** QUIC closes and tells the job, if it is attached. */
  function QuicClose(s: Relay): Relay {
    var t := s.(quic := s.quic.(alive := false));
    if t.quic.attached then Clean(t) else t
  }

  // ---- TCP operations --------------------------------------------------------------------

  function StartRead(s: Relay, ok: bool): Relay {
    if s.tcp.deleted > 0 then Faulty(s)
    else if s.tcp.reading || s.tcp.readeof then s
    else if !ok then TcpError(s)
    else s.(tcp := s.tcp.(reading := true))
  }

  function StopRead(s: Relay): Relay {
    if s.tcp.deleted > 0 then Faulty(s)
    else if !s.tcp.reading || s.tcp.readeof then s
    else s.(tcp := s.tcp.(reading := false))
  }

  /** Starts a zero-copy write of bytes that stay in the QUIC stream. */
  function TcpWrite(s: Relay, data: seq<Byte>, ok: bool): Relay {
    if s.tcp.deleted > 0 || s.tcp.writing then Faulty(s)
    else if data == [] || s.tcp.writeof then s
    else if !ok then TcpError(s)
    else s.(tcp := s.tcp.(writing := true, inFlight := data))
  }

  function Shutdown(s: Relay, ok: bool): Relay {
    if s.tcp.deleted > 0 then Faulty(s)
    else if s.tcp.writeof || !ok then s
    else s.(tcp := s.tcp.(shutIssued := true))
  }

  // ---- the two directions ----------------------------------------------------------------

  function Smaller(a: nat, b: nat): nat { if a < b then a else b }

  /** The readable bytes QUIC hands out: some of them, from the first unconsumed one on. */
  function Readable(s: Relay, take: nat): seq<Byte>
    requires s.quic.consumed <= |s.quic.received|
  {
    var n := Smaller(take + 1, |s.quic.received| - s.quic.consumed);
    s.quic.received[s.quic.consumed..s.quic.consumed + n]
  }

  /**
   * How an attempt to pass bytes on turns out: how many QUIC hands out, whether it dies
   * of being asked, and what libuv answers to the write or shutdown that follows.
   */
  datatype Next = Next(take: nat, dies: bool, ok: bool)

  function MayPuicToTcp(s: Relay, next: Next): Relay {
    if !s.job.hasDst || s.tcp.deleted > 0 then Faulty(s)
    else if s.tcp.writing then s
    else if !s.job.hasSrc then Faulty(s)
    else
      var t := if next.dies then QuicClose(s) else s;
      if t.job.running then PassOn(t, next) else t
  }

  function PassOn(s: Relay, next: Next): Relay {
    if s.quic.consumed > |s.quic.received| then Faulty(s)
    else if s.quic.consumed == |s.quic.received| then if s.quic.fin then Shutdown(s, next.ok) else s
    else TcpWrite(s, Readable(s, next.take), next.ok)
  }

  function MayTcpToPuic(s: Relay, buffered: nat, ok: bool): Relay {
    if buffered >= WRITEBUF_UPPER then if s.job.hasDst then StopRead(s) else Faulty(s)
    else if buffered <= WRITEBUF_LOWER then if s.job.hasDst then StartRead(s, ok) else Faulty(s)
    else s
  }

  // ---- events ------------------------------------------------------------------------------

  datatype Event =
    | Connected(ok: bool, named: bool, readOk: bool)
    | Read(data: seq<Byte>, unsentAfter: nat, dies: bool, readOk: bool)
    | ReadEof(unsentAfter: nat, dies: bool)
    | ReadFailed
    | Written(ok: bool, dies: bool, next: Next)
    | ShutDone(ok: bool)
    | UvClosed
    | QuicReadable(data: seq<Byte>, fin: bool, next: Next)
    | QuicDrained(unsentAfter: nat, readOk: bool)
    | QuicGone
    | Collected

  /** What libuv, QUIC and the manager's timer may do in a state. */
  predicate Possible(s: Relay, e: Event) {
    match e
    case Connected(_, _, _) => !s.tcp.uvclosed && !s.tcp.connected
    case Read(data, u, _, _) =>
      !s.tcp.uvclosed && s.tcp.connected && s.tcp.reading && 0 < |data| <= READBUF_SIZE && u <= s.quic.unsent + |data|
    case ReadEof(u, _) => !s.tcp.uvclosed && s.tcp.connected && s.tcp.reading && u <= s.quic.unsent
    case ReadFailed => !s.tcp.uvclosed && s.tcp.reading
    case Written(_, _, _) => !s.tcp.uvclosed && s.tcp.inFlight != []
    case ShutDone(_) => !s.tcp.uvclosed && s.tcp.shutIssued && !s.tcp.writeof && s.tcp.inFlight == []
    case UvClosed => s.tcp.closing && !s.tcp.uvclosed
    case QuicReadable(data, _, _) => s.quic.alive && (s.quic.fin ==> data == [])
    case QuicDrained(u, _) => s.quic.alive && u <= s.quic.unsent
    case QuicGone => s.quic.alive
    case Collected => s.job.deleted < s.job.queued
  }

  // The job's own callbacks; each asserts that the job runs.

  function JobBound(s: Relay, readOk: bool): Relay {
    if s.job.deleted > 0 || !s.job.running || !s.job.hasDst then Faulty(s)
    else StartRead(s.(job := s.job.(bound := true)), readOk)
  }

  /** Hands bytes to QUIC, which may die of it. */
  function QuicWrite(s: Relay, data: seq<Byte>, fin: bool, unsentAfter: nat, dies: bool): Relay {
    var t := if s.quic.finWritten then s
             else s.(quic := s.quic.(accepted := s.quic.accepted + data, unsent := unsentAfter, finWritten := fin));
    if dies then QuicClose(t) else t
  }

  function JobReceived(s: Relay, data: seq<Byte>, unsentAfter: nat, dies: bool, readOk: bool): Relay {
    if s.job.deleted > 0 || !s.job.running || !s.job.hasSrc then Faulty(s)
    else
      var t := QuicWrite(s, data, false, unsentAfter, dies);
      if !t.job.running then t else MayTcpToPuic(t, if s.quic.finWritten then 0 else t.quic.unsent, readOk)
  }

  function JobEof(s: Relay, unsentAfter: nat, dies: bool): Relay {
    if s.job.deleted > 0 || !s.job.running || !s.job.hasSrc then Faulty(s)
    else QuicWrite(s, [], true, unsentAfter, dies)
  }

  function JobSent(s: Relay, done: seq<Byte>, dies: bool, next: Next): Relay {
    if s.job.deleted > 0 || !s.job.running || !s.job.hasSrc then Faulty(s)
    else
      var t := s.(quic := s.quic.(consumed := s.quic.consumed + |done|, forwarded := s.quic.forwarded + done));
      var u := if dies then QuicClose(t) else t;
      if !u.job.running then u else MayPuicToTcp(u, next)
  }

  // The handlers libuv calls; on a closing socket they return at once.

  function OnConnected(s: Relay, ok: bool, named: bool, readOk: bool): Relay {
    var t := s.(tcp := s.tcp.(connected := true));
    if s.tcp.closing then t
    else if !ok then TcpError(t)
    else if !named then t
    else if !t.tcp.callback then Faulty(t)
    else JobBound(t, readOk)
  }

  function OnRead(s: Relay, data: seq<Byte>, unsentAfter: nat, dies: bool, readOk: bool): Relay {
    if s.tcp.closing then s
    else if !s.tcp.callback then Faulty(s)
    else JobReceived(s.(tcp := s.tcp.(arrived := s.tcp.arrived + data)), data, unsentAfter, dies, readOk)
  }

  function OnReadEof(s: Relay, unsentAfter: nat, dies: bool): Relay {
    if s.tcp.closing then s
    else if !s.tcp.callback then Faulty(s)
    else
      var t := JobEof(s, unsentAfter, dies);
      var u := t.(tcp := t.tcp.(reading := false, readeof := true));
      if u.tcp.writeof then UvClose(u) else u
  }

  function OnWritten(s: Relay, ok: bool, dies: bool, next: Next): Relay {
    var r := s.(tcp := s.tcp.(inFlight := []));
    if s.tcp.closing then r
    else if !ok then TcpError(r)
    else if !s.tcp.writing || !s.tcp.callback then Faulty(r)
    else JobSent(r.(tcp := r.tcp.(writing := false)), s.tcp.inFlight, dies, next)
  }

  function OnShutDone(s: Relay, ok: bool): Relay {
    if s.tcp.closing then s.(tcp := s.tcp.(shutIssued := false))
    else if !ok then TcpError(s)
    else
      var t := s.(tcp := s.tcp.(writing := false, writeof := true));
      if t.tcp.readeof then UvClose(t) else t
  }

  /** libuv is done with the socket: nothing more is called back; deleted if the job has let go. */
  function Forgotten(t: Tcp): Tcp {
    t.(callback := false, reading := false, readeof := true, writing := false, writeof := true, uvclosed := true,
       inFlight := [], deleted := if t.closed then t.deleted + 1 else t.deleted)
  }

  function OnUvClosed(s: Relay): Relay { s.(tcp := Forgotten(s.tcp)) }

  function OnQuicReadable(s: Relay, data: seq<Byte>, fin: bool, next: Next): Relay {
    var t := s.(quic := s.quic.(received := s.quic.received + data, fin := s.quic.fin || fin));
    if !t.quic.attached then t
    else if t.job.deleted > 0 || !t.job.running then Faulty(t)
    else MayPuicToTcp(t, next)
  }

  function OnQuicDrained(s: Relay, unsentAfter: nat, readOk: bool): Relay {
    var t := s.(quic := s.quic.(unsent := unsentAfter));
    if !t.quic.attached || t.quic.finWritten then t
    else if t.job.deleted > 0 || !t.job.running then Faulty(t)
    else MayTcpToPuic(t, unsentAfter, readOk)
  }

  function Step(s: Relay, e: Event): Relay {
    if !Possible(s, e) then s
    else
      match e
      case Connected(ok, named, readOk) => OnConnected(s, ok, named, readOk)
      case Read(data, u, dies, readOk) => OnRead(s, data, u, dies, readOk)
      case ReadEof(u, dies) => OnReadEof(s, u, dies)
      case ReadFailed => if s.tcp.closing then s else TcpError(s)
      case Written(ok, dies, next) => OnWritten(s, ok, dies, next)
      case ShutDone(ok) => OnShutDone(s, ok)
      case UvClosed => OnUvClosed(s)
      case QuicReadable(data, fin, next) => OnQuicReadable(s, data, fin, next)
      case QuicDrained(u, readOk) => OnQuicDrained(s, u, readOk)
      case QuicGone => QuicClose(s)
      case Collected => s.(job := s.job.(deleted := s.job.deleted + 1))
  }

  const FreshJob: Job := Job(true, true, true, 0, 0, false)

  const FreshTcp: Tcp := Tcp(false, false, false, false, false, false, false, 0, false, false, [], false, [])

  const FreshQuic: Quic := Quic(false, true, [], false, 0, 0, false, [], [])

  const Fresh: Relay := Relay(FreshJob, FreshTcp.(callback := true), FreshQuic.(attached := true), false)

  /** A job starts: its connection attempt and its proxy header may fail at once. */
  function Begin(connectOk: bool, headOk: bool): Relay {
    if connectOk && headOk then Fresh else TcpError(Fresh)
  }

  function Run(s: Relay, events: seq<Event>): Relay
    decreases |events|
  {
    if events == [] then s else Run(Step(s, events[0]), events[1..])
  }

  // ---- invariants ------------------------------------------------------------------------------

  /** A running job owns live connections; an ended one has let go of everything and is queued once. */
  predicate LifetimeInv(s: Relay) {
    var j, t, q := s.job, s.tcp, s.quic;
    && !s.fault
    && (j.running ==> j.hasSrc && j.hasDst && q.attached && q.alive && j.queued == 0 && j.deleted == 0 && !t.closed)
    && (!j.running ==> !j.hasSrc && !j.hasDst && !q.attached && !q.alive && j.queued == 1 && t.closed && t.closing)
    && j.deleted <= j.queued
    && t.deleted == (if t.closed && t.uvclosed then 1 else 0)
    && (t.callback <==> !t.uvclosed)
    && (t.uvclosed ==> t.closing && t.readeof && t.writeof && !t.reading && !t.writing)
    && (j.running && t.closing ==> t.readeof && t.writeof)
  }

  /** Bytes reach TCP in order, each once; a write in flight is the next bytes; shutdown comes after all. */
  predicate ForwardInv(s: Relay) {
    var t, q := s.tcp, s.quic;
    && q.consumed <= |q.received| && q.forwarded == q.received[..q.consumed]
    && (!t.closing ==> (t.writing <==> t.inFlight != []))
    && (!t.closing && t.writing ==>
      q.consumed + |t.inFlight| <= |q.received| && t.inFlight == q.received[q.consumed..q.consumed + |t.inFlight|])
    && (t.shutIssued ==> q.fin && q.consumed == |q.received| && (!t.closing ==> !t.writing))
    && (s.job.running && t.writeof ==> t.shutIssued)
  }

  /** Reading stops before QUIC has too much to send, and only then. */
  predicate BackpressureInv(s: Relay) {
    var j, t, q := s.job, s.tcp, s.quic;
    && q.unsent < WRITEBUF_UPPER + READBUF_SIZE
    && (j.running && !t.closing && !q.finWritten && t.reading ==> q.unsent < WRITEBUF_UPPER)
    && (j.running && !t.closing && j.bound && !t.readeof && !t.reading ==> q.unsent > WRITEBUF_LOWER)
    && (q.finWritten && !t.closing ==> t.readeof)
    && (j.running && t.readeof ==> q.finWritten)
    && (t.readeof ==> !t.reading)
    && (j.bound ==> t.connected) && (!t.connected ==> q.unsent == 0)
    && (j.running ==> q.accepted == t.arrived)
  }

  predicate RelayInv(s: Relay) { LifetimeInv(s) && ForwardInv(s) && BackpressureInv(s) }
}
