/**
 * The dialer as a step system. Its own code decides what a step does; sessions, the socket
 * and the caller decide which step comes next. A session reports a block in the step that
 * caused it, clears its writer when woken, and is silent once closed; it does not stop the
 * dialer that is serving it; identifiers are never used twice.
 */
module DialerProtocol {
  import opened SendPool

  type Conn = nat

  /** Outside a wakeup, before the test of its loop, or inside a pass of it. */
  datatype Phase = Idle | Testing | Serving

  /**
   * `writers` holds the live connections, each with the blocked flag of its writer,
   * `waiting` the connections to wake, oldest first, `closed` those awaiting deletion.
   */
  datatype Dialer = Dialer(
    pool: Pool, writers: map<Conn, bool>, waiting: seq<Conn>, closed: seq<Conn>, destroyed: set<Conn>,
    alarm: bool, phase: Phase)

  const InitialDialer: Dialer := Dialer(Initial, map[], [], [], {}, false, Idle)

  datatype Step =
    | Start(bound: bool)
    | Create(id: Conn, bound: bool)
    | Send(id: Conn, accepted: bool)
    | Report(id: Conn)
    | CloseConn(id: Conn)
    | SendDone(request: nat)
    | Pop
    | Served
    | EndWake
    | Alarm
    | Stop

  predicate KeepsWaking(s: Dialer) { s.waiting != [] && !s.pool.blocked }

  predicate Enabled(s: Dialer, step: Step) {
    match step
    case Start(_) => !s.phase.Testing?
    case Create(id, _) => !s.phase.Testing? && id !in s.writers && id !in s.closed && id !in s.destroyed
    case Send(id, _) => !s.phase.Testing? && id in s.writers
    case Report(id) => !s.phase.Testing? && id in s.writers && s.writers[id]
    case CloseConn(id) => !s.phase.Testing? && id in s.writers
    case SendDone(r) => s.phase.Idle? && (r in s.pool.flying || r in s.pool.orphaned)
    case Pop => s.phase.Testing? && KeepsWaking(s)
    case EndWake => s.phase.Testing? && !KeepsWaking(s)
    case Served => s.phase.Serving?
    case Alarm => s.phase.Idle? && s.alarm
    case Stop => s.phase.Idle?
  }

  // ---- the steps ---------------------------------------------------------------------------

  function Append(waiting: seq<Conn>, c: Conn): seq<Conn> { if c in waiting then waiting else waiting + [c] }

  function Without(waiting: seq<Conn>, c: Conn): seq<Conn> {
    if waiting == [] then []
    else if waiting[0] == c then Without(waiting[1..], c)
    else [waiting[0]] + Without(waiting[1..], c)
  }

  function Started(s: Dialer, bound: bool): Dialer {
    if s.pool.open || !bound then s else s.(pool := Open(s.pool), alarm := false)
  }

  function Created(s: Dialer, id: Conn, bound: bool): Dialer {
    var t := Started(s, bound);
    if t.pool.open then t.(writers := t.writers[id := false]) else t
  }

  function Sent(s: Dialer, id: Conn, accepted: bool): Dialer {
    var (pool, status) := Write(s.pool, accepted);
    if status == Blocked then s.(pool := pool, writers := s.writers[id := true], waiting := Append(s.waiting, id))
    else s.(pool := pool)
  }

  function Closed(s: Dialer, id: Conn): Dialer {
    s.(alarm := s.alarm || s.closed == [], closed := s.closed + [id], writers := s.writers - {id},
       waiting := Without(s.waiting, id))
  }

  function Completed(s: Dialer, r: nat): Dialer {
    var pool := Complete(s.pool, r);
    s.(pool := pool, phase := if s.pool.blocked && !pool.blocked then Testing else s.phase)
  }

  function Popped(s: Dialer): Dialer
    requires s.waiting != []
  {
    s.(waiting := s.waiting[1..], writers := s.writers[s.waiting[0] := false], phase := Serving)
  }

  /** Closes the socket and every connection, and deletes them all. */
  function Stopped(s: Dialer): Dialer {
    if !s.pool.open then s
    else Dialer(Close(s.pool), map[], [], [], s.destroyed + Elements(s.closed) + s.writers.Keys,
                s.writers.Keys != {} && s.closed == [], s.phase)
  }

  /** Deletes the closed connections; a dialer left without any stops until it is needed again. */
  function Rang(s: Dialer): Dialer {
    var t := s.(alarm := false, closed := [], destroyed := s.destroyed + Elements(s.closed));
    if t.writers == map[] then Stopped(t) else t
  }

  function Do(s: Dialer, step: Step): Dialer {
    if !Enabled(s, step) then s
    else
      match step
      case Start(bound) => Started(s, bound)
      case Create(id, bound) => Created(s, id, bound)
      case Send(id, accepted) => Sent(s, id, accepted)
      case Report(id) => s.(waiting := Append(s.waiting, id))
      case CloseConn(id) => Closed(s, id)
      case SendDone(r) => Completed(s, r)
      case Pop => Popped(s)
      case Served => s.(phase := Testing)
      case EndWake => s.(phase := Idle)
      case Alarm => Rang(s)
      case Stop => Stopped(s)
  }

  function Run(s: Dialer, steps: seq<Step>): Dialer
    decreases |steps|
  {
    if steps == [] then s else Run(Do(s, steps[0]), steps[1..])
  }

  lemma {:induction false} RunAppend(s: Dialer, a: seq<Step>, b: seq<Step>)
    ensures Run(s, a + b) == Run(Run(s, a), b)
    decreases |a|
  {
    hide Do;
    if a == [] {
      assert a + b == b;
    } else {
      assert (a + b)[1..] == a[1..] + b;
      RunAppend(Do(s, a[0]), a[1..], b);
    }
  }

  // ---- the invariant ---------------------------------------------------------------------------

  /** The waiting connections are exactly the live ones whose writer is blocked, each once. */
  ghost predicate WaitingInv(writers: map<Conn, bool>, waiting: seq<Conn>) {
    Distinct(waiting) && forall c :: c in waiting <==> c in writers && writers[c]
  }

  /** A connection is live, closed, or destroyed, and only one of them; closed ones have the alarm set. */
  ghost predicate OwnershipInv(s: Dialer) {
    && Distinct(s.closed)
    && s.writers.Keys !! Elements(s.closed) !! s.destroyed
    && (s.closed != [] ==> s.alarm)
  }

  ghost predicate DialerInv(s: Dialer) {
    && Inv(s.pool) && WaitingInv(s.writers, s.waiting) && OwnershipInv(s)
    && (!s.pool.open ==> s.writers == map[] && s.closed == [])
    && (!s.phase.Idle? ==> s.pool.open)
    && (s.phase.Idle? && !s.pool.blocked ==> s.waiting == [])
  }

  lemma AppendWaiting(writers: map<Conn, bool>, waiting: seq<Conn>, c: Conn)
    requires WaitingInv(writers, waiting)
    ensures c in writers ==> WaitingInv(writers[c := true], Append(waiting, c))
    ensures c !in writers ==> WaitingInv(writers[c := false], waiting)
  {}

  lemma {:induction false} WithoutMembers(waiting: seq<Conn>, c: Conn)
    requires Distinct(waiting)
    ensures Distinct(Without(waiting, c)) && forall d :: d in Without(waiting, c) <==> d in waiting && d != c
    ensures |Without(waiting, c)| <= |waiting|
  {
    if waiting != [] {
      WithoutMembers(waiting[1..], c);
      assert forall d :: d in waiting <==> d == waiting[0] || d in waiting[1..];
      assert waiting[0] !in waiting[1..];
    }
  }

  lemma HasMember(s: seq<Conn>)
    ensures s == [] || exists c :: c in s
  {
    if s != [] { assert s[0] in s; }
  }

  lemma NobodyWaits(waiting: seq<Conn>)
    requires WaitingInv(map[], waiting)
    ensures waiting == []
  {
    HasMember(waiting);
  }

  lemma PopWaiting(writers: map<Conn, bool>, waiting: seq<Conn>)
    requires WaitingInv(writers, waiting) && waiting != []
    ensures waiting[0] in writers && WaitingInv(writers[waiting[0] := false], waiting[1..])
  {
    assert waiting[0] in waiting;
    assert forall d :: d in waiting <==> d == waiting[0] || d in waiting[1..];
  }

  lemma SentInv(s: Dialer, id: Conn, accepted: bool)
    requires DialerInv(s) && id in s.writers
    ensures DialerInv(Sent(s, id, accepted))
  {
    hide Inv, WaitingInv;
    WriteInv(s.pool, accepted);
    AppendWaiting(s.writers, s.waiting, id);
    assert s.writers[id := true].Keys == s.writers.Keys;
  }

  lemma ClosedInv(s: Dialer, id: Conn)
    requires DialerInv(s) && id in s.writers
    ensures DialerInv(Closed(s, id))
  {
    hide Inv;
    WithoutMembers(s.waiting, id);
    ElementsSnoc(s.closed, id);
    assert (s.writers - {id}).Keys == s.writers.Keys - {id};
  }

  lemma CompletedInv(s: Dialer, r: nat)
    requires DialerInv(s) && s.phase.Idle?
    ensures DialerInv(Completed(s, r))
  {
    hide Inv, WaitingInv;
    CompleteInv(s.pool, r);
    if s.pool.blocked && !Complete(s.pool, r).blocked { ClosedIsBlocked(s.pool, r); }
  }

  lemma ClosedIsBlocked(p: Pool, r: nat)
    requires Inv(p) && p.blocked && !Complete(p, r).blocked
    ensures p.open
  {}

  lemma PoppedInv(s: Dialer)
    requires DialerInv(s) && s.phase.Testing? && s.waiting != []
    ensures DialerInv(Popped(s))
  {
    hide Inv, WaitingInv;
    PopWaiting(s.writers, s.waiting);
    assert s.writers[s.waiting[0] := false].Keys == s.writers.Keys;
  }

  lemma StartedInv(s: Dialer, bound: bool)
    requires DialerInv(s)
    ensures DialerInv(Started(s, bound))
  {
    hide Inv;
    OpenCloseInv(s.pool);
    if !s.pool.open {
      NobodyWaits(s.waiting);
    }
  }

  lemma CreatedInv(s: Dialer, id: Conn, bound: bool)
    requires DialerInv(s) && id !in s.writers && id !in s.closed && id !in s.destroyed
    ensures DialerInv(Created(s, id, bound))
  {
    hide Inv, WaitingInv;
    StartedInv(s, bound);
    var t := Started(s, bound);
    AppendWaiting(t.writers, t.waiting, id);
    assert t.writers[id := false].Keys == t.writers.Keys + {id};
    assert id !in Elements(s.closed);
  }

  lemma StoppedInv(s: Dialer)
    requires DialerInv(s) && s.phase.Idle?
    ensures DialerInv(Stopped(s))
  {
    hide Inv;
    OpenCloseInv(s.pool);
  }

  lemma RangInv(s: Dialer)
    requires DialerInv(s) && s.phase.Idle?
    ensures DialerInv(Rang(s))
  {
    hide Inv, WaitingInv;
    StoppedInv(s.(alarm := false, closed := [], destroyed := s.destroyed + Elements(s.closed)));
  }

  /** Every step keeps the invariant. */
  lemma StepInv(s: Dialer, step: Step)
    requires DialerInv(s)
    ensures DialerInv(Do(s, step))
  {
    hide Inv, WaitingInv, Append, Sent, Closed, Completed, Popped, Started, Created, Stopped, Rang;
    if Enabled(s, step) {
      match step
      case Start(bound) => StartedInv(s, bound);
      case Create(id, bound) => CreatedInv(s, id, bound);
      case Send(id, accepted) => SentInv(s, id, accepted);
      case Report(id) => ReportInv(s, id);
      case CloseConn(id) => ClosedInv(s, id);
      case SendDone(r) => CompletedInv(s, r);
      case Pop => PoppedInv(s);
      case Served =>
      case EndWake =>
      case Alarm => RangInv(s);
      case Stop => StoppedInv(s);
    }
  }

  lemma ReportInv(s: Dialer, id: Conn)
    requires DialerInv(s) && id in s.writers && s.writers[id]
    ensures DialerInv(s.(waiting := Append(s.waiting, id)))
    ensures Append(s.waiting, id) == s.waiting
  {}

  lemma {:induction false} RunInv(s: Dialer, steps: seq<Step>)
    requires DialerInv(s)
    ensures DialerInv(Run(s, steps))
    decreases |steps|
  {
    if steps != [] {
      StepInv(s, steps[0]);
      RunInv(Do(s, steps[0]), steps[1..]);
    }
  }

  /** The invariant holds in every state any run from construction can reach. */
  lemma ReachableInv(steps: seq<Step>)
    ensures DialerInv(Run(InitialDialer, steps))
  {
    InitialInv();
    RunInv(InitialDialer, steps);
  }
}
