/** The books of the send requests: what every run does to them, counted from its steps. */
module DialerLedger {
  import opened SendPool
  import opened DialerProtocol

  /** Packets the socket took and refused; sends completed on the open socket, and on a closing one. */
  datatype Ledger = Ledger(taken: nat, refused: nat, returned: nat, late: nat)

  function Count(b: bool): nat { if b then 1 else 0 }

  /** A packet gets as far as the socket. */
  predicate Reaches(s: Dialer, step: Step) {
    step.Send? && Enabled(s, step) && !s.pool.blocked && s.pool.free != []
  }

  function Booked(s: Dialer, step: Step): Ledger {
    var done := step.SendDone? && Enabled(s, step);
    Ledger(Count(Reaches(s, step) && step.accepted), Count(Reaches(s, step) && !step.accepted),
           Count(done && step.request in s.pool.flying), Count(done && step.request in s.pool.orphaned))
  }

  function Tally(s: Dialer, steps: seq<Step>): Ledger
    decreases |steps|
  {
    if steps == [] then Ledger(0, 0, 0, 0)
    else
      var a, b := Booked(s, steps[0]), Tally(Do(s, steps[0]), steps[1..]);
      Ledger(a.taken + b.taken, a.refused + b.refused, a.returned + b.returned, a.late + b.late)
  }

  /** The books of one pool follow from those of another by what happened in between. */
  predicate Balances(p: Pool, l: Ledger, q: Pool) {
    && |q.flying| + |q.orphaned| + l.returned + l.late == |p.flying| + |p.orphaned| + l.taken
    && |q.lost| == |p.lost| + l.refused + l.late
    && |q.free| + l.taken + l.refused == |p.free| + l.returned
  }

  lemma WriteBalances(p: Pool, accepted: bool)
    requires Inv(p)
    ensures
      var sent := !p.blocked && p.free != [];
      Balances(p, Ledger(Count(sent && accepted), Count(sent && !accepted), 0, 0), Write(p, accepted).0)
  {
    if !p.blocked && p.free != [] {
      assert p.free[|p.free| - 1] in Elements(p.free);
    }
  }

  lemma CompleteBalances(p: Pool, r: nat)
    requires Inv(p)
    ensures Balances(p, Ledger(0, 0, Count(r in p.flying), Count(r in p.orphaned)), Complete(p, r))
  {}

  lemma CloseBalances(p: Pool)
    requires Inv(p)
    ensures Balances(p, Ledger(0, 0, 0, 0), Close(p))
    ensures Balances(p, Ledger(0, 0, 0, 0), Open(p)) && Balances(p, Ledger(0, 0, 0, 0), p)
  {}

  lemma StepBalances(s: Dialer, step: Step)
    requires DialerInv(s)
    ensures Balances(s.pool, Booked(s, step), Do(s, step).pool)
  {
    hide Inv, WaitingInv, OwnershipInv, Balances, Write, Complete, Do;
    CloseBalances(s.pool);
    match step
    case Send(id, accepted) =>
      WriteBalances(s.pool, accepted);
      SentPool(s, step);
    case SendDone(r) =>
      CompleteBalances(s.pool, r);
      DonePool(s, step);
    case _ =>
      OtherPool(s, step);
  }

  /** What a step does to the pool. */
  lemma SentPool(s: Dialer, step: Step)
    requires step.Send?
    ensures Do(s, step).pool == if Enabled(s, step) then Write(s.pool, step.accepted).0 else s.pool
  {
    hide Write, Append;
  }

  lemma DonePool(s: Dialer, step: Step)
    requires step.SendDone?
    ensures Do(s, step).pool == if Enabled(s, step) then Complete(s.pool, step.request) else s.pool
  {
    hide Complete;
  }

  lemma OtherPool(s: Dialer, step: Step)
    requires !step.Send? && !step.SendDone?
    ensures var q := Do(s, step).pool; q == s.pool || q == Open(s.pool) || q == Close(s.pool)
  {
    hide Append, Without, Open, Close;
  }

  lemma {:induction false} RunBalances(s: Dialer, steps: seq<Step>)
    requires DialerInv(s)
    ensures Balances(s.pool, Tally(s, steps), Run(s, steps).pool)
    decreases |steps|
  {
    hide DialerInv, Do, Booked;
    if steps != [] {
      StepBalances(s, steps[0]);
      StepInv(s, steps[0]);
      RunBalances(Do(s, steps[0]), steps[1..]);
    }
  }

  lemma StartsFull()
    ensures DialerInv(InitialDialer)
    ensures
      var p := InitialDialer.pool;
      |p.free| == MAX_FLYING && p.flying == {} && p.orphaned == {} && p.lost == {}
  {
    InitialInv();
    hide Inv;
  }

  /**
   * After any run: a request in flight was taken by the socket and has not completed; a lost
   * one was refused, or completed on a closing socket; the others are free.
   */
  lemma BooksBalance(steps: seq<Step>)
    ensures
      var p, l := Run(InitialDialer, steps).pool, Tally(InitialDialer, steps);
      && |p.flying| + |p.orphaned| + l.returned + l.late == l.taken
      && |p.lost| == l.refused + l.late
      && |p.free| + l.taken + l.refused == MAX_FLYING + l.returned
  {
    hide Run, Tally, DialerInv, Inv, Requests;
    StartsFull();
    RunBalances(InitialDialer, steps);
  }
}
