/** All jobs of a proxy and the list of jobs to delete, which a timer works off. */
module RelayManager {
  import opened RelayProtocol
  import opened RelaySafety

  type JobId = nat

  datatype Manager = Manager(jobs: map<JobId, Relay>, cleanJobs: seq<JobId>)

  datatype Happening =
    | Accept(id: JobId, connectOk: bool, headOk: bool)
    | JobEvent(id: JobId, event: Event)
    | Monitor

  /** Files a job's new state, and queues the job if it has just ended. */
  function Filed(m: Manager, id: JobId, was: nat, s: Relay): Manager {
    Manager(m.jobs[id := s], if s.job.queued > was then m.cleanJobs + [id] else m.cleanJobs)
  }

  function Do(m: Manager, h: Happening): Manager {
    match h
    case Accept(id, connectOk, headOk) => if id in m.jobs then m else Filed(m, id, 0, Begin(connectOk, headOk))
    case JobEvent(id, event) =>
      if id !in m.jobs || event == Collected then m
      else Filed(m, id, m.jobs[id].job.queued, Step(m.jobs[id], event))
    case Monitor => Manager(Deleted(m.jobs, m.cleanJobs), [])
  }

  /** The job deleted once more. */
  function Gone(s: Relay): Relay { s.(job := s.job.(deleted := s.job.deleted + 1)) }

  /** Deletes the listed jobs, one after the other. */
  function Deleted(jobs: map<JobId, Relay>, list: seq<JobId>): map<JobId, Relay> {
    if list == [] then jobs
    else
      var rest := Deleted(jobs, list[..|list| - 1]);
      var id := list[|list| - 1];
      if id in rest then rest[id := Gone(rest[id])] else rest
  }

  function Run(m: Manager, hs: seq<Happening>): Manager
    decreases |hs|
  {
    if hs == [] then m else Run(Do(m, hs[0]), hs[1..])
  }

  predicate Distinct(s: seq<JobId>) { forall i, j :: 0 <= i < j < |s| ==> s[i] != s[j] }

  predicate ToDelete(s: Relay) { s.job.queued == 1 && s.job.deleted == 0 }

  /** The list holds each ended job that still exists once, and no other. */
  ghost predicate ManagerInv(m: Manager) {
    && Distinct(m.cleanJobs)
    && (forall id :: id in m.jobs ==> RelayInv(m.jobs[id]))
    && (forall id :: id in m.cleanJobs <==> id in m.jobs && ToDelete(m.jobs[id]))
  }

  /** An event queues a job at most when it ends it, and never touches a deletion count. */
  lemma EventQueues(s: Relay, e: Event)
    requires RelayInv(s) && e != Collected
    ensures var t := Step(s, e);
      && t.job.deleted == s.job.deleted && s.job.queued <= t.job.queued <= 1
      && (t.job.queued > s.job.queued ==> s.job.deleted == 0)
  {
    hide ForwardInv, BackpressureInv;
    hide Step;
    StepInv(s, e);
  }

  lemma FiledInv(m: Manager, id: JobId, was: nat, s: Relay)
    requires ManagerInv(m) && RelayInv(s) && was <= s.job.queued <= 1
    requires if id in m.jobs then was == m.jobs[id].job.queued && s.job.deleted == m.jobs[id].job.deleted
             else was == 0 && s.job.deleted == 0
    requires s.job.queued > was ==> s.job.deleted == 0
    ensures ManagerInv(Filed(m, id, was, s))
  {
    hide RelayInv;
    assert id in m.cleanJobs <==> id in m.jobs && ToDelete(m.jobs[id]);
  }

  lemma {:induction false} DeletedInv(jobs: map<JobId, Relay>, list: seq<JobId>)
    requires Distinct(list)
    ensures var r := Deleted(jobs, list);
      && r.Keys == jobs.Keys
      && forall id :: id in jobs ==>
        r[id] == if id in list then Gone(jobs[id]) else jobs[id]
  {
    if list != [] {
      var front, last := list[..|list| - 1], list[|list| - 1];
      DeletedInv(jobs, front);
      assert forall id :: id in list <==> id == last || id in front;
      assert last !in front;
    }
  }

  lemma MonitorInv(m: Manager)
    requires ManagerInv(m)
    ensures ManagerInv(Do(m, Monitor))
  {
    hide RelayInv, Deleted;
    DeletedInv(m.jobs, m.cleanJobs);
    forall id | id in m.jobs && id in m.cleanJobs ensures RelayInv(Gone(m.jobs[id])) {
      CollectedInv(m.jobs[id]);
    }
  }

  lemma DoInv(m: Manager, h: Happening)
    requires ManagerInv(m)
    ensures ManagerInv(Do(m, h))
  {
    hide RelayInv, ManagerInv, Step, Begin, Filed, Deleted;
    match h
    case Accept(id, connectOk, headOk) =>
      BeginInv(connectOk, headOk);
      BeginCounts(connectOk, headOk);
      if id !in m.jobs { FiledInv(m, id, 0, Begin(connectOk, headOk)); }
    case JobEvent(id, event) =>
      if id in m.jobs && event != Collected {
        JobInv(m, id);
        EventQueues(m.jobs[id], event);
        StepInv(m.jobs[id], event);
        FiledInv(m, id, m.jobs[id].job.queued, Step(m.jobs[id], event));
      }
    case Monitor => MonitorInv(m);
  }

  lemma JobInv(m: Manager, id: JobId)
    requires ManagerInv(m) && id in m.jobs
    ensures RelayInv(m.jobs[id])
  {}

  lemma BeginCounts(connectOk: bool, headOk: bool)
    ensures var s := Begin(connectOk, headOk); s.job.deleted == 0 && s.job.queued <= 1
  {}

  lemma {:induction false} RunKeepsInv(m: Manager, hs: seq<Happening>)
    requires ManagerInv(m)
    ensures ManagerInv(Run(m, hs))
    decreases |hs|
  {
    hide ManagerInv, Do;
    if hs != [] {
      DoInv(m, hs[0]);
      RunKeepsInv(Do(m, hs[0]), hs[1..]);
    }
  }

  /**
   * Whatever happens to whichever jobs in whatever order: nothing null or deleted is ever
   * called, no job is in the list twice or deleted twice, no connection is deleted twice,
   * and each round of the timer deletes exactly the jobs that have ended since the last.
   */
  lemma EveryJobDeletedOnce(hs: seq<Happening>, id: JobId)
    ensures
      var m, n := Run(Manager(map[], []), hs), Run(Manager(map[], []), hs + [Monitor]);
      && Distinct(m.cleanJobs) && n.cleanJobs == [] && n.jobs.Keys == m.jobs.Keys
      && (id in m.jobs ==>
        var s := m.jobs[id];
        && !s.fault && s.job.deleted <= 1 && s.tcp.deleted <= 1
        && (id in m.cleanJobs <==> !s.job.running && s.job.deleted == 0)
        && n.jobs[id] == if id in m.cleanJobs then Gone(s) else s)
  {
    hide Do, Run;
    var start := Manager(map[], []);
    RunKeepsInv(start, hs);
    var m := Run(start, hs);
    RunSnoc(start, hs, Monitor);
    MonitorOn(m);
  }

  lemma MonitorOn(m: Manager)
    requires ManagerInv(m)
    ensures var n := Do(m, Monitor);
      && n.jobs.Keys == m.jobs.Keys && n.cleanJobs == []
      && forall id :: id in m.jobs ==> n.jobs[id] == if id in m.cleanJobs then Gone(m.jobs[id]) else m.jobs[id]
  {
    hide RelayInv;
    DeletedInv(m.jobs, m.cleanJobs);
  }

  lemma {:induction false} RunSnoc(m: Manager, hs: seq<Happening>, h: Happening)
    ensures Run(m, hs + [h]) == Do(Run(m, hs), h)
    decreases |hs|
  {
    hide Do;
    if hs == [] {
      assert [h][1..] == [];
      assert hs + [h] == [h];
    } else {
      assert (hs + [h])[1..] == hs[1..] + [h];
      RunSnoc(Do(m, hs[0]), hs[1..], h);
    }
  }

  /** Until the timer next comes round, the list only grows at its end: jobs are deleted in the order they ended. */
  lemma {:induction false} InOrderOfEnding(m: Manager, hs: seq<Happening>)
    requires Monitor !in hs
    ensures m.cleanJobs <= Run(m, hs).cleanJobs
    decreases |hs|
  {
    if hs != [] {
      assert hs[0] in hs;
      GrowsAtTheEnd(m, hs[0]);
      hide Do;
      InOrderOfEnding(Do(m, hs[0]), hs[1..]);
    }
  }

  lemma GrowsAtTheEnd(m: Manager, h: Happening)
    requires h != Monitor
    ensures m.cleanJobs <= Do(m, h).cleanJobs
  {
    hide Step, Begin;
  }

  // ---- a job among others is a job alone -----------------------------------------------------

  /** What a happening is to one job: one of its own events, a round of the timer, or nothing. */
  function Own(id: JobId, h: Happening): seq<Event> {
    match h
    case JobEvent(of, event) => if of == id && event != Collected then [event] else []
    case Monitor => [Collected]
    case Accept(_, _, _) => []
  }

  function OwnEvents(id: JobId, hs: seq<Happening>): seq<Event>
    decreases |hs|
  {
    if hs == [] then [] else Own(id, hs[0]) + OwnEvents(id, hs[1..])
  }

  lemma {:induction false} EventsAppend(s: Relay, a: seq<Event>, b: seq<Event>)
    ensures RelayProtocol.Run(s, a + b) == RelayProtocol.Run(RelayProtocol.Run(s, a), b)
    decreases |a|
  {
    hide Step;
    if a == [] {
      assert a + b == b;
    } else {
      assert (a + b)[1..] == a[1..] + b;
      EventsAppend(Step(s, a[0]), a[1..], b);
    }
  }

  lemma RunOne(s: Relay, e: Event)
    ensures RelayProtocol.Run(s, [e]) == Step(s, e) && RelayProtocol.Run(s, []) == s
  {
    hide Step;
    assert [e][1..] == [];
  }

  lemma CollectedIs(s: Relay)
    requires RelayInv(s)
    ensures Step(s, Collected) == if ToDelete(s) then Gone(s) else s
  {}

  lemma DoOwn(m: Manager, h: Happening, id: JobId)
    requires ManagerInv(m) && id in m.jobs
    ensures id in Do(m, h).jobs && Do(m, h).jobs[id] == RelayProtocol.Run(m.jobs[id], Own(id, h))
  {
    hide RelayInv, Step, Begin, Deleted, RelayProtocol.Run;
    match h
    case Accept(_, _, _) => RunOne(m.jobs[id], Collected);
    case JobEvent(of, event) => RunOne(m.jobs[id], event);
    case Monitor =>
      RunOne(m.jobs[id], Collected);
      CollectedIs(m.jobs[id]);
      MonitorOn(m);
  }

  /** However the jobs are interleaved, each goes through its own events as if it were alone. */
  lemma {:induction false} EachJobAlone(m: Manager, hs: seq<Happening>, id: JobId)
    requires ManagerInv(m) && id in m.jobs
    ensures id in Run(m, hs).jobs && Run(m, hs).jobs[id] == RelayProtocol.Run(m.jobs[id], OwnEvents(id, hs))
    decreases |hs|
  {
    hide ManagerInv, Do, RelayProtocol.Run, Own;
    if hs == [] {
      RunOne(m.jobs[id], Collected);
    } else {
      DoInv(m, hs[0]);
      DoOwn(m, hs[0], id);
      EachJobAlone(Do(m, hs[0]), hs[1..], id);
      EventsAppend(m.jobs[id], Own(id, hs[0]), OwnEvents(id, hs[1..]));
    }
  }

  lemma RunReachable(s: Relay, events: seq<Event>)
    requires Reachable(s)
    ensures Reachable(RelayProtocol.Run(s, events))
  {
    hide RelayProtocol.Run, Begin;
    var connectOk, headOk, before :| s == RelayProtocol.Run(Begin(connectOk, headOk), before);
    EventsAppend(Begin(connectOk, headOk), before, events);
  }

  lemma BeginReachable(connectOk: bool, headOk: bool)
    ensures Reachable(Begin(connectOk, headOk))
  {
    hide Begin;
    RunOne(Begin(connectOk, headOk), Collected);
  }

  lemma DoReachable(m: Manager, h: Happening, id: JobId)
    requires ManagerInv(m) && (id in m.jobs ==> Reachable(m.jobs[id])) && id in Do(m, h).jobs
    ensures Reachable(Do(m, h).jobs[id])
  {
    hide ManagerInv, RelayInv, Step, Begin, Reachable, RelayProtocol.Run;
    if id in m.jobs {
      DoOwn(m, h, id);
      RunReachable(m.jobs[id], Own(id, h));
    } else {
      if h == Monitor { MonitorOn(m); }
      BeginReachable(h.connectOk, h.headOk);
    }
  }

  /** So whatever holds of every run of one job holds of every job of every run of the proxy. */
  lemma {:induction false} EveryJobIsReachable(hs: seq<Happening>, id: JobId)
    requires id in Run(Manager(map[], []), hs).jobs
    ensures Reachable(Run(Manager(map[], []), hs).jobs[id])
    decreases |hs|
  {
    hide Do, Reachable, RelayInv;
    var start := Manager(map[], []);
    if hs != [] {
      var before, h := hs[..|hs| - 1], hs[|hs| - 1];
      assert hs == before + [h];
      RunSnoc(start, before, h);
      RunKeepsInv(start, before);
      var m := Run(start, before);
      if id in m.jobs { EveryJobIsReachable(before, id); }
      DoReachable(m, h, id);
    }
  }
}
