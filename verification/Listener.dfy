/** The listener's use of the send pool. Who is woken is up to its dispatcher. */
module Listener {
  import opened SendPool

  class PuicListener {
    var started: bool
    var availSendReqs: seq<nat>
    var writeBlocked: bool

    // Requests held by the open socket, by closing ones, and released for good.
    var flying: set<nat>
    var orphaned: set<nat>
    var lost: set<nat>

    function Requests(): Pool
      reads this
    {
      Pool(availSendReqs, flying, orphaned, lost, started, writeBlocked)
    }

    constructor ()
      ensures Requests() == Initial && Inv(Requests())
    {
      started, writeBlocked := false, true;
      availSendReqs := SendPool.Requests();
      flying, orphaned, lost := {}, {}, {};
      new;
      InitialInv();
    }

    method Start(bound: bool) returns (ok: bool)
      requires Inv(Requests())
      modifies this
      ensures ok <==> !old(started) && bound
      ensures Inv(Requests()) && Requests() == if ok then Open(old(Requests())) else old(Requests())
    {
      if started || !bound {
        return false;
      }
      OpenCloseInv(Requests());
      writeBlocked := false;
      started := true;
      return true;
    }

    method Stop()
      requires Inv(Requests())
      modifies this
      ensures Inv(Requests()) && Requests() == if old(started) then Close(old(Requests())) else old(Requests())
    {
      if !started {
        return;
      }
      OpenCloseInv(Requests());
      orphaned, flying := orphaned + flying, {};
      writeBlocked := true;
      started := false;
    }

    method WritePacket(accepted: bool) returns (status: Status)
      requires Inv(Requests())
      modifies this
      ensures (Requests(), status) == Write(old(Requests()), accepted) && Inv(Requests())
      ensures status == Ok <==> !old(writeBlocked) && old(availSendReqs) != [] && accepted
      ensures status == Blocked <==> old(writeBlocked) || old(availSendReqs) == []
    {
      WriteInv(Requests(), accepted);
      if writeBlocked {
        return Blocked;
      }
      if availSendReqs == [] {
        writeBlocked := true;
        return Blocked;
      }
      var req := availSendReqs[|availSendReqs| - 1];
      availSendReqs := availSendReqs[..|availSendReqs| - 1];
      if !accepted {
        lost := lost + {req};
        return Error;
      }
      flying := flying + {req};
      return Ok;
    }

    /** `wake` tells the dispatcher that it can write again. */
    method OnUvSend(req: nat, closing: bool) returns (wake: bool)
      requires Inv(Requests()) && if closing then req in orphaned else req in flying
      modifies this
      ensures Requests() == Complete(old(Requests()), req) && Inv(Requests())
      ensures wake <==> old(writeBlocked) && !writeBlocked
      ensures wake ==> Missing(Requests()) == {} && flying == {}
    {
      hide Inv;
      CompleteInv(Requests(), req);
      if closing {
        InOnePlace(Requests(), req);
        orphaned := orphaned - {req};
        lost := lost + {req};
        return false;
      }
      flying := flying - {req};
      availSendReqs := availSendReqs + [req];
      if writeBlocked && |availSendReqs| == MAX_FLYING {
        writeBlocked := false;
        AllFree(Requests());
        return true;
      }
      return false;
    }
  }

  lemma InOnePlace(p: Pool, r: nat)
    requires Inv(p) && r in p.orphaned
    ensures r !in p.flying
  {}
}
