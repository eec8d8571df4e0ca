/**
 * The relay's objects: a job, its TCP connection, its QUIC connection and the manager,
 * pointing at each other as in the program. A reference is used only where it is proved not
 * to be null, and an object only where it is proved not to be deleted.
 */
module Relay {
  import opened RelayProtocol
  import opened RelaySafety

  /** The manager: its jobs, each with connections of its own, and those of them that wait to be deleted. */
  class ProxyManager {
    var cleanJobs: seq<ProxyJob>
    ghost var jobs: set<ProxyJob>

    ghost predicate Sound(j: ProxyJob)
      reads j, j.tcp, j.quic
    {
      j.manager == this && j.Linked() && RelayInv(j.State())
    }

    ghost predicate Valid()
      reads this, jobs, (set j | j in jobs :: j.tcp), (set j | j in jobs :: j.quic)
    {
      && (forall j :: j in jobs ==> Sound(j))
      && (forall i, j :: i in jobs && j in jobs && i != j ==> i.tcp != j.tcp && i.quic != j.quic)
      && (forall i, j :: 0 <= i < j < |cleanJobs| ==> cleanJobs[i] != cleanJobs[j])
      && (forall j :: j in cleanJobs ==> j in jobs)
      && (forall j :: j in jobs ==> (j in cleanJobs <==> !j.running && j.deleted == 0))
    }

    constructor ()
      ensures cleanJobs == [] && jobs == {} && Valid()
    {
      cleanJobs, jobs := [], {};
    }

    method JobToClean(job: ProxyJob)
      modifies `cleanJobs
      ensures cleanJobs == old(cleanJobs) + [job]
    {
      cleanJobs := cleanJobs + [job];
    }

    /** Deletes the jobs that have ended; none of them was deleted before. */
    method Monitor()
      requires Valid()
      modifies `cleanJobs, cleanJobs`deleted
      ensures Valid() && cleanJobs == []
      ensures forall j :: j in jobs ==>
        j.State() == if j in old(cleanJobs) then Step(old(j.State()), Collected) else old(j.State())
    {
      hide RelayInv, Step;
      ghost var ended := cleanJobs;
      DeleteListed();
      forall j | j in jobs
        ensures j.State() == if j in ended then Step(old(j.State()), Collected) else old(j.State())
        ensures Sound(j)
      {
        if j in ended {
          DeletedOne(old(j.State()));
        }
      }
    }

    method DeleteListed()
      requires forall i, j :: 0 <= i < j < |cleanJobs| ==> cleanJobs[i] != cleanJobs[j]
      requires forall j :: j in cleanJobs ==> j.deleted == 0
      modifies `cleanJobs, cleanJobs`deleted
      ensures cleanJobs == [] && forall j :: j in old(cleanJobs) ==> j.deleted == 1
    {
      for i := 0 to |cleanJobs|
        invariant cleanJobs == old(cleanJobs)
        invariant forall j :: 0 <= j < i ==> cleanJobs[j].deleted == 1
        invariant forall j :: i <= j < |cleanJobs| ==> cleanJobs[j].deleted == 0
      {
        cleanJobs[i].Delete();
      }
      cleanJobs := [];
    }

    /** A client arrived: it gets a job of its own, which may end right away. */
    method OnPUICAccept(conn: ServerConn, connectOk: bool, headOk: bool) returns (job: ProxyJob)
      requires Valid() && conn.data == null && conn.View() == FreshQuic && forall j :: j in jobs ==> j.quic != conn
      modifies this, conn
      ensures Valid() && fresh(job) && jobs == old(jobs) + {job}
      ensures job.quic == conn && job.State() == Begin(connectOk, headOk)
    {
      hide Begin, RelayInv, Sound;
      job := NewJob(conn, connectOk, headOk);
      jobs := jobs + {job};
    }

    method NewJob(conn: ServerConn, connectOk: bool, headOk: bool) returns (job: ProxyJob)
      requires conn.data == null && conn.View() == FreshQuic
      modifies `cleanJobs, conn
      ensures fresh(job) && fresh(job.tcp) && job.quic == conn && Sound(job) && job.State() == Begin(connectOk, headOk)
      ensures job.deleted == 0 && cleanJobs == old(cleanJobs) + if job.running then [] else [job]
    {
      hide Begin, RelayInv;
      var tcp := new TCPConn();
      job := new ProxyJob(this, conn, tcp);
      job.Start(tcp, connectOk, headOk);
      BeginInv(connectOk, headOk);
    }

    /** Whatever event comes to whichever job, it is handled without touching the others. */
    method Handle(e: Event, tcp: TCPConn, quic: ServerConn, job: ProxyJob)
      requires Valid() && job in jobs && job.tcp == tcp && job.quic == quic && Possible(job.State(), e) && !e.Collected?
      modifies `cleanJobs, job, tcp, quic
      ensures Valid() && job.State() == Step(old(job.State()), e)
      ensures cleanJobs == old(cleanJobs) + if old(job.running) && !job.running then [job] else []
    {
      hide ForwardInv, BackpressureInv, Step, Possible;
      Deliver(e, tcp, quic, job);
    }
  }

  /** The QUIC connection and its stream, as far as the relay uses them. */
  class ServerConn {
    var data: ProxyJob?
    var alive: bool
    var received: seq<Byte>
    var fin: bool
    var consumed: nat
    var unsent: nat
    var finWritten: bool
    ghost var forwarded: seq<Byte>  // consumed because TCP has them
    ghost var accepted: seq<Byte>   // taken from TCP

    constructor ()
      ensures data == null && View() == FreshQuic
    {
      data, alive, received, fin, consumed, unsent, finWritten := null, true, [], false, 0, 0, false;
      forwarded, accepted := [], [];
    }

    ghost function View(): Quic
      reads this
    {
      Quic(data != null, alive, received, fin, consumed, unsent, finWritten, forwarded, accepted)
    }

    /** Closes the connection when nobody is left to be told. */
    method Disconnect()
      requires data == null
      modifies this
      ensures data == null && View() == old(View()).(alive := false)
    {
      alive := false;
    }

    /** The connection goes away: the job, if there is one, is told. */
    method Gone(ghost job: ProxyJob)
      requires job.quic == this && job.Live()
      modifies this, job, job.tcp, job.manager`cleanJobs
      ensures job.Linked() && job.Filed() && !job.running && job.State() == QuicClose(old(job.State()))
    {
      hide RelayProtocol.Clean;
      alive := false;
      if data != null {
        data.OnPUICConnErr();
      }
    }

    method OnCanRead(bytes: seq<Byte>, last: bool, next: Next, ghost job: ProxyJob)
      requires job.quic == this && job.Live() && consumed <= |received|
      modifies this, job, job.tcp, job.manager`cleanJobs
      ensures job.Linked() && job.Filed() && job.State() == OnQuicReadable(old(job.State()), bytes, last, next)
    {
      hide RelayProtocol.MayPuicToTcp;
      received, fin := received + bytes, fin || last;
      if data == null {
        return;
      }
      data.OnPUICConnCanRead(next);
    }

    method OnCanWrite(remain: nat, readOk: bool, ghost job: ProxyJob)
      requires job.quic == this && job.Live()
      modifies this, job, job.tcp, job.manager`cleanJobs
      ensures job.Linked() && job.Filed() && job.State() == OnQuicDrained(old(job.State()), remain, readOk)
    {
      hide RelayProtocol.MayTcpToPuic;
      unsent := remain;
      if finWritten || data == null {
        return;
      }
      data.OnPUICConnCanWrite(remain, readOk);
    }

    /** Takes bytes to send, or nothing once the end was written; `dies` if the connection fails of it. */
    method Write(bytes: seq<Byte>, last: bool, unsentAfter: nat, dies: bool, ghost job: ProxyJob)
      returns (buffered: nat)
      requires job.quic == this && job.Live() && job.running
      modifies this, job, job.tcp, job.manager`cleanJobs
      ensures job.Linked() && job.Filed() && job.running == !dies
      ensures job.State() == QuicWrite(old(job.State()), bytes, last, unsentAfter, dies)
      ensures !dies ==> LifetimeInv(job.State()) && (old(finWritten) || unsent == unsentAfter)
      ensures buffered == if old(finWritten) then 0 else unsentAfter
    {
      hide QuicClose;
      buffered := 0;
      if !finWritten {
        accepted, unsent, finWritten := accepted + bytes, unsentAfter, last;
        buffered := unsentAfter;
      }
      if dies {
        Gone(job);
      }
    }

    /** Some of the readable bytes, and whether the stream is at its end; the connection may die of the question. */
    method ReadableRegions(take: nat, dies: bool, ghost job: ProxyJob) returns (bytes: seq<Byte>, eof: bool)
      requires job.quic == this && job.Live() && job.running && consumed <= |received|
      modifies this, job, job.tcp, job.manager`cleanJobs
      ensures job.Linked() && job.Filed() && job.running == !dies
      ensures dies ==> job.State() == QuicClose(old(job.State()))
      ensures !dies ==> View() == old(View()) && job.View() == old(job.View()) && job.tcp.View() == old(job.tcp.View())
      ensures bytes == old(received[consumed..consumed + Smaller(take + 1, |received| - consumed)])
      ensures eof <==> old(consumed) == |old(received)| && old(fin)
    {
      hide QuicClose;
      bytes := received[consumed..consumed + Smaller(take + 1, |received| - consumed)];
      eof := |bytes| == 0 && fin;
      if dies {
        Gone(job);
      }
    }

    /** Lets go of the first bytes, which TCP now has. */
    method MarkConsumed(n: nat, dies: bool, ghost done: seq<Byte>, ghost job: ProxyJob)
      requires job.quic == this && job.Live() && job.running
      modifies this, job, job.tcp, job.manager`cleanJobs
      ensures job.Linked() && job.Filed() && job.running == !dies
      ensures
        var s := old(job.State());
        var t := s.(quic := s.quic.(consumed := s.quic.consumed + n, forwarded := s.quic.forwarded + done));
        job.State() == if dies then QuicClose(t) else t
    {
      hide QuicClose;
      consumed, forwarded := consumed + n, forwarded + done;
      if dies {
        Gone(job);
      }
    }
  }

  class TCPConn {
    var callback: ProxyJob?
    var reading: bool
    var readeof: bool
    var writing: bool
    var writeof: bool
    var closed: bool
    var uvclosed: bool
    var deleted: nat

    // libuv's side of the socket.
    var connected: bool
    var closing: bool
    var inFlight: seq<Byte>
    var shutIssued: bool
    ghost var arrived: seq<Byte>  // all bytes read

    constructor ()
      ensures callback == null
      ensures View() == FreshTcp
    {
      callback, reading, readeof, writing, writeof, closed, uvclosed := null, false, false, false, false, false, false;
      deleted, connected, closing, inFlight, shutIssued, arrived := 0, false, false, [], false, [];
    }

    /** Starts connecting, and sends the proxy header ahead of everything else. */
    method Start(connectOk: bool, headOk: bool, job: ProxyJob)
      requires job.tcp == this && job.Linked() && job.running && job.dst == this
      requires job.View() == Job(true, true, true, 0, 0, false) && View() == FreshTcp
      requires job.quic.View() == FreshQuic.(attached := true)
      modifies this, job, job.quic, job.manager`cleanJobs
      ensures job.Linked() && job.State() == Begin(connectOk, headOk) && job.deleted == 0
      ensures job.manager.cleanJobs == old(job.manager.cleanJobs) + if job.running then [] else [job]
    {
      hide RelayProtocol.Clean;
      callback := job;
      assert job.State() == RelayProtocol.Fresh;
      if !connectOk {
        callback.OnTCPConnErr();
        return;
      }
      if !headOk {
        callback.OnTCPConnErr();
        return;
      }
    }

    ghost function View(): Tcp
      reads this
    {
      Tcp(callback != null, reading, readeof, writing, writeof, closed, uvclosed, deleted,
              connected, closing, inFlight, shutIssued, arrived)
    }

    /** Starts closing the socket, once, and tells the job it did. */
    method UvClose()
      requires deleted == 0
      requires !closing && callback != null ==> callback.deleted == 0
      modifies this
      ensures callback == old(callback) && View() == old(View()).(closing := true)
    {
      if closing {
        return;
      }
      closing := true;
    }

    /** The job lets go: deleted at once if libuv is done with the socket, else when it is. */
    method Close()
      requires deleted == 0 && (uvclosed ==> closing && callback == null)
      requires !closing && callback != null ==> callback.deleted == 0
      modifies this
      ensures callback == old(callback)
      ensures View() == old(View()).(closed := true, closing := true, deleted := if old(uvclosed) then 1 else 0)
    {
      closed := true;
      if uvclosed {
        deleted := deleted + 1;
        return;
      }
      UvClose();
    }

    method StopRead()
      requires deleted == 0
      modifies this
      ensures callback == old(callback) && View() == old(View()).(reading := old(reading) && readeof)
    {
      if !reading || readeof {
        return;
      }
      reading := false;
    }

    method StartRead(ok: bool, ghost job: ProxyJob)
      requires job.tcp == this && job.Live() && job.running
      modifies this, job, job.quic, job.manager`cleanJobs
      ensures job.Linked() && job.Filed() && job.State() == RelayProtocol.StartRead(old(job.State()), ok)
    {
      hide RelayProtocol.Clean;
      if reading || readeof {
        return;
      }
      if !ok {
        callback.OnTCPConnErr();
        return;
      }
      reading := true;
    }

    /** A zero-copy write of bytes that stay in the QUIC stream. */
    method Write(bytes: seq<Byte>, ok: bool, ghost job: ProxyJob)
      requires job.tcp == this && job.Live() && job.running && !writing
      modifies this, job, job.quic, job.manager`cleanJobs
      ensures job.Linked() && job.Filed() && job.State() == TcpWrite(old(job.State()), bytes, ok)
    {
      hide RelayProtocol.Clean;
      if writing || |bytes| == 0 || writeof {
        return;
      }
      if !ok {
        callback.OnTCPConnErr();
        return;
      }
      writing, inFlight := true, bytes;
    }

    method Shutdown(ok: bool)
      requires deleted == 0
      modifies this
      ensures callback == old(callback) && View() == old(View()).(shutIssued := shutIssued)
      ensures shutIssued == (old(shutIssued) || (ok && !writeof))
    {
      if writeof {
        return;
      }
      if ok {
        shutIssued := true;
      }
    }

    // What libuv calls. A closing socket is left alone.

    method OnUvConnect(ok: bool, named: bool, readOk: bool, ghost job: ProxyJob)
      requires job.tcp == this && job.Live() && !uvclosed
      modifies this, job, job.quic, job.manager`cleanJobs
      ensures job.Linked() && job.Filed() && job.State() == OnConnected(old(job.State()), ok, named, readOk)
    {
      hide RelayProtocol.Clean, JobBound;
      connected := true;
      if closing {
        return;
      }
      if !ok {
        callback.OnTCPConnErr();
        return;
      }
      if named {
        callback.OnTCPConnBound(readOk);
      }
    }

    method OnUvRead(bytes: seq<Byte>, unsentAfter: nat, dies: bool, readOk: bool, ghost job: ProxyJob)
      requires job.tcp == this && job.Live() && !uvclosed
      modifies this, job, job.quic, job.manager`cleanJobs
      ensures job.Linked() && job.Filed() && job.State() == OnRead(old(job.State()), bytes, unsentAfter, dies, readOk)
    {
      hide JobReceived;
      if closing {
        return;
      }
      arrived := arrived + bytes;
      callback.OnTCPConnRcvd(bytes, unsentAfter, dies, readOk);
    }

    /** The job hears of the end first; then the socket closes if both directions are at their end. */
    method OnUvReadEof(unsentAfter: nat, dies: bool, ghost job: ProxyJob)
      requires job.tcp == this && job.Live() && !uvclosed
      modifies this, job, job.quic, job.manager`cleanJobs
      ensures job.Linked() && job.Filed() && job.State() == OnReadEof(old(job.State()), unsentAfter, dies)
    {
      hide JobEof;
      if closing {
        return;
      }
      callback.OnTCPConnEOF(unsentAfter, dies);
      EndRead();
    }

    method EndRead()
      requires deleted == 0 && (!closing && callback != null ==> callback.deleted == 0)
      modifies this
      ensures callback == old(callback)
      ensures View() == old(View()).(reading := false, readeof := true, closing := old(closing) || writeof)
    {
      reading, readeof := false, true;
      if writeof {
        UvClose();
      }
    }

    method OnUvReadFailed(ghost job: ProxyJob)
      requires job.tcp == this && job.Live() && !uvclosed
      modifies this, job, job.quic, job.manager`cleanJobs
      ensures job.Linked() && job.Filed()
      ensures job.State() == if old(closing) then old(job.State()) else TcpError(old(job.State()))
    {
      hide RelayProtocol.Clean;
      if closing {
        return;
      }
      callback.OnTCPConnErr();
    }

    method OnUvWrite(ok: bool, dies: bool, next: Next, ghost job: ProxyJob)
      requires job.tcp == this && job.Live() && !uvclosed
      requires !closing ==> writing && job.quic.consumed + |inFlight| <= |job.quic.received|
      modifies this, job, job.quic, job.manager`cleanJobs
      ensures job.Linked() && job.Filed() && job.State() == OnWritten(old(job.State()), ok, dies, next)
    {
      hide JobSent, RelayProtocol.Clean;
      ghost var done := inFlight;
      var len := |inFlight|;
      inFlight := [];
      if closing {
        return;
      }
      if !ok {
        callback.OnTCPConnErr();
        return;
      }
      writing := false;
      callback.OnTCPConnSent(len, done, dies, next);
    }

    method OnUvShutdown(ok: bool, ghost job: ProxyJob)
      requires job.tcp == this && job.Live() && !uvclosed
      modifies this, job, job.quic, job.manager`cleanJobs
      ensures job.Linked() && job.Filed() && job.State() == OnShutDone(old(job.State()), ok)
    {
      hide TcpError;
      if closing {
        shutIssued := false;
        return;
      }
      if !ok {
        callback.OnTCPConnErr();
        return;
      }
      EndWrite();
    }

    method EndWrite()
      requires deleted == 0 && (!closing && callback != null ==> callback.deleted == 0)
      modifies this
      ensures callback == old(callback)
      ensures View() == old(View()).(writing := false, writeof := true, closing := old(closing) || readeof)
    {
      writing, writeof := false, true;
      if readeof {
        UvClose();
      }
    }

    /** libuv is done with the socket; if the job has let go too, it is deleted. */
    method OnUvClose()
      requires deleted == 0
      modifies this
      ensures callback == null && View() == Forgotten(old(View()))
    {
      StopAll();
      callback, uvclosed, inFlight := null, true, [];
      if closed {
        deleted := deleted + 1;
      }
    }

    method StopAll()
      modifies this
      ensures View() == old(View()).(reading := false, readeof := true, writing := false, writeof := true)
    {
      reading, readeof, writing, writeof := false, true, false, true;
    }
  }

  class ProxyJob {
    const manager: ProxyManager
    ghost const quic: ServerConn  // the connections it was made for
    ghost const tcp: TCPConn
    var running: bool
    var src: ServerConn?
    var dst: TCPConn?
    var bound: bool  // the local address is known
    var queued: nat
    var deleted: nat

    constructor (manager: ProxyManager, conn: ServerConn, tcp: TCPConn)
      requires conn.data == null && tcp.callback == null
      modifies conn
      ensures this.manager == manager && this.quic == conn && this.tcp == tcp
      ensures src == conn && dst == null && conn.data == this && conn.View() == old(conn.View()).(attached := true)
      ensures View() == Job(false, true, false, 0, 0, false)
    {
      this.manager, this.quic, this.tcp := manager, conn, tcp;
      src, dst, running, bound, queued, deleted := conn, null, false, false, 0, 0;
      new;
      conn.data := this;
    }

    ghost function View(): Job
      reads this
    {
      Job(running, src != null, dst != null, queued, deleted, bound)
    }

    /** The job and its connections point at each other and nowhere else. */
    ghost predicate Linked()
      reads this, tcp, quic
    {
      && (dst == null || dst == tcp) && (src == null || src == quic)
      && (tcp.callback == null || tcp.callback == this) && (quic.data == null || quic.data == this)
    }

    ghost function State(): RelayProtocol.Relay
      reads this, tcp, quic
    {
      RelayProtocol.Relay(View(), tcp.View(), quic.View(), false)
    }

    ghost predicate Live()
      reads this, tcp, quic
    {
      Linked() && LifetimeInv(State())
    }

    /** A job that ended was queued for deletion, one that goes on was not; nothing was deleted on the way. */
    twostate predicate Filed()
      reads this, tcp, manager
    {
      && (running ==> old(running)) && deleted == old(deleted)
      && tcp.callback == old(tcp.callback) && tcp.uvclosed == old(tcp.uvclosed)
      && (!tcp.uvclosed ==> tcp.deleted == old(tcp.deleted))
      && manager.cleanJobs == old(manager.cleanJobs) + if old(running) && !running then [this] else []
    }

    /** Ends the job, once: it lets go of QUIC, then of TCP, then queues itself for deletion. */
    method Clean()
      requires Linked() && deleted == 0
      requires running ==> LifetimeInv(Revived(State()))
      modifies this, tcp, quic, manager`cleanJobs
      ensures Linked() && Filed() && !running && State() == RelayProtocol.Clean(old(State()))
    {
      if !running {
        return;
      }
      End();
    }

    method End()
      requires Linked() && running && src != null && dst != null && queued == 0 && deleted == 0
      requires tcp.deleted == 0 && (tcp.uvclosed ==> tcp.closing && tcp.callback == null)
      modifies this, tcp, quic, manager`cleanJobs
      ensures Linked()
      ensures View() == old(View()).(running := false, hasSrc := false, hasDst := false, queued := 1)
      ensures tcp.View() ==
        old(tcp.View()).(closed := true, closing := true, deleted := if old(tcp.uvclosed) then 1 else 0)
      ensures quic.View() == old(quic.View()).(attached := false, alive := false)
      ensures manager.cleanJobs == old(manager.cleanJobs) + [this]
    {
      running := false;
      if src != null {
        src.data := null;
        src.Disconnect();
        src := null;
      }
      if dst != null {
        dst.Close();
        dst := null;
      }
      manager.JobToClean(this);
      queued := queued + 1;
    }

    method OnTCPConnErr()
      requires Linked() && deleted == 0 && tcp.callback == this
      requires running ==> LifetimeInv(Revived(State()))
      modifies this, tcp, quic, manager`cleanJobs
      ensures Linked() && Filed() && !running && State() == TcpError(old(State()))
    {
      hide RelayProtocol.Clean;
      Clean();
    }

    method OnPUICConnErr()
      requires Linked() && deleted == 0
      requires running ==> LifetimeInv(Revived(State()))
      modifies this, tcp, quic, manager`cleanJobs
      ensures Linked() && Filed() && !running && State() == RelayProtocol.Clean(old(State()))
    {
      Clean();
    }

    /** Passes on what QUIC has, unless a write is under way. */
    method MayPuicToTcp(next: Next)
      requires Live() && running && quic.consumed <= |quic.received|
      modifies this, tcp, quic, manager`cleanJobs
      ensures Linked() && Filed() && State() == RelayProtocol.MayPuicToTcp(old(State()), next)
    {
      hide QuicClose, RelayProtocol.PassOn;
      if dst.writing {
        return;
      }
      var bytes, eof := src.ReadableRegions(next.take, next.dies, this);
      if !running {
        return;
      }
      PassOn(bytes, eof, next, next.ok);
    }

    method PassOn(bytes: seq<Byte>, eof: bool, ghost next: Next, ok: bool)
      requires Live() && running && !tcp.writing && quic.consumed <= |quic.received| && ok == next.ok
      requires
        var n := Smaller(next.take + 1, |quic.received| - quic.consumed);
        bytes == quic.received[quic.consumed..quic.consumed + n]
      requires eof <==> quic.consumed == |quic.received| && quic.fin
      modifies this, tcp, quic, manager`cleanJobs
      ensures Linked() && Filed() && State() == RelayProtocol.PassOn(old(State()), next)
    {
      hide TcpWrite;
      if eof {
        dst.Shutdown(ok);
        return;
      }
      if |bytes| == 0 {
        return;
      }
      dst.Write(bytes, ok, this);
    }

    /** Stops reading from TCP when QUIC has much to send, starts when it has little. */
    method MayTcpToPuic(buffered: nat, ok: bool)
      requires Live() && running
      modifies this, tcp, quic, manager`cleanJobs
      ensures Linked() && Filed() && State() == RelayProtocol.MayTcpToPuic(old(State()), buffered, ok)
    {
      hide RelayProtocol.StartRead;
      if buffered >= WRITEBUF_UPPER {
        dst.StopRead();
        return;
      }
      if buffered <= WRITEBUF_LOWER {
        dst.StartRead(ok, this);
        return;
      }
    }

    method OnTCPConnBound(readOk: bool)
      requires Live() && running
      modifies this, tcp, quic, manager`cleanJobs
      ensures Linked() && Filed() && State() == JobBound(old(State()), readOk)
    {
      hide RelayProtocol.StartRead;
      bound := true;
      dst.StartRead(readOk, this);
    }

    method OnTCPConnRcvd(bytes: seq<Byte>, unsentAfter: nat, dies: bool, readOk: bool)
      requires Live() && running
      modifies this, tcp, quic, manager`cleanJobs
      ensures Linked() && Filed() && State() == JobReceived(old(State()), bytes, unsentAfter, dies, readOk)
    {
      hide QuicWrite, RelayProtocol.MayTcpToPuic;
      var buffered := src.Write(bytes, false, unsentAfter, dies, this);
      if !running {
        return;
      }
      MayTcpToPuic(buffered, readOk);
    }

    method OnTCPConnEOF(unsentAfter: nat, dies: bool)
      requires Live() && running
      modifies this, tcp, quic, manager`cleanJobs
      ensures Linked() && Filed() && State() == JobEof(old(State()), unsentAfter, dies)
    {
      hide QuicWrite;
      var _ := src.Write([], true, unsentAfter, dies, this);
    }

    method OnTCPConnSent(len: nat, ghost done: seq<Byte>, dies: bool, next: Next)
      requires Live() && running && len == |done| && quic.consumed + len <= |quic.received|
      modifies this, tcp, quic, manager`cleanJobs
      ensures Linked() && Filed() && State() == JobSent(old(State()), done, dies, next)
    {
      hide QuicClose, RelayProtocol.MayPuicToTcp;
      src.MarkConsumed(len, dies, done, this);
      if !running {
        return;
      }
      MayPuicToTcp(next);
    }

    method OnPUICConnCanRead(next: Next)
      requires Live() && running && quic.consumed <= |quic.received|
      modifies this, tcp, quic, manager`cleanJobs
      ensures Linked() && Filed() && State() == RelayProtocol.MayPuicToTcp(old(State()), next)
    {
      MayPuicToTcp(next);
    }

    method OnPUICConnCanWrite(remain: nat, readOk: bool)
      requires Live() && running
      modifies this, tcp, quic, manager`cleanJobs
      ensures Linked() && Filed() && State() == RelayProtocol.MayTcpToPuic(old(State()), remain, readOk)
    {
      MayTcpToPuic(remain, readOk);
    }

    method Delete()
      requires deleted == 0
      modifies `deleted
      ensures deleted == 1
    {
      deleted := deleted + 1;
    }

    /** Connects to the destination; an attempt that fails at once ends the job at once. */
    method Start(conn: TCPConn, connectOk: bool, headOk: bool)
      requires conn == tcp && Linked() && src == quic && quic.data == this && tcp.callback == null
      requires View() == Job(false, true, false, 0, 0, false) && quic.View() == FreshQuic.(attached := true)
      requires tcp.View() == FreshTcp
      modifies this, tcp, quic, manager`cleanJobs
      ensures Linked() && State() == Begin(connectOk, headOk) && deleted == 0
      ensures manager.cleanJobs == old(manager.cleanJobs) + if running then [] else [this]
    {
      hide RelayProtocol.Clean;
      running, dst := true, conn;
      dst.Start(connectOk, headOk, this);
    }
  }

  lemma DeletedOne(s: RelayProtocol.Relay)
    requires RelayInv(s) && !s.job.running && s.job.deleted == 0
    ensures var t := s.(job := s.job.(deleted := 1)); t == Step(s, Collected) && RelayInv(t)
  {
    StepInv(s, Collected);
  }

  lemma Allowed(s: RelayProtocol.Relay, e: Event)
    requires RelayInv(s) && Possible(s, e)
    ensures LifetimeInv(s) && s.quic.consumed <= |s.quic.received| && RelayInv(Step(s, e))
    ensures e.Written? && !s.tcp.closing ==> s.tcp.writing && s.quic.consumed + |s.tcp.inFlight| <= |s.quic.received|
    ensures e.UvClosed? ==> s.tcp.deleted == 0
  {
    hide Step;
    StepInv(s, e);
  }

  /** One event, delivered to the object it is for. Nothing is called that is null or deleted. */
  method Deliver(e: Event, tcp: TCPConn, quic: ServerConn, job: ProxyJob)
    requires job.tcp == tcp && job.quic == quic && job.Linked() && RelayInv(job.State())
    requires Possible(job.State(), e) && !e.Collected?
    modifies job, tcp, quic, job.manager`cleanJobs
    ensures job.Linked() && job.State() == Step(old(job.State()), e) && RelayInv(job.State())
    ensures job.deleted == old(job.deleted) && (job.running ==> old(job.running))
    ensures job.manager.cleanJobs == old(job.manager.cleanJobs) + if old(job.running) && !job.running then [job] else []
  {
    hide RelayInv, OnConnected, OnRead, OnReadEof, TcpError, OnWritten, OnShutDone, OnQuicReadable, OnQuicDrained,
         QuicClose;
    Allowed(job.State(), e);
    match e
    case Connected(ok, named, readOk) => tcp.OnUvConnect(ok, named, readOk, job);
    case Read(bytes, u, dies, readOk) => tcp.OnUvRead(bytes, u, dies, readOk, job);
    case ReadEof(u, dies) => tcp.OnUvReadEof(u, dies, job);
    case ReadFailed => tcp.OnUvReadFailed(job);
    case Written(ok, dies, next) => tcp.OnUvWrite(ok, dies, next, job);
    case ShutDone(ok) => tcp.OnUvShutdown(ok, job);
    case UvClosed => tcp.OnUvClose();
    case QuicReadable(bytes, last, next) => quic.OnCanRead(bytes, last, next, job);
    case QuicDrained(u, readOk) => quic.OnCanWrite(u, readOk, job);
    case QuicGone => quic.Gone(job);
  }
}
