/** What the peers of the io_uring reactor get: over every run, the bytes the
    kernel took for a connection are the responses to the bytes it received,
    from the first on, in order, none lost and none repeated. */
module UringReplies {
  import opened Common
  import opened BitSeq
  import opened ConnLimits
  import opened HttpPump
  import R = UringReactor

  // ---- the history of a connection ------------------------------------------------------------------

  /** Since its accept: the bytes put into the input buffer, the bytes the pump
      appended, and the bytes the kernel took. */
  datatype History = History(received: seq<Byte>, produced: seq<Byte>, delivered: seq<Byte>)

  /** The bytes of a completion that go into the input buffer. */
  ghost function Arrived(q: R.Cqe, ch: R.Choice): seq<Byte>
  {
    if q.RecvDone? && q.res > 0 && q.bid.Some? && !ch.oom then q.data else []
  }

  /** Memory ran out, or there is more input than may be held. */
  ghost predicate Overrun(c: R.Conn, q: R.Cqe, ch: R.Choice)
  {
    q.RecvDone? && q.res > 0 && ((q.bid.Some? && ch.oom) || |c.inb + Arrived(q, ch)| > MAX_REQ)
  }

  /** The bytes a completion says were sent. */
  ghost function Reported(q: R.Cqe): nat
  {
    if q.SendDone? && q.res > 0 then q.res else 0
  }

  /** Whether handling q pumps the connection: never while a send is under way. */
  ghost predicate Pumps(c: R.Conn, q: R.Cqe, ch: R.Choice)
  {
    match q
    case Accepted(_) => false
    case RecvDone(_, res, _, _, _) => !c.sendInflight && !Overrun(c, q, ch) && res != -R.ENOBUFS
    case SendDone(_, res) => res > 0 && c.off + res >= |c.out| && !c.closing
  }

  ghost function Made(c: R.Conn, q: R.Cqe, ch: R.Choice): seq<Byte>
  {
    if Pumps(c, q, ch) then ch.pumped.1 else []
  }

  /** Why a connection closes: it did already, the pump says so, the stream ended or
      failed, the input overran, or a send failed. */
  ghost predicate Closes(c: R.Conn, q: R.Cqe, ch: R.Choice)
  {
    || c.closing || (Pumps(c, q, ch) && ch.pumped.3) || Overrun(c, q, ch)
    || (q.RecvDone? && q.res <= 0 && q.res != -R.ENOBUFS) || (q.SendDone? && q.res <= 0)
  }

  /** What one step adds to the history of id. */
  ghost function Grow(h: History, s: R.State, e: R.Event, id: nat): History
  {
    match e
    case PostAccept(_) => h
    case PostRecv(_, _, _, _, _) => h
    case PostSend(i, res) =>
      if i == id && id in s.sendOps && 0 < res <= |s.sendOps[id]|
      then h.(delivered := h.delivered + s.sendOps[id][..res])
      else h
    case Handle(ch) =>
      if s.cq == [] then h
      else
        match s.cq[0]
        case Accepted(fd) => if fd >= 0 && ch.newId == Some(id) then History([], [], []) else h
        case q =>
          if q.id == id && id in s.conns
          then h.(received := h.received + Arrived(q, ch), produced := h.produced + Made(s.conns[id], q, ch))
          else h
  }

  /** The history of id after k steps. */
  ghost function HistoryOf(events: seq<R.Event>, states: seq<R.State>, id: nat, k: nat): History
    requires k <= |events| < |states|
  {
    if k == 0 then History([], [], []) else Grow(HistoryOf(events, states, id, k - 1), states[k - 1], events[k - 1], id)
  }

  // ---- what a handler does to its connection ----------------------------------------------------------

  /** From c to d: the bytes reported sent leave the output, the pump's are appended;
      the arrived bytes are appended to the input before the pump sees it. */
  ghost predicate Effect(c: R.Conn, d: R.Conn, q: R.Cqe, ch: R.Choice)
    requires c.off + Reported(q) <= |c.out|
  {
    && d.off <= |d.out| && d.out[d.off..] == c.out[c.off + Reported(q)..] + Made(c, q, ch)
    && d.inb == (if Pumps(c, q, ch) then ch.pumped.0 else c.inb + Arrived(q, ch))
    && d.nreq == (if Pumps(c, q, ch) then ch.pumped.2 else c.nreq)
    && d.fdOpen == c.fdOpen && (d.closing <==> Closes(c, q, ch))
    && (q.RecvDone? && c.sendInflight ==> d.sendInflight)
  }

  /** All that arming and submitting leave alone. */
  ghost predicate SameBuffers(c: R.Conn, d: R.Conn)
  {
    && d.out == c.out && d.off == c.off && d.inb == c.inb && d.nreq == c.nreq
    && d.fdOpen == c.fdOpen && d.closing == c.closing && (c.sendInflight ==> d.sendInflight)
  }

  lemma SubmitSame(s: R.State, id: nat, slot: bool)
    requires id in s.conns && s.conns[id].off <= |s.conns[id].out|
    ensures id in R.SubmitSend(s, id, slot).conns && SameBuffers(s.conns[id], R.SubmitSend(s, id, slot).conns[id])
    ensures id in R.SendIfAny(s, id, slot).conns && SameBuffers(s.conns[id], R.SendIfAny(s, id, slot).conns[id])
  {
  }

  lemma ArmSame(s: R.State, id: nat, slot: bool)
    requires id in s.conns
    ensures id in R.ArmRecv(s, id, slot).conns && SameBuffers(s.conns[id], R.ArmRecv(s, id, slot).conns[id])
    ensures id in R.Rearm(s, id, slot).conns && SameBuffers(s.conns[id], R.Rearm(s, id, slot).conns[id])
  {
  }

  /** A connection with what the pump appended. */
  ghost predicate Appended(c: R.Conn, d: R.Conn, p: (seq<Byte>, seq<Byte>, nat, bool))
  {
    d.out == c.out + p.1 && d.off == c.off && d.inb == p.0 && d.nreq == p.2 && d.fdOpen == c.fdOpen
  }

  lemma DataEffect(s: R.State, id: nat, bad: bool, ch: R.Choice)
    requires id in s.conns && s.conns[id].off <= |s.conns[id].out|
    ensures var c, d := s.conns[id], R.AfterData(s, id, bad, ch).conns[id];
            && (bad || c.sendInflight ==> SameBuffers(c.(closing := c.closing || bad), d))
            && (!bad && !c.sendInflight ==> Appended(c, d, ch.pumped) && d.closing == (c.closing || ch.pumped.3))
  {
    hide R.Rearm, R.SendIfAny;
    var c := s.conns[id];
    if bad {
      ArmSame(R.SetConn(s, id, c.(closing := true)), id, ch.recvSlot);
    } else if !c.sendInflight {
      var t := R.SetConn(s, id, R.Pump(c, ch.pumped).(closing := c.closing || ch.pumped.3));
      SubmitSame(t, id, ch.sendSlot);
      ArmSame(R.SendIfAny(t, id, ch.sendSlot), id, ch.recvSlot);
    } else {
      ArmSame(s, id, ch.recvSlot);
    }
  }

  lemma EndEffect(s: R.State, id: nat, res: int, ch: R.Choice)
    requires id in s.conns && s.conns[id].off <= |s.conns[id].out|
    ensures var c, d, ends := s.conns[id], R.AfterEnd(s, id, res, ch).conns[id], res != -R.ENOBUFS;
            && (c.sendInflight || !ends ==> SameBuffers(c.(closing := c.closing || ends), d))
            && (!c.sendInflight && ends ==> Appended(c, d, ch.pumped) && d.closing)
  {
    hide R.Rearm, R.SendIfAny;
    var c := s.conns[id];
    if res == -R.ENOBUFS {
      ArmSame(s, id, ch.recvSlot);
    } else if !c.sendInflight {
      SubmitSame(R.SetConn(s, id, R.Pump(c, ch.pumped)), id, ch.sendSlot);
    }
  }

  /** Appending to the whole is appending to what is left. */
  lemma AppendLeft(out: seq<Byte>, off: nat, p: seq<Byte>)
    requires off <= |out|
    ensures (out + p)[off..] == out[off..] + p
  {
  }

  /** No pump: the output as it was, the input with what arrived. */
  lemma QuietEffect(c: R.Conn, d: R.Conn, q: R.Cqe, ch: R.Choice)
    requires q.RecvDone? && c.off <= |c.out| && !Pumps(c, q, ch)
    requires d.out == c.out && d.off == c.off && d.inb == c.inb + Arrived(q, ch) && d.nreq == c.nreq
    requires d.fdOpen == c.fdOpen && d.closing == Closes(c, q, ch) && (c.sendInflight ==> d.sendInflight)
    ensures Effect(c, d, q, ch)
  {
    assert c.out[c.off..] + [] == c.out[c.off..];
  }

  lemma PumpEffect(c: R.Conn, d: R.Conn, q: R.Cqe, ch: R.Choice)
    requires q.RecvDone? && c.off <= |c.out| && Pumps(c, q, ch)
    requires Appended(c, d, ch.pumped) && d.closing == Closes(c, q, ch)
    ensures Effect(c, d, q, ch)
  {
    AppendLeft(c.out, c.off, ch.pumped.1);
  }

  /** The connection with what arrived, before the pump. */
  ghost function WithInput(c: R.Conn, q: R.Cqe, ch: R.Choice): R.Conn
    requires q.RecvDone?
  {
    c.(inb := c.inb + Arrived(q, ch), recvArmed := c.recvArmed && q.more)
  }

  lemma RecvStart(s: R.State, q: R.Cqe, ch: R.Choice)
    requires q.RecvDone? && q.id in s.conns && s.conns[q.id].recvArmed && s.conns[q.id].off <= |s.conns[q.id].out|
    ensures var c := s.conns[q.id];
            var t := R.SetConn(R.Recycle(s, q.bid), q.id, WithInput(c, q, ch));
            R.OnRecvBody(s, q, ch)
            == if q.res > 0 then R.AfterData(t, q.id, Overrun(c, q, ch), ch) else R.AfterEnd(t, q.id, q.res, ch)
  {
    hide R.AfterData, R.AfterEnd, R.Recycle;
    var c := s.conns[q.id];
    assert c.inb + [] == c.inb;
    R.RecycleKeeps(s, q.id, WithInput(c, q, ch), q.bid);
  }

  lemma RecvEffect(s: R.State, q: R.Cqe, ch: R.Choice)
    requires q.RecvDone? && q.id in s.conns && s.conns[q.id].recvArmed && s.conns[q.id].off <= |s.conns[q.id].out|
    ensures Effect(s.conns[q.id], R.OnRecvBody(s, q, ch).conns[q.id], q, ch)
  {
    hide R.AfterData, R.AfterEnd, R.OnRecvBody, R.Recycle, Effect;
    var id, c, d := q.id, s.conns[q.id], R.OnRecvBody(s, q, ch).conns[q.id];
    var c1 := WithInput(c, q, ch);
    var t := R.SetConn(R.Recycle(s, q.bid), id, c1);
    RecvStart(s, q, ch);
    if q.res > 0 { DataEffect(t, id, Overrun(c, q, ch), ch); } else { EndEffect(t, id, q.res, ch); }
    if Pumps(c, q, ch) { PumpEffect(c, d, q, ch); } else { QuietEffect(c, d, q, ch); }
  }

  /** Part of the output is sent, or the send failed. */
  lemma ShortEffect(c: R.Conn, d: R.Conn, q: R.Cqe, ch: R.Choice)
    requires q.SendDone? && c.off + Reported(q) <= |c.out| && !Pumps(c, q, ch)
    requires d.off <= |d.out| && d.out[d.off..] == c.out[c.off + Reported(q)..]
    requires d.inb == c.inb && d.nreq == c.nreq && d.fdOpen == c.fdOpen && d.closing == Closes(c, q, ch)
    ensures Effect(c, d, q, ch)
  {
    var left := c.out[c.off + Reported(q)..];
    assert c.inb + [] == c.inb && left + [] == left;
  }

  /** All of the output is sent, and the pump goes on. */
  lemma SentEffect(c: R.Conn, d: R.Conn, q: R.Cqe, ch: R.Choice)
    requires q.SendDone? && c.off + Reported(q) == |c.out| && Pumps(c, q, ch)
    requires Appended(c.(out := [], off := 0), d, ch.pumped) && d.closing == Closes(c, q, ch)
    ensures Effect(c, d, q, ch)
  {
    assert c.out[c.off + Reported(q)..] == [] && d.out[d.off..] == d.out;
  }

  lemma PumpedSend(s: R.State, q: R.Cqe, ch: R.Choice)
    requires q.SendDone? && q.id in s.conns && s.conns[q.id].off <= |s.conns[q.id].out|
    requires q.res <= |s.conns[q.id].out| - s.conns[q.id].off && Pumps(s.conns[q.id], q, ch)
    ensures var d := R.OnSendBody(s, q, ch).conns[q.id];
            Appended(s.conns[q.id].(out := [], off := 0), d, ch.pumped) && d.closing == ch.pumped.3
  {
    hide R.SubmitSend, R.ArmRecv, R.SendIfAny, R.Rearm;
    var id, c := q.id, s.conns[q.id];
    var c3 := R.Pump(c.(sendInflight := false, out := [], off := 0), ch.pumped);
    var c4 := if ch.pumped.3 then c3.(closing := true) else c3;
    SubmitSame(R.SetConn(s, id, c4), id, ch.sendSlot);
    ArmSame(R.SetConn(s, id, c4), id, ch.recvSlot);
  }

  lemma ShortSend(s: R.State, q: R.Cqe, ch: R.Choice)
    requires q.SendDone? && q.id in s.conns && s.conns[q.id].off <= |s.conns[q.id].out|
    requires q.res <= |s.conns[q.id].out| - s.conns[q.id].off && !Pumps(s.conns[q.id], q, ch)
    ensures var c, d := s.conns[q.id], R.OnSendBody(s, q, ch).conns[q.id];
            && d.off <= |d.out| && d.out[d.off..] == c.out[c.off + Reported(q)..]
            && d.inb == c.inb && d.nreq == c.nreq && d.fdOpen == c.fdOpen && d.closing == (c.closing || q.res <= 0)
  {
    hide R.SubmitSend, R.ArmRecv, R.SendIfAny, R.Rearm;
    var id, c := q.id, s.conns[q.id];
    var c1 := c.(sendInflight := false, off := c.off + Reported(q));
    if q.res > 0 && c1.off < |c1.out| { SubmitSame(R.SetConn(s, id, c1), id, ch.sendSlot); }
  }

  lemma SendEffect(s: R.State, q: R.Cqe, ch: R.Choice)
    requires q.SendDone? && q.id in s.conns && s.conns[q.id].off <= |s.conns[q.id].out|
    requires q.res <= |s.conns[q.id].out| - s.conns[q.id].off
    ensures Effect(s.conns[q.id], R.OnSendBody(s, q, ch).conns[q.id], q, ch)
  {
    hide R.OnSendBody, Effect;
    var c, d := s.conns[q.id], R.OnSendBody(s, q, ch).conns[q.id];
    if Pumps(c, q, ch) {
      PumpedSend(s, q, ch);
      SentEffect(c, d, q, ch);
    } else {
      ShortSend(s, q, ch);
      ShortEffect(c, d, q, ch);
    }
  }

  /** The close step: the connection goes, or loses at most its descriptor. */
  lemma CloseEffect(s: R.State, id: nat)
    requires id in s.conns
    ensures var t, c := R.CloseStep(s, id), s.conns[id];
            id in t.conns ==> t.conns[id] == c.(fdOpen := c.fdOpen && !(c.closing && !c.sendInflight))
  {
  }

  // ---- no byte is lost, repeated or reordered -----------------------------------------------------------

  /** Bytes reported sent by completions not yet handled. */
  ghost function Pending(cq: seq<R.Cqe>, id: nat): nat
  {
    if cq == [] then 0 else (if R.EndsSend(cq[0], id) then Reported(cq[0]) else 0) + Pending(cq[1..], id)
  }

  lemma {:induction false} PendingSnoc(cq: seq<R.Cqe>, q: R.Cqe, id: nat)
    ensures Pending(cq + [q], id) == Pending(cq, id) + if R.EndsSend(q, id) then Reported(q) else 0
  {
    if cq == [] {
      assert cq + [q] == [q] && [q][1..] == [];
    } else {
      assert (cq + [q])[1..] == cq[1..] + [q];
      PendingSnoc(cq[1..], q, id);
    }
  }

  lemma {:induction false} NonePending(cq: seq<R.Cqe>, id: nat)
    requires R.SendEnds(cq, id) == 0
    ensures Pending(cq, id) == 0
  {
    if cq == [] {
    } else {
      NonePending(cq[1..], id);
    }
  }

  /** What the kernel took and what it did not take yet are what the pump made. */
  ghost predicate Conserved(s: R.State, id: nat, h: History)
  {
    id in s.conns ==>
      var c := s.conns[id];
      var sent := c.off + Pending(s.cq, id);
      sent <= |c.out| && h.delivered + c.out[sent..] == h.produced
  }

  lemma SentMore(done: seq<Byte>, out: seq<Byte>, k: nat, n: nat)
    requires k + n <= |out|
    ensures (done + out[k..][..n]) + out[k + n..] == done + out[k..]
  {
    assert out[k..] == out[k..][..n] + out[k + n..];
    Assoc(done, out[k..][..n], out[k + n..]);
  }

  lemma PostConserves(s: R.State, e: R.Event, nbufs: nat, id: nat, h: History)
    requires R.Inv(s, nbufs) && R.Enabled(s, e) && !e.Handle? && Conserved(s, id, h)
    ensures Conserved(R.Next(s, e).value, id, Grow(h, s, e, id))
  {
    hide R.Inv;
    var t := R.Next(s, e).value;
    assert t.conns == s.conns;
    PendingSnoc(s.cq, t.cq[|s.cq|], id);
    if id in s.conns && e.PostSend? && e.id == id {
      InFlight(s, nbufs, id);
      if e.res > 0 { SentMore(h.delivered, s.conns[id].out, s.conns[id].off, e.res); }
    }
  }

  /** While the kernel works on a send, no completion of it is waiting. */
  lemma InFlight(s: R.State, nbufs: nat, id: nat)
    requires R.Inv(s, nbufs) && id in s.conns && id in s.sendOps
    ensures Pending(s.cq, id) == 0 && R.ConnOk(s, id)
  {
    assert R.Accounted(s, id) && R.ConnOk(s, id);
    NonePending(s.cq, id);
  }

  /** After the handler of a completion that is not an accept: d is the connection
      before the close step. */
  ghost predicate Becomes(s: R.State, t: R.State, d: R.Conn, ch: R.Choice)
    requires s.cq != [] && !s.cq[0].Accepted?
  {
    var q := s.cq[0];
    && q.id in s.conns && s.conns[q.id].off + Reported(q) <= |s.conns[q.id].out|
    && R.Touches(s.(cq := s.cq[1..]), t, q.id) && Effect(s.conns[q.id], d, q, ch)
    && (q.id in t.conns ==> t.conns[q.id] == d.(fdOpen := d.fdOpen && !(d.closing && !d.sendInflight)))
  }

  lemma HandlerBecomes(s: R.State, nbufs: nat, ch: R.Choice) returns (d: R.Conn)
    requires R.Inv(s, nbufs) && R.Enabled(s, R.Handle(ch)) && !s.cq[0].Accepted?
    ensures R.Next(s, R.Handle(ch)).Some? && Becomes(s, R.Next(s, R.Handle(ch)).value, d, ch)
  {
    hide R.Inv, R.OnRecvBody, R.OnSendBody, R.CloseStep, Effect, R.Touches;
    var q, t := s.cq[0], s.(cq := s.cq[1..]);
    R.HeadIsLive(s, nbufs);
    if q.RecvDone? {
      R.RecvHandled(s, nbufs, ch);
      RecvEffect(t, q, ch);
      CloseEffect(R.OnRecvBody(t, q, ch), q.id);
      d := R.OnRecvBody(t, q, ch).conns[q.id];
    } else {
      R.SendHandled(s, nbufs, ch);
      SendEffect(t, q, ch);
      CloseEffect(R.OnSendBody(t, q, ch), q.id);
      d := R.OnSendBody(t, q, ch).conns[q.id];
    }
  }

  /** Dropping k of what is left. */
  lemma DropMore(out: seq<Byte>, off: nat, k: nat)
    requires off + k <= |out|
    ensures out[off..][k..] == out[off + k..]
  {
  }

  lemma LeftAfter(c: R.Conn, d: R.Conn, q: R.Cqe, ch: R.Choice, k: nat, h: History)
    requires c.off + Reported(q) + k <= |c.out| && Effect(c, d, q, ch)
    requires h.delivered + c.out[c.off + Reported(q) + k..] == h.produced
    ensures d.off + k <= |d.out| && h.delivered + d.out[d.off + k..] == h.produced + Made(c, q, ch)
  {
    hide Pumps, Closes, Arrived, Made, Reported;
    var left, p := c.out[c.off + Reported(q)..], Made(c, q, ch);
    DropMore(d.out, d.off, k);
    DropMore(c.out, c.off + Reported(q), k);
    AppendLeft(left, k, p);
    Assoc(h.delivered, left[k..], p);
  }

  lemma OwnConserved(s: R.State, t: R.State, d: R.Conn, ch: R.Choice, h: History)
    requires s.cq != [] && !s.cq[0].Accepted? && Becomes(s, t, d, ch) && Conserved(s, s.cq[0].id, h)
    ensures Conserved(t, s.cq[0].id, Grow(h, s, R.Handle(ch), s.cq[0].id))
  {
    hide R.Touches, Effect, Arrived, Made;
    var q, id := s.cq[0], s.cq[0].id;
    if id in t.conns {
      NextQueue(s, t, id);
      LeftAfter(s.conns[id], d, q, ch, Pending(s.cq[1..], id), h);
    }
  }

  lemma NextQueue(s: R.State, t: R.State, id: nat)
    requires s.cq != [] && R.Touches(s.(cq := s.cq[1..]), t, id)
    ensures t.cq == s.cq[1..]
  {
  }

  lemma OthersConserved(s: R.State, t: R.State, id: nat, x: nat, h: History)
    requires s.cq != [] && R.Touches(s.(cq := s.cq[1..]), t, id) && x != id && !R.EndsSend(s.cq[0], x)
    requires Conserved(s, x, h)
    ensures Conserved(t, x, h)
  {
  }

  lemma AcceptConserves(s: R.State, nbufs: nat, ch: R.Choice, id: nat, h: History)
    requires R.Inv(s, nbufs) && R.Enabled(s, R.Handle(ch)) && s.cq[0].Accepted? && Conserved(s, id, h)
    ensures Conserved(R.Next(s, R.Handle(ch)).value, id, Grow(h, s, R.Handle(ch), id))
  {
    hide R.Inv;
    if s.cq[0].fd >= 0 && ch.newId == Some(id) { NoneNamed(s, nbufs, id); }
  }

  /** No completion names an address that is free. */
  lemma NoneNamed(s: R.State, nbufs: nat, id: nat)
    requires R.Inv(s, nbufs) && id !in s.conns
    ensures Pending(s.cq, id) == 0
  {
    assert R.Accounted(s, id);
    NonePending(s.cq, id);
  }

  lemma StepConserves(s: R.State, e: R.Event, nbufs: nat, id: nat, h: History)
    requires R.Inv(s, nbufs) && R.Enabled(s, e) && Conserved(s, id, h)
    ensures R.Next(s, e).Some? && Conserved(R.Next(s, e).value, id, Grow(h, s, e, id))
  {
    hide R.Inv, R.Next, Conserved, R.Touches, Effect;
    R.StepKeeps(s, e, nbufs);
    if !e.Handle? {
      PostConserves(s, e, nbufs, id, h);
    } else if s.cq[0].Accepted? {
      AcceptConserves(s, nbufs, e.ch, id, h);
    } else {
      var d := HandlerBecomes(s, nbufs, e.ch);
      if s.cq[0].id == id {
        OwnConserved(s, R.Next(s, e).value, d, e.ch, h);
      } else {
        OthersConserved(s, R.Next(s, e).value, s.cq[0].id, id, h);
      }
    }
  }

  /** One step of a run. */
  lemma {:induction false} RunStep(s: R.State, events: seq<R.Event>, states: seq<R.State>, k: nat)
    requires R.IsRun(s, events, states) && k < |events|
    ensures R.Enabled(states[k], events[k]) && R.Next(states[k], events[k]) == Some(states[k + 1])
    decreases |events|
  {
    if k == 0 {
    } else {
      RunStep(states[1], events[1..], states[1..], k - 1);
    }
  }

  /** In every state of every run, for every connection: the bytes the kernel took,
      followed by those it was not given or did not take yet, are those the pump
      made, in order. */
  lemma {:induction false} NoByteLost(events: seq<R.Event>, states: seq<R.State>, nbufs: nat, id: nat, k: nat)
    requires R.IsRun(R.Start(nbufs), events, states) && k <= |events|
    ensures Conserved(states[k], id, HistoryOf(events, states, id, k))
  {
    if k == 0 {
    } else {
      hide R.IsRun, R.Next, R.Inv, R.Enabled, Conserved, Grow;
      NoByteLost(events, states, nbufs, id, k - 1);
      RunStep(R.Start(nbufs), events, states, k - 1);
      R.StartInv(nbufs);
      R.RunsKeep(R.Start(nbufs), events, states, nbufs, k - 1);
      StepConserves(states[k - 1], events[k - 1], nbufs, id, HistoryOf(events, states, id, k - 1));
    }
  }

  // ---- the answers of every run ---------------------------------------------------------------------------

  /** dyn_http_pump serves the input buffer with what arrived in it. */
  ghost predicate PumpedBy(sv: Server, c: R.Conn, q: R.Cqe, ch: R.Choice)
  {
    var b, p := c.inb + Arrived(q, ch), ch.pumped;
    Pumps(c, q, ch) ==> |p.0| <= |b| && (|b| <= MAX_REQ ==> IsServed(sv, b, c.nreq, [], p.1, p.0, p.2, p.3))
  }

  /** The pump is dyn_http_pump, and the kernel sends nothing on a closed
      descriptor. */
  ghost predicate Serves(sv: Server, s: R.State, e: R.Event)
  {
    match e
    case PostAccept(_) => true
    case PostRecv(_, _, _, _, _) => true
    case PostSend(id, res) => res > 0 && id in s.conns ==> s.conns[id].fdOpen
    case Handle(ch) =>
      s.cq != [] && !s.cq[0].Accepted? && s.cq[0].id in s.conns ==> PumpedBy(sv, s.conns[s.cq[0].id], s.cq[0], ch)
  }

  ghost function Replies(sv: Server, received: seq<Byte>): seq<Byte>
  {
    Serve(sv, received, 0, MAX_REQS).out
  }

  /** Whatever is still to come, the replies to all of it are those made and those
      to what is in the buffer and to come. */
  ghost predicate Answered(sv: Server, h: History, inb: seq<Byte>, nreq: nat)
  {
    forall x: seq<Byte> :: Replies(sv, h.received + x) == h.produced + Serve(sv, inb + x, nreq, MAX_REQS).out
  }

  ghost predicate ConnAnswers(sv: Server, c: R.Conn, h: History)
  {
    && (c.closing && !c.sendInflight ==> !c.fdOpen)
    && (!c.closing ==> c.fdOpen && |c.inb| <= MAX_REQ && Answered(sv, h, c.inb, c.nreq))
    && (c.fdOpen ==> h.produced <= Replies(sv, h.received))
    && h.delivered <= Replies(sv, h.received)
  }

  ghost predicate Answers(sv: Server, s: R.State, id: nat, h: History)
  {
    id in s.conns ==> ConnAnswers(sv, s.conns[id], h)
  }

  lemma RepliesGrow(sv: Server, b: seq<Byte>, x: seq<Byte>)
    ensures Replies(sv, b) <= Replies(sv, b + x)
  {
    hide Serve;
    ServeMore(sv, b, x, 0, MAX_REQS);
  }

  lemma AnsweredStart(sv: Server)
    ensures Answered(sv, History([], [], []), [], 0)
  {
    hide Serve;
    forall x: seq<Byte>
      ensures Replies(sv, [] + x) == [] + Serve(sv, [] + x, 0, MAX_REQS).out
    {
      assert [] + x == x;
    }
  }

  lemma AnsweredMore(sv: Server, h: History, inb: seq<Byte>, nreq: nat, a: seq<Byte>)
    requires Answered(sv, h, inb, nreq)
    ensures Answered(sv, h.(received := h.received + a), inb + a, nreq)
    ensures Replies(sv, h.received + a) == h.produced + Serve(sv, inb + a, nreq, MAX_REQS).out
  {
    hide Serve, Replies;
    forall x: seq<Byte>
      ensures Replies(sv, (h.received + a) + x) == h.produced + Serve(sv, (inb + a) + x, nreq, MAX_REQS).out
    {
      Assoc(h.received, a, x);
      Assoc(inb, a, x);
      assert Replies(sv, h.received + (a + x)) == h.produced + Serve(sv, inb + (a + x), nreq, MAX_REQS).out;
    }
  }

  /** Pumping moves the replies from the buffer to the output. */
  lemma AnsweredPump(sv: Server, h: History, b: seq<Byte>, nreq: nat)
    requires Answered(sv, h, b, nreq) && !Serve(sv, b, nreq, MAX_REQS).close
    ensures var s := Serve(sv, b, nreq, MAX_REQS); Answered(sv, h.(produced := h.produced + s.out), s.rest, s.nreq)
  {
    hide Serve, Replies;
    var s := Serve(sv, b, nreq, MAX_REQS);
    forall x: seq<Byte>
      ensures Replies(sv, h.received + x) == (h.produced + s.out) + Serve(sv, s.rest + x, s.nreq, MAX_REQS).out
    {
      ServeMore(sv, b, x, nreq, MAX_REQS);
      Assoc(h.produced, s.out, Serve(sv, s.rest + x, s.nreq, MAX_REQS).out);
      assert Replies(sv, h.received + x) == h.produced + Serve(sv, b + x, nreq, MAX_REQS).out;
    }
  }

  /** What the handler of q adds to a history. */
  ghost function Grown(h: History, c: R.Conn, q: R.Cqe, ch: R.Choice): History
  {
    h.(received := h.received + Arrived(q, ch), produced := h.produced + Made(c, q, ch))
  }

  lemma OpenPumped(sv: Server, c: R.Conn, d: R.Conn, q: R.Cqe, ch: R.Choice, h: History)
    requires c.off + Reported(q) <= |c.out| && Effect(c, d, q, ch) && Pumps(c, q, ch) && PumpedBy(sv, c, q, ch)
    requires |c.inb| <= MAX_REQ && Answered(sv, h, c.inb, c.nreq)
    ensures !d.closing ==> |d.inb| <= MAX_REQ && Answered(sv, Grown(h, c, q, ch), d.inb, d.nreq)
    ensures Grown(h, c, q, ch).produced == Replies(sv, Grown(h, c, q, ch).received)
  {
    hide Serve, Replies, Answered;
    var a, b := Arrived(q, ch), c.inb + Arrived(q, ch);
    AnsweredMore(sv, h, c.inb, c.nreq, a);
    assert [] + Serve(sv, b, c.nreq, MAX_REQS).out == Serve(sv, b, c.nreq, MAX_REQS).out;
    if !d.closing { AnsweredPump(sv, h.(received := h.received + a), b, c.nreq); }
  }

  lemma OpenQuiet(sv: Server, c: R.Conn, d: R.Conn, q: R.Cqe, ch: R.Choice, h: History)
    requires c.off + Reported(q) <= |c.out| && Effect(c, d, q, ch) && !Pumps(c, q, ch) && !q.Accepted?
    requires |c.inb| <= MAX_REQ && Answered(sv, h, c.inb, c.nreq)
    ensures !d.closing ==> |d.inb| <= MAX_REQ && Answered(sv, Grown(h, c, q, ch), d.inb, d.nreq)
    ensures Grown(h, c, q, ch).produced <= Replies(sv, Grown(h, c, q, ch).received)
  {
    hide Serve, Replies, Answered;
    AnsweredMore(sv, h, c.inb, c.nreq, Arrived(q, ch));
    assert h.produced + [] == h.produced;
  }

  lemma ClosingAnswers(c: R.Conn, d: R.Conn, q: R.Cqe, ch: R.Choice, h: History)
    requires c.off + Reported(q) <= |c.out| && Effect(c, d, q, ch) && c.closing && !q.Accepted?
    requires c.closing && !c.sendInflight ==> !c.fdOpen
    ensures d.closing && (d.fdOpen ==> Grown(h, c, q, ch).produced == h.produced)
  {
    assert h.produced + [] == h.produced;
  }

  lemma HandledAnswers(sv: Server, c: R.Conn, d: R.Conn, q: R.Cqe, ch: R.Choice, h: History)
    requires c.off + Reported(q) <= |c.out| && Effect(c, d, q, ch) && !q.Accepted?
    requires ConnAnswers(sv, c, h) && PumpedBy(sv, c, q, ch)
    ensures ConnAnswers(sv, d.(fdOpen := d.fdOpen && !(d.closing && !d.sendInflight)), Grown(h, c, q, ch))
  {
    hide Replies, Answered;
    RepliesGrow(sv, h.received, Arrived(q, ch));
    if c.closing {
      ClosingAnswers(c, d, q, ch, h);
    } else if Pumps(c, q, ch) {
      OpenPumped(sv, c, d, q, ch, h);
    } else {
      OpenQuiet(sv, c, d, q, ch, h);
    }
  }

  lemma PostAnswers(sv: Server, s: R.State, e: R.Event, id: nat, h: History)
    requires R.Enabled(s, e) && !e.Handle? && Serves(sv, s, e) && Answers(sv, s, id, h)
    requires Conserved(R.Next(s, e).value, id, Grow(h, s, e, id))
    ensures Answers(sv, R.Next(s, e).value, id, Grow(h, s, e, id))
  {
    hide Replies;
    var g := Grow(h, s, e, id);
    assert R.Next(s, e).value.conns == s.conns && g.received == h.received && g.produced == h.produced;
  }

  lemma OthersAnswer(sv: Server, s: R.State, t: R.State, id: nat, x: nat, h: History)
    requires s.cq != [] && R.Touches(s.(cq := s.cq[1..]), t, id) && x != id && Answers(sv, s, x, h)
    ensures Answers(sv, t, x, h)
  {
    hide ConnAnswers;
  }

  lemma AcceptAnswers(sv: Server, s: R.State, ch: R.Choice, id: nat, h: History)
    requires R.Enabled(s, R.Handle(ch)) && s.cq[0].Accepted? && Answers(sv, s, id, h)
    ensures Answers(sv, R.Next(s, R.Handle(ch)).value, id, Grow(h, s, R.Handle(ch), id))
  {
    hide Answered, Replies;
    AnsweredStart(sv);
  }

  lemma OwnAnswers(sv: Server, s: R.State, t: R.State, d: R.Conn, ch: R.Choice, h: History)
    requires s.cq != [] && !s.cq[0].Accepted? && Becomes(s, t, d, ch) && Serves(sv, s, R.Handle(ch))
    requires Answers(sv, s, s.cq[0].id, h)
    ensures Answers(sv, t, s.cq[0].id, Grow(h, s, R.Handle(ch), s.cq[0].id))
  {
    hide R.Touches, Effect, ConnAnswers, PumpedBy, Arrived, Made;
    var q := s.cq[0];
    HandledAnswers(sv, s.conns[q.id], d, q, ch, h);
  }

  lemma StepAnswers(sv: Server, s: R.State, e: R.Event, nbufs: nat, id: nat, h: History)
    requires R.Inv(s, nbufs) && R.Enabled(s, e) && Serves(sv, s, e) && Conserved(s, id, h) && Answers(sv, s, id, h)
    ensures R.Next(s, e).Some? && Answers(sv, R.Next(s, e).value, id, Grow(h, s, e, id))
  {
    hide R.Inv, R.Next, Conserved, R.Touches, Effect, Answers, Serves;
    StepConserves(s, e, nbufs, id, h);
    if !e.Handle? {
      PostAnswers(sv, s, e, id, h);
    } else if s.cq[0].Accepted? {
      AcceptAnswers(sv, s, e.ch, id, h);
    } else {
      var d := HandlerBecomes(s, nbufs, e.ch);
      if s.cq[0].id == id {
        OwnAnswers(sv, s, R.Next(s, e).value, d, e.ch, h);
      } else {
        OthersAnswer(sv, s, R.Next(s, e).value, s.cq[0].id, id, h);
      }
    }
  }

  lemma {:induction false} RunAnswers(sv: Server, events: seq<R.Event>, states: seq<R.State>, nbufs: nat,
                                      id: nat, k: nat)
    requires R.IsRun(R.Start(nbufs), events, states) && k <= |events|
    requires forall j | 0 <= j < |events| :: Serves(sv, states[j], events[j])
    ensures Answers(sv, states[k], id, HistoryOf(events, states, id, k))
  {
    if k == 0 {
    } else {
      hide R.IsRun, R.Next, R.Inv, R.Enabled, Conserved, Answers, Serves, Grow;
      var h := HistoryOf(events, states, id, k - 1);
      RunAnswers(sv, events, states, nbufs, id, k - 1);
      NoByteLost(events, states, nbufs, id, k - 1);
      RunStep(R.Start(nbufs), events, states, k - 1);
      R.StartInv(nbufs);
      R.RunsKeep(R.Start(nbufs), events, states, nbufs, k - 1);
      StepAnswers(sv, states[k - 1], events[k - 1], nbufs, id, h);
    }
  }

  /** In every state of every run, for every connection: what the kernel took are the
      first of the replies to what was received. While the connection is not closing,
      what it took, what waits to be sent and the replies to what waits in the input
      buffer are all of them, in order. */
  lemma RunsReply(sv: Server, events: seq<R.Event>, states: seq<R.State>, nbufs: nat, id: nat, k: nat)
    requires R.IsRun(R.Start(nbufs), events, states) && k <= |events|
    requires forall j | 0 <= j < |events| :: Serves(sv, states[j], events[j])
    requires id in states[k].conns
    ensures var h, c := HistoryOf(events, states, id, k), states[k].conns[id];
            var sent := c.off + Pending(states[k].cq, id);
            && sent <= |c.out| && h.delivered <= Replies(sv, h.received)
            && (!c.closing ==> h.delivered + c.out[sent..] + Serve(sv, c.inb, c.nreq, MAX_REQS).out
                               == Replies(sv, h.received))
  {
    assert |states| == |events| + 1;
    hide R.IsRun, Serves, Replies, Serve;
    var h, c := HistoryOf(events, states, id, k), states[k].conns[id];
    NoByteLost(events, states, nbufs, id, k);
    RunAnswers(sv, events, states, nbufs, id, k);
    if !c.closing {
      assert c.inb + [] == c.inb && h.received + [] == h.received;
      assert Replies(sv, h.received + []) == h.produced + Serve(sv, c.inb + [], c.nreq, MAX_REQS).out;
    }
  }
}
