/** The connection lifetime protocol of the io_uring reactor: the kernel posts
    completions in any order, the reactor handles them one by one, and a freed
    connection's address may be used again at once. */
module UringReactor {
  import opened Common
  import opened BitSeq
  import opened ConnLimits

  /** dyn_uconn_t */
  datatype Conn = Conn(fdOpen: bool, inb: seq<Byte>, out: seq<Byte>, off: nat, nreq: nat,
                       recvArmed: bool, sendInflight: bool, closing: bool)

  /** A completion. A recv completion may carry a provided buffer, and ends its
      operation unless more is set. */
  datatype Cqe =
    | Accepted(fd: int)
    | RecvDone(id: nat, res: int, data: seq<Byte>, bid: Option<nat>, more: bool)
    | SendDone(id: nat, res: int)

  /** The live connections, the operations the kernel still works on, the
      completions not yet handled, and the buffers the kernel may fill. A send
      operation is recorded with the bytes handed to the kernel. */
  datatype State = State(conns: map<nat, Conn>, recvOps: set<nat>, sendOps: map<nat, seq<Byte>>,
                         cq: seq<Cqe>, ring: set<nat>)

  /** What the reactor does not decide: whether submission slots were to be had,
      what dyn_http_pump made of the buffers, whether memory ran out, and the
      address of a new connection. */
  datatype Choice = Choice(sendSlot: bool, recvSlot: bool, pumped: (seq<Byte>, seq<Byte>, nat, bool), oom: bool,
                           newId: Option<nat>)

  const ENOBUFS: int := 105

  // ---- what the handlers do ----------------------------------------------------------------------

  function SetConn(s: State, id: nat, c: Conn): State
  {
    s.(conns := s.conns[id := c])
  }

  /** dyn_ur_arm_recv */
  function ArmRecv(s: State, id: nat, slot: bool): State
    requires id in s.conns
  {
    if !slot then s else SetConn(s, id, s.conns[id].(recvArmed := true)).(recvOps := s.recvOps + {id})
  }

  /** dyn_ur_submit_send */
  function SubmitSend(s: State, id: nat, slot: bool): State
    requires id in s.conns && s.conns[id].off <= |s.conns[id].out|
  {
    var c := s.conns[id];
    if !slot then s
    else SetConn(s, id, c.(sendInflight := true)).(sendOps := s.sendOps[id := c.out[c.off..]])
  }

  function SendIfAny(s: State, id: nat, slot: bool): State
    requires id in s.conns && s.conns[id].off <= |s.conns[id].out|
  {
    if |s.conns[id].out| > s.conns[id].off then SubmitSend(s, id, slot) else s
  }

  /** dyn_http_pump: it may only add to what is to be sent. */
  function Pump(c: Conn, p: (seq<Byte>, seq<Byte>, nat, bool)): Conn
  {
    c.(inb := p.0, out := c.out + p.1, nreq := p.2)
  }

  /** dyn_uconn_close_step */
  function CloseStep(s: State, id: nat): State
    requires id in s.conns
  {
    var c := s.conns[id];
    if !c.closing || c.sendInflight then s
    else if c.recvArmed then SetConn(s, id, c.(fdOpen := false))
    else s.(conns := s.conns - {id})
  }

  function Recycle(s: State, bid: Option<nat>): State
  {
    if bid.Some? then s.(ring := s.ring + {bid.value}) else s
  }

  function Rearm(s: State, id: nat, slot: bool): State
    requires id in s.conns
  {
    if !s.conns[id].closing && !s.conns[id].recvArmed then ArmRecv(s, id, slot) else s
  }

  /** dyn_ur_on_recv after data arrived; bad means out of memory or too much. */
  function AfterData(s: State, id: nat, bad: bool, ch: Choice): (t: State)
    requires id in s.conns && s.conns[id].off <= |s.conns[id].out|
    ensures id in t.conns
  {
    var c := s.conns[id];
    var t :=
      if bad then SetConn(s, id, c.(closing := true))
      else if !c.sendInflight then
        SendIfAny(SetConn(s, id, Pump(c, ch.pumped).(closing := c.closing || ch.pumped.3)), id, ch.sendSlot)
      else s;
    Rearm(t, id, ch.recvSlot)
  }

  /** dyn_ur_on_recv at the end of the stream or after an error. */
  function AfterEnd(s: State, id: nat, res: int, ch: Choice): (t: State)
    requires id in s.conns && s.conns[id].off <= |s.conns[id].out|
    ensures id in t.conns
  {
    if res == -ENOBUFS then Rearm(s, id, ch.recvSlot)
    else
      var c := s.conns[id];
      var t := if !c.sendInflight then SendIfAny(SetConn(s, id, Pump(c, ch.pumped)), id, ch.sendSlot) else s;
      SetConn(t, id, t.conns[id].(closing := true))
  }

  /** dyn_ur_on_recv, before the close step. */
  function OnRecvBody(s: State, e: Cqe, ch: Choice): (t: State)
    requires e.RecvDone? && e.id in s.conns && s.conns[e.id].off <= |s.conns[e.id].out|
    ensures e.id in t.conns
  {
    var id := e.id;
    var c0 := if e.more then s.conns[id] else s.conns[id].(recvArmed := false);
    if e.res > 0 then
      var c1 := if e.bid.Some? && !ch.oom then c0.(inb := c0.inb + e.data) else c0;
      AfterData(Recycle(SetConn(s, id, c1), e.bid), id, (e.bid.Some? && ch.oom) || |c1.inb| > MAX_REQ, ch)
    else
      AfterEnd(Recycle(SetConn(s, id, c0), e.bid), id, e.res, ch)
  }

  function OnRecv(s: State, e: Cqe, ch: Choice): State
    requires e.RecvDone? && e.id in s.conns && s.conns[e.id].off <= |s.conns[e.id].out|
  {
    CloseStep(OnRecvBody(s, e, ch), e.id)
  }

  /** dyn_ur_on_send, before the close step. */
  function OnSendBody(s: State, e: Cqe, ch: Choice): (t: State)
    requires e.SendDone? && e.id in s.conns && s.conns[e.id].off <= |s.conns[e.id].out|
    requires e.res <= |s.conns[e.id].out| - s.conns[e.id].off
    ensures e.id in t.conns
  {
    var id := e.id;
    var c0 := s.conns[id].(sendInflight := false);
    if e.res > 0 then
      var c1 := c0.(off := c0.off + e.res);
      if c1.off < |c1.out| then SubmitSend(SetConn(s, id, c1), id, ch.sendSlot)
      else
        var c2 := c1.(out := [], off := 0);
        if c2.closing then SetConn(s, id, c2)
        else
          var c3 := Pump(c2, ch.pumped);
          var c4 := if ch.pumped.3 then c3.(closing := true) else c3;
          var s1 := SetConn(s, id, c4);
          if |c4.out| > c4.off then SubmitSend(s1, id, ch.sendSlot)
          else if !c4.recvArmed && !c4.closing then ArmRecv(s1, id, ch.recvSlot)
          else s1
    else SetConn(s, id, c0.(closing := true))
  }

  function OnSend(s: State, e: Cqe, ch: Choice): State
    requires e.SendDone? && e.id in s.conns && s.conns[e.id].off <= |s.conns[e.id].out|
    requires e.res <= |s.conns[e.id].out| - s.conns[e.id].off
  {
    CloseStep(OnSendBody(s, e, ch), e.id)
  }

  /** dyn_ur_on_accept: a new connection, when memory was to be had. */
  function OnAccept(s: State, e: Cqe, ch: Choice): State
    requires e.Accepted?
  {
    if e.fd < 0 || ch.newId.None? then s
    else ArmRecv(SetConn(s, ch.newId.value, Conn(true, [], [], 0, 0, false, false, false)), ch.newId.value, ch.recvSlot)
  }

  // ---- counting what is outstanding ----------------------------------------------------------------

  function One(b: bool): nat { if b then 1 else 0 }

  predicate EndsRecv(e: Cqe, id: nat) { e.RecvDone? && e.id == id && !e.more }

  predicate EndsSend(e: Cqe, id: nat) { e.SendDone? && e.id == id }

  predicate Holds(e: Cqe, b: nat) { e.RecvDone? && e.bid == Some(b) }

  /** Final recv completions for a connection. */
  ghost function RecvEnds(cq: seq<Cqe>, id: nat): nat
  {
    if cq == [] then 0 else One(EndsRecv(cq[0], id)) + RecvEnds(cq[1..], id)
  }

  ghost function SendEnds(cq: seq<Cqe>, id: nat): nat
  {
    if cq == [] then 0 else One(EndsSend(cq[0], id)) + SendEnds(cq[1..], id)
  }

  ghost function Held(cq: seq<Cqe>, b: nat): nat
  {
    if cq == [] then 0 else One(Holds(cq[0], b)) + Held(cq[1..], b)
  }

  lemma {:induction false} CountsSnoc(cq: seq<Cqe>, e: Cqe, id: nat, b: nat)
    ensures RecvEnds(cq + [e], id) == RecvEnds(cq, id) + One(EndsRecv(e, id))
    ensures SendEnds(cq + [e], id) == SendEnds(cq, id) + One(EndsSend(e, id))
    ensures Held(cq + [e], b) == Held(cq, b) + One(Holds(e, b))
  {
    if cq == [] {
      assert cq + [e] == [e] && [e][1..] == [];
    } else {
      assert (cq + [e])[1..] == cq[1..] + [e];
      CountsSnoc(cq[1..], e, id, b);
    }
  }

  lemma {:induction false} CountsAtLeast(cq: seq<Cqe>, k: nat, id: nat)
    requires k <= |cq|
    ensures RecvEnds(cq[k..], id) <= RecvEnds(cq, id)
  {
    if k > 0 {
      CountsAtLeast(cq[1..], k - 1, id);
      assert cq[1..][k - 1..] == cq[k..];
    } else {
      assert cq[0..] == cq;
    }
  }

  lemma {:induction false} SendCounted(cq: seq<Cqe>, k: nat)
    requires k < |cq| && cq[k].SendDone?
    ensures SendEnds(cq, cq[k].id) >= 1
  {
    if k == 0 {
    } else {
      SendCounted(cq[1..], k - 1);
      assert cq[1..][k - 1] == cq[k];
    }
  }

  // ---- the invariant --------------------------------------------------------------------------------

  ghost predicate Armed(s: State, id: nat) { id in s.conns && s.conns[id].recvArmed }

  ghost predicate Sending(s: State, id: nat) { id in s.conns && s.conns[id].sendInflight }

  /** The operations that name a connection, and their final completions, are
      exactly those its flags say. */
  ghost predicate Accounted(s: State, id: nat)
  {
    && One(id in s.recvOps) + RecvEnds(s.cq, id) == One(Armed(s, id))
    && One(id in s.sendOps) + SendEnds(s.cq, id) == One(Sending(s, id))
  }

  /** While a recv completion waits, the end of its operation is still to come. */
  ghost predicate EndToCome(s: State, k: nat)
    requires k < |s.cq|
  {
    s.cq[k].RecvDone? ==> One(s.cq[k].id in s.recvOps) + RecvEnds(s.cq[k..], s.cq[k].id) == 1
  }

  /** The bytes handed to the kernel are still those of the buffer, and no more
      were sent than there are. */
  ghost predicate ConnOk(s: State, id: nat)
    requires id in s.conns
  {
    var c := s.conns[id];
    && c.off <= |c.out| && (c.closing ==> c.recvArmed || c.sendInflight)
    && (id in s.sendOps ==> s.sendOps[id] == c.out[c.off..])
  }

  ghost predicate SendFits(s: State, k: nat)
    requires k < |s.cq|
  {
    s.cq[k].SendDone? ==>
      (s.cq[k].id in s.conns && s.cq[k].res <= |s.conns[s.cq[k].id].out| - s.conns[s.cq[k].id].off)
  }

  ghost predicate Inv(s: State, nbufs: nat)
  {
    && (forall id: nat :: Accounted(s, id))
    && (forall k: nat :: k < |s.cq| ==> EndToCome(s, k))
    && (forall k: nat :: k < |s.cq| ==> SendFits(s, k))
    && (forall id: nat :: id in s.conns ==> ConnOk(s, id))
    && (forall b: nat :: One(b in s.ring) + Held(s.cq, b) == One(b < nbufs))
  }

  // ---- steps -------------------------------------------------------------------------------------------

  datatype Event =
    | PostAccept(fd: int)
    | PostRecv(id: nat, res: int, data: seq<Byte>, bid: Option<nat>, more: bool)
    | PostSend(id: nat, res: int)
    | Handle(ch: Choice)

  /** What the kernel may post, and which addresses a new connection may get: any
      that no live connection has, also those of connections freed before. */
  ghost predicate Enabled(s: State, e: Event)
  {
    match e
    case PostAccept(_) => true
    case PostRecv(id, _, _, bid, _) => id in s.recvOps && (bid.Some? ==> bid.value in s.ring)
    case PostSend(id, res) => id in s.sendOps && res <= |s.sendOps[id]|
    case Handle(ch) => s.cq != [] && (ch.newId.Some? ==> ch.newId.value !in s.conns)
  }

  /** The handler would touch a connection that is not there, or count more bytes
      as sent than there were. */
  ghost predicate Faulty(s: State, e: Cqe)
  {
    && !e.Accepted?
    && !(&& e.id in s.conns && s.conns[e.id].off <= |s.conns[e.id].out|
         && (e.SendDone? ==> e.res <= |s.conns[e.id].out| - s.conns[e.id].off))
  }

  function HandleOne(s: State, e: Cqe, ch: Choice): State
    requires !Faulty(s, e)
  {
    match e
    case Accepted(_) => OnAccept(s, e, ch)
    case RecvDone(_, _, _, _, _) => OnRecv(s, e, ch)
    case SendDone(_, _) => OnSend(s, e, ch)
  }

  /** The completion at the head names a live connection. */
  lemma HeadIsLive(s: State, nbufs: nat)
    requires Inv(s, nbufs) && s.cq != []
    ensures s.cq[0].RecvDone? ==> Armed(s, s.cq[0].id)
    ensures s.cq[0].SendDone? ==> Sending(s, s.cq[0].id) && SendFits(s, 0)
    ensures !s.cq[0].Accepted? ==> ConnOk(s, s.cq[0].id)
  {
    var e := s.cq[0];
    assert s.cq[0..] == s.cq;
    assert EndToCome(s, 0) && SendFits(s, 0);
    if !e.Accepted? {
      assert Accounted(s, e.id);
    }
  }

  /** The next state; None for a handler that touches a freed connection. */
  ghost function Next(s: State, e: Event): Option<State>
    requires Enabled(s, e)
  {
    match e
    case PostAccept(fd) => Some(s.(cq := s.cq + [Accepted(fd)]))
    case PostRecv(id, res, data, bid, more) =>
      Some(s.(cq := s.cq + [RecvDone(id, res, data, bid, more)],
              recvOps := if more then s.recvOps else s.recvOps - {id},
              ring := if bid.Some? then s.ring - {bid.value} else s.ring))
    case PostSend(id, res) =>
      Some(s.(cq := s.cq + [SendDone(id, res)], sendOps := s.sendOps - {id}))
    case Handle(ch) =>
      if Faulty(s, s.cq[0]) then None else Some(HandleOne(s.(cq := s.cq[1..]), s.cq[0], ch))
  }

  // ---- posting keeps the invariant ---------------------------------------------------------------------

  lemma EndSnoc(s: State, t: State, e: Cqe, k: nat)
    requires k < |s.cq| && EndToCome(s, k) && t.cq == s.cq + [e]
    requires forall id: nat :: One(id in t.recvOps) + One(EndsRecv(e, id)) == One(id in s.recvOps)
    ensures EndToCome(t, k)
  {
    if s.cq[k].RecvDone? {
      assert t.cq[k..] == s.cq[k..] + [e];
      CountsSnoc(s.cq[k..], e, s.cq[k].id, 0);
    }
  }

  /** Posting q for the event e. */
  ghost predicate Posts(s: State, e: Event, t: State, q: Cqe)
  {
    && t.cq == s.cq + [q] && t.conns == s.conns
    && (forall id: nat :: One(id in t.recvOps) + One(EndsRecv(q, id)) == One(id in s.recvOps))
    && (forall id: nat :: One(id in t.sendOps) + One(EndsSend(q, id)) == One(id in s.sendOps))
    && (forall id: nat :: id in t.sendOps ==> t.sendOps[id] == s.sendOps[id])
    && (forall b: nat :: One(b in t.ring) + One(Holds(q, b)) == One(b in s.ring))
    && (q.RecvDone? ==> q.id in s.recvOps)
    && (q.SendDone? ==> q.id in s.sendOps && q.res <= |s.sendOps[q.id]|)
  }

  lemma PostPosts(s: State, e: Event, nbufs: nat)
    requires Inv(s, nbufs) && Enabled(s, e) && !e.Handle?
    ensures var t := Next(s, e).value; |t.cq| == |s.cq| + 1 && Posts(s, e, t, t.cq[|s.cq|])
  {
    hide Inv;
  }

  lemma PostAccounts(s: State, e: Event, t: State, q: Cqe, nbufs: nat, x: nat)
    requires Inv(s, nbufs) && Posts(s, e, t, q)
    ensures Accounted(t, x) && (x in t.conns ==> ConnOk(t, x)) && One(x in t.ring) + Held(t.cq, x) == One(x < nbufs)
  {
    assert Accounted(s, x) && One(x in s.ring) + Held(s.cq, x) == One(x < nbufs);
    if x in s.conns { assert ConnOk(s, x); }
    CountsSnoc(s.cq, q, x, x);
  }

  lemma PostEnds(s: State, e: Event, t: State, q: Cqe, nbufs: nat, k: nat)
    requires Inv(s, nbufs) && Posts(s, e, t, q) && k < |t.cq|
    ensures EndToCome(t, k) && SendFits(t, k)
  {
    if k < |s.cq| {
      assert EndToCome(s, k) && SendFits(s, k);
      EndSnoc(s, t, q, k);
    } else {
      assert t.cq[k..] == [q] && [q][1..] == [];
      if q.SendDone? {
        assert Accounted(s, q.id);
        assert ConnOk(s, q.id);
      }
    }
  }

  lemma PostKeeps(s: State, e: Event, nbufs: nat)
    requires Inv(s, nbufs) && Enabled(s, e) && !e.Handle?
    ensures Next(s, e).Some? && Inv(Next(s, e).value, nbufs)
  {
    var t := Next(s, e).value;
    PostPosts(s, e, nbufs);
    KeptBy(s, e, t, t.cq[|s.cq|], nbufs);
  }

  lemma KeptBy(s: State, e: Event, t: State, q: Cqe, nbufs: nat)
    requires Inv(s, nbufs) && Posts(s, e, t, q)
    ensures Inv(t, nbufs)
  {
    hide Posts, Accounted, EndToCome, SendFits, ConnOk, Held;
    forall x: nat
      ensures Accounted(t, x) && (x in t.conns ==> ConnOk(t, x)) && One(x in t.ring) + Held(t.cq, x) == One(x < nbufs)
    {
      PostAccounts(s, e, t, q, nbufs, x);
    }
    forall k: nat | k < |t.cq|
      ensures EndToCome(t, k) && SendFits(t, k)
    {
      PostEnds(s, e, t, q, nbufs, k);
    }
  }

  // ---- handling keeps the invariant ---------------------------------------------------------------------

  /** Nothing but the connection id and its operations changed. */
  ghost predicate Touches(s: State, t: State, id: nat)
  {
    && t.cq == s.cq
    && (forall x: nat :: x != id ==> (x in t.conns <==> x in s.conns) && (x in t.conns ==> t.conns[x] == s.conns[x]))
    && (forall x: nat :: x != id ==> (x in t.recvOps <==> x in s.recvOps))
    && (forall x: nat :: x != id ==> (x in t.sendOps <==> x in s.sendOps))
    && (forall x: nat :: x != id && x in t.sendOps ==> t.sendOps[x] == s.sendOps[x])
  }

  /** The flags changed with the operations. */
  ghost predicate Balanced(s: State, t: State, id: nat, armed: bool, sending: bool)
  {
    && One(id in t.recvOps) + One(armed) == One(id in s.recvOps) + One(Armed(t, id))
    && One(id in t.sendOps) + One(sending) == One(id in s.sendOps) + One(Sending(t, id))
  }

  /** The buffer of an unfinished send is untouched. */
  ghost predicate OutKept(s: State, t: State, id: nat, sending: bool)
  {
    sending && id in s.conns ==>
      (id in t.conns && t.conns[id].out == s.conns[id].out && t.conns[id].off == s.conns[id].off)
  }

  /** In the middle of a handler: everything but the close step's guarantee. */
  ghost predicate Flow(s: State, t: State, id: nat, armed: bool, sending: bool)
  {
    && Touches(s, t, id) && Balanced(s, t, id, armed, sending) && OutKept(s, t, id, sending)
    && id in t.conns && t.conns[id].off <= |t.conns[id].out|
    && (!t.conns[id].recvArmed ==> id !in t.recvOps)
    && (!t.conns[id].sendInflight ==> id !in t.sendOps)
    && (sending ==> t.conns[id].sendInflight) && (armed ==> t.conns[id].recvArmed)
    && (id in t.sendOps ==> t.sendOps[id] == t.conns[id].out[t.conns[id].off..])
  }

  lemma FlowStart(s: State, id: nat, c: Conn)
    requires id in s.conns && c.off <= |c.out| && c.out == s.conns[id].out && c.off == s.conns[id].off
    requires (!c.recvArmed ==> id !in s.recvOps) && (!c.sendInflight ==> id !in s.sendOps)
    requires id in s.sendOps ==> s.sendOps[id] == c.out[c.off..]
    ensures Flow(s, SetConn(s, id, c), id, c.recvArmed, c.sendInflight)
  {
  }

  lemma FlowSet(s: State, t: State, id: nat, armed: bool, sending: bool, c: Conn)
    requires Flow(s, t, id, armed, sending) && c.off <= |c.out|
    requires c.recvArmed == t.conns[id].recvArmed && c.sendInflight == t.conns[id].sendInflight
    requires sending || c.sendInflight ==> c.out == t.conns[id].out && c.off == t.conns[id].off
    ensures Flow(s, SetConn(t, id, c), id, armed, sending)
  {
  }

  lemma FlowArm(s: State, t: State, id: nat, armed: bool, sending: bool, slot: bool)
    requires Flow(s, t, id, armed, sending) && !t.conns[id].recvArmed
    ensures Flow(s, ArmRecv(t, id, slot), id, armed, sending) && ArmRecv(t, id, slot).ring == t.ring
  {
  }

  lemma FlowSend(s: State, t: State, id: nat, armed: bool, sending: bool, slot: bool)
    requires Flow(s, t, id, armed, sending) && !t.conns[id].sendInflight
    ensures Flow(s, SubmitSend(t, id, slot), id, armed, sending) && SubmitSend(t, id, slot).ring == t.ring
  {
  }

  lemma FlowRecycle(s: State, t: State, id: nat, armed: bool, sending: bool, bid: Option<nat>)
    requires Flow(s, t, id, armed, sending)
    ensures Flow(s, Recycle(t, bid), id, armed, sending)
  {
  }

  /** The close step leaves a closing connection only while an operation names it. */
  lemma FlowClose(s: State, t: State, id: nat, armed: bool, sending: bool)
    requires Flow(s, t, id, armed, sending)
    ensures var u := CloseStep(t, id);
            && Touches(s, u, id) && u.ring == t.ring && Balanced(s, u, id, armed, sending)
            && (id in u.conns ==> ConnOk(u, id)) && OutKept(s, u, id, sending) && (armed ==> Armed(u, id))
  {
  }

  lemma FlowSendIfAny(s: State, t: State, id: nat, armed: bool, sending: bool, slot: bool)
    requires Flow(s, t, id, armed, sending) && !t.conns[id].sendInflight
    ensures Flow(s, SendIfAny(t, id, slot), id, armed, sending) && SendIfAny(t, id, slot).ring == t.ring
    ensures SendIfAny(t, id, slot).conns[id].recvArmed == t.conns[id].recvArmed
  {
    hide Flow, SubmitSend;
    FlowParts(s, t, id, armed, sending);
    FlowSend(s, t, id, armed, sending, slot);
    SubmitKeeps(t, id, slot);
  }

  lemma SubmitKeeps(t: State, id: nat, slot: bool)
    requires id in t.conns && t.conns[id].off <= |t.conns[id].out|
    ensures id in SubmitSend(t, id, slot).conns && SubmitSend(t, id, slot).conns[id].recvArmed == t.conns[id].recvArmed
  {
  }

  lemma FlowParts(s: State, t: State, id: nat, armed: bool, sending: bool)
    requires Flow(s, t, id, armed, sending)
    ensures id in t.conns && t.conns[id].off <= |t.conns[id].out|
  {
  }

  lemma FlowRearm(s: State, t: State, id: nat, armed: bool, sending: bool, slot: bool)
    requires Flow(s, t, id, armed, sending)
    ensures Flow(s, Rearm(t, id, slot), id, armed, sending) && Rearm(t, id, slot).ring == t.ring
  {
    hide Flow, ArmRecv;
    FlowParts(s, t, id, armed, sending);
    if !t.conns[id].closing && !t.conns[id].recvArmed { FlowArm(s, t, id, armed, sending, slot); }
  }

  lemma FlowData(s: State, t: State, id: nat, armed: bool, sending: bool, bad: bool, ch: Choice)
    requires Flow(s, t, id, armed, sending) && sending == t.conns[id].sendInflight
    ensures Flow(s, AfterData(t, id, bad, ch), id, armed, sending) && AfterData(t, id, bad, ch).ring == t.ring
  {
    hide Flow, Rearm, SendIfAny;
    FlowParts(s, t, id, armed, sending);
    var c := t.conns[id];
    var d := Pump(c, ch.pumped).(closing := c.closing || ch.pumped.3);
    if bad {
      FlowSet(s, t, id, armed, sending, c.(closing := true));
      FlowRearm(s, SetConn(t, id, c.(closing := true)), id, armed, sending, ch.recvSlot);
    } else if !c.sendInflight {
      FlowSet(s, t, id, armed, sending, d);
      FlowSendIfAny(s, SetConn(t, id, d), id, armed, sending, ch.sendSlot);
      FlowRearm(s, SendIfAny(SetConn(t, id, d), id, ch.sendSlot), id, armed, sending, ch.recvSlot);
    } else {
      FlowRearm(s, t, id, armed, sending, ch.recvSlot);
    }
  }

  lemma FlowEnd(s: State, t: State, id: nat, armed: bool, sending: bool, res: int, ch: Choice)
    requires Flow(s, t, id, armed, sending) && sending == t.conns[id].sendInflight
    ensures Flow(s, AfterEnd(t, id, res, ch), id, armed, sending) && AfterEnd(t, id, res, ch).ring == t.ring
  {
    hide Flow, Rearm, SendIfAny;
    FlowParts(s, t, id, armed, sending);
    var c := t.conns[id];
    if res == -ENOBUFS {
      FlowRearm(s, t, id, armed, sending, ch.recvSlot);
    } else {
      var u := if !c.sendInflight then SendIfAny(SetConn(t, id, Pump(c, ch.pumped)), id, ch.sendSlot) else t;
      if !c.sendInflight {
        FlowSet(s, t, id, armed, sending, Pump(c, ch.pumped));
        FlowSendIfAny(s, SetConn(t, id, Pump(c, ch.pumped)), id, armed, sending, ch.sendSlot);
      }
      FlowParts(s, u, id, armed, sending);
      FlowSet(s, u, id, armed, sending, u.conns[id].(closing := true));
    }
  }

  lemma RecvBodyFlow(s: State, e: Cqe, ch: Choice)
    requires e.RecvDone? && e.id in s.conns && ConnOk(s, e.id) && s.conns[e.id].recvArmed
    requires (!e.more ==> e.id !in s.recvOps) && (!s.conns[e.id].sendInflight ==> e.id !in s.sendOps)
    ensures Flow(s, OnRecvBody(s, e, ch), e.id, e.more, s.conns[e.id].sendInflight)
    ensures OnRecvBody(s, e, ch).ring == Recycle(s, e.bid).ring
  {
    hide Flow, AfterData, AfterEnd, Recycle;
    var id, w := e.id, s.conns[e.id].sendInflight;
    var c0 := if e.more then s.conns[id] else s.conns[id].(recvArmed := false);
    var c1 := if e.res > 0 && e.bid.Some? && !ch.oom then c0.(inb := c0.inb + e.data) else c0;
    var t := Recycle(SetConn(s, id, c1), e.bid);
    FlowStart(s, id, c1);
    FlowRecycle(s, SetConn(s, id, c1), id, e.more, w, e.bid);
    RecycleKeeps(s, id, c1, e.bid);
    if e.res > 0 {
      FlowData(s, t, id, e.more, w, (e.bid.Some? && ch.oom) || |c1.inb| > MAX_REQ, ch);
    } else {
      FlowEnd(s, t, id, e.more, w, e.res, ch);
    }
  }

  lemma RecycleKeeps(s: State, id: nat, c: Conn, bid: Option<nat>)
    ensures Recycle(SetConn(s, id, c), bid) == SetConn(Recycle(s, bid), id, c)
    ensures Recycle(SetConn(s, id, c), bid).conns == s.conns[id := c]
  {
  }

  lemma SendBodyFlow(s: State, e: Cqe, ch: Choice)
    requires e.SendDone? && e.id in s.conns && ConnOk(s, e.id) && e.id !in s.sendOps
    requires !s.conns[e.id].recvArmed ==> e.id !in s.recvOps
    requires e.res <= |s.conns[e.id].out| - s.conns[e.id].off
    ensures Flow(s, OnSendBody(s, e, ch), e.id, s.conns[e.id].recvArmed, false)
    ensures OnSendBody(s, e, ch).ring == s.ring
  {
    hide Flow, ArmRecv, SubmitSend;
    var id, r := e.id, s.conns[e.id].recvArmed;
    var c0 := s.conns[id].(sendInflight := false);
    FlowStart(s, id, c0);
    var t := SetConn(s, id, c0);
    if e.res > 0 {
      var c1 := c0.(off := c0.off + e.res);
      FlowSet(s, t, id, r, false, c1);
      assert SetConn(t, id, c1) == SetConn(s, id, c1);
      if c1.off < |c1.out| {
        FlowSend(s, SetConn(s, id, c1), id, r, false, ch.sendSlot);
      } else {
        var c2 := c1.(out := [], off := 0);
        FlowSet(s, t, id, r, false, c2);
        assert SetConn(t, id, c2) == SetConn(s, id, c2);
        if !c2.closing {
          var c3 := Pump(c2, ch.pumped);
          var c4 := if ch.pumped.3 then c3.(closing := true) else c3;
          FlowSet(s, t, id, r, false, c4);
          var s1 := SetConn(s, id, c4);
          assert SetConn(t, id, c4) == s1;
          if |c4.out| > c4.off {
            FlowSend(s, s1, id, r, false, ch.sendSlot);
          } else if !c4.recvArmed && !c4.closing {
            FlowArm(s, s1, id, r, false, ch.recvSlot);
          }
        }
      }
    } else {
      var c1 := c0.(closing := true);
      FlowSet(s, t, id, r, false, c1);
      assert SetConn(t, id, c1) == SetConn(s, id, c1);
    }
  }

  /** What a handler did to the one connection it was called for. */
  ghost predicate Handled(s: State, t: State, id: nat, armed: bool, sending: bool)
  {
    && Touches(s, t, id) && Balanced(s, t, id, armed, sending) && (id in t.conns ==> ConnOk(t, id))
    && OutKept(s, t, id, sending) && (armed ==> Armed(t, id))
  }

  /** The invariant before a handler runs, its completion taken off the queue. */
  ghost predicate Taken(s: State, id: nat, armed: bool, sending: bool)
  {
    && One(id in s.recvOps) + RecvEnds(s.cq, id) == One(armed)
    && One(id in s.sendOps) + SendEnds(s.cq, id) == One(sending)
    && (forall x: nat :: x != id ==> Accounted(s, x))
    && (forall k: nat :: k < |s.cq| ==> EndToCome(s, k))
    && (forall k: nat :: k < |s.cq| ==> SendFits(s, k))
    && (forall x: nat :: x in s.conns && x != id ==> ConnOk(s, x))
  }

  lemma HandledAccounts(s: State, t: State, id: nat, armed: bool, sending: bool, x: nat)
    requires Taken(s, id, armed, sending) && Handled(s, t, id, armed, sending)
    ensures Accounted(t, x) && (x in t.conns ==> ConnOk(t, x))
  {
    hide RecvEnds, SendEnds;
    if x != id { assert Accounted(s, x); }
  }

  lemma HandledEnds(s: State, t: State, id: nat, armed: bool, sending: bool, k: nat)
    requires Taken(s, id, armed, sending) && Handled(s, t, id, armed, sending) && k < |t.cq|
    ensures EndToCome(t, k) && SendFits(t, k)
  {
    hide RecvEnds, SendEnds, ConnOk;
    assert EndToCome(s, k) && SendFits(s, k);
    var e := s.cq[k];
    if e.RecvDone? && e.id == id { CountsAtLeast(s.cq, k, id); }
    if e.SendDone? { SendCounted(s.cq, k); }
  }

  lemma HandledKeeps(s: State, t: State, id: nat, armed: bool, sending: bool, nbufs: nat)
    requires Taken(s, id, armed, sending) && Handled(s, t, id, armed, sending)
    requires forall b: nat :: One(b in t.ring) + Held(t.cq, b) == One(b < nbufs)
    ensures Inv(t, nbufs)
  {
    hide Taken, Handled, Held, Accounted, EndToCome, SendFits, ConnOk;
    forall x: nat
      ensures Accounted(t, x) && (x in t.conns ==> ConnOk(t, x))
    {
      HandledAccounts(s, t, id, armed, sending, x);
    }
    forall k: nat | k < |t.cq|
      ensures EndToCome(t, k) && SendFits(t, k)
    {
      HandledEnds(s, t, id, armed, sending, k);
    }
  }

  lemma TakeHead(s: State, nbufs: nat, id: nat, armed: bool, sending: bool)
    requires Inv(s, nbufs) && s.cq != []
    requires forall x: nat :: x != id ==> !EndsRecv(s.cq[0], x) && !EndsSend(s.cq[0], x)
    requires One(armed) + One(EndsRecv(s.cq[0], id)) == One(Armed(s, id))
    requires One(sending) + One(EndsSend(s.cq[0], id)) == One(Sending(s, id))
    ensures Taken(s.(cq := s.cq[1..]), id, armed, sending)
  {
    var t := s.(cq := s.cq[1..]);
    assert Accounted(s, id);
    forall x: nat | x != id
      ensures Accounted(t, x)
    {
      assert Accounted(s, x);
    }
    forall k: nat | k < |t.cq|
      ensures EndToCome(t, k) && SendFits(t, k)
    {
      assert EndToCome(s, k + 1) && SendFits(s, k + 1) && t.cq[k..] == s.cq[k + 1..];
    }
    forall x: nat | x in t.conns && x != id
      ensures ConnOk(t, x)
    {
      assert ConnOk(s, x);
    }
  }

  lemma BuffersBack(s: State, t: State, nbufs: nat)
    requires Inv(s, nbufs) && s.cq != [] && t.cq == s.cq[1..]
    requires t.ring == if s.cq[0].RecvDone? then Recycle(s, s.cq[0].bid).ring else s.ring
    ensures forall b: nat :: One(b in t.ring) + Held(t.cq, b) == One(b < nbufs)
  {
    forall b: nat
      ensures One(b in t.ring) + Held(t.cq, b) == One(b < nbufs)
    {
      assert One(b in s.ring) + Held(s.cq, b) == One(b < nbufs);
    }
  }

  lemma RecvHandled(s: State, nbufs: nat, ch: Choice)
    requires Inv(s, nbufs) && s.cq != [] && s.cq[0].RecvDone?
    ensures Armed(s, s.cq[0].id) && ConnOk(s, s.cq[0].id)
    ensures Inv(OnRecv(s.(cq := s.cq[1..]), s.cq[0], ch), nbufs)
    ensures Touches(s.(cq := s.cq[1..]), OnRecv(s.(cq := s.cq[1..]), s.cq[0], ch), s.cq[0].id)
  {
    hide Inv, Flow, OnRecvBody, Taken, RecvEnds, SendEnds;
    HeadIsLive(s, nbufs);
    var e, t := s.cq[0], s.(cq := s.cq[1..]);
    var w := s.conns[e.id].sendInflight;
    TakeHead(s, nbufs, e.id, e.more, w);
    TakenOps(t, e.id, e.more, w);
    RecvBodyFlow(t, e, ch);
    FlowClose(t, OnRecvBody(t, e, ch), e.id, e.more, w);
    BuffersBack(s, OnRecv(t, e, ch), nbufs);
    HandledKeeps(t, OnRecv(t, e, ch), e.id, e.more, w, nbufs);
  }

  lemma TakenOps(s: State, id: nat, armed: bool, sending: bool)
    requires Taken(s, id, armed, sending)
    ensures (!armed ==> id !in s.recvOps) && (!sending ==> id !in s.sendOps)
  {
  }

  lemma SendHandled(s: State, nbufs: nat, ch: Choice)
    requires Inv(s, nbufs) && s.cq != [] && s.cq[0].SendDone?
    ensures Sending(s, s.cq[0].id) && ConnOk(s, s.cq[0].id) && SendFits(s, 0)
    ensures Inv(OnSend(s.(cq := s.cq[1..]), s.cq[0], ch), nbufs)
    ensures Touches(s.(cq := s.cq[1..]), OnSend(s.(cq := s.cq[1..]), s.cq[0], ch), s.cq[0].id)
  {
    hide Inv, Flow, OnSendBody, Taken, RecvEnds, SendEnds;
    HeadIsLive(s, nbufs);
    var e, t := s.cq[0], s.(cq := s.cq[1..]);
    var r := s.conns[e.id].recvArmed;
    TakeHead(s, nbufs, e.id, r, false);
    TakenOps(t, e.id, r, false);
    SendBodyFlow(t, e, ch);
    FlowClose(t, OnSendBody(t, e, ch), e.id, r, false);
    BuffersBack(s, OnSend(t, e, ch), nbufs);
    HandledKeeps(t, OnSend(t, e, ch), e.id, r, false, nbufs);
  }

  lemma AcceptEffect(s: State, e: Cqe, ch: Choice)
    requires e.Accepted? && e.fd >= 0 && ch.newId.Some? && ch.newId.value !in s.conns
    requires ch.newId.value !in s.recvOps && ch.newId.value !in s.sendOps
    ensures Handled(s, OnAccept(s, e, ch), ch.newId.value, false, false)
  {
  }

  lemma NothingHandled(s: State, t: State, nbufs: nat)
    requires Inv(s, nbufs) && s.cq != [] && t == s.(cq := s.cq[1..])
    ensures Handled(t, t, 0, Armed(s, 0), Sending(s, 0))
  {
    if 0 in s.conns { assert ConnOk(s, 0); }
  }

  /** Also when the new connection gets the address of a freed one. */
  lemma AcceptHandled(s: State, nbufs: nat, ch: Choice)
    requires Inv(s, nbufs) && s.cq != [] && s.cq[0].Accepted? && (ch.newId.Some? ==> ch.newId.value !in s.conns)
    ensures Inv(OnAccept(s.(cq := s.cq[1..]), s.cq[0], ch), nbufs)
  {
    hide Inv, Taken, RecvEnds, SendEnds, Held, Handled;
    var e, t := s.cq[0], s.(cq := s.cq[1..]);
    var u := OnAccept(t, e, ch);
    BuffersBack(s, u, nbufs);
    if e.fd < 0 || ch.newId.None? {
      TakeHead(s, nbufs, 0, Armed(s, 0), Sending(s, 0));
      NothingHandled(s, t, nbufs);
      HandledKeeps(t, u, 0, Armed(s, 0), Sending(s, 0), nbufs);
    } else {
      var id := ch.newId.value;
      TakeHead(s, nbufs, id, false, false);
      TakenOps(t, id, false, false);
      AcceptEffect(t, e, ch);
      HandledKeeps(t, u, id, false, false, nbufs);
    }
  }

  // ---- every run -----------------------------------------------------------------------------------------

  lemma StepKeeps(s: State, e: Event, nbufs: nat)
    requires Inv(s, nbufs) && Enabled(s, e)
    ensures Next(s, e).Some? && Inv(Next(s, e).value, nbufs)
  {
    hide Inv, OnRecv, OnSend, OnAccept;
    if e.Handle? {
      HeadIsLive(s, nbufs);
      match s.cq[0] {
        case Accepted(_) => AcceptHandled(s, nbufs, e.ch);
        case RecvDone(_, _, _, _, _) => RecvHandled(s, nbufs, e.ch);
        case SendDone(_, _) => SendHandled(s, nbufs, e.ch);
      }
    } else {
      PostKeeps(s, e, nbufs);
    }
  }

  function AllBuffers(n: nat): set<nat>
  {
    if n == 0 then {} else AllBuffers(n - 1) + {n - 1}
  }

  lemma {:induction false} AllBuffersAre(n: nat, b: nat)
    ensures b in AllBuffers(n) <==> b < n
  {
    if n == 0 {
    } else {
      AllBuffersAre(n - 1, b);
    }
  }

  /** No connections, and all buffers with the kernel. */
  function Start(nbufs: nat): State
  {
    State(map[], {}, map[], [], AllBuffers(nbufs))
  }

  lemma StartInv(nbufs: nat)
    ensures Inv(Start(nbufs), nbufs)
  {
    forall b: nat
      ensures One(b in AllBuffers(nbufs)) == One(b < nbufs)
    {
      AllBuffersAre(nbufs, b);
    }
  }

  /** The states of a run from s, one after each event. */
  ghost predicate IsRun(s: State, events: seq<Event>, states: seq<State>)
    decreases |events|
  {
    && |states| == |events| + 1 && states[0] == s
    && (events != [] ==> Enabled(s, events[0]) && Next(s, events[0]) == Some(states[1])
                         && IsRun(states[1], events[1..], states[1..]))
  }

  lemma {:induction false} RunsKeep(s: State, events: seq<Event>, states: seq<State>, nbufs: nat, k: nat)
    requires Inv(s, nbufs) && IsRun(s, events, states) && k <= |events|
    ensures Inv(states[k], nbufs)
    decreases |events|
  {
    hide Inv, Next;
    if k == 0 {
    } else {
      StepKeeps(s, events[0], nbufs);
      RunsKeep(states[1], events[1..], states[1..], nbufs, k - 1);
    }
  }

  /** In every state of every run of the reactor: no step touches a freed
      connection, the operations and final completions that name a connection are
      exactly those its flags say, an unfinished send has the bytes of the untouched
      buffer, and every provided buffer is in exactly one place. */
  lemma RunsAreSafe(events: seq<Event>, states: seq<State>, nbufs: nat, k: nat, e: Event, id: nat)
    requires IsRun(Start(nbufs), events, states) && k <= |events|
    ensures Enabled(states[k], e) ==> Next(states[k], e).Some?
    ensures Accounted(states[k], id) && One(id in states[k].ring) + Held(states[k].cq, id) == One(id < nbufs)
    ensures id in states[k].conns ==> ConnOk(states[k], id)
    ensures id in states[k].recvOps || id in states[k].sendOps ==> id in states[k].conns
  {
    hide Next, Accounted, ConnOk;
    StartInv(nbufs);
    RunsKeep(Start(nbufs), events, states, nbufs, k);
    if Enabled(states[k], e) { StepKeeps(states[k], e, nbufs); }
    NamedIsLive(states[k], id);
  }

  lemma NamedIsLive(s: State, id: nat)
    requires Accounted(s, id)
    ensures id in s.recvOps || id in s.sendOps ==> id in s.conns
  {
  }
}
