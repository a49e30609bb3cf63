/** Pipelined HTTP/1.1 requests: the incremental pump of the reactors and the
    blocking loop of the thread pool. What a request's head means is a parameter;
    how requests are cut out of the byte stream is not. */
module HttpPump {
  import opened Common
  import opened Arith
  import opened BitSeq
  import opened ConnLimits

  /** DYN_ACONN_MAX_REQS */
  const MAX_REQS: nat := 100000

  /** The blocking loop's buffer and its cap on requests. */
  const BUF_MAX: nat := 16383
  const MAX_BLOCKING: nat := 10000

  /** Content-Length as written, the wish to keep the connection, whether the target parses,
      and the responses. */
  datatype Server = Server(bodyLength: seq<Byte> -> nat, keepAlive: seq<Byte> -> bool, pathOk: seq<Byte> -> bool,
                           respond: (seq<Byte>, bool) -> seq<Byte>, badRequest: seq<Byte>)

  // ---- cutting requests out of the stream -------------------------------------------------------

  /** The empty line ends at k. */
  predicate EndsAt(b: seq<Byte>, k: nat)
  {
    4 <= k <= |b| && b[k - 4] == 13 && b[k - 3] == 10 && b[k - 2] == 13 && b[k - 1] == 10
  }

  function HeadFrom(b: seq<Byte>, k: nat): (n: nat)
    requires k <= |b| + 1
    ensures n == 0 || (k <= n <= |b| && EndsAt(b, n))
    ensures forall i :: k <= i <= |b| && (n == 0 || i < n) ==> !EndsAt(b, i)
    decreases |b| + 1 - k
  {
    if k > |b| then 0 else if EndsAt(b, k) then k else HeadFrom(b, k + 1)
  }

  /** dyn_memfind for the empty line: just after its first occurrence, or 0. */
  function HeadLength(b: seq<Byte>): (n: nat)
    ensures n == 0 || (4 <= n <= |b| && EndsAt(b, n))
  {
    HeadFrom(b, 0)
  }

  /** CRLF CRLF */
  const EMPTY_LINE: seq<Byte> := [13, 10, 13, 10]

  ghost predicate EmptyLineAt(b: seq<Byte>, k: nat)
  {
    k + 4 <= |b| && b[k..k + 4] == EMPTY_LINE
  }

  /** The head is all up to and with the first empty line; there is none exactly when
      its length is 0. */
  lemma HeadIsFirst(b: seq<Byte>)
    ensures HeadLength(b) > 0 ==> EmptyLineAt(b, HeadLength(b) - 4)
    ensures forall k: nat :: EmptyLineAt(b, k) ==> 0 < HeadLength(b) <= k + 4
  {
    forall k: nat | EmptyLineAt(b, k)
      ensures 0 < HeadLength(b) <= k + 4
    {
      var e := b[k..k + 4];
      assert b[k] == e[0] && b[k + 1] == e[1] && b[k + 2] == e[2] && b[k + 3] == e[3];
      assert EndsAt(b, k + 4);
    }
  }

  /** More input does not move the end of the head. */
  lemma {:induction false} HeadMore(b: seq<Byte>, x: seq<Byte>, k: nat)
    requires k <= |b| + 1 && HeadFrom(b, k) > 0
    ensures HeadFrom(b + x, k) == HeadFrom(b, k)
    decreases |b| + 1 - k
  {
    if k > |b| {
    } else {
      assert EndsAt(b + x, k) == EndsAt(b, k);
      if !EndsAt(b, k) { HeadMore(b, x, k + 1); }
    }
  }

  datatype Cut = NeedMore | TooBig | Request(head: seq<Byte>, size: nat)

  /** The size of a request in 64-bit arithmetic. */
  function Total(sv: Server, head: seq<Byte>): (n: nat)
    ensures n < TWO64
  {
    (|head| + sv.bodyLength(head)) % TWO64
  }

  function NextRequest(sv: Server, b: seq<Byte>): (c: Cut)
    ensures c.Request? ==> c.size <= |b|
  {
    var n := HeadLength(b);
    if n == 0 then NeedMore
    else
      var size := Total(sv, b[..n]);
      if size > MAX_REQ then TooBig else if |b| < size then NeedMore else Request(b[..n], size)
  }

  lemma NextMore(sv: Server, b: seq<Byte>, x: seq<Byte>)
    requires !NextRequest(sv, b).NeedMore?
    ensures NextRequest(sv, b + x) == NextRequest(sv, b)
  {
    HeadMore(b, x, 0);
    var n := HeadLength(b);
    assert (b + x)[..n] == b[..n];
  }

  /** The responses to all complete requests, what is left of the input, how many
      requests were served, and whether the connection is to be closed. */
  datatype Served = Served(out: seq<Byte>, rest: seq<Byte>, nreq: nat, close: bool)

  function Serve(sv: Server, b: seq<Byte>, nreq: nat, maxReqs: nat): Served
    decreases maxReqs - nreq
  {
    match NextRequest(sv, b)
    case NeedMore => Served([], b, nreq, false)
    case TooBig => Served(sv.badRequest, b, nreq, true)
    case Request(head, size) =>
      var keep := sv.keepAlive(head) && nreq + 1 < maxReqs;
      if !sv.pathOk(head) then Served(sv.badRequest, b, nreq + 1, true)
      else if !keep then Served(sv.respond(head, false), b[size..], nreq + 1, true)
      else
        var s := Serve(sv, b[size..], nreq + 1, maxReqs);
        s.(out := sv.respond(head, true) + s.out)
  }

  /** Whether serving goes on after a request. */
  predicate GoesOn(sv: Server, head: seq<Byte>, nreq: nat, maxReqs: nat)
  {
    sv.pathOk(head) && sv.keepAlive(head) && nreq + 1 < maxReqs
  }

  /** Serving in two steps is serving at once. */
  lemma {:induction false} ServeMore(sv: Server, b: seq<Byte>, x: seq<Byte>, nreq: nat, maxReqs: nat)
    ensures var s, t := Serve(sv, b, nreq, maxReqs), Serve(sv, b + x, nreq, maxReqs);
            && (s.close ==> t.close && t.out == s.out)
            && (!s.close ==> var u := Serve(sv, s.rest + x, s.nreq, maxReqs); t == u.(out := s.out + u.out))
    decreases maxReqs - nreq
  {
    hide NextRequest;
    var c := NextRequest(sv, b);
    if c.NeedMore? {
      var u := Serve(sv, b + x, nreq, maxReqs);
      assert [] + u.out == u.out;
    } else {
      NextMore(sv, b, x);
      if c.Request? && GoesOn(sv, c.head, nreq, maxReqs) {
        RequestSize(sv, b);
        assert (b + x)[c.size..] == b[c.size..] + x;
        ServeMore(sv, b[c.size..], x, nreq + 1, maxReqs);
        var s := Serve(sv, b[c.size..], nreq + 1, maxReqs);
        Assoc(sv.respond(c.head, true), s.out, Serve(sv, s.rest + x, s.nreq, maxReqs).out);
      }
    }
  }

  lemma RequestSize(sv: Server, b: seq<Byte>)
    ensures NextRequest(sv, b).Request? ==> NextRequest(sv, b).size <= |b|
  {
  }

  // ---- the pump -------------------------------------------------------------------------------------

  class AsyncConn {
    var inb: seq<Byte>
    var out: seq<Byte>
    var nreq: nat

    constructor ()
      ensures inb == [] && out == [] && nreq == 0
    {
      inb, out, nreq := [], [], 0;
    }

    /** dyn_http_pump: answer every complete request in the buffer. */
    method Pump(sv: Server) returns (close: bool)
      modifies this
      ensures |old(inb)| <= MAX_REQ ==> IsServed(sv, old(inb), old(nreq), old(out), out, inb, nreq, close)
      ensures |inb| <= |old(inb)|
    {
      hide Serve, HeadLength, Combined, IsServed;
      ghost var done: seq<Byte> := [];
      ghost var whole := Serve(sv, inb, nreq, MAX_REQS);
      StartPump(sv, inb, nreq);
      while true
        invariant |inb| <= |old(inb)| && out == old(out) + done
        invariant Combined(sv, done, inb, nreq, whole)
        decreases MAX_REQS - nreq
      {
        ghost var b, n0 := inb, nreq;
        HeadBounds(inb);
        ServeStops(sv, b, n0, MAX_REQS);
        var headLen := HeadLength(inb);
        if headLen == 0 {
          EndPump(sv, done, b, n0, whole, old(inb), old(nreq), old(out), out, inb, nreq, false);
          if |inb| > MAX_REQ {
            return true;
          }
          return false;
        }
        var head := inb[..headLen];
        var total := Total(sv, head);
        if total > MAX_REQ {
          out := out + sv.badRequest;
          EndPump(sv, done, b, n0, whole, old(inb), old(nreq), old(out), out, inb, nreq, true);
          return true;
        }
        if |inb| < total {
          EndPump(sv, done, b, n0, whole, old(inb), old(nreq), old(out), out, inb, nreq, false);
          return false;
        }
        var keepAlive := sv.keepAlive(head);
        nreq := nreq + 1;
        if nreq >= MAX_REQS {
          keepAlive := false;
        }
        if !sv.pathOk(head) {
          out := out + sv.badRequest;
          EndPump(sv, done, b, n0, whole, old(inb), old(nreq), old(out), out, inb, nreq, true);
          return true;
        }
        out := out + sv.respond(head, keepAlive);
        inb := inb[total..];
        if !keepAlive {
          EndPump(sv, done, b, n0, whole, old(inb), old(nreq), old(out), out, inb, nreq, true);
          return true;
        }
        Advance(sv, done, b, n0, head, total, whole);
        Assoc(old(out), done, sv.respond(head, true));
        done := done + sv.respond(head, true);
      }
    }
  }

  /** Where serving ends. */
  lemma ServeStops(sv: Server, b: seq<Byte>, n: nat, maxReqs: nat)
    ensures NextRequest(sv, b).NeedMore? ==> Serve(sv, b, n, maxReqs) == Served([], b, n, false)
    ensures NextRequest(sv, b).TooBig? ==> Serve(sv, b, n, maxReqs) == Served(sv.badRequest, b, n, true)
    ensures NextRequest(sv, b).Request? && !sv.pathOk(NextRequest(sv, b).head) ==>
              Serve(sv, b, n, maxReqs) == Served(sv.badRequest, b, n + 1, true)
    ensures NextRequest(sv, b).Request? && sv.pathOk(NextRequest(sv, b).head)
            && !(sv.keepAlive(NextRequest(sv, b).head) && n + 1 < maxReqs) ==>
              Serve(sv, b, n, maxReqs) == Served(sv.respond(NextRequest(sv, b).head, false),
                                                 b[NextRequest(sv, b).size..], n + 1, true)
  {
    hide NextRequest;
    RequestSize(sv, b);
  }

  lemma HeadBounds(b: seq<Byte>)
    ensures HeadLength(b) == 0 || 4 <= HeadLength(b) <= |b|
  {
  }

  /** The outcome of a pump on the buffer b. */
  ghost predicate IsServed(sv: Server, b: seq<Byte>, n0: nat, out0: seq<Byte>, out: seq<Byte>, inb: seq<Byte>,
                           nreq: nat, close: bool)
  {
    var s := Serve(sv, b, n0, MAX_REQS);
    out == out0 + s.out && nreq == s.nreq && close == s.close && (!close ==> inb == s.rest)
  }

  /** What is done and what serving the rest gives make up the whole. */
  ghost predicate Combined(sv: Server, done: seq<Byte>, b: seq<Byte>, nreq: nat, whole: Served)
  {
    var s := Serve(sv, b, nreq, MAX_REQS);
    whole == s.(out := done + s.out)
  }

  lemma StartPump(sv: Server, b: seq<Byte>, nreq: nat)
    ensures Combined(sv, [], b, nreq, Serve(sv, b, nreq, MAX_REQS))
  {
    hide Serve;
    var s := Serve(sv, b, nreq, MAX_REQS);
    assert [] + s.out == s.out;
  }

  /** The last round: no request, one too big or malformed, or the last one. */
  lemma EndPump(sv: Server, done: seq<Byte>, b: seq<Byte>, n: nat, whole: Served, b0: seq<Byte>, n0: nat,
                out0: seq<Byte>, out: seq<Byte>, inb: seq<Byte>, nreq: nat, close: bool)
    requires Combined(sv, done, b, n, whole) && whole == Serve(sv, b0, n0, MAX_REQS)
    requires var s := Serve(sv, b, n, MAX_REQS);
             out == (out0 + done) + s.out && nreq == s.nreq && close == s.close && (!close ==> inb == s.rest)
    ensures IsServed(sv, b0, n0, out0, out, inb, nreq, close)
  {
    hide Serve;
    Assoc(out0, done, Serve(sv, b, n, MAX_REQS).out);
  }

  lemma Advance(sv: Server, done: seq<Byte>, b: seq<Byte>, nreq: nat, head: seq<Byte>, size: nat, whole: Served)
    requires NextRequest(sv, b) == Request(head, size) && sv.pathOk(head) && sv.keepAlive(head) && nreq + 1 < MAX_REQS
    requires Combined(sv, done, b, nreq, whole)
    ensures Combined(sv, done + sv.respond(head, true), b[size..], nreq + 1, whole)
  {
    hide NextRequest;
    RequestSize(sv, b);
    Assoc(done, sv.respond(head, true), Serve(sv, b[size..], nreq + 1, MAX_REQS).out);
  }

  // ---- any receive boundaries -----------------------------------------------------------------------

  /** Receiving the chunks one by one, pumping after each. */
  function Feed(sv: Server, b: seq<Byte>, nreq: nat, chunks: seq<seq<Byte>>): Served
    decreases |chunks|
  {
    if chunks == [] then Served([], b, nreq, false)
    else
      var s := Serve(sv, b + chunks[0], nreq, MAX_REQS);
      if s.close then s
      else
        var t := Feed(sv, s.rest, s.nreq, chunks[1..]);
        t.(out := s.out + t.out)
  }

  lemma {:induction false} ServeIsDone(sv: Server, b: seq<Byte>, nreq: nat)
    ensures var s := Serve(sv, b, nreq, MAX_REQS); !s.close ==> NextRequest(sv, s.rest).NeedMore?
    decreases MAX_REQS - nreq
  {
    hide NextRequest;
    var c := NextRequest(sv, b);
    RequestSize(sv, b);
    if c.Request? && GoesOn(sv, c.head, nreq, MAX_REQS) { ServeIsDone(sv, b[c.size..], nreq + 1); }
  }

  /** Splitting the request stream at any boundaries does not change the
      responses. */
  lemma {:induction false} SplitsDoNotMatter(sv: Server, b: seq<Byte>, nreq: nat, chunks: seq<seq<Byte>>)
    requires NextRequest(sv, b).NeedMore?
    ensures var f, s := Feed(sv, b, nreq, chunks), Serve(sv, b + Concat(chunks), nreq, MAX_REQS);
            f.out == s.out && f.close == s.close && (!f.close ==> f == s)
    decreases |chunks|
  {
    hide NextRequest, Serve;
    if chunks == [] {
      assert b + [] == b;
      ServeStops(sv, b, nreq, MAX_REQS);
    } else {
      var x, rest := chunks[0], Concat(chunks[1..]);
      Assoc(b, x, rest);
      var s := Serve(sv, b + x, nreq, MAX_REQS);
      ServeMore(sv, b + x, rest, nreq, MAX_REQS);
      if !s.close {
        ServeIsDone(sv, b + x, nreq);
        SplitsDoNotMatter(sv, s.rest, s.nreq, chunks[1..]);
      }
    }
  }

  /** The input buffer never exceeds its cap while the chunks arrive. */
  ghost predicate Fits(sv: Server, b: seq<Byte>, nreq: nat, chunks: seq<seq<Byte>>)
    decreases |chunks|
  {
    chunks == []
    || (|b| + |chunks[0]| <= MAX_REQ
        && var s := Serve(sv, b + chunks[0], nreq, MAX_REQS); s.close || Fits(sv, s.rest, s.nreq, chunks[1..]))
  }

  lemma {:induction false} ServeShrinks(sv: Server, b: seq<Byte>, nreq: nat)
    ensures |Serve(sv, b, nreq, MAX_REQS).rest| <= |b|
    decreases MAX_REQS - nreq
  {
    hide NextRequest;
    var c := NextRequest(sv, b);
    RequestSize(sv, b);
    if c.Request? && GoesOn(sv, c.head, nreq, MAX_REQS) { ServeShrinks(sv, b[c.size..], nreq + 1); }
  }

  /** A short stream always fits. */
  lemma {:induction false} ShortFits(sv: Server, b: seq<Byte>, nreq: nat, chunks: seq<seq<Byte>>)
    requires |b| + |Concat(chunks)| <= MAX_REQ
    ensures Fits(sv, b, nreq, chunks)
    decreases |chunks|
  {
    hide Serve;
    if chunks == [] {
    } else {
      var s := Serve(sv, b + chunks[0], nreq, MAX_REQS);
      ServeShrinks(sv, b + chunks[0], nreq);
      ShortFits(sv, s.rest, s.nreq, chunks[1..]);
    }
  }

  // ---- every request answered once ------------------------------------------------------------------

  /** A request on the wire. */
  datatype Message = Message(head: seq<Byte>, body: seq<Byte>)

  /** The head has one empty line, at its end, the body the length it names, and both
      are within the cap. */
  ghost predicate ValidMessage(sv: Server, r: Message)
  {
    && HeadLength(r.head) == |r.head| > 0
    && sv.bodyLength(r.head) == |r.body|
    && |r.head| + |r.body| <= MAX_REQ
  }

  ghost predicate ValidMessages(sv: Server, reqs: seq<Message>)
  {
    forall i :: 0 <= i < |reqs| ==> ValidMessage(sv, reqs[i])
  }

  ghost function Wire(reqs: seq<Message>): seq<Byte>
  {
    if reqs == [] then [] else (reqs[0].head + reqs[0].body) + Wire(reqs[1..])
  }

  /** One response to each request, in order, up to the first that ends the connection. */
  ghost function Answers(sv: Server, reqs: seq<Message>, nreq: nat): (a: (seq<Byte>, bool))
    decreases |reqs|
  {
    if reqs == [] then ([], false)
    else if !sv.pathOk(reqs[0].head) then (sv.badRequest, true)
    else if !GoesOn(sv, reqs[0].head, nreq, MAX_REQS) then (sv.respond(reqs[0].head, false), true)
    else
      var a := Answers(sv, reqs[1..], nreq + 1);
      (sv.respond(reqs[0].head, true) + a.0, a.1)
  }

  lemma CutMessage(sv: Server, r: Message, rest: seq<Byte>, b: seq<Byte>)
    requires ValidMessage(sv, r) && b == (r.head + r.body) + rest
    ensures NextRequest(sv, b) == Request(r.head, |r.head| + |r.body|) && b[|r.head| + |r.body|..] == rest
  {
    assert b == r.head + (r.body + rest);
    HeadMore(r.head, r.body + rest, 0);
    assert b[..|r.head|] == r.head;
  }

  /** The start of a request is no request. */
  lemma PartNeedsMore(sv: Server, b: seq<Byte>, y: seq<Byte>, r: Message, rest: seq<Byte>)
    requires ValidMessage(sv, r) && b + y == (r.head + r.body) + rest && |b| < |r.head| + |r.body|
    ensures NextRequest(sv, b).NeedMore?
  {
    CutMessage(sv, r, rest, b + y);
    if !NextRequest(sv, b).NeedMore? {
      NextMore(sv, b, y);
      RequestSize(sv, b);
    }
  }

  /** Serving the first part of a stream of requests leaves the start of one of them. */
  lemma {:induction false} ServePart(sv: Server, b: seq<Byte>, y: seq<Byte>, nreq: nat, reqs: seq<Message>)
    returns (j: nat)
    requires ValidMessages(sv, reqs) && b + y == Wire(reqs)
    ensures var s := Serve(sv, b, nreq, MAX_REQS);
            !s.close ==> j <= |reqs| && s.rest + y == Wire(reqs[j..])
                         && (j < |reqs| ==> |s.rest| < |reqs[j].head| + |reqs[j].body|)
    decreases |reqs|
  {
    hide NextRequest, Serve, ValidMessage;
    j := 0;
    assert reqs[0..] == reqs;
    if reqs == [] {
      NothingNeedsMore(sv);
      ServeStops(sv, b, nreq, MAX_REQS);
    } else {
      var r, tail := reqs[0], Wire(reqs[1..]);
      var n := |r.head| + |r.body|;
      if |b| < n {
        PartNeedsMore(sv, b, y, r, tail);
        ServeStops(sv, b, nreq, MAX_REQS);
      } else {
        PrefixOf(b, y, r.head + r.body, tail);
        CutMessage(sv, r, b[n..], b);
        ServeStops(sv, b, nreq, MAX_REQS);
        if GoesOn(sv, r.head, nreq, MAX_REQS) {
          ServeGoesOn(sv, b, nreq, r.head, n);
          j := ServePart(sv, b[n..], y, nreq + 1, reqs[1..]);
          assert j <= |reqs[1..]| ==> reqs[1..][j..] == reqs[j + 1..];
          j := j + 1;
        }
      }
    }
  }

  lemma ServeGoesOn(sv: Server, b: seq<Byte>, nreq: nat, head: seq<Byte>, size: nat)
    requires NextRequest(sv, b) == Request(head, size) && GoesOn(sv, head, nreq, MAX_REQS)
    ensures size <= |b|
    ensures var s := Serve(sv, b[size..], nreq + 1, MAX_REQS);
            Serve(sv, b, nreq, MAX_REQS) == s.(out := sv.respond(head, true) + s.out)
  {
  }

  /** Every request of a well-formed stream is answered once, and nothing else is. */
  lemma {:induction false} AnsweredOnce(sv: Server, reqs: seq<Message>, nreq: nat)
    requires ValidMessages(sv, reqs)
    ensures var s := Serve(sv, Wire(reqs), nreq, MAX_REQS);
            && (s.out, s.close) == Answers(sv, reqs, nreq)
            && (!s.close ==> s.rest == [] && s.nreq == nreq + |reqs|)
    decreases |reqs|
  {
    hide NextRequest, Serve, ValidMessage;
    if reqs == [] {
      NothingNeedsMore(sv);
      ServeStops(sv, [], nreq, MAX_REQS);
    } else {
      var r := reqs[0];
      CutMessage(sv, r, Wire(reqs[1..]), Wire(reqs));
      ServeStops(sv, Wire(reqs), nreq, MAX_REQS);
      if GoesOn(sv, r.head, nreq, MAX_REQS) {
        ServeGoesOn(sv, Wire(reqs), nreq, r.head, |r.head| + |r.body|);
        AnsweredOnce(sv, reqs[1..], nreq + 1);
      }
    }
  }

  /** No request together with a chunk exceeds the cap. */
  ghost predicate RoomFor(reqs: seq<Message>, chunks: seq<seq<Byte>>)
  {
    forall i, k :: 0 <= i < |reqs| && 0 <= k < |chunks| ==>
                     |reqs[i].head| + |reqs[i].body| + |chunks[k]| <= MAX_REQ + 1
  }

  /** Then the chunks always fit, however long the stream is. */
  lemma {:induction false} MessagesFit(sv: Server, b: seq<Byte>, nreq: nat, chunks: seq<seq<Byte>>, reqs: seq<Message>)
    requires ValidMessages(sv, reqs) && RoomFor(reqs, chunks) && b + Concat(chunks) == Wire(reqs)
    requires reqs == [] || |b| < |reqs[0].head| + |reqs[0].body|
    ensures Fits(sv, b, nreq, chunks)
    decreases |chunks|
  {
    hide Serve, ValidMessage;
    if chunks == [] {
    } else {
      var x, y := chunks[0], Concat(chunks[1..]);
      assert b + Concat(chunks) == (b + x) + y by { Assoc(b, x, y); }
      var j := ServePart(sv, b + x, y, nreq, reqs);
      var s := Serve(sv, b + x, nreq, MAX_REQS);
      assert |b| + |x| <= MAX_REQ;
      if !s.close { MessagesFit(sv, s.rest, s.nreq, chunks[1..], reqs[j..]); }
    }
  }

  lemma ReceiveMessages(sv: Server, chunks: seq<seq<Byte>>, reqs: seq<Message>)
    ensures Concat(chunks) == Wire(reqs) && ValidMessages(sv, reqs) && RoomFor(reqs, chunks) ==>
              Fits(sv, [], 0, chunks) && Answers(sv, reqs, 0) ==
                var s := Serve(sv, Concat(chunks), 0, MAX_REQS); (s.out, s.close)
  {
    hide Serve, RoomFor, Wire;
    if Concat(chunks) == Wire(reqs) && ValidMessages(sv, reqs) && RoomFor(reqs, chunks) {
      assert [] + Concat(chunks) == Concat(chunks);
      MessagesFit(sv, [], 0, chunks, reqs);
      AnsweredOnce(sv, reqs, 0);
    }
  }

  /** A reactor's receive path: append, then pump, and drop the connection when the buffer
      exceeds its cap. Well-formed requests, each leaving room for a chunk, are answered
      once each. */
  method Receive(c: AsyncConn, sv: Server, chunks: seq<seq<Byte>>, ghost reqs: seq<Message>)
    returns (fits: bool, close: bool)
    requires c.inb == [] && c.out == [] && c.nreq == 0
    modifies c
    ensures fits <==> Fits(sv, [], 0, chunks)
    ensures |Concat(chunks)| <= MAX_REQ ==> fits
    ensures !fits ==> close
    ensures fits ==> var s := Serve(sv, Concat(chunks), 0, MAX_REQS); c.out == s.out && close == s.close
    ensures Concat(chunks) == Wire(reqs) && ValidMessages(sv, reqs) && RoomFor(reqs, chunks) ==>
              fits && (c.out, close) == Answers(sv, reqs, 0)
  {
    hide Serve, NextRequest, RoomFor, ValidMessage, Wire;
    ghost var all := Feed(sv, [], 0, chunks);
    var k := 0;
    close := false;
    assert chunks[0..] == chunks && [] + Concat(chunks) == Concat(chunks);
    NothingNeedsMore(sv);
    if |Concat(chunks)| <= MAX_REQ { ShortFits(sv, [], 0, chunks); }
    ReceiveMessages(sv, chunks, reqs);
    while k < |chunks| && !close
      invariant 0 <= k <= |chunks|
      invariant close ==> all.close && all.out == c.out && Fits(sv, [], 0, chunks)
      invariant !close ==> var t := Feed(sv, c.inb, c.nreq, chunks[k..]); all == t.(out := c.out + t.out)
      invariant !close ==> (Fits(sv, c.inb, c.nreq, chunks[k..]) <==> Fits(sv, [], 0, chunks))
    {
      ghost var b, n, o := c.inb, c.nreq, c.out;
      assert chunks[k..][0] == chunks[k] && chunks[k..][1..] == chunks[k + 1..];
      c.inb := c.inb + chunks[k];
      if |c.inb| > MAX_REQ {
        return false, true;
      }
      close := c.Pump(sv);
      ghost var s := Serve(sv, b + chunks[k], n, MAX_REQS);
      if !close { Assoc(o, s.out, Feed(sv, s.rest, s.nreq, chunks[k + 1..]).out); }
      k := k + 1;
    }
    SplitsDoNotMatter(sv, [], 0, chunks);
    fits := true;
  }

  lemma NothingNeedsMore(sv: Server)
    ensures NextRequest(sv, []).NeedMore?
  {
  }

  // ---- sizes that wrap ---------------------------------------------------------------------------------

  /** NextRequest with the size of a request as it stands. */
  ghost function ExactRequest(sv: Server, b: seq<Byte>): (c: Cut)
    ensures c.Request? ==> c.size <= |b|
  {
    var n := HeadLength(b);
    if n == 0 then NeedMore
    else
      var size := n + sv.bodyLength(b[..n]);
      if size > MAX_REQ then TooBig else if |b| < size then NeedMore else Request(b[..n], size)
  }

  /** Serve with the sizes of requests as they stand. */
  ghost function ServeExact(sv: Server, b: seq<Byte>, nreq: nat, maxReqs: nat): Served
    decreases maxReqs - nreq
  {
    match ExactRequest(sv, b)
    case NeedMore => Served([], b, nreq, false)
    case TooBig => Served(sv.badRequest, b, nreq, true)
    case Request(head, size) =>
      if !sv.pathOk(head) then Served(sv.badRequest, b, nreq + 1, true)
      else if !GoesOn(sv, head, nreq, maxReqs) then Served(sv.respond(head, false), b[size..], nreq + 1, true)
      else
        var s := ServeExact(sv, b[size..], nreq + 1, maxReqs);
        s.(out := sv.respond(head, true) + s.out)
  }

  /** The size of the first request is below 2^64, or wraps to one that is refused all the
      same. */
  predicate NoShortWrap(sv: Server, b: seq<Byte>)
  {
    var n := HeadLength(b);
    n > 0 && n + sv.bodyLength(b[..n]) >= TWO64 ==> Total(sv, b[..n]) > MAX_REQ
  }

  /** So is the size of every request that is reached. */
  ghost predicate NoneShortWraps(sv: Server, b: seq<Byte>, nreq: nat, maxReqs: nat)
    decreases maxReqs - nreq
  {
    && NoShortWrap(sv, b)
    && var c := ExactRequest(sv, b);
       c.Request? && GoesOn(sv, c.head, nreq, maxReqs) ==> NoneShortWraps(sv, b[c.size..], nreq + 1, maxReqs)
  }

  lemma WrapShows(sv: Server, b: seq<Byte>)
    ensures NoShortWrap(sv, b) <==> NextRequest(sv, b) == ExactRequest(sv, b)
    ensures !NoShortWrap(sv, b) ==> ExactRequest(sv, b).TooBig?
  {
  }

  /** A short wrap is served otherwise than it should be. */
  lemma WrapServed(sv: Server, b: seq<Byte>, nreq: nat, maxReqs: nat)
    requires ExactRequest(sv, b).TooBig? && !NextRequest(sv, b).TooBig?
    ensures Serve(sv, b, nreq, maxReqs) != ServeExact(sv, b, nreq, maxReqs)
  {
    hide NextRequest, ExactRequest;
    ServeCounts(sv, b, nreq, maxReqs);
  }

  lemma {:induction false} ServeCounts(sv: Server, b: seq<Byte>, nreq: nat, maxReqs: nat)
    ensures Serve(sv, b, nreq, maxReqs).nreq >= nreq
    ensures NextRequest(sv, b).Request? ==> Serve(sv, b, nreq, maxReqs).nreq > nreq
    decreases maxReqs - nreq
  {
    hide NextRequest;
    var c := NextRequest(sv, b);
    RequestSize(sv, b);
    if c.Request? && GoesOn(sv, c.head, nreq, maxReqs) { ServeCounts(sv, b[c.size..], nreq + 1, maxReqs); }
  }

  lemma SamePrefix(r: seq<Byte>, a: seq<Byte>, b: seq<Byte>)
    ensures r + a == r + b <==> a == b
  {
    assert (r + a)[|r|..] == a && (r + b)[|r|..] == b;
  }

  /** 64-bit sizes serve a stream as unbounded ones would exactly when none of the sizes it
      reaches is 2^64 or more and wraps to one within the cap. */
  lemma {:induction false} WrapsExactly(sv: Server, b: seq<Byte>, nreq: nat, maxReqs: nat)
    ensures Serve(sv, b, nreq, maxReqs) == ServeExact(sv, b, nreq, maxReqs) <==> NoneShortWraps(sv, b, nreq, maxReqs)
    decreases maxReqs - nreq
  {
    hide NextRequest, ExactRequest, NoShortWrap;
    WrapShows(sv, b);
    var c := ExactRequest(sv, b);
    if !NoShortWrap(sv, b) {
      WrapServed(sv, b, nreq, maxReqs);
    } else if c.Request? && GoesOn(sv, c.head, nreq, maxReqs) {
      RequestSize(sv, b);
      var t := b[c.size..];
      WrapsExactly(sv, t, nreq + 1, maxReqs);
      SamePrefix(sv.respond(c.head, true), Serve(sv, t, nreq + 1, maxReqs).out,
                 ServeExact(sv, t, nreq + 1, maxReqs).out);
    } else {
      RequestSize(sv, b);
    }
  }

  /** The same answer n times. */
  ghost function Repeated(r: seq<Byte>, n: nat): seq<Byte>
  {
    if n == 0 then [] else r + Repeated(r, n - 1)
  }

  /** A Content-Length that makes the size a multiple of 2^64 consumes nothing: the pump
      answers the same request until the cap on requests, where unbounded sizes refuse it. */
  lemma {:induction false} WrapRepeats(sv: Server, b: seq<Byte>, nreq: nat, maxReqs: nat, head: seq<Byte>)
    requires HeadLength(b) > 0 && head == b[..HeadLength(b)] && Total(sv, head) == 0 && nreq < maxReqs
    requires sv.pathOk(head) && sv.keepAlive(head)
    ensures Serve(sv, b, nreq, maxReqs)
            == Served(Repeated(sv.respond(head, true), maxReqs - nreq - 1) + sv.respond(head, false), b, maxReqs, true)
    ensures ServeExact(sv, b, nreq, maxReqs) == Served(sv.badRequest, b, nreq, true)
    decreases maxReqs - nreq
  {
    hide HeadLength;
    HeadBounds(b);
    assert b[0..] == b;
    if nreq + 1 >= maxReqs {
      assert [] + sv.respond(head, false) == sv.respond(head, false);
    } else {
      WrapRepeats(sv, b, nreq + 1, maxReqs, head);
      Assoc(sv.respond(head, true), Repeated(sv.respond(head, true), maxReqs - nreq - 2), sv.respond(head, false));
    }
  }

  // ---- the blocking loop -------------------------------------------------------------------------------

  /** A socket: what the peer will still send, and what was sent to it. */
  class Socket {
    var stream: seq<Byte>
    var sent: seq<Byte>

    constructor (stream: seq<Byte>)
      ensures this.stream == stream && sent == []
    {
      this.stream, sent := stream, [];
    }

    /** recv: some of the bytes, or none at the end of the stream. */
    method Recv(max: nat, choice: nat) returns (chunk: seq<Byte>)
      requires max > 0
      modifies `stream
      ensures old(stream) == chunk + stream && |chunk| <= max && (chunk == [] <==> old(stream) == [])
    {
      var n := Min(Min(1 + choice, max), |stream|);
      chunk := stream[..n];
      stream := stream[n..];
    }
  }

  /** Every request of the stream fits the blocking loop's buffer and its cap. */
  predicate Small(sv: Server, b: seq<Byte>, nreq: nat)
    decreases MAX_BLOCKING - nreq
  {
    match NextRequest(sv, b)
    case NeedMore => HeadLength(b) <= BUF_MAX && (HeadLength(b) > 0 ==> Total(sv, b[..HeadLength(b)]) <= BUF_MAX)
    case TooBig => false
    case Request(head, size) =>
      && |head| <= BUF_MAX && size <= BUF_MAX && nreq + 1 < MAX_BLOCKING
      && (sv.keepAlive(head) && sv.pathOk(head) ==> Small(sv, b[size..], nreq + 1))
  }

  /** Read until the head is complete. */
  method ReadHead(sock: Socket, buf0: seq<Byte>, choices: seq<nat>) returns (ok: bool, buf: seq<Byte>)
    requires |buf0| <= BUF_MAX
    modifies sock
    ensures sock.sent == old(sock.sent) && |buf| <= BUF_MAX && buf + sock.stream == buf0 + old(sock.stream)
    ensures ok ==> HeadLength(buf) > 0
    ensures !ok ==> HeadLength(buf) == 0 && (sock.stream == [] || |buf| == BUF_MAX)
  {
    hide HeadLength;
    buf := buf0;
    while HeadLength(buf) == 0
      invariant sock.sent == old(sock.sent) && |buf| <= BUF_MAX && buf + sock.stream == buf0 + old(sock.stream)
      decreases |sock.stream|
    {
      if |buf| >= BUF_MAX {
        return false, buf;
      }
      var r := sock.Recv(BUF_MAX - |buf|, if |choices| > 0 then choices[|sock.stream| % |choices|] else 0);
      if r == [] {
        assert buf + sock.stream == buf0 + old(sock.stream);
        return false, buf;
      }
      Assoc(buf, r, sock.stream);
      buf := buf + r;
    }
    ok := true;
  }

  /** Read until the whole request is there. */
  method ReadBody(sock: Socket, buf0: seq<Byte>, total: nat, choices: seq<nat>) returns (ok: bool, buf: seq<Byte>)
    requires |buf0| <= BUF_MAX && total <= BUF_MAX
    modifies sock
    ensures sock.sent == old(sock.sent) && |buf| <= BUF_MAX && buf + sock.stream == buf0 + old(sock.stream)
            && buf0 <= buf
    ensures ok ==> |buf| >= total
    ensures !ok ==> |buf| < total && sock.stream == []
  {
    buf := buf0;
    while |buf| < total
      invariant sock.sent == old(sock.sent) && |buf| <= BUF_MAX && buf + sock.stream == buf0 + old(sock.stream)
                && buf0 <= buf
      decreases |sock.stream|
    {
      var r := sock.Recv(BUF_MAX - |buf|, if |choices| > 0 then choices[|sock.stream| % |choices|] else 0);
      if r == [] {
        return false, buf;
      }
      Assoc(buf, r, sock.stream);
      buf := buf + r;
    }
    ok := true;
  }

  lemma {:induction false} HeadInPrefix(b: seq<Byte>, x: seq<Byte>, k: nat)
    requires k <= |b| + 1 && 0 < HeadFrom(b + x, k) <= |b|
    ensures HeadFrom(b, k) == HeadFrom(b + x, k)
    decreases |b| + 1 - k
  {
    assert k <= |b| ==> EndsAt(b + x, k) == EndsAt(b, k);
    if k <= |b| && !EndsAt(b, k) { HeadInPrefix(b, x, k + 1); }
  }

  /** The buffer is full, or the stream at its end, and there is no head: no
      further response is due. */
  lemma NoHead(sv: Server, buf: seq<Byte>, tail: seq<Byte>, nreq: nat)
    requires HeadLength(buf) == 0 && (tail == [] || |buf| == BUF_MAX) && Small(sv, buf + tail, nreq)
    ensures Serve(sv, buf + tail, nreq, MAX_REQS).out == []
  {
    if tail == [] { assert buf + tail == buf; }
    var b := buf + tail;
    if HeadLength(b) > 0 && HeadLength(b) <= |buf| { HeadInPrefix(buf, tail, 0); }
  }

  /** The request at the start of the buffer is the next one of the stream. */
  lemma BufferedRequest(sv: Server, buf: seq<Byte>, tail: seq<Byte>, nreq: nat)
    requires HeadLength(buf) > 0 && Small(sv, buf + tail, nreq)
    ensures var n := HeadLength(buf);
            var total := Total(sv, buf[..n]);
            && total <= BUF_MAX
            && (|buf| >= total ==> NextRequest(sv, buf + tail) == Request(buf[..n], total) && nreq + 1 < MAX_BLOCKING)
            && (|buf| < total && tail == [] ==> NextRequest(sv, buf + tail).NeedMore?)
  {
    HeadMore(buf, tail, 0);
    var n := HeadLength(buf);
    assert (buf + tail)[..n] == buf[..n];
  }

  lemma SmallStep(sv: Server, b: seq<Byte>, nreq: nat, head: seq<Byte>, size: nat)
    requires Small(sv, b, nreq) && NextRequest(sv, b) == Request(head, size) && sv.keepAlive(head) && sv.pathOk(head)
    ensures size <= |b| && Small(sv, b[size..], nreq + 1)
  {
  }

  /** dyn_http_handle_conn: for streams within its smaller limits it sends exactly
      what the pump would. */
  method HandleConn(sv: Server, sock: Socket, choices: seq<nat>)
    modifies sock
    ensures Small(sv, old(sock.stream), 0) ==>
              sock.sent == old(sock.sent) + Serve(sv, old(sock.stream), 0, MAX_REQS).out
  {
    hide Serve, HeadLength, NextRequest, Small;
    var buf: seq<Byte> := [];
    var nreq := 0;
    ghost var small, done: seq<Byte> := Small(sv, sock.stream, 0), [];
    ghost var whole := Serve(sv, sock.stream, 0, MAX_REQS).out;
    assert [] + sock.stream == sock.stream && [] + whole == whole;
    while true
      invariant |buf| <= BUF_MAX && sock.sent == old(sock.sent) + done && 0 <= nreq
      invariant small ==> Small(sv, buf + sock.stream, nreq)
      invariant small ==> whole == done + Serve(sv, buf + sock.stream, nreq, MAX_REQS).out
      decreases MAX_BLOCKING - nreq
    {
      ghost var all := buf + sock.stream;
      var ok;
      ok, buf := ReadHead(sock, buf, choices);
      if !ok {
        if small { NoHead(sv, buf, sock.stream, nreq); }
        return;
      }
      HeadBounds(buf);
      var headLen := HeadLength(buf);
      var head := buf[..headLen];
      var keepAlive := sv.keepAlive(head);
      var total := Total(sv, head);
      if small { BufferedRequest(sv, buf, sock.stream, nreq); }
      if total > BUF_MAX {
        return;
      }
      ghost var first, tail := buf, sock.stream;
      ok, buf := ReadBody(sock, buf, total, choices);
      SameHead(first, buf);
      if small { BufferedRequest(sv, buf, sock.stream, nreq); ServeStops(sv, all, nreq, MAX_REQS); }
      if !ok {
        return;
      }
      nreq := nreq + 1;
      if nreq >= MAX_BLOCKING {
        keepAlive := false;
      }
      if !sv.pathOk(head) {
        sock.sent := sock.sent + sv.badRequest;
        Assoc(old(sock.sent), done, sv.badRequest);
        return;
      }
      sock.sent := sock.sent + sv.respond(head, keepAlive);
      Assoc(old(sock.sent), done, sv.respond(head, keepAlive));
      if !keepAlive {
        return;
      }
      if small {
        SmallStep(sv, all, nreq - 1, head, total);
        ServeStep(sv, all, nreq - 1, head, total);
        assert all[total..] == buf[total..] + sock.stream;
        Assoc(done, sv.respond(head, true), Serve(sv, all[total..], nreq, MAX_REQS).out);
      }
      done := done + sv.respond(head, true);
      buf := buf[total..];
    }
  }

  lemma SameHead(a: seq<Byte>, b: seq<Byte>)
    requires HeadLength(a) > 0 && a <= b
    ensures HeadLength(b) == HeadLength(a) && b[..HeadLength(a)] == a[..HeadLength(a)]
  {
    assert b == a + b[|a|..];
    HeadMore(a, b[|a|..], 0);
  }

  lemma ServeStep(sv: Server, b: seq<Byte>, nreq: nat, head: seq<Byte>, size: nat)
    requires NextRequest(sv, b) == Request(head, size) && sv.keepAlive(head) && sv.pathOk(head) && nreq + 1 < MAX_REQS
    ensures size <= |b|
    ensures Serve(sv, b, nreq, MAX_REQS).out == sv.respond(head, true) + Serve(sv, b[size..], nreq + 1, MAX_REQS).out
  {
  }
}
