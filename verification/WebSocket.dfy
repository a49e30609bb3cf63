/** WebSocket frames (sections 5.2 to 5.4 of RFC 6455) as dyn_app_ws_process reads
    them from a connection's input buffer. */
module WebSocket {
  import opened Common
  import opened Arith
  import opened BitSeq
  import opened ConnLimits

  // ---- masking -----------------------------------------------------------------------------------

  /** The ^ of C on bytes. */
  function Xor(a: Byte, b: Byte): (c: Byte)
  {
    ((a as bv8) ^ (b as bv8)) as int
  }

  lemma XorIs(a: Byte, b: Byte, c: Byte)
    ensures c == Xor(a, b) <==> c as bv8 == (a as bv8) ^ (b as bv8)
  {
    Vector(c, (a as bv8) ^ (b as bv8));
  }

  lemma NextVector(z: bv8)
    requires z as int < 255
    ensures (z + 1) as int == z as int + 1
  {
  }

  lemma {:induction false} VectorOf(c: Byte) returns (z: bv8)
    ensures z as int == c
  {
    if c == 0 {
      z := 0;
    } else {
      z := VectorOf(c - 1);
      NextVector(z);
      z := z + 1;
    }
  }

  lemma ByteBack(c: Byte)
    ensures (c as bv8) as int == c
  {
    var z := VectorOf(c);
    VectorBack(z);
  }

  lemma VectorBack(z: bv8)
    ensures (z as int) as bv8 == z
  {
  }

  lemma Vector(c: Byte, z: bv8)
    ensures c == z as int <==> c as bv8 == z
  {
    ByteBack(c);
    VectorBack(z);
  }

  lemma XorTwice(a: Byte, k: Byte)
    ensures Xor(Xor(a, k), k) == a
  {
    hide Xor;
    XorIs(a, k, Xor(a, k));
    XorBack(a as bv8, k as bv8);
    XorIs(Xor(a, k), k, a);
  }

  lemma XorBack(a: bv8, k: bv8)
    ensures (a ^ k) ^ k == a
  {
  }

  /** Each byte combined with its byte of the key, byte by byte as bit vectors. */
  ghost predicate IsMasked(s: seq<Byte>, key: seq<Byte>, t: seq<Byte>)
    requires |key| == 4
  {
    |t| == |s| && forall i :: 0 <= i < |s| ==> t[i] as bv8 == (s[i] as bv8) ^ (key[i % 4] as bv8)
  }

  function Masked(s: seq<Byte>, key: seq<Byte>): (t: seq<Byte>)
    requires |key| == 4
    ensures |t| == |s|
  {
    seq(|s|, i requires 0 <= i < |s| => Xor(s[i], key[i % 4]))
  }

  lemma MaskedTwice(s: seq<Byte>, key: seq<Byte>)
    requires |key| == 4
    ensures Masked(Masked(s, key), key) == s
  {
    hide Xor;
    forall i | 0 <= i < |s|
      ensures Masked(Masked(s, key), key)[i] == s[i]
    {
      XorTwice(s[i], key[i % 4]);
    }
  }

  lemma MaskedIs(s: seq<Byte>, key: seq<Byte>, t: seq<Byte>)
    requires |key| == 4
    ensures t == Masked(s, key) <==> IsMasked(s, key, t)
  {
    hide Xor;
    forall i | 0 <= i < |s| && i < |t|
      ensures t[i] == Masked(s, key)[i] <==> t[i] as bv8 == (s[i] as bv8) ^ (key[i % 4] as bv8)
    {
      XorIs(s[i], key[i % 4], t[i]);
    }
  }

  // ---- frames ---------------------------------------------------------------------------------------

  /** A big-endian number. */
  function FromBytes(s: seq<Byte>): nat
  {
    if s == [] then 0 else FromBytes(s[..|s| - 1]) * 256 + s[|s| - 1]
  }

  datatype Parsed = Incomplete | Refused | Got(fin: bool, op: nat, payload: seq<Byte>, size: nat)

  /** Where the length field ends: 2, 4 or 10 bytes in. */
  function LengthEnd(b: seq<Byte>): nat
    requires |b| >= 2
  {
    if b[1] % 128 == 126 then 4 else if b[1] % 128 == 127 then 10 else 2
  }

  function PayloadLength(b: seq<Byte>): nat
    requires |b| >= 2 && |b| >= LengthEnd(b)
  {
    if LengthEnd(b) == 2 then b[1] % 128 else FromBytes(b[2..LengthEnd(b)])
  }

  /** The frame at the start of the buffer. */
  function Parse(b: seq<Byte>): (p: Parsed)
    ensures p.Got? ==> 6 <= p.size <= |b|
  {
    if |b| < 2 || |b| < LengthEnd(b) then Incomplete
    else
      var hdr, n := LengthEnd(b), PayloadLength(b);
      if b[1] < 128 || n > MAX_REQ then Refused
      else if |b| < hdr + 4 + n then Incomplete
      else Got(b[0] >= 128, b[0] % 16, Masked(b[hdr + 4..hdr + 4 + n], b[hdr..hdr + 4]), hdr + 4 + n)
  }

  /** More input does not change a frame already there. */
  lemma ParseMore(b: seq<Byte>, x: seq<Byte>)
    requires !Parse(b).Incomplete?
    ensures Parse(b + x) == Parse(b)
  {
    var c := b + x;
    assert c[0] == b[0] && c[1] == b[1];
    var hdr := LengthEnd(b);
    assert c[2..hdr] == b[2..hdr];
    var n := PayloadLength(b);
    if b[1] >= 128 && n <= MAX_REQ {
      assert c[hdr + 4..hdr + 4 + n] == b[hdr + 4..hdr + 4 + n] && c[hdr..hdr + 4] == b[hdr..hdr + 4];
    }
  }

  // ---- what frames do ------------------------------------------------------------------------------

  /** What the connection's owner sees: messages dispatched, pongs and close frames
      sent. */
  datatype Action = Message(op: nat, data: seq<Byte>) | Pong(data: seq<Byte>) | CloseSent

  datatype Ws = Ws(fragOp: nat, frag: seq<Byte>, closed: bool, log: seq<Action>)

  function Apply(w: Ws, fin: bool, op: nat, payload: seq<Byte>): Ws
  {
    if op == 8 then w.(closed := true, log := w.log + [CloseSent])
    else if op == 9 then w.(log := w.log + [Pong(payload)])
    else if op > 2 then w
    else if (op == 0) == (w.fragOp == 0) then w.(closed := true)
    else if op != 0 && fin then w.(log := w.log + [Message(op, payload)])
    else
      var v := if op != 0 then w.(fragOp := op) else w;
      if |v.frag| + |payload| > MAX_REQ then v.(closed := true)
      else if fin then v.(log := v.log + [Message(v.fragOp, v.frag + payload)], frag := [], fragOp := 0)
      else v.(frag := v.frag + payload)
  }

  /** All complete frames of a buffer, and what is left of it. */
  function Drain(w: Ws, b: seq<Byte>): (Ws, seq<Byte>)
    decreases |b|
  {
    if w.closed then (w, b)
    else
      match Parse(b)
      case Incomplete => (w, b)
      case Refused => (w.(closed := true), b)
      case Got(fin, op, payload, size) => Drain(Apply(w, fin, op, payload), b[size..])
  }

  /** Draining in two steps is draining at once. */
  lemma {:induction false} DrainMore(w: Ws, b: seq<Byte>, x: seq<Byte>)
    ensures var (v, rest) := Drain(w, b);
            Drain(w, b + x).0 == Drain(v, rest + x).0 && (!v.closed ==> Drain(w, b + x) == Drain(v, rest + x))
    decreases |b|
  {
    if w.closed {
    } else {
      var p := Parse(b);
      if !p.Incomplete? { ParseMore(b, x); }
      if p.Got? {
        assert (b + x)[p.size..] == b[p.size..] + x;
        DrainMore(Apply(w, p.fin, p.op, p.payload), b[p.size..], x);
      }
    }
  }

  // ---- the connection ----------------------------------------------------------------------------------

  class WsConn {
    var inb: seq<Byte>
    var fragOp: nat
    var frag: seq<Byte>
    var closed: bool
    var log: seq<Action>

    ghost function State(): Ws
      reads this
    {
      Ws(fragOp, frag, closed, log)
    }

    constructor ()
      ensures State() == Ws(0, [], false, []) && inb == []
    {
      inb, fragOp, frag, closed, log := [], 0, [], false, [];
    }

    /** The unmasking loop, in place in the input buffer. */
    method Unmask(start: nat, n: nat, mask: seq<Byte>)
      requires start + n <= |inb| && |mask| == 4
      modifies `inb
      ensures |inb| == |old(inb)| && inb[..start] == old(inb)[..start] && inb[start + n..] == old(inb)[start + n..]
      ensures IsMasked(old(inb)[start..start + n], mask, inb[start..start + n])
      ensures inb[start..start + n] == Masked(old(inb)[start..start + n], mask)
    {
      hide Xor, IsMasked;
      for i := 0 to n
        invariant |inb| == |old(inb)|
        invariant forall k :: 0 <= k < |inb| && !(start <= k < start + i) ==> inb[k] == old(inb)[k]
        invariant forall k :: start <= k < start + i ==> inb[k] == Xor(old(inb)[k], mask[(k - start) % 4])
      {
        inb := inb[start + i := Xor(inb[start + i], mask[i % 4])];
      }
      MaskedIs(old(inb)[start..start + n], mask, inb[start..start + n]);
    }

    /** One data frame of dyn_app_ws_process. */
    method OnData(fin: bool, op: nat, payload: seq<Byte>)
      requires op <= 2 && !closed
      modifies `fragOp, `frag, `closed, `log
      ensures State() == Apply(old(State()), fin, op, payload)
    {
      var fragActive := fragOp != 0;
      if (op == 0 && !fragActive) || (op != 0 && fragActive) {
        closed := true;
        return;
      }
      if op != 0 && fin {
        log := log + [Message(op, payload)];
      } else {
        if op != 0 {
          fragOp := op;
        }
        if |frag| + |payload| > MAX_REQ {
          closed := true;
          return;
        }
        frag := frag + payload;
        if fin {
          log := log + [Message(fragOp, frag)];
          frag, fragOp := [], 0;
        }
      }
    }

    /** dyn_app_ws_process: parse and dispatch every complete frame. */
    method Process()
      requires !closed
      modifies this
      ensures State() == Drain(old(State()), old(inb)).0
      ensures !closed ==> inb == Drain(old(State()), old(inb)).1
    {
      hide Masked, Apply;
      while true
        invariant !closed && Drain(State(), inb) == Drain(old(State()), old(inb))
        decreases |inb|
      {
        ghost var b, w := inb, State();
        if |inb| < 2 {
          return;
        }
        var hdr := if inb[1] % 128 == 126 then 4 else if inb[1] % 128 == 127 then 10 else 2;
        if |inb| < hdr {
          return;
        }
        var plen := PayloadLength(inb);
        if inb[1] < 128 {
          closed := true;
          return;
        }
        if plen > MAX_REQ {
          closed := true;
          return;
        }
        if |inb| < hdr + 4 + plen {
          return;
        }
        var fin, op := inb[0] >= 128, inb[0] % 16;
        Unmask(hdr + 4, plen, inb[hdr..hdr + 4]);
        var payload := inb[hdr + 4..hdr + 4 + plen];
        var total := hdr + 4 + plen;
        assert Parse(b) == Got(fin, op, payload, total);
        assert inb[total..] == b[total..];
        inb := inb[total..];
        Dispatch(fin, op, payload);
        if closed {
          return;
        }
      }
    }

    method Dispatch(fin: bool, op: nat, payload: seq<Byte>)
      requires !closed
      modifies `fragOp, `frag, `closed, `log
      ensures State() == Apply(old(State()), fin, op, payload)
    {
      if op == 8 {
        log := log + [CloseSent];
        closed := true;
      } else if op == 9 {
        log := log + [Pong(payload)];
      } else if op <= 2 {
        OnData(fin, op, payload);
      }
    }

    /** dyn_app_on_recv for an upgraded connection. */
    method OnRecv(buf: seq<Byte>)
      requires !closed
      modifies this
      ensures |old(inb)| + |buf| > MAX_REQ ==> closed && log == old(log)
      ensures |old(inb)| + |buf| <= MAX_REQ ==> State() == Drain(old(State()), old(inb) + buf).0
      ensures |old(inb)| + |buf| <= MAX_REQ && !closed ==> inb == Drain(old(State()), old(inb) + buf).1
    {
      inb := inb + buf;
      if |inb| > MAX_REQ {
        closed := true;
      } else {
        Process();
      }
    }
  }

  // ---- any receive boundaries ----------------------------------------------------------------------------

  /** The state after receiving the chunks one by one, as OnRecv does. */
  function Feed(w: Ws, b: seq<Byte>, chunks: seq<seq<Byte>>): (Ws, seq<Byte>)
    decreases |chunks|
  {
    if chunks == [] || w.closed then (w, b)
    else
      var (v, rest) := Drain(w, b + chunks[0]);
      Feed(v, rest, chunks[1..])
  }

  /** Where the stream is cut does not matter. */
  lemma {:induction false} CutsDoNotMatter(w: Ws, b: seq<Byte>, chunks: seq<seq<Byte>>)
    requires !w.closed && Drain(w, b) == (w, b)
    ensures Feed(w, b, chunks).0 == Drain(w, b + Concat(chunks)).0
    ensures !Feed(w, b, chunks).0.closed ==> Feed(w, b, chunks) == Drain(w, b + Concat(chunks))
    decreases |chunks|
  {
    if chunks == [] {
      assert b + [] == b;
    } else {
      var x, rest := chunks[0], Concat(chunks[1..]);
      var (v, left) := Drain(w, b + x);
      assert b + Concat(chunks) == (b + x) + rest;
      DrainMore(w, b + x, rest);
      DrainIsDone(w, b + x);
      if !v.closed { CutsDoNotMatter(v, left, chunks[1..]); }
    }
  }

  lemma {:induction false} DrainIsDone(w: Ws, b: seq<Byte>)
    ensures var (v, rest) := Drain(w, b); Drain(v, rest) == (v, rest)
    decreases |b|
  {
    if w.closed {
    } else {
      var p := Parse(b);
      if p.Got? { DrainIsDone(Apply(w, p.fin, p.op, p.payload), b[p.size..]); }
    }
  }

  /** The input buffer never exceeds its cap while the chunks arrive. */
  ghost predicate Fits(w: Ws, b: seq<Byte>, chunks: seq<seq<Byte>>)
    decreases |chunks|
  {
    chunks == [] || w.closed
    || (|b| + |chunks[0]| <= MAX_REQ && var (v, rest) := Drain(w, b + chunks[0]); Fits(v, rest, chunks[1..]))
  }

  lemma {:induction false} DrainShrinks(w: Ws, b: seq<Byte>)
    ensures |Drain(w, b).1| <= |b|
    decreases |b|
  {
    if w.closed || !Parse(b).Got? {
    } else {
      var p := Parse(b);
      DrainShrinks(Apply(w, p.fin, p.op, p.payload), b[p.size..]);
    }
  }

  /** A short stream always fits. */
  lemma {:induction false} ShortFits(w: Ws, b: seq<Byte>, chunks: seq<seq<Byte>>)
    requires |b| + |Concat(chunks)| <= MAX_REQ
    ensures Fits(w, b, chunks)
    decreases |chunks|
  {
    hide Drain;
    if chunks == [] {
    } else {
      var (v, rest) := Drain(w, b + chunks[0]);
      DrainShrinks(w, b + chunks[0]);
      ShortFits(v, rest, chunks[1..]);
    }
  }

  // ---- frames put on the wire --------------------------------------------------------------------------------

  /** A frame of a client, with one of the three forms of the length field. */
  datatype Frame = Frame(fin: bool, op: nat, key: seq<Byte>, payload: seq<Byte>, form: nat)

  predicate ValidFrame(f: Frame)
  {
    && f.op < 16 && |f.key| == 4 && |f.payload| <= MAX_REQ
    && (f.form == 0 ==> |f.payload| < 126) && (f.form == 1 ==> |f.payload| < 65536) && f.form <= 2
  }

  function LengthField(f: Frame): seq<Byte>
    requires ValidFrame(f)
  {
    if f.form == 0 then [128 + |f.payload|]
    else if f.form == 1 then [128 + 126] + BigEndian(|f.payload|, 2)
    else [128 + 127] + BigEndian(|f.payload|, 8)
  }

  function FrameBytes(f: Frame): seq<Byte>
    requires ValidFrame(f)
  {
    [(if f.fin then 128 else 0) + f.op] + LengthField(f) + f.key + Masked(f.payload, f.key)
  }

  lemma {:induction false} BytesInverse(n: nat, k: nat)
    requires n < Pow(256, k)
    ensures FromBytes(BigEndian(n, k)) == n
  {
    if k == 0 {
    } else {
      BytesInverse(n / 256, k - 1);
      assert BigEndian(n, k)[..k - 1] == BigEndian(n / 256, k - 1);
    }
  }

  lemma LengthFits(f: Frame)
    requires ValidFrame(f)
    ensures f.form == 1 ==> |f.payload| < Pow(256, 2)
    ensures f.form == 2 ==> |f.payload| < Pow(256, 8)
  {
  }

  /** Reading undoes writing: the frame comes back unmasked, and nothing after it
      is touched. */
  lemma ParseFrame(f: Frame, rest: seq<Byte>)
    requires ValidFrame(f)
    ensures Parse(FrameBytes(f) + rest) == Got(f.fin, f.op, f.payload, |FrameBytes(f)|)
  {
    hide Masked, BigEndian, FromBytes;
    var b, len := FrameBytes(f) + rest, LengthField(f);
    LengthFits(f);
    if f.form == 1 { BytesInverse(|f.payload|, 2); }
    if f.form == 2 { BytesInverse(|f.payload|, 8); }
    MaskedLength(f.payload, f.key);
    FrameSlices((if f.fin then 128 else 0) + f.op, len, f.key, Masked(f.payload, f.key), rest, b);
    MaskedTwice(f.payload, f.key);
  }

  /** A frame as it stands on the wire: whatever bytes body has, the payload is body with
      byte i combined with byte i % 4 of the key. */
  lemma ParseWire(f: Frame, body: seq<Byte>, rest: seq<Byte>)
    requires ValidFrame(f) && IsMasked(f.payload, f.key, body)
    ensures Parse(([(if f.fin then 128 else 0) + f.op] + LengthField(f) + f.key + body) + rest)
            == Got(f.fin, f.op, f.payload, 1 + |LengthField(f)| + 4 + |body|)
  {
    hide Parse, Masked, IsMasked;
    MaskedIs(f.payload, f.key, body);
    ParseFrame(f, rest);
  }

  lemma FrameSlices(x: Byte, len: seq<Byte>, key: seq<Byte>, body: seq<Byte>, rest: seq<Byte>, b: seq<Byte>)
    requires |key| == 4 && |len| >= 1 && b == ([x] + len + key + body) + rest
    ensures var hdr := 1 + |len|;
            && b[0] == x && b[1] == len[0] && b[2..hdr] == len[1..]
            && b[hdr..hdr + 4] == key && b[hdr + 4..hdr + 4 + |body|] == body
  {
  }

  lemma MaskedLength(s: seq<Byte>, key: seq<Byte>)
    requires |key| == 4
    ensures |Masked(s, key)| == |s|
  {
  }

  function FramesBytes(frames: seq<Frame>): seq<Byte>
    requires forall i :: 0 <= i < |frames| ==> ValidFrame(frames[i])
  {
    if frames == [] then [] else FrameBytes(frames[0]) + FramesBytes(frames[1..])
  }

  /** The frames that carry message data. */
  function DataFrames(frames: seq<Frame>): seq<Frame>
  {
    if frames == [] then [] else (if frames[0].op <= 2 then [frames[0]] else []) + DataFrames(frames[1..])
  }

  /** Data frames cut into messages: op is the opcode of the message begun before
      them, or 0, and part its data so far. */
  function Messages(op: nat, part: seq<Byte>, data: seq<Frame>): seq<Action>
    decreases |data|
  {
    if data == [] then []
    else
      var f := data[0];
      var first := if op == 0 then f.op else op;
      if f.fin then [Message(first, part + f.payload)] + Messages(0, [], data[1..])
      else Messages(first, part + f.payload, data[1..])
  }

  /** Fragments follow the rules of section 5.4 and no message is too long. */
  predicate InOrder(op: nat, part: seq<Byte>, data: seq<Frame>)
    decreases |data|
  {
    data != [] ==>
      var f := data[0];
      && (f.op == 0 <==> op != 0) && |part| + |f.payload| <= MAX_REQ
      && if f.fin then InOrder(0, [], data[1..]) else InOrder(if op == 0 then f.op else op, part + f.payload, data[1..])
  }

  /** The dispatched messages of a log. */
  function Dispatched(log: seq<Action>): seq<Action>
  {
    if log == [] then [] else (if log[0].Message? then [log[0]] else []) + Dispatched(log[1..])
  }

  lemma {:induction false} DispatchedConcat(a: seq<Action>, b: seq<Action>)
    ensures Dispatched(a + b) == Dispatched(a) + Dispatched(b)
  {
    if a == [] {
      assert a + b == b;
    } else {
      var first := if a[0].Message? then [a[0]] else [];
      assert (a + b)[1..] == a[1..] + b;
      DispatchedConcat(a[1..], b);
      assert Dispatched(a + b) == first + Dispatched(a[1..] + b);
      Assoc(first, Dispatched(a[1..]), Dispatched(b));
    }
  }

  lemma DispatchedOne(log: seq<Action>, a: Action)
    ensures Dispatched(log + [a]) == Dispatched(log) + if a.Message? then [a] else []
  {
    DispatchedConcat(log, [a]);
    assert [a][1..] == [];
  }

  /** A frame in order: its effect on the log and on the message begun. */
  lemma ApplyInOrder(w: Ws, f: Frame)
    requires !w.closed && (w.fragOp == 0 ==> w.frag == []) && ValidFrame(f) && f.op != 8
    requires f.op <= 2 ==> (f.op == 0 <==> w.fragOp != 0) && |w.frag| + |f.payload| <= MAX_REQ
    ensures var v := Apply(w, f.fin, f.op, f.payload);
            && !v.closed && (v.fragOp == 0 ==> v.frag == [])
            && (f.op > 2 ==> v.fragOp == w.fragOp && v.frag == w.frag && Dispatched(v.log) == Dispatched(w.log))
            && (f.op <= 2 && f.fin ==> v.fragOp == 0)
            && (f.op <= 2 && f.fin ==>
                  Dispatched(v.log) == Dispatched(w.log) + [Message(if w.fragOp == 0 then f.op else w.fragOp,
                                                                    w.frag + f.payload)])
            && (f.op <= 2 && !f.fin ==> v.fragOp == if w.fragOp == 0 then f.op else w.fragOp)
            && (f.op <= 2 && !f.fin ==> v.frag == w.frag + f.payload && Dispatched(v.log) == Dispatched(w.log))
  {
    var v := Apply(w, f.fin, f.op, f.payload);
    assert [] + f.payload == f.payload;
    if |v.log| > |w.log| { DispatchedOne(w.log, v.log[|w.log|]); }
  }

  /** Whatever the boundaries of the stream: the messages dispatched are the
      fragments joined in order, control frames between them or not. */
  lemma {:induction false} MessagesArrive(w: Ws, frames: seq<Frame>)
    requires !w.closed && (w.fragOp == 0 ==> w.frag == [])
    requires forall i :: 0 <= i < |frames| ==> ValidFrame(frames[i]) && frames[i].op != 8
    requires InOrder(w.fragOp, w.frag, DataFrames(frames))
    ensures var (v, rest) := Drain(w, FramesBytes(frames));
            && !v.closed && rest == []
            && Dispatched(v.log) == Dispatched(w.log) + Messages(w.fragOp, w.frag, DataFrames(frames))
    decreases |frames|
  {
    hide Drain, Apply, FrameBytes, ValidFrame, Dispatched, DataFrames;
    if frames == [] {
      DrainNothing(w);
      FirstData(frames);
    } else {
      var f, tail := frames[0], FramesBytes(frames[1..]);
      DrainFrame(w, f, tail);
      FirstData(frames);
      ApplyInOrder(w, f);
      MessagesArrive(Apply(w, f.fin, f.op, f.payload), frames[1..]);
    }
  }

  lemma DrainNothing(w: Ws)
    ensures Drain(w, []) == (w, [])
  {
  }

  lemma DrainFrame(w: Ws, f: Frame, rest: seq<Byte>)
    requires !w.closed && ValidFrame(f)
    ensures Drain(w, FrameBytes(f) + rest) == Drain(Apply(w, f.fin, f.op, f.payload), rest)
  {
    hide Apply, FrameBytes, Parse;
    ParseFrame(f, rest);
    assert (FrameBytes(f) + rest)[|FrameBytes(f)|..] == rest;
  }

  lemma FirstData(frames: seq<Frame>)
    ensures frames == [] ==> DataFrames(frames) == []
    ensures frames != [] && frames[0].op <= 2 ==> DataFrames(frames) == [frames[0]] + DataFrames(frames[1..])
    ensures frames != [] && frames[0].op > 2 ==> DataFrames(frames) == DataFrames(frames[1..])
  {
  }

  // ---- frames received in pieces ---------------------------------------------------------------------------

  /** Frames whose messages arrive, from a connection in the state w. */
  ghost predicate Expected(w: Ws, frames: seq<Frame>)
  {
    && !w.closed && (w.fragOp == 0 ==> w.frag == [])
    && (forall i :: 0 <= i < |frames| ==> ValidFrame(frames[i]) && frames[i].op != 8)
    && InOrder(w.fragOp, w.frag, DataFrames(frames))
  }

  lemma ExpectedNext(w: Ws, frames: seq<Frame>)
    requires Expected(w, frames) && frames != []
    ensures !w.closed && ValidFrame(frames[0])
    ensures Expected(Apply(w, frames[0].fin, frames[0].op, frames[0].payload), frames[1..])
  {
    hide Apply, DataFrames, Dispatched;
    FirstData(frames);
    ApplyInOrder(w, frames[0]);
  }

  lemma ExpectedValid(w: Ws, frames: seq<Frame>)
    requires Expected(w, frames)
    ensures forall i :: 0 <= i < |frames| ==> ValidFrame(frames[i])
  {
  }

  /** Part of a frame is no frame. */
  lemma PartIncomplete(b: seq<Byte>, f: Frame, rest: seq<Byte>, y: seq<Byte>)
    requires ValidFrame(f) && b + y == FrameBytes(f) + rest && |b| < |FrameBytes(f)|
    ensures Parse(b).Incomplete?
  {
    hide FrameBytes;
    ParseFrame(f, rest);
    if !Parse(b).Incomplete? { ParseMore(b, y); }
  }

  /** Draining the first part of a stream of frames leaves the start of one of them. */
  lemma {:induction false} DrainPart(w: Ws, b: seq<Byte>, y: seq<Byte>, frames: seq<Frame>) returns (j: nat)
    requires Expected(w, frames)
    requires (forall i :: 0 <= i < |frames| ==> ValidFrame(frames[i])) && b + y == FramesBytes(frames)
    ensures j <= |frames| && Expected(Drain(w, b).0, frames[j..])
    ensures Drain(w, b).1 + y == FramesBytes(frames[j..])
    ensures j < |frames| ==> |Drain(w, b).1| < |FrameBytes(frames[j])|
    ensures j == |frames| ==> Drain(w, b).1 == []
    decreases |frames|
  {
    hide Expected, Apply, FrameBytes, Parse, ValidFrame, Drain;
    if frames == [] {
      DrainNothing(w);
      j := 0;
    } else {
      var f, tail := frames[0], FramesBytes(frames[1..]);
      var n := |FrameBytes(f)|;
      ExpectedNext(w, frames);
      if |b| < n {
        PartIncomplete(b, f, tail, y);
        DrainStops(w, b);
        j := 0;
        assert frames[0..] == frames;
      } else {
        PrefixOf(b, y, FrameBytes(f), tail);
        DrainFrame(w, f, b[n..]);
        j := DrainPart(Apply(w, f.fin, f.op, f.payload), b[n..], y, frames[1..]);
        assert frames[1..][j..] == frames[j + 1..];
        j := j + 1;
      }
    }
  }

  lemma DrainStops(w: Ws, b: seq<Byte>)
    requires Parse(b).Incomplete?
    ensures Drain(w, b) == (w, b)
  {
  }

  /** No frame together with a chunk exceeds the cap. */
  ghost predicate RoomFor(frames: seq<Frame>, chunks: seq<seq<Byte>>)
    requires forall i :: 0 <= i < |frames| ==> ValidFrame(frames[i])
  {
    forall i, k :: 0 <= i < |frames| && 0 <= k < |chunks| ==> |FrameBytes(frames[i])| + |chunks[k]| <= MAX_REQ + 1
  }

  /** Then the chunks always fit, however long the stream is. */
  lemma {:induction false} FramesFit(w: Ws, b: seq<Byte>, chunks: seq<seq<Byte>>, frames: seq<Frame>)
    requires Expected(w, frames) && (forall i :: 0 <= i < |frames| ==> ValidFrame(frames[i]))
    requires b + Concat(chunks) == FramesBytes(frames) && RoomFor(frames, chunks)
    requires frames == [] || |b| < |FrameBytes(frames[0])|
    ensures Fits(w, b, chunks)
    decreases |chunks|
  {
    hide Expected, FrameBytes, ValidFrame, Drain;
    if chunks == [] {
    } else {
      var x, y := chunks[0], Concat(chunks[1..]);
      assert b + Concat(chunks) == (b + x) + y by { Assoc(b, x, y); }
      var j := DrainPart(w, b + x, y, frames);
      var (v, rest) := Drain(w, b + x);
      ExpectedValid(v, frames[j..]);
      assert |b| + |x| <= MAX_REQ;
      FramesFit(v, rest, chunks[1..], frames[j..]);
    }
  }

  lemma ReceiveFrames(w: Ws, chunks: seq<seq<Byte>>, frames: seq<Frame>)
    requires w == Ws(0, [], false, []) && forall i :: 0 <= i < |frames| ==> ValidFrame(frames[i])
    ensures Concat(chunks) == FramesBytes(frames) && Expected(w, frames) && RoomFor(frames, chunks) ==>
              var (v, rest) := Drain(w, Concat(chunks));
              && Fits(w, [], chunks) && !v.closed && rest == []
              && Dispatched(v.log) == Messages(0, [], DataFrames(frames))
  {
    hide Drain, RoomFor, FrameBytes, ValidFrame, FramesBytes;
    if Concat(chunks) == FramesBytes(frames) && Expected(w, frames) && RoomFor(frames, chunks) {
      if frames != [] { FrameSize(frames[0]); }
      assert [] + Concat(chunks) == Concat(chunks);
      FramesFit(w, [], chunks, frames);
      MessagesArrive(w, frames);
    }
  }

  lemma FrameSize(f: Frame)
    requires ValidFrame(f)
    ensures |FrameBytes(f)| > 0
  {
  }

  /** Receive the chunks of a stream, until it is over or the connection closed. Frames
      in order, each leaving room for a chunk, arrive as their messages. */
  method Receive(c: WsConn, chunks: seq<seq<Byte>>, ghost frames: seq<Frame>) returns (fits: bool)
    requires c.State() == Ws(0, [], false, []) && c.inb == []
    requires forall i :: 0 <= i < |frames| ==> ValidFrame(frames[i])
    modifies c
    ensures fits <==> Fits(Ws(0, [], false, []), [], chunks)
    ensures |Concat(chunks)| <= MAX_REQ ==> fits
    ensures !fits ==> c.closed
    ensures fits ==> c.State() == Drain(Ws(0, [], false, []), Concat(chunks)).0
    ensures fits && !c.closed ==> c.inb == Drain(Ws(0, [], false, []), Concat(chunks)).1
    ensures Concat(chunks) == FramesBytes(frames) && Expected(Ws(0, [], false, []), frames)
            && RoomFor(frames, chunks) ==>
              fits && !c.closed && c.inb == [] && Dispatched(c.log) == Messages(0, [], DataFrames(frames))
  {
    hide Drain, Expected, RoomFor, Dispatched, FrameBytes, ValidFrame;
    ghost var w0 := Ws(0, [], false, []);
    var k := 0;
    assert chunks[0..] == chunks && [] + Concat(chunks) == Concat(chunks);
    if |Concat(chunks)| <= MAX_REQ { ShortFits(w0, [], chunks); }
    ReceiveFrames(w0, chunks, frames);
    fits := true;
    while k < |chunks| && !c.closed
      invariant 0 <= k <= |chunks| && fits
      invariant Fits(c.State(), if c.closed then [] else c.inb, chunks[k..]) <==> Fits(w0, [], chunks)
      invariant Feed(c.State(), if c.closed then [] else c.inb, chunks[k..]).0 == Feed(w0, [], chunks).0
      invariant !c.closed ==> Feed(c.State(), c.inb, chunks[k..]) == Feed(w0, [], chunks)
    {
      assert chunks[k..][0] == chunks[k] && chunks[k..][1..] == chunks[k + 1..];
      fits := |c.inb| + |chunks[k]| <= MAX_REQ;
      c.OnRecv(chunks[k]);
      if !fits {
        return;
      }
      k := k + 1;
    }
    DrainNothing(w0);
    CutsDoNotMatter(w0, [], chunks);
  }
}
