/** The acceptor, the workers and the stop of the thread-pool server, under every
    interleaving of their steps. Accepted connections are told apart by numbers
    that are never used twice; each step under the queue's mutex is atomic. */
module FdQueue {
  import opened Common

  /** DYN_HTTP_CONN_QUEUE_CAP */
  const CAP: nat := 256

  datatype Acceptor = AtTop | Polling | Holding(fd: nat) | Gone

  datatype Worker = Idle | Serving(fd: nat) | Exited

  /** How far dyn_http_server_stop_internal has come. */
  datatype Stopper = Running | Stopping | Draining | Stopped

  datatype State = State(ring: seq<nat>, head: nat, tail: nat, count: nat, shutdown: bool, stopFlag: bool,
                         acceptor: Acceptor, workers: seq<Worker>, stopper: Stopper,
                         accepted: seq<nat>, enqueued: seq<nat>, taken: seq<nat>, served: seq<nat>,
                         closed: seq<nat>)

  // ---- the ring -----------------------------------------------------------------------------------

  ghost function Queue(ring: seq<nat>, head: nat, count: nat): (q: seq<nat>)
    requires |ring| == CAP && count <= CAP
    ensures |q| == count
  {
    seq(count, i requires 0 <= i < count => ring[(head + i) % CAP])
  }

  lemma Push(ring: seq<nat>, head: nat, tail: nat, count: nat, fd: nat)
    requires |ring| == CAP && count < CAP && head < CAP && tail == (head + count) % CAP
    ensures Queue(ring[tail := fd], head, count + 1) == Queue(ring, head, count) + [fd]
    ensures (tail + 1) % CAP == (head + (count + 1)) % CAP
  {
    var q, r := Queue(ring[tail := fd], head, count + 1), Queue(ring, head, count) + [fd];
    forall i | 0 <= i < count + 1
      ensures q[i] == r[i]
    {
      if i < count { SlotsDiffer(head, i, count); }
    }
  }

  lemma SlotsDiffer(head: nat, i: nat, k: nat)
    requires head < CAP && i < k < CAP
    ensures (head + i) % CAP != (head + k) % CAP
  {
  }

  lemma Pop(ring: seq<nat>, head: nat, tail: nat, count: nat)
    requires |ring| == CAP && 0 < count <= CAP && head < CAP && tail == (head + count) % CAP
    ensures Queue(ring, head, count) == [ring[head]] + Queue(ring, (head + 1) % CAP, count - 1)
    ensures tail == ((head + 1) % CAP + (count - 1)) % CAP
  {
    var q, r := Queue(ring, head, count), [ring[head]] + Queue(ring, (head + 1) % CAP, count - 1);
    forall i | 0 <= i < count
      ensures q[i] == r[i]
    {
      if i > 0 { Shift(head, i); }
    }
  }

  lemma Shift(head: nat, i: nat)
    requires head < CAP && 0 < i <= CAP
    ensures ((head + 1) % CAP + (i - 1)) % CAP == (head + i) % CAP
  {
  }

  // ---- steps ----------------------------------------------------------------------------------------

  datatype Event =
    | CheckStop            // the acceptor looks at the stop flag
    | PollAgain            // poll or accept came back empty
    | Accept(fd: nat)      // the acceptor has a new connection
    | Hand                 // the acceptor enqueues it, or closes it
    | Take(w: nat)         // a worker takes a connection from the queue
    | Leave(w: nat)        // a worker sees the shutdown and an empty queue
    | Done(w: nat)         // a worker has served its connection and closes it
    | SetStop              // stop: set the flag
    | JoinAcceptor         // stop: the acceptor is gone, so set shutdown
    | DrainOne             // stop: all workers are gone, close what is left
    | Finish

  predicate AllExited(ws: seq<Worker>) { forall w :: 0 <= w < |ws| ==> ws[w] == Exited }

  predicate Enabled(s: State, e: Event)
  {
    match e
    case CheckStop => s.acceptor == AtTop
    case PollAgain => s.acceptor == Polling
    case Accept(fd) => s.acceptor == Polling && fd !in s.accepted
    case Hand => s.acceptor.Holding?
    case Take(w) => w < |s.workers| && s.workers[w] == Idle && s.count > 0
    case Leave(w) => w < |s.workers| && s.workers[w] == Idle && s.count == 0 && s.shutdown
    case Done(w) => w < |s.workers| && s.workers[w].Serving?
    case SetStop => s.stopper == Running
    case JoinAcceptor => s.stopper == Stopping && s.acceptor == Gone
    case DrainOne => s.stopper == Draining && AllExited(s.workers) && s.count > 0
    case Finish => s.stopper == Draining && AllExited(s.workers) && s.count == 0
  }

  function Next(s: State, e: Event): State
    requires Enabled(s, e) && |s.ring| == CAP && s.head < CAP && s.tail < CAP
  {
    match e
    case CheckStop => s.(acceptor := if s.stopFlag then Gone else Polling)
    case PollAgain => s.(acceptor := AtTop)
    case Accept(fd) => s.(acceptor := Holding(fd), accepted := s.accepted + [fd])
    case Hand =>
      var fd := s.acceptor.fd;
      if s.count < CAP && !s.shutdown then
        s.(ring := s.ring[s.tail := fd], tail := (s.tail + 1) % CAP, count := s.count + 1,
           acceptor := AtTop, enqueued := s.enqueued + [fd])
      else s.(acceptor := AtTop, closed := s.closed + [fd])
    case Take(w) =>
      s.(workers := s.workers[w := Serving(s.ring[s.head])], head := (s.head + 1) % CAP, count := s.count - 1,
         taken := s.taken + [s.ring[s.head]])
    case Leave(w) => s.(workers := s.workers[w := Exited])
    case Done(w) =>
      s.(workers := s.workers[w := Idle], served := s.served + [s.workers[w].fd],
         closed := s.closed + [s.workers[w].fd])
    case SetStop => s.(stopFlag := true, stopper := Stopping)
    case JoinAcceptor => s.(shutdown := true, stopper := Draining)
    case DrainOne =>
      s.(closed := s.closed + [s.ring[s.head]], head := (s.head + 1) % CAP, count := s.count - 1,
         taken := s.taken + [s.ring[s.head]])
    case Finish => s.(stopper := Stopped)
  }

  // ---- the invariant -----------------------------------------------------------------------------------

  function One(b: bool): nat { if b then 1 else 0 }

  /** How often x occurs. */
  ghost function Times(s: seq<nat>, x: nat): nat
  {
    if s == [] then 0 else Times(s[..|s| - 1], x) + One(s[|s| - 1] == x)
  }

  /** How many workers serve x. */
  ghost function Busy(ws: seq<Worker>, x: nat): nat
  {
    if ws == [] then 0 else Busy(ws[..|ws| - 1], x) + One(ws[|ws| - 1] == Serving(x))
  }

  lemma TimesSnoc(s: seq<nat>, y: nat, x: nat)
    ensures Times(s + [y], x) == Times(s, x) + One(y == x)
  {
    assert (s + [y])[..|s|] == s;
  }

  lemma {:induction false} TimesFront(s: seq<nat>, y: nat, x: nat)
    ensures Times([y] + s, x) == One(y == x) + Times(s, x)
  {
    if s == [] {
      assert [y] + s == [] + [y];
      TimesSnoc([], y, x);
    } else {
      var n := |s| - 1;
      assert [y] + s == ([y] + s[..n]) + [s[n]] && s == s[..n] + [s[n]];
      TimesFront(s[..n], y, x);
      TimesSnoc([y] + s[..n], s[n], x);
    }
  }

  lemma {:induction false} BusyUpdate(ws: seq<Worker>, w: nat, v: Worker, x: nat)
    requires w < |ws|
    ensures Busy(ws[w := v], x) + One(ws[w] == Serving(x)) == Busy(ws, x) + One(v == Serving(x))
  {
    var n := |ws| - 1;
    if w == n {
      assert ws[w := v][..n] == ws[..n];
    } else {
      assert ws[w := v][..n] == ws[..n][w := v];
      BusyUpdate(ws[..n], w, v, x);
    }
  }

  /** The indices, and the order of stopping. */
  ghost predicate Shape(s: State)
  {
    && |s.ring| == CAP && s.head < CAP && s.count <= CAP && s.tail == (s.head + s.count) % CAP
    && (s.shutdown ==> s.acceptor == Gone)
    && (s.shutdown <==> s.stopper in {Draining, Stopped})
    && (s.stopFlag <==> s.stopper != Running)
    && (s.acceptor == Gone ==> s.stopFlag)
    && (forall w :: 0 <= w < |s.workers| && s.workers[w] == Exited ==> s.shutdown && s.count == 0)
    && (s.stopper == Stopped ==> AllExited(s.workers) && s.count == 0)
    && (AllExited(s.workers) && |s.workers| > 0 ==> s.shutdown && s.count == 0)
  }

  /** The connection x is in exactly one place if it was accepted; and if it was
      enqueued it is in the queue, with a worker, or served. */
  ghost predicate Placed(s: State, x: nat)
    requires |s.ring| == CAP && s.count <= CAP
  {
    var q := Times(Queue(s.ring, s.head, s.count), x);
    && One(x in s.accepted) == One(s.acceptor == Holding(x)) + q + Busy(s.workers, x) + Times(s.closed, x)
    && (|s.workers| > 0 ==> Times(s.enqueued, x) == q + Busy(s.workers, x) + Times(s.served, x))
    && Times(s.served, x) <= Times(s.closed, x)
  }

  /** Connections leave the queue in the order they entered it. */
  ghost predicate InOrder(s: State)
    requires |s.ring| == CAP && s.count <= CAP
  {
    s.enqueued == s.taken + Queue(s.ring, s.head, s.count)
  }

  ghost predicate Inv(s: State)
  {
    Shape(s) && InOrder(s) && forall x: nat :: Placed(s, x)
  }

  // ---- steps keep it ----------------------------------------------------------------------------------------

  lemma NotAllExited(ws: seq<Worker>, w: nat)
    requires w < |ws| && ws[w] != Exited
    ensures !AllExited(ws)
  {
  }

  lemma ShapeKept(s: State, e: Event)
    requires Shape(s) && Enabled(s, e)
    ensures Shape(Next(s, e))
  {
    var t := Next(s, e);
    if e.Take? { NotAllExited(t.workers, e.w); }
    if e.Done? { NotAllExited(t.workers, e.w); }
    if e.Leave? { NotAllExited(s.workers, e.w); }
    if e.Hand? && s.count < CAP { Push(s.ring, s.head, s.tail, s.count, s.acceptor.fd); }
    if e.Take? || e.DrainOne? { Pop(s.ring, s.head, s.tail, s.count); }
  }

  lemma PlacedKept(s: State, e: Event, x: nat)
    requires Shape(s) && Enabled(s, e) && Placed(s, x) && Shape(Next(s, e))
    ensures Placed(Next(s, e), x)
  {
    match e {
      case Hand => HandPlaces(s, x);
      case Take(w) => TakePlaces(s, w, x);
      case Leave(w) => BusyUpdate(s.workers, w, Exited, x);
      case Done(w) => DonePlaces(s, w, x);
      case DrainOne => DrainPlaces(s, x);
      case _ =>
    }
  }

  lemma HandPlaces(s: State, x: nat)
    requires Shape(s) && Enabled(s, Hand) && Placed(s, x) && Shape(Next(s, Hand))
    ensures Placed(Next(s, Hand), x)
  {
    hide Queue, Times, Busy;
    var fd := s.acceptor.fd;
    if s.count < CAP && !s.shutdown {
      Push(s.ring, s.head, s.tail, s.count, fd);
      TimesSnoc(Queue(s.ring, s.head, s.count), fd, x);
      TimesSnoc(s.enqueued, fd, x);
    } else {
      TimesSnoc(s.closed, fd, x);
    }
  }

  lemma TakePlaces(s: State, w: nat, x: nat)
    requires Shape(s) && Enabled(s, Take(w)) && Placed(s, x) && Shape(Next(s, Take(w)))
    ensures Placed(Next(s, Take(w)), x)
  {
    hide Queue, Times, Busy;
    Pop(s.ring, s.head, s.tail, s.count);
    BusyUpdate(s.workers, w, Serving(s.ring[s.head]), x);
    TimesFront(Queue(s.ring, (s.head + 1) % CAP, s.count - 1), s.ring[s.head], x);
  }

  lemma DonePlaces(s: State, w: nat, x: nat)
    requires Shape(s) && Enabled(s, Done(w)) && Placed(s, x) && Shape(Next(s, Done(w)))
    ensures Placed(Next(s, Done(w)), x)
  {
    hide Queue, Times, Busy;
    BusyUpdate(s.workers, w, Idle, x);
    TimesSnoc(s.closed, s.workers[w].fd, x);
    TimesSnoc(s.served, s.workers[w].fd, x);
  }

  /** Only without any worker can connections be left over. */
  lemma DrainPlaces(s: State, x: nat)
    requires Shape(s) && Enabled(s, DrainOne) && Placed(s, x) && Shape(Next(s, DrainOne))
    ensures Placed(Next(s, DrainOne), x)
  {
    hide Queue, Times, Busy;
    Pop(s.ring, s.head, s.tail, s.count);
    TimesFront(Queue(s.ring, (s.head + 1) % CAP, s.count - 1), s.ring[s.head], x);
    TimesSnoc(s.closed, s.ring[s.head], x);
  }

  lemma OrderKept(s: State, e: Event)
    requires Shape(s) && Enabled(s, e) && InOrder(s) && Shape(Next(s, e))
    ensures InOrder(Next(s, e))
  {
    hide Queue;
    var q := Queue(s.ring, s.head, s.count);
    if e.Hand? && s.count < CAP && !s.shutdown {
      Push(s.ring, s.head, s.tail, s.count, s.acceptor.fd);
      Assoc(s.taken, q, [s.acceptor.fd]);
    } else if e.Take? || e.DrainOne? {
      Pop(s.ring, s.head, s.tail, s.count);
      Assoc(s.taken, [s.ring[s.head]], Queue(s.ring, (s.head + 1) % CAP, s.count - 1));
    }
  }

  lemma StepKeeps(s: State, e: Event)
    requires Inv(s) && Enabled(s, e)
    ensures Inv(Next(s, e))
  {
    hide Shape, Placed, InOrder, Next, Enabled;
    ShapeKept(s, e);
    ShapeRing(s);
    ShapeRing(Next(s, e));
    OrderKept(s, e);
    forall x: nat
      ensures Placed(Next(s, e), x)
    {
      PlacedKept(s, e, x);
    }
  }

  lemma ShapeRing(s: State)
    requires Shape(s)
    ensures |s.ring| == CAP && s.count <= CAP && s.head < CAP && s.tail < CAP
  {
  }

  // ---- every run ------------------------------------------------------------------------------------------

  /** dyn_http_server_spawn: idle workers, an empty queue. */
  predicate IsStart(s: State)
  {
    && |s.ring| == CAP && s.head == 0 && s.tail == 0 && s.count == 0 && !s.shutdown && !s.stopFlag
    && s.acceptor == AtTop && s.stopper == Running && (forall w :: 0 <= w < |s.workers| ==> s.workers[w] == Idle)
    && s.accepted == [] && s.enqueued == [] && s.taken == [] && s.served == [] && s.closed == []
  }

  lemma {:induction false} NoneBusy(ws: seq<Worker>, x: nat)
    requires forall w :: 0 <= w < |ws| ==> !ws[w].Serving?
    ensures Busy(ws, x) == 0
  {
    if ws == [] {
    } else {
      NoneBusy(ws[..|ws| - 1], x);
    }
  }

  lemma StartInv(s: State)
    requires IsStart(s)
    ensures Inv(s)
  {
    assert Queue(s.ring, 0, 0) == [];
    if |s.workers| > 0 { NotAllExited(s.workers, 0); }
    forall x: nat
      ensures Placed(s, x)
    {
      NoneBusy(s.workers, x);
    }
  }

  ghost predicate IsRun(s: State, events: seq<Event>, t: State)
    decreases |events|
  {
    if events == [] then s == t
    else
      && Enabled(s, events[0]) && |s.ring| == CAP && s.head < CAP && s.tail < CAP
      && IsRun(Next(s, events[0]), events[1..], t)
  }

  lemma {:induction false} RunsKeep(s: State, events: seq<Event>, t: State)
    requires Inv(s) && IsRun(s, events, t)
    ensures Inv(t)
    decreases |events|
  {
    hide Inv, Next;
    if events == [] {
    } else {
      StepKeeps(s, events[0]);
      RunsKeep(Next(s, events[0]), events[1..], t);
    }
  }

  /** In every reachable state an accepted connection is in exactly one place (the
      acceptor, the queue, one worker, or closed once), and the ring's indices agree
      with its count. */
  lemma OnePlace(s: State, events: seq<Event>, t: State, x: nat)
    requires IsStart(s) && IsRun(s, events, t)
    ensures |t.ring| == CAP && t.count <= CAP && t.tail == (t.head + t.count) % CAP
    ensures One(t.acceptor == Holding(x)) + Times(Queue(t.ring, t.head, t.count), x) + Busy(t.workers, x)
            + Times(t.closed, x)
            == One(x in t.accepted)
  {
    hide IsRun;
    StartInv(s);
    RunsKeep(s, events, t);
    assert Placed(t, x);
  }

  /** After the stop every accepted connection was closed exactly once, and every
      enqueued one was served by a worker first. */
  lemma StoppedClean(s: State, events: seq<Event>, t: State, x: nat)
    requires IsStart(s) && IsRun(s, events, t) && t.stopper == Stopped
    ensures Times(t.closed, x) == One(x in t.accepted)
    ensures |t.workers| > 0 ==> Times(t.served, x) == Times(t.enqueued, x) <= 1
    ensures t.acceptor == Gone && AllExited(t.workers) && t.count == 0
  {
    hide IsRun;
    StartInv(s);
    RunsKeep(s, events, t);
    assert Placed(t, x);
    NoneBusy(t.workers, x);
    assert Queue(t.ring, t.head, 0) == [];
  }

  /** In every reachable state the connections taken from the queue and those in it
      are the enqueued ones, in order. */
  lemma FirstInFirstOut(s: State, events: seq<Event>, t: State)
    requires IsStart(s) && IsRun(s, events, t)
    ensures |t.ring| == CAP && t.count <= CAP && t.enqueued == t.taken + Queue(t.ring, t.head, t.count)
  {
    hide IsRun;
    StartInv(s);
    RunsKeep(s, events, t);
  }

  /** At some step of the run the acceptor handed x over while the queue was full. */
  ghost predicate TurnedAway(s: State, events: seq<Event>, t: State, x: nat)
    requires IsRun(s, events, t)
    decreases |events|
  {
    && events != []
    && ((events[0] == Hand && s.acceptor == Holding(x) && s.count == CAP)
        || TurnedAway(Next(s, events[0]), events[1..], t, x))
  }

  /** Closed without having been in the queue. */
  ghost predicate Dropped(s: State, x: nat)
  {
    Times(s.closed, x) > 0 && Times(s.enqueued, x) == 0
  }

  lemma DropsWhenFull(s: State, e: Event, x: nat)
    requires Inv(s) && Enabled(s, e) && |s.workers| > 0 && !Dropped(s, x) && Dropped(Next(s, e), x)
    ensures e == Hand && s.acceptor == Holding(x) && s.count == CAP
  {
    hide Queue, Times;
    assert Placed(s, x);
    match e {
      case Hand =>
        TimesSnoc(s.enqueued, s.acceptor.fd, x);
        TimesSnoc(s.closed, s.acceptor.fd, x);
      case Done(w) =>
        BusyUpdate(s.workers, w, Idle, x);
        TimesSnoc(s.closed, s.workers[w].fd, x);
      case _ =>
    }
  }

  lemma {:induction false} DropsInRun(s: State, events: seq<Event>, t: State, x: nat)
    requires Inv(s) && IsRun(s, events, t) && |s.workers| > 0 && !Dropped(s, x) && Dropped(t, x)
    ensures TurnedAway(s, events, t, x)
    decreases |events|
  {
    hide Inv, Dropped;
    var e := events[0];
    var u := Next(s, e);
    StepKeeps(s, e);
    if Dropped(u, x) { DropsWhenFull(s, e, x); } else { DropsInRun(u, events[1..], t, x); }
  }

  /** With workers, a connection that is closed without having been enqueued came when
      the queue was full. */
  lemma DroppedWhenFull(s: State, events: seq<Event>, t: State, x: nat)
    requires IsStart(s) && IsRun(s, events, t) && |s.workers| > 0 && Times(t.closed, x) > 0 && Times(t.enqueued, x) == 0
    ensures TurnedAway(s, events, t, x)
  {
    StartInv(s);
    DropsInRun(s, events, t, x);
  }

  // ---- the stop comes to an end ---------------------------------------------------------------------------

  ghost function WorkerRank(w: Worker): nat
  {
    match w
    case Idle => 1
    case Serving(_) => 2
    case Exited => 0
  }

  ghost function WorkersRank(ws: seq<Worker>): nat
  {
    if ws == [] then 0 else WorkersRank(ws[..|ws| - 1]) + WorkerRank(ws[|ws| - 1])
  }

  /** An upper bound on the steps still to come once the stop flag is set. */
  ghost function Rank(s: State): nat
  {
    3 * s.count + WorkersRank(s.workers)
    + (match s.acceptor
       case Polling => 6
       case Holding(_) => 5
       case AtTop => 1
       case Gone => 0)
    + (match s.stopper
       case Running => 3
       case Stopping => 2
       case Draining => 1
       case Stopped => 0)
  }

  lemma {:induction false} WorkersUpdate(ws: seq<Worker>, w: nat, v: Worker)
    requires w < |ws|
    ensures WorkersRank(ws[w := v]) + WorkerRank(ws[w]) == WorkersRank(ws) + WorkerRank(v)
  {
    var n := |ws| - 1;
    if w == n {
      assert ws[w := v][..n] == ws[..n];
    } else {
      assert ws[w := v][..n] == ws[..n][w := v];
      WorkersUpdate(ws[..n], w, v);
    }
  }

  /** With the stop flag set every step leads closer to the end. */
  lemma StepRanks(s: State, e: Event)
    requires Shape(s) && Enabled(s, e) && s.stopFlag
    ensures Rank(Next(s, e)) < Rank(s) && Next(s, e).stopFlag
  {
    hide WorkersRank;
    match e {
      case Take(w) => WorkersUpdate(s.workers, w, Serving(s.ring[s.head]));
      case Leave(w) => WorkersUpdate(s.workers, w, Exited);
      case Done(w) => WorkersUpdate(s.workers, w, Idle);
      case _ =>
    }
  }

  /** Until it is over, some step can be taken. */
  lemma SomeStep(s: State) returns (e: Event)
    requires Shape(s) && s.stopFlag && s.stopper != Stopped
    ensures Enabled(s, e)
  {
    match s.acceptor {
      case AtTop => e := CheckStop;
      case Polling => e := PollAgain;
      case Holding(_) => e := Hand;
      case Gone =>
        if s.stopper == Stopping {
          e := JoinAcceptor;
        } else if AllExited(s.workers) {
          e := if s.count > 0 then DrainOne else Finish;
        } else {
          var w: nat :| w < |s.workers| && s.workers[w] != Exited;
          e := if s.workers[w].Serving? then Done(w) else if s.count > 0 then Take(w) else Leave(w);
        }
    }
  }

  lemma {:induction false} RunRanks(s: State, events: seq<Event>, t: State)
    requires Inv(s) && IsRun(s, events, t) && s.stopFlag
    ensures Rank(t) + |events| <= Rank(s) && t.stopFlag && Inv(t)
    decreases |events|
  {
    hide Inv, Rank, Next;
    if events == [] {
    } else {
      StepKeeps(s, events[0]);
      InvShape(s);
      StepRanks(s, events[0]);
      RunRanks(Next(s, events[0]), events[1..], t);
    }
  }

  lemma InvShape(s: State)
    requires Inv(s)
    ensures Shape(s)
  {
  }

  /** Once the stop flag is set, every schedule of the threads comes to an end, and it
      ends only when the stop is complete. */
  lemma StopEnds(start: State, before: seq<Event>, s: State, events: seq<Event>, t: State)
    requires IsStart(start) && IsRun(start, before, s) && s.stopFlag && IsRun(s, events, t)
    ensures |events| <= Rank(s)
    ensures t.stopper == Stopped || exists e :: Enabled(t, e)
  {
    hide IsRun, Rank, Inv;
    StartInv(start);
    RunsKeep(start, before, s);
    RunRanks(s, events, t);
    InvShape(t);
    if t.stopper != Stopped {
      var e := SomeStep(t);
    }
  }
}
