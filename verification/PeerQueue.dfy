/**
 pkg/router/peer.go as its goroutines run it: the NATS callback that fills the
 bounded queue, the writer that drains it, and everybody who may call Close. An
 action is one atomic step of one goroutine; a history is any interleaving.

 Messages are numbered in the order NATS hands them over.
 */
module PeerQueue {
  import opened Bytes

  const WRITE_BUFFER_SIZE: nat := 1000

  /**
   The goroutines: the callback, the writer, and any number of others that only
   ever call Close. The peer's own handler, which creates it, is the first of them.
   */
  datatype Thread = Delivery | Writer | Other(n: nat)

  datatype DeliveryPc = Idle | Selecting(m: nat) | Full(m: nat) | ClosingSlow

  datatype WriterPc = NotStarted | Waiting | Writing(m: nat) | ClosingFailed | Exited

  /** Inside Close: before closeOnce.Do, at one of the three statements of its body, or past it. */
  datatype CallPc = Called | InBody(stage: nat) | Returned

  datatype State = State(
    queue: seq<nat>,            // writeCh
    closeCh: bool,
    subscribed: bool,           // NATS knows the subscription
    hasSubscriber: bool,             // peer.subscriber has been set
    connClosed: bool,
    body: Option<Thread>,       // who is running the body of closeOnce
    onceDone: bool,
    bodyRuns: nat,
    calls: map<Thread, CallPc>, // calls of Close in progress
    delivery: DeliveryPc,
    writer: WriterPc,
    delivered: nat,             // how many messages NATS has handed over
    enqueued: seq<nat>,
    written: seq<nat>,          // frames completed
    cut: seq<nat>,              // the frame whose write failed
    dropped: seq<nat>)

  const INIT: State := State([], false, true, false, false, None, false, 0, map[], Idle, NotStarted, 0, [], [], [], [])

  datatype Action =
    | AssignSubscriber
    | NatsDelivers | SelectClosed | SelectSend | SelectDefault | RecheckClosed | RecheckOpen
    | WriterStarts | WriterTakes | WriterStops | WriteSucceeds | WriteFails
    | CallClose(t: Thread) | EnterBody(t: Thread) | CloseChannel(t: Thread) | Unsubscribe(t: Thread)
    | CloseConn(t: Thread) | FindDone(t: Thread) | ReturnFromClose(t: Thread)

  /** The goroutine an action belongs to. */
  function Owner(a: Action): Thread {
    match a
    case CallClose(t) => t
    case EnterBody(t) => t
    case CloseChannel(t) => t
    case Unsubscribe(t) => t
    case CloseConn(t) => t
    case FindDone(t) => t
    case ReturnFromClose(t) => t
    case AssignSubscriber => Other(0)
    case WriterStarts => Writer
    case WriterTakes => Writer
    case WriterStops => Writer
    case WriteSucceeds => Writer
    case WriteFails => Writer
    case _ => Delivery
  }

  predicate At(s: State, t: Thread, pc: CallPc) {
    t in s.calls && s.calls[t] == pc
  }

  predicate Enabled(s: State, a: Action) {
    match a
    // newPeer: the callback may run before this, nobody else knows the peer yet
    case AssignSubscriber => !s.hasSubscriber
    case NatsDelivers => s.delivery.Idle?
    // the first select: any ready case may be taken, default only if none is
    case SelectClosed => s.delivery.Selecting? && s.closeCh
    case SelectSend => s.delivery.Selecting? && |s.queue| < WRITE_BUFFER_SIZE
    case SelectDefault => s.delivery.Selecting? && !s.closeCh && |s.queue| >= WRITE_BUFFER_SIZE
    case RecheckClosed => s.delivery.Full? && s.closeCh
    case RecheckOpen => s.delivery.Full? && !s.closeCh
    case WriterStarts => s.writer.NotStarted? && s.hasSubscriber
    case WriterTakes => s.writer.Waiting? && s.queue != []
    case WriterStops => s.writer.Waiting? && s.closeCh
    case WriteSucceeds => s.writer.Writing? && !s.connClosed
    case WriteFails => s.writer.Writing?
    case CallClose(t) =>
      && t !in s.calls
      && (t.Delivery? ==> s.delivery.ClosingSlow?)
      && (t.Writer? ==> s.writer.ClosingFailed?)
      && (t.Other? ==> s.hasSubscriber)
    // sync.Once: the first to come runs the body, the others wait until it is done
    case EnterBody(t) => At(s, t, Called) && s.body.None? && !s.onceDone
    case CloseChannel(t) => At(s, t, InBody(0))
    case Unsubscribe(t) => At(s, t, InBody(1))
    case CloseConn(t) => At(s, t, InBody(2))
    case FindDone(t) => At(s, t, Called) && s.onceDone
    case ReturnFromClose(t) => At(s, t, Returned)
  }

  function Apply(s: State, a: Action): State
    requires Enabled(s, a)
  {
    match a
    case AssignSubscriber => s.(hasSubscriber := true)
    case NatsDelivers => s.(delivery := Selecting(s.delivered), delivered := s.delivered + 1)
    case SelectClosed => s.(delivery := Idle, dropped := s.dropped + [s.delivery.m])
    case SelectSend => s.(delivery := Idle, queue := s.queue + [s.delivery.m], enqueued := s.enqueued + [s.delivery.m])
    case SelectDefault => s.(delivery := Full(s.delivery.m))
    case RecheckClosed => s.(delivery := Idle, dropped := s.dropped + [s.delivery.m])
    case RecheckOpen => s.(delivery := ClosingSlow, dropped := s.dropped + [s.delivery.m])
    case WriterStarts => s.(writer := Waiting)
    case WriterTakes => s.(writer := Writing(s.queue[0]), queue := s.queue[1..])
    case WriterStops => s.(writer := Exited)
    case WriteSucceeds => s.(writer := Waiting, written := s.written + [s.writer.m])
    case WriteFails => s.(writer := ClosingFailed, cut := s.cut + [s.writer.m])
    case CallClose(t) => s.(calls := s.calls[t := Called])
    case EnterBody(t) => s.(calls := s.calls[t := InBody(0)], body := Some(t), bodyRuns := s.bodyRuns + 1)
    case CloseChannel(t) => s.(calls := s.calls[t := InBody(1)], closeCh := true)
    case Unsubscribe(t) => s.(calls := s.calls[t := InBody(2)], subscribed := s.subscribed && !s.hasSubscriber)
    case CloseConn(t) => s.(calls := s.calls[t := Returned], connClosed := true, body := None, onceDone := true)
    case FindDone(t) => s.(calls := s.calls[t := Returned])
    case ReturnFromClose(t) =>
      s.(calls := s.calls - {t},
         delivery := if t.Delivery? then Idle else s.delivery,
         writer := if t.Writer? then Exited else s.writer)
  }

  /** Where a history leads, if each of its actions can be taken when it comes. */
  function After(history: seq<Action>): Option<State> {
    if history == [] then Some(INIT)
    else
      var a := history[|history| - 1];
      match After(history[..|history| - 1])
      case None => None
      case Some(s) => if Enabled(s, a) then Some(Apply(s, a)) else None
  }

  // --- the invariant -------------------------------------------------------------------

  function InWriter(s: State): seq<nat> {
    if s.writer.Writing? then [s.writer.m] else []
  }

  function InDelivery(s: State): seq<nat> {
    match s.delivery
    case Selecting(m) => [m]
    case Full(m) => [m]
    case _ => []
  }

  function Upto(n: nat): (r: seq<nat>)
  {
    if n == 0 then [] else Upto(n - 1) + [n - 1]
  }

  /** The queue is what has been enqueued and not yet taken, in order. */
  predicate InOrder(s: State) {
    && |s.queue| <= WRITE_BUFFER_SIZE
    && s.enqueued == s.written + s.cut + InWriter(s) + s.queue
    && |s.cut| <= 1
    && (s.cut != [] ==> s.writer.ClosingFailed? || (s.writer.Exited? && s.onceDone))
    && (s.writer.ClosingFailed? || s.writer.Exited? || s.cut == [])
  }

  /** Every message handed over is somewhere, once. */
  predicate Conserved(s: State) {
    Accounted(s.enqueued, s.dropped, InDelivery(s), s.delivered)
  }

  predicate Accounted(enqueued: seq<nat>, dropped: seq<nat>, inDelivery: seq<nat>, delivered: nat) {
    multiset(enqueued) + multiset(dropped) + multiset(inDelivery) == multiset(Upto(delivered))
  }

  /** Messages are queued in the order in which they were handed over. */
  predicate Monotone(s: State) {
    && (forall i, j | 0 <= i < j < |s.enqueued| :: s.enqueued[i] < s.enqueued[j])
    && (forall i | 0 <= i < |s.enqueued| :: s.enqueued[i] < s.delivered)
    && (InDelivery(s) != [] ==>
      InDelivery(s)[0] == s.delivered - 1 && forall i | 0 <= i < |s.enqueued| :: s.enqueued[i] < s.delivered - 1)
  }

  /** sync.Once, and what its body has done so far. */
  predicate OnceInv(s: State) {
    && (forall t | t in s.calls && s.calls[t].InBody? :: s.body == Some(t) && s.calls[t].stage <= 2)
    && (s.body.Some? ==> s.body.value in s.calls && s.calls[s.body.value].InBody? && !s.onceDone)
    && s.bodyRuns == (if s.body.Some? || s.onceDone then 1 else 0)
    && s.closeCh == (s.onceDone || (s.body.Some? && s.calls[s.body.value].stage >= 1))
    && s.connClosed == s.onceDone
    && (forall t | t in s.calls && s.calls[t].Returned? :: s.onceDone)
    && (Delivery in s.calls ==> s.delivery.ClosingSlow?)
    && (Writer in s.calls ==> s.writer.ClosingFailed?)
    && (s.writer.Exited? ==> s.closeCh)
  }

  /** Nothing is lost before somebody has decided to close. */
  predicate LossInv(s: State) {
    s.dropped != [] ==> s.closeCh || s.delivery.ClosingSlow?
  }

  predicate Inv(s: State) {
    InOrder(s) && Conserved(s) && Monotone(s) && OnceInv(s) && LossInv(s)
  }

  lemma StepKeepsOrder(s: State, a: Action)
    requires Enabled(s, a) && InOrder(s) && OnceInv(s)
    ensures InOrder(Apply(s, a))
  {
    match a
    case SelectSend =>
      assert s.written + s.cut + InWriter(s) + (s.queue + [s.delivery.m]) == s.enqueued + [s.delivery.m];
    case WriterTakes => TakeFirst(s.written + s.cut, s.queue);
    case WriteSucceeds => assert s.written + [] + [s.writer.m] == (s.written + [s.writer.m]) + [] + [];
    case WriteFails => assert s.written + [] + [s.writer.m] == s.written + ([] + [s.writer.m]) + [];
    case _ => assert Apply(s, a).queue == s.queue && Apply(s, a).enqueued == s.enqueued
      && InWriter(Apply(s, a)) == InWriter(s);
  }

  lemma TakeFirst(done: seq<nat>, queue: seq<nat>)
    requires queue != []
    ensures done + [] + queue == done + [queue[0]] + queue[1..]
  {
  }

  /** What a step may do to the books: nothing, take in a message, or settle the one in hand. */
  predicate Settles(s: State, s': State) {
    || (s'.enqueued == s.enqueued && s'.dropped == s.dropped && InDelivery(s') == InDelivery(s)
      && s'.delivered == s.delivered)
    || (s'.enqueued == s.enqueued && s'.dropped == s.dropped && InDelivery(s) == [] && InDelivery(s') == [s.delivered]
        && s'.delivered == s.delivered + 1)
    || (InDelivery(s') == [] && s'.delivered == s.delivered
        && ((s'.enqueued == s.enqueued + InDelivery(s) && s'.dropped == s.dropped)
            || (s'.enqueued == s.enqueued && s'.dropped == s.dropped + InDelivery(s))))
  }

  lemma StepSettles(s: State, a: Action)
    requires Enabled(s, a) && OnceInv(s)
    ensures Settles(s, Apply(s, a))
  {
  }

  lemma StepKeepsConserved(s: State, a: Action)
    requires Enabled(s, a) && Conserved(s) && OnceInv(s)
    ensures Conserved(Apply(s, a))
  {
    StepSettles(s, a);
    SettlingKeeps(s, Apply(s, a));
  }

  lemma SettlingKeeps(s: State, s': State)
    requires Conserved(s) && Settles(s, s')
    ensures Conserved(s')
  {
  }

  lemma StepKeepsMonotone(s: State, a: Action)
    requires Enabled(s, a) && Monotone(s) && OnceInv(s)
    ensures Monotone(Apply(s, a))
  {
    StepSettles(s, a);
    SettlingKeepsMonotone(s, Apply(s, a));
  }

  lemma SettlingKeepsMonotone(s: State, s': State)
    requires Monotone(s) && Settles(s, s')
    ensures Monotone(s')
  {
  }

  lemma StepKeepsOnce(s: State, a: Action)
    requires Enabled(s, a) && OnceInv(s)
    ensures OnceInv(Apply(s, a))
  {
    if IsCloseStep(a) {
      CloseStepKeepsOnce(s, a);
    } else {
      OtherStepKeepsOnce(s, a);
    }
  }

  predicate IsCloseStep(a: Action) {
    a.CallClose? || a.EnterBody? || a.CloseChannel? || a.Unsubscribe? || a.CloseConn? || a.FindDone?
      || a.ReturnFromClose?
  }

  lemma CloseStepKeepsOnce(s: State, a: Action)
    requires Enabled(s, a) && OnceInv(s) && IsCloseStep(a)
    ensures OnceInv(Apply(s, a))
  {
  }

  lemma OtherStepKeepsOnce(s: State, a: Action)
    requires Enabled(s, a) && OnceInv(s) && !IsCloseStep(a)
    ensures OnceInv(Apply(s, a))
  {
  }

  lemma StepKeepsInv(s: State, a: Action)
    requires Enabled(s, a) && Inv(s)
    ensures Inv(Apply(s, a))
  {
    StepKeepsOrder(s, a);
    StepKeepsConserved(s, a);
    StepKeepsMonotone(s, a);
    StepKeepsOnce(s, a);
  }

  lemma {:induction false} HistoryKeepsInv(history: seq<Action>)
    requires After(history).Some?
    ensures Inv(After(history).value)
  {
    if history == [] {
    } else {
      HistoryKeepsInv(history[..|history| - 1]);
      StepKeepsInv(After(history[..|history| - 1]).value, history[|history| - 1]);
    }
  }

  /** A state some history leads to. */
  ghost predicate Reached(s: State, history: seq<Action>) {
    After(history) == Some(s)
  }

  /** What a reached state promises a goroutine that is done with closeOnce. */
  lemma ClosedForGood(s: State, history: seq<Action>, me: Thread)
    requires Reached(s, history)
    ensures s.onceDone ==> s.closeCh && s.connClosed
    ensures At(s, me, Called) && s.body.Some? ==> s.body.value != me
  {
    HistoryKeepsInv(history);
  }

  lemma QueueBounded(s: State, history: seq<Action>)
    requires Reached(s, history)
    ensures |s.queue| <= WRITE_BUFFER_SIZE == 1000
  {
    HistoryKeepsInv(history);
  }

  lemma ReturnsWhenDone(s: State, history: seq<Action>, me: Thread)
    requires Reached(s, history) && At(s, me, Returned)
    ensures s.onceDone
  {
    HistoryKeepsInv(history);
  }

  /** No write has failed while the writer still writes. */
  lemma NothingCutYet(s: State, history: seq<Action>)
    requires Reached(s, history) && (s.writer.NotStarted? || s.writer.Waiting? || s.writer.Writing?)
    ensures s.cut == []
  {
    HistoryKeepsInv(history);
  }

  /** What a goroutine can count on while others run: its own progress stands, and a close is never undone. */
  predicate Untouched(s: State, s': State, me: Thread) {
    SameCalls(s, s', me) && SamePlace(s, s', me)
  }

  predicate SameCalls(s: State, s': State, me: Thread) {
    && (me in s'.calls <==> me in s.calls) && (me in s.calls ==> s'.calls[me] == s.calls[me])
    && (s.body == Some(me) ==> s'.body == Some(me))
    && (s.closeCh ==> s'.closeCh)
  }

  predicate SamePlace(s: State, s': State, me: Thread) {
    && (me.Delivery? ==>
          s'.delivery == s.delivery && s'.delivered == s.delivered && s'.enqueued == s.enqueued
            && s'.dropped == s.dropped)
    && (me.Writer? ==> s'.writer == s.writer && s'.written == s.written && s'.cut == s.cut)
    && (me == Other(0) ==> s'.hasSubscriber == s.hasSubscriber) && (s.hasSubscriber ==> s'.hasSubscriber)
  }

  lemma StepLeavesOthers(s: State, a: Action, me: Thread)
    requires Enabled(s, a) && OnceInv(s) && Owner(a) != me
    ensures Untouched(s, Apply(s, a), me)
  {
    StepLeavesCalls(s, a, me);
    StepLeavesPlace(s, a, me);
  }

  lemma StepLeavesCalls(s: State, a: Action, me: Thread)
    requires Enabled(s, a) && OnceInv(s) && Owner(a) != me
    ensures SameCalls(s, Apply(s, a), me)
  {
  }

  lemma StepLeavesPlace(s: State, a: Action, me: Thread)
    requires Enabled(s, a) && Owner(a) != me
    ensures SamePlace(s, Apply(s, a), me)
  {
  }

  // --- what the invariant says ---------------------------------------------------------

  lemma {:induction false} UptoCounts(n: nat, k: nat)
    ensures multiset(Upto(n))[k] == if k < n then 1 else 0
  {
    if n == 0 {
    } else {
      UptoCounts(n - 1, k);
    }
  }

  /** In how many of the places a message can be, and how often, message k is. */
  function Occurrences(s: State, k: nat): nat {
    multiset(s.written)[k] + multiset(InWriter(s))[k] + multiset(s.queue)[k] + multiset(s.cut)[k]
      + multiset(s.dropped)[k]
    + multiset(InDelivery(s))[k]
  }

  lemma OnePlace(s: State, k: nat)
    requires InOrder(s) && Conserved(s)
    ensures Occurrences(s, k) == if k < s.delivered then 1 else 0
  {
    UptoCounts(s.delivered, k);
    assert multiset(s.enqueued) == multiset(s.written) + multiset(s.cut) + multiset(InWriter(s)) + multiset(s.queue);
    assert (multiset(s.enqueued) + multiset(s.dropped) + multiset(InDelivery(s)))[k] == multiset(Upto(s.delivered))[k];
  }

  /**
   Safety of the queue over every interleaving. Each message NATS handed over is
   in exactly one place: written, being written, queued, cut by a failed write,
   dropped, or still being delivered. The queue is bounded; frames are completed
   in the order in which they were queued, which is the order of delivery; the
   body of Close runs at most once, and whoever returns from Close finds the
   connection closed; and while the peer is open, with no delivery in progress,
   nothing has been dropped. The writer ends only once closeCh is up.
   */
  lemma QueueSafety(history: seq<Action>, k: nat)
    requires After(history).Some?
    ensures var s := After(history).value;
            && Occurrences(s, k) == (if k < s.delivered then 1 else 0)
            && |s.queue| <= 1000
            && s.written <= s.enqueued
            && (forall i, j | 0 <= i < j < |s.enqueued| :: s.enqueued[i] < s.enqueued[j])
            && s.bodyRuns <= 1
            && (forall t | At(s, t, Returned) :: s.closeCh && s.connClosed)
            && (!s.closeCh && s.delivery.Idle? ==> s.dropped == [])
            && (!s.closeCh && s.cut != [] ==> s.writer.ClosingFailed?)
            && (s.writer.Exited? ==> s.closeCh)
  {
    HistoryKeepsInv(history);
    var s := After(history).value;
    OnePlace(s, k);
  }

  // --- what has happened -------------------------------------------------------------------

  /** The n-th action of a history is of this kind, in the state it found. */
  ghost predicate HappensAt(history: seq<Action>, what: (State, Action) -> bool, n: nat)
    requires n < |history|
  {
    After(history[..n]).Some? && what(After(history[..n]).value, history[n])
  }

  ghost predicate Ever(history: seq<Action>, what: (State, Action) -> bool) {
    exists n | 0 <= n < |history| :: HappensAt(history, what, n)
  }

  lemma EverSnoc(before: seq<Action>, a: Action, what: (State, Action) -> bool)
    requires After(before).Some?
    ensures Ever(before + [a], what) <==> Ever(before, what) || what(After(before).value, a)
  {
    var history := before + [a];
    assert before[..|before|] == before;
    forall n | 0 <= n < |before| ensures HappensAt(history, what, n) <==> HappensAt(before, what, n) {
      assert history[..n] == before[..n];
    }
    assert history[..|before|] == before;
    if Ever(before, what) {
      var n :| 0 <= n < |before| && HappensAt(before, what, n);
      assert HappensAt(history, what, n);
    }
    if what(After(before).value, a) {
      assert HappensAt(history, what, |before|);
    }
  }

  lemma HappenedStays(before: seq<Action>, history: seq<Action>, what: (State, Action) -> bool, n: nat)
    requires before <= history && n < |before| && HappensAt(before, what, n)
    ensures HappensAt(history, what, n)
  {
    assert history[..n] == before[..n];
  }

  // --- gaps --------------------------------------------------------------------------------

  /** A message is queued although an earlier one has been dropped. */
  predicate SendsPastDrop(s: State, a: Action) {
    a.SelectSend? && s.dropped != []
  }

  /** The messages are numbered 0, 1, 2 and so on: none is missing before the last. */
  predicate GapFree(ms: seq<nat>) {
    ms == Upto(|ms|)
  }

  lemma {:induction false} UptoSize(n: nat)
    ensures |Upto(n)| == n
  {
    if n == 0 {
    } else {
      UptoSize(n - 1);
    }
  }

  /** The message in hand is the next in line exactly when nothing has been dropped. */
  lemma InHandIsNext(s: State)
    requires Conserved(s) && Monotone(s) && s.delivery.Selecting?
    ensures s.delivery.m == |s.enqueued| + |s.dropped|
  {
    DeliveredSize(s);
  }

  lemma DeliveredSize(s: State)
    requires Conserved(s)
    ensures s.delivered == |s.enqueued| + |s.dropped| + |InDelivery(s)|
  {
    UptoSize(s.delivered);
    assert |multiset(s.enqueued) + multiset(s.dropped) + multiset(InDelivery(s))| == |multiset(Upto(s.delivered))|;
  }

  lemma GapFreeSnoc(ms: seq<nat>, m: nat)
    ensures GapFree(ms + [m]) <==> GapFree(ms) && m == |ms|
  {
    UptoSize(|ms|);
    assert (ms + [m])[..|ms|] == ms;
  }

  /**
   The queue has no gap exactly when no message has been queued past a dropped
   one. The second select case of the callback is that step: it looks at neither
   closeCh nor the messages lost before.
   */
  lemma {:induction false} GapFreeExact(history: seq<Action>)
    requires After(history).Some?
    ensures GapFree(After(history).value.enqueued) <==> !Ever(history, SendsPastDrop)
  {
    if history == [] {
      assert GapFree(INIT.enqueued);
    } else {
      var before, a := history[..|history| - 1], history[|history| - 1];
      assert history == before + [a];
      GapFreeExact(before);
      HistoryKeepsInv(before);
      StepKeepsGapFree(After(before).value, a);
      EverSnoc(before, a, SendsPastDrop);
    }
  }

  lemma StepKeepsGapFree(s: State, a: Action)
    requires Enabled(s, a) && Inv(s)
    ensures GapFree(Apply(s, a).enqueued) <==> GapFree(s.enqueued) && !SendsPastDrop(s, a)
  {
    if a.SelectSend? {
      InHandIsNext(s);
      GapFreeSnoc(s.enqueued, s.delivery.m);
    }
  }

  /** No gap in what is written either, as long as the callback queues nothing once closeCh is up. */
  lemma GapFreeWithoutLateSends(history: seq<Action>)
    requires After(history).Some?
    requires forall n | 0 <= n < |history| && history[n].SelectSend? && After(history[..n]).Some? ::
               !After(history[..n]).value.closeCh
    ensures var s := After(history).value; GapFree(s.enqueued) && GapFree(s.written)
  {
    forall n | 0 <= n < |history| ensures !HappensAt(history, SendsPastDrop, n) {
      if HappensAt(history, SendsPastDrop, n) {
        Taken(history, n);
        DroppedWhileSelecting(history[..n]);
      }
    }
    GapFreeExact(history);
    QueueSafety(history, 0);
    PrefixIsGapFree(After(history).value.written, After(history).value.enqueued);
  }

  /** Every action of a history could be taken when it came. */
  lemma {:induction false} Taken(history: seq<Action>, n: nat)
    requires After(history).Some? && n < |history|
    ensures After(history[..n]).Some? && Enabled(After(history[..n]).value, history[n])
  {
    var before := history[..|history| - 1];
    if n == |before| {
    } else {
      Taken(before, n);
      assert before[..n] == history[..n];
    }
  }

  lemma DroppedWhileSelecting(history: seq<Action>)
    requires After(history).Some? && After(history).value.delivery.Selecting? && After(history).value.dropped != []
    ensures After(history).value.closeCh
  {
    HistoryKeepsInv(history);
  }

  lemma {:induction false} PrefixIsGapFree(p: seq<nat>, ms: seq<nat>)
    requires p <= ms && GapFree(ms)
    ensures GapFree(p)
  {
    if p == ms {
    } else {
      var front := ms[..|ms| - 1];
      GapFreeSnoc(front, ms[|ms| - 1]);
      assert ms == front + [ms[|ms| - 1]];
      PrefixIsGapFree(p, front);
    }
  }

  /**
   Such a gap: with the close signal and room in the queue both ready, the
   callback may take either, here first the one and then the other.
   */
  lemma GapDuringClose() returns (history: seq<Action>)
    ensures After(history).Some? && After(history).value.enqueued == [0, 2] && After(history).value.dropped == [1]
  {
    var s;
    history, s := QueuedThenClosed();
    history, s := TakeStep(history, s, NatsDelivers);
    history, s := TakeStep(history, s, SelectClosed);
    history, s := TakeStep(history, s, NatsDelivers);
    history, s := TakeStep(history, s, SelectSend);
  }

  lemma QueuedThenClosed() returns (history: seq<Action>, s: State)
    ensures After(history) == Some(s) && s.delivery == Idle && s.closeCh
    ensures s.delivered == 1 && s.queue == s.enqueued == [0] && s.dropped == []
  {
    history, s := TakeStep([], INIT, AssignSubscriber);
    history, s := TakeStep(history, s, NatsDelivers);
    history, s := TakeStep(history, s, SelectSend);
    history, s := TakeStep(history, s, CallClose(Other(0)));
    history, s := TakeStep(history, s, EnterBody(Other(0)));
    history, s := TakeStep(history, s, CloseChannel(Other(0)));
  }

  lemma TakeStep(before: seq<Action>, s: State, a: Action) returns (history: seq<Action>, s': State)
    requires After(before) == Some(s) && Enabled(s, a)
    ensures s' == Apply(s, a) && history == before + [a] && After(history) == Some(s')
  {
    history, s' := before + [a], Apply(s, a);
    Extend(before, s, a);
  }

  // --- slow consumers ----------------------------------------------------------------------

  /** The callback gives up a message on an open peer whose queue is full. */
  predicate GivesUpFull(s: State, a: Action) {
    a.SelectDefault? && !s.closeCh && |s.queue| == 1000
  }

  /** Somebody other than the callback calls Close. */
  predicate AnotherCloses(s: State, a: Action) {
    a.CallClose? && !a.t.Delivery?
  }

  /** As long as nobody else closes the peer, whatever is wrong with it began with a full queue. */
  predicate BlameInv(s: State, another: bool, full: bool) {
    !another ==>
      && s.calls.Keys <= {Delivery}
      && (s.dropped != [] || s.delivery.Full? || s.delivery.ClosingSlow? ==> full)
      && (s.calls.Keys != {} || s.closeCh || s.body.Some? || s.onceDone ==> full)
  }

  lemma StepKeepsBlame(s: State, a: Action, another: bool, full: bool)
    requires Enabled(s, a) && OnceInv(s) && InOrder(s) && BlameInv(s, another, full)
    ensures BlameInv(Apply(s, a), another || AnotherCloses(s, a), full || GivesUpFull(s, a))
  {
  }

  lemma {:induction false} HistoryKeepsBlame(history: seq<Action>)
    requires After(history).Some?
    ensures BlameInv(After(history).value, Ever(history, AnotherCloses), Ever(history, GivesUpFull))
  {
    if history == [] {
    } else {
      var before, a := history[..|history| - 1], history[|history| - 1];
      assert history == before + [a];
      HistoryKeepsBlame(before);
      HistoryKeepsInv(before);
      StepKeepsBlame(After(before).value, a, Ever(before, AnotherCloses), Ever(before, GivesUpFull));
      EverSnoc(before, a, AnotherCloses);
      EverSnoc(before, a, GivesUpFull);
    }
  }

  /**
   A peer loses a message, or is closed, only for a reason: somebody other than its
   callback has called Close, or the callback has found a thousand messages queued
   and unwritten, so that more than a thousand had been delivered.
   */
  lemma DropNeedsFullQueue(history: seq<Action>)
    requires After(history).Some? && (After(history).value.dropped != [] || After(history).value.closeCh)
    ensures Ever(history, AnotherCloses) || (Ever(history, GivesUpFull) && After(history).value.delivered > 1000)
  {
    HistoryKeepsBlame(history);
    if !Ever(history, AnotherCloses) {
      var n :| 0 <= n < |history| && HappensAt(history, GivesUpFull, n);
      Taken(history, n);
      HistoryKeepsInv(history[..n]);
      DeliveredSize(After(history[..n]).value);
      DeliveredGrows(history, n);
    }
  }

  /**
   The callback's select, in a reached state: it sends into any room, and gives up
   exactly on a full queue of an open peer.
   */
  lemma SelectExact(history: seq<Action>)
    requires After(history).Some? && After(history).value.delivery.Selecting?
    ensures var s := After(history).value;
            && (Enabled(s, SelectSend) <==> |s.queue| < 1000)
            && (Enabled(s, SelectDefault) <==> !s.closeCh && |s.queue| == 1000)
            && (Enabled(s, SelectClosed) <==> s.closeCh)
            && (Enabled(s, SelectSend) || Enabled(s, SelectDefault) || Enabled(s, SelectClosed))
  {
    HistoryKeepsInv(history);
  }

  // --- progress ----------------------------------------------------------------------------

  /** A goroutine that is not waiting for a message, a signal or newPeer. */
  predicate IsBusy(s: State, t: Thread) {
    || t in s.calls
    || (t.Delivery? && !s.delivery.Idle?)
    || (t.Writer? && match s.writer {
                       case NotStarted => s.hasSubscriber
                       case Waiting => s.queue != [] || s.closeCh
                       case Exited => false
                       case _ => true
                     })
  }

  /** Nobody is stuck: a busy goroutine can take a step, or waits in Close for another one that can. */
  lemma NeverStuck(history: seq<Action>, t: Thread) returns (a: Action)
    requires After(history).Some? && IsBusy(After(history).value, t)
    ensures var s := After(history).value;
            Enabled(s, a) && (Owner(a) == t || (At(s, t, Called) && s.body == Some(Owner(a))))
  {
    HistoryKeepsInv(history);
    var s := After(history).value;
    if t in s.calls {
      var runner := if At(s, t, Called) && s.body.Some? then s.body.value else t;
      CloseMoves(s, runner);
      a := NextInClose(s, runner);
    } else if t.Delivery? {
      CallbackMoves(s);
      a := NextOfCallback(s);
    } else {
      WriterMoves(s);
      a := NextOfWriter(s);
    }
  }

  lemma CloseMoves(s: State, t: Thread)
    requires OnceInv(s) && t in s.calls && (At(s, t, Called) ==> s.body.None?)
    ensures Enabled(s, NextInClose(s, t)) && Owner(NextInClose(s, t)) == t
  {
  }

  lemma CallbackMoves(s: State)
    requires OnceInv(s) && InOrder(s) && Delivery !in s.calls && !s.delivery.Idle?
    ensures Enabled(s, NextOfCallback(s)) && Owner(NextOfCallback(s)) == Delivery
  {
  }

  lemma WriterMoves(s: State)
    requires Writer !in s.calls && IsBusy(s, Writer)
    ensures Enabled(s, NextOfWriter(s)) && Owner(NextOfWriter(s)) == Writer
  {
  }

  function NextInClose(s: State, t: Thread): Action {
    if At(s, t, Called) then (if s.onceDone then FindDone(t) else EnterBody(t))
    else if At(s, t, InBody(0)) then CloseChannel(t)
    else if At(s, t, InBody(1)) then Unsubscribe(t)
    else if At(s, t, InBody(2)) then CloseConn(t)
    else ReturnFromClose(t)
  }

  function NextOfCallback(s: State): Action {
    match s.delivery
    case Selecting(_) =>
      if |s.queue| < WRITE_BUFFER_SIZE then SelectSend else if s.closeCh then SelectClosed else SelectDefault
    case Full(_) => if s.closeCh then RecheckClosed else RecheckOpen
    case _ => CallClose(Delivery)
  }

  function NextOfWriter(s: State): Action {
    match s.writer
    case NotStarted => WriterStarts
    case Waiting => if s.queue != [] then WriterTakes else WriterStops
    case Writing(_) => if s.connClosed then WriteFails else WriteSucceeds
    case _ => CallClose(Writer)
  }

  // --- subscriptions that outlive their peer -----------------------------------------------

  /** Before peer.subscriber is set only the callback runs, and it disconnects nobody with room in the queue. */
  predicate NewPeerInv(s: State) {
    !s.hasSubscriber ==>
      && s.writer.NotStarted? && s.subscribed && s.calls.Keys <= {Delivery}
      && (s.delivery.Full? || s.delivery.ClosingSlow? ==> |s.queue| >= WRITE_BUFFER_SIZE)
      && (s.delivery.ClosingSlow? ==> s.dropped != [])
  }

  lemma {:induction false} HistoryKeepsNewPeer(history: seq<Action>)
    requires After(history).Some?
    ensures NewPeerInv(After(history).value)
  {
    if history == [] {
    } else {
      var before := history[..|history| - 1];
      HistoryKeepsNewPeer(before);
      HistoryKeepsInv(before);
      StepKeepsNewPeer(After(before).value, history[|history| - 1]);
    }
  }

  lemma StepKeepsNewPeer(s: State, a: Action)
    requires Enabled(s, a) && OnceInv(s) && NewPeerInv(s)
    ensures NewPeerInv(Apply(s, a))
  {
  }

  /** The body of Close skips the unsubscribe, peer.subscriber being nil. */
  predicate SkipsUnsubscribe(s: State, a: Action) {
    a.Unsubscribe? && !s.hasSubscriber
  }

  /** Past the unsubscribe the subscription is gone, unless it was skipped; before it, it is there. */
  predicate SubscriptionInv(s: State, skipped: bool) {
    var done := s.onceDone || (s.body.Some? && s.body.value in s.calls && s.calls[s.body.value] == InBody(2));
    (skipped ==> done) && (s.subscribed <==> !done || skipped)
  }

  lemma StepKeepsSubscription(s: State, a: Action, skipped: bool)
    requires Enabled(s, a) && OnceInv(s) && SubscriptionInv(s, skipped)
    ensures SubscriptionInv(Apply(s, a), skipped || SkipsUnsubscribe(s, a))
  {
  }

  lemma {:induction false} HistoryKeepsSubscription(history: seq<Action>)
    requires After(history).Some?
    ensures SubscriptionInv(After(history).value, Ever(history, SkipsUnsubscribe))
  {
    if history == [] {
    } else {
      var before, a := history[..|history| - 1], history[|history| - 1];
      assert history == before + [a];
      HistoryKeepsSubscription(before);
      HistoryKeepsInv(before);
      StepKeepsSubscription(After(before).value, a, Ever(before, SkipsUnsubscribe));
      EverSnoc(before, a, SkipsUnsubscribe);
    }
  }

  /** A closed peer is still subscribed exactly when its Close found peer.subscriber unset. */
  lemma UnsubscribedExact(history: seq<Action>)
    requires After(history).Some? && After(history).value.onceDone
    ensures After(history).value.subscribed <==> Ever(history, SkipsUnsubscribe)
  {
    HistoryKeepsSubscription(history);
  }

  /** That takes a Close by the callback itself, on a queue filled before newPeer has returned. */
  lemma SkipNeedsFullQueue(history: seq<Action>, n: nat)
    requires After(history).Some? && n < |history| && HappensAt(history, SkipsUnsubscribe, n)
    ensures history[n] == Unsubscribe(Delivery)
    ensures |After(history[..n]).value.queue| == WRITE_BUFFER_SIZE < After(history[..n]).value.delivered
  {
    Taken(history, n);
    HistoryKeepsInv(history[..n]);
    HistoryKeepsNewPeer(history[..n]);
    ClosingUnknownPeer(After(history[..n]).value, history[n].t);
  }

  lemma {:induction false} DeliveredGrows(history: seq<Action>, n: nat)
    requires After(history).Some? && n <= |history|
    ensures After(history[..n]).Some? && After(history[..n]).value.delivered <= After(history).value.delivered
  {
    if n == |history| {
      assert history[..n] == history;
    } else {
      var before, a := history[..|history| - 1], history[|history| - 1];
      LastStep(history);
      DeliveredGrows(before, n);
      HistoryKeepsInv(before);
      StepSettles(After(before).value, a);
      assert before[..n] == history[..n];
    }
  }

  lemma LastStep(history: seq<Action>)
    requires history != [] && After(history).Some?
    ensures var before, a := history[..|history| - 1], history[|history| - 1];
            After(before).Some? && Enabled(After(before).value, a)
              && After(history) == Some(Apply(After(before).value, a))
  {
  }

  /** Whenever a peer has been leaked, it is closed or being closed and has been flooded. */
  lemma SkippedInTime(s: State, history: seq<Action>)
    requires Reached(s, history) && Ever(history, SkipsUnsubscribe)
    ensures s.closeCh && s.delivered > WRITE_BUFFER_SIZE
  {
    var n :| 0 <= n < |history| && HappensAt(history, SkipsUnsubscribe, n);
    SkipNeedsFullQueue(history, n);
    DeliveredGrows(history, n);
    HistoryKeepsSubscription(history);
    HistoryKeepsInv(history);
  }

  lemma ClosingUnknownPeer(s: State, t: Thread)
    requires Inv(s) && NewPeerInv(s) && Enabled(s, Unsubscribe(t)) && !s.hasSubscriber
    ensures t.Delivery? && |s.queue| == WRITE_BUFFER_SIZE < s.delivered
  {
    assert t in s.calls.Keys;
    DeliveredSize(s);
  }

  /** Such a run: a thousand and one messages arrive before newPeer has returned. */
  lemma LeakRun() returns (history: seq<Action>, s: State)
    ensures Reached(s, history) && s.onceDone && s.subscribed
  {
    history, s := Flood(WRITE_BUFFER_SIZE);
    UptoSize(WRITE_BUFFER_SIZE);
    history, s := TakeStep(history, s, NatsDelivers);
    history, s := TakeStep(history, s, SelectDefault);
    history, s := TakeStep(history, s, RecheckOpen);
    history, s := CallbackCloses(history, s);
  }

  lemma CallbackCloses(before: seq<Action>, s0: State) returns (history: seq<Action>, s: State)
    requires Reached(s0, before) && s0.delivery.ClosingSlow? && s0.calls == map[] && s0.body.None? && !s0.onceDone
    requires s0.subscribed && !s0.hasSubscriber
    ensures Reached(s, history) && s.onceDone && s.subscribed
  {
    history, s := TakeStep(before, s0, CallClose(Delivery));
    history, s := TakeStep(history, s, EnterBody(Delivery));
    history, s := TakeStep(history, s, CloseChannel(Delivery));
    history, s := TakeStep(history, s, Unsubscribe(Delivery));
    history, s := TakeStep(history, s, CloseConn(Delivery));
  }

  function Flooded(k: nat): State {
    INIT.(queue := Upto(k), enqueued := Upto(k), delivered := k)
  }

  lemma {:induction false} Flood(k: nat) returns (history: seq<Action>, s: State)
    requires k <= WRITE_BUFFER_SIZE
    ensures Reached(s, history) && s == Flooded(k)
  {
    if k == 0 {
      history, s := [], INIT;
    } else {
      history, s := Flood(k - 1);
      OneMore(k - 1);
      history, s := TakeTwo(history, s, NatsDelivers, SelectSend);
    }
  }

  lemma TakeTwo(before: seq<Action>, s: State, a: Action, b: Action) returns (history: seq<Action>, s': State)
    requires Reached(s, before) && Enabled(s, a) && Enabled(Apply(s, a), b)
    ensures s' == Apply(Apply(s, a), b) && Reached(s', history)
  {
    var mid;
    history, mid := TakeStep(before, s, a);
    history, s' := TakeStep(history, mid, b);
  }

  lemma OneMore(k: nat)
    requires k < WRITE_BUFFER_SIZE
    ensures Enabled(Flooded(k), NatsDelivers)
    ensures var s := Apply(Flooded(k), NatsDelivers); Enabled(s, SelectSend) && Apply(s, SelectSend) == Flooded(k + 1)
  {
    UptoSize(k);
  }

  lemma Extend(h: seq<Action>, s: State, a: Action)
    requires After(h) == Some(s) && Enabled(s, a)
    ensures After(h + [a]) == Some(Apply(s, a))
  {
    assert (h + [a])[..|h|] == h;
  }
}
