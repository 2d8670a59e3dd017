/**
 runLoop of pkg/client/client.go: the read loop, the write loop and the goroutine
 that waits for both, under any interleaving.
 */
module ClientShutdown {
  import opened Bytes

  datatype Thread = Reader | Writer

  /** The read loop. `Leaving` is its deferred closeAll. */
  datatype ReaderPc = Top | Decoding | Delivering(m: nat) | ReaderLeaving | ReaderDone

  datatype WriterPc = Selecting | Sending | WriterLeaving | WriterDone

  /** The goroutine of runLoop itself: in wg.Wait, then past close(recv). */
  datatype MainPc = AwaitingBoth | Finished

  /** Inside closeAll. */
  datatype CallPc = Outside | Called | ClosingChannel | ClosingConnection | Returned

  datatype State = State(
    reader: ReaderPc,
    writer: WriterPc,
    main: MainPc,
    call: map<Thread, CallPc>,
    closeCh: bool,
    connClosed: bool,
    body: Option<Thread>,
    onceDone: bool,
    bodyRuns: nat,
    passed: seq<nat>,        // messages sent to recv, in order
    passedAfterClose: nat,   // how many of them after closeCh was closed
    recvClosed: nat,         // how often recv has been closed
    received: nat,           // how many frames have been decoded
    ended: bool,             // nothing more can be decoded: the stream has ended, failed or is malformed
    pending: nat,            // messages the application has put into send
    sendClosed: bool)        // and whether it has closed it

  const INIT: State :=
    State(Top, Selecting, AwaitingBoth, map[Reader := Outside, Writer := Outside], false, false, None, false, 0,
          [], 0, 0, 0, false, 0, false)

  datatype Action =
    | StreamEnds | AppSends | AppClosesSend
    | ReaderSeesClose | ReaderGoesOn | DecodeFails | UnmarshalFails | Decodes | Delivers | DeliveryGivesUp
    | WriterSeesClose | SendChannelClosed | WriterTakes | WriterSent
    | CallCloseAll(t: Thread) | EnterBody(t: Thread) | CloseChannel(t: Thread) | CloseConnection(t: Thread)
    | FindDone(t: Thread) | LeaveLoop(t: Thread)
    | CloseRecv

  predicate At(s: State, t: Thread, pc: CallPc) {
    t in s.call && s.call[t] == pc
  }

  predicate Enabled(s: State, a: Action) {
    match a
    case StreamEnds => !s.ended
    case AppSends => !s.sendClosed
    case AppClosesSend => !s.sendClosed
    // select with a default: the default is taken only if closeCh is open
    case ReaderSeesClose => s.reader.Top? && s.closeCh
    case ReaderGoesOn => s.reader.Top? && !s.closeCh
    // reading a closed connection fails, though what its reader holds may still decode
    case DecodeFails => s.reader.Decoding? && (s.ended || s.connClosed)
    case UnmarshalFails => s.reader.Decoding? && !s.ended
    case Decodes => s.reader.Decoding? && !s.ended
    // select between recv and closeCh: either, if both are ready
    case Delivers => s.reader.Delivering?
    case DeliveryGivesUp => s.reader.Delivering? && s.closeCh
    case WriterSeesClose => s.writer.Selecting? && s.closeCh
    case SendChannelClosed => s.writer.Selecting? && s.sendClosed && s.pending == 0
    case WriterTakes => s.writer.Selecting? && s.pending > 0
    case WriterSent => s.writer.Sending?
    case CallCloseAll(t) =>
      At(s, t, Outside) && (if t.Reader? then s.reader.ReaderLeaving? else s.writer.WriterLeaving?)
    case EnterBody(t) => At(s, t, Called) && s.body.None? && !s.onceDone
    case CloseChannel(t) => At(s, t, ClosingChannel)
    case CloseConnection(t) => At(s, t, ClosingConnection)
    case FindDone(t) => At(s, t, Called) && s.onceDone
    case LeaveLoop(t) => At(s, t, Returned) && (if t.Reader? then s.reader.ReaderLeaving? else s.writer.WriterLeaving?)
    // wg.Wait() returned
    case CloseRecv => s.reader.ReaderDone? && s.writer.WriterDone? && s.main.AwaitingBoth?
  }

  function Apply(s: State, a: Action): State
    requires Enabled(s, a)
  {
    match a
    case StreamEnds => s.(ended := true)
    case AppSends => s.(pending := s.pending + 1)
    case AppClosesSend => s.(sendClosed := true)
    case ReaderSeesClose => s.(reader := ReaderLeaving)
    case ReaderGoesOn => s.(reader := Decoding)
    case DecodeFails => s.(reader := ReaderLeaving)
    case UnmarshalFails => s.(reader := Top, received := s.received + 1)
    case Decodes => s.(reader := Delivering(s.received), received := s.received + 1)
    case Delivers =>
      s.(reader := Top, passed := s.passed + [s.reader.m],
         passedAfterClose := if s.closeCh then s.passedAfterClose + 1 else s.passedAfterClose)
    case DeliveryGivesUp => s.(reader := ReaderLeaving)
    case WriterSeesClose => s.(writer := WriterDone)
    case SendChannelClosed => s.(writer := WriterLeaving)
    case WriterTakes => s.(writer := Sending, pending := s.pending - 1)
    case WriterSent => s.(writer := Selecting)
    case CallCloseAll(t) => s.(call := s.call[t := Called])
    case EnterBody(t) => s.(call := s.call[t := ClosingChannel], body := Some(t), bodyRuns := s.bodyRuns + 1)
    case CloseChannel(t) => s.(call := s.call[t := ClosingConnection], closeCh := true)
    case CloseConnection(t) => s.(call := s.call[t := Returned], connClosed := true, body := None, onceDone := true)
    case FindDone(t) => s.(call := s.call[t := Returned])
    case LeaveLoop(t) => if t.Reader? then s.(reader := ReaderDone) else s.(writer := WriterDone)
    case CloseRecv => s.(main := Finished, recvClosed := s.recvClosed + 1)
  }

  function After(history: seq<Action>): Option<State> {
    if history == [] then Some(INIT)
    else
      var a := history[|history| - 1];
      match After(history[..|history| - 1])
      case None => None
      case Some(s) => if Enabled(s, a) then Some(Apply(s, a)) else None
  }

  predicate OnceInv(s: State) {
    && s.call.Keys == {Reader, Writer}
    && (s.body.Some? ==> s.body.value in s.call)
    && (forall t | t in s.call :: (s.call[t].ClosingChannel? || s.call[t].ClosingConnection? <==> s.body == Some(t)))
    && (s.body.Some? ==> !s.onceDone)
    && s.bodyRuns == (if s.body.Some? || s.onceDone then 1 else 0)
    && s.closeCh == (s.onceDone || (s.body.Some? && s.call[s.body.value].ClosingConnection?))
    && s.connClosed == s.onceDone
    && (forall t | t in s.call && s.call[t].Returned? :: s.onceDone)
  }

  predicate LoopInv(s: State) {
    && (At(s, Reader, Outside) || s.reader.ReaderLeaving? || s.reader.ReaderDone?)
    && (At(s, Writer, Outside) || s.writer.WriterLeaving? || s.writer.WriterDone?)
    && (s.reader.ReaderDone? ==> At(s, Reader, Returned))
    && (s.writer.WriterDone? ==> s.closeCh && (At(s, Writer, Outside) || At(s, Writer, Returned)))
    && s.recvClosed == (if s.main.Finished? then 1 else 0)
    && (s.main.Finished? ==> s.reader.ReaderDone? && s.writer.WriterDone?)
  }

  /** Past the check of closeCh the reader can pass on one message; behind it, none. */
  predicate LastMessageInv(s: State) {
    LateInv(s) && Ascending(s.passed, NextMessage(s)) && (s.reader.Delivering? ==> s.reader.m < s.received)
  }

  predicate LateInv(s: State) {
    && s.passedAfterClose <= 1
    && (s.reader.Decoding? || s.reader.Delivering? ==> s.passedAfterClose == 0)
    && (!s.closeCh ==> s.passedAfterClose == 0)
  }

  /** The message in hand, or the next to be decoded. */
  function NextMessage(s: State): nat {
    if s.reader.Delivering? then s.reader.m else s.received
  }

  predicate Ascending(passed: seq<nat>, next: nat) {
    && (forall i, j | 0 <= i < j < |passed| :: passed[i] < passed[j])
    && (forall i | 0 <= i < |passed| :: passed[i] < next)
  }

  predicate Inv(s: State) {
    OnceInv(s) && LoopInv(s) && LastMessageInv(s)
  }

  /** The steps of closeAll, as against those of the loops and their surroundings. */
  predicate IsCallStep(a: Action) {
    a.CallCloseAll? || a.EnterBody? || a.CloseChannel? || a.CloseConnection? || a.FindDone?
  }

  lemma StepKeepsInv(s: State, a: Action)
    requires Inv(s) && Enabled(s, a)
    ensures Inv(Apply(s, a))
  {
    if IsCallStep(a) {
      CallStepKeepsOnce(s, a);
      CallStepKeepsLoops(s, a);
    } else {
      LoopStepKeepsOnce(s, a);
      LoopStepKeepsLoops(s, a);
      LoopStepKeepsLastMessage(s, a);
    }
  }

  lemma CallStepKeepsOnce(s: State, a: Action)
    requires OnceInv(s) && Enabled(s, a) && IsCallStep(a)
    ensures OnceInv(Apply(s, a))
  {
  }

  lemma CallStepKeepsLoops(s: State, a: Action)
    requires OnceInv(s) && LoopInv(s) && LastMessageInv(s) && Enabled(s, a) && IsCallStep(a)
    ensures LoopInv(Apply(s, a)) && LastMessageInv(Apply(s, a))
  {
  }

  lemma LoopStepKeepsOnce(s: State, a: Action)
    requires OnceInv(s) && Enabled(s, a) && !IsCallStep(a)
    ensures OnceInv(Apply(s, a))
  {
  }

  lemma LoopStepKeepsLoops(s: State, a: Action)
    requires OnceInv(s) && LoopInv(s) && Enabled(s, a) && !IsCallStep(a)
    ensures LoopInv(Apply(s, a))
  {
  }

  lemma LoopStepKeepsLastMessage(s: State, a: Action)
    requires LastMessageInv(s) && Enabled(s, a) && !IsCallStep(a)
    ensures LastMessageInv(Apply(s, a))
  {
    if a.Delivers? {
      DeliveryKeepsLastMessage(s);
    } else {
      QuietStepKeepsLastMessage(s, a);
    }
  }

  lemma DeliveryKeepsLastMessage(s: State)
    requires LastMessageInv(s) && Enabled(s, Delivers)
    ensures LastMessageInv(Apply(s, Delivers))
  {
  }

  lemma QuietStepKeepsLastMessage(s: State, a: Action)
    requires LastMessageInv(s) && Enabled(s, a) && !IsCallStep(a) && !a.Delivers?
    ensures LastMessageInv(Apply(s, a))
  {
    QuietStep(s, a);
    StaysAscending(s.passed, NextMessage(s), NextMessage(Apply(s, a)));
  }

  lemma QuietStep(s: State, a: Action)
    requires LateInv(s) && Enabled(s, a) && !IsCallStep(a) && !a.Delivers?
    requires s.reader.Delivering? ==> s.reader.m < s.received
    ensures var s' := Apply(s, a);
            && LateInv(s') && s'.passed == s.passed && NextMessage(s) <= NextMessage(s')
            && (s'.reader.Delivering? ==> s'.reader.m < s'.received)
  {
  }

  lemma StaysAscending(passed: seq<nat>, next: nat, later: nat)
    requires Ascending(passed, next) && next <= later
    ensures Ascending(passed, later)
  {
  }

  lemma {:induction false} HistoryKeepsInv(history: seq<Action>)
    requires After(history).Some?
    ensures Inv(After(history).value)
  {
    if history == [] {
    } else {
      HistoryKeepsInv(history[..|history| - 1]);
      StepKeepsInv(After(history[..|history| - 1]).value, history[|history| - 1]);
    }
  }

  /**
   Shutdown over every interleaving: recv is closed at most once, only after both
   loops have ended and the connection is closed; nothing is about to be sent to
   it then; closeCh is closed once; after that at most one more message is passed
   on; and messages are passed on in the order in which they were decoded.
   */
  lemma ShutdownSafety(history: seq<Action>)
    requires After(history).Some?
    ensures var s := After(history).value;
            && s.recvClosed <= 1 && s.bodyRuns <= 1 && s.passedAfterClose <= 1
            && (s.recvClosed == 1 ==> s.reader.ReaderDone? && s.writer.WriterDone? && s.closeCh && s.connClosed)
            && (Enabled(s, Delivers) ==> s.recvClosed == 0)
            && (forall i, j | 0 <= i < j < |s.passed| :: s.passed[i] < s.passed[j])
            && (forall i | 0 <= i < |s.passed| :: s.passed[i] < s.received)
  {
    HistoryKeepsInv(history);
  }

  // --- while the client is open --------------------------------------------------------------

  /** A loop has ended or is ending, or closeAll has been called. */
  predicate HasBegunToClose(s: State) {
    || s.closeCh || s.connClosed || s.body.Some? || s.onceDone
    || s.reader.ReaderLeaving? || s.reader.ReaderDone? || s.writer.WriterLeaving? || s.writer.WriterDone?
    || exists t | t in s.call :: !s.call[t].Outside?
  }

  /** The client closes for a reason only. */
  predicate CauseInv(s: State) {
    HasBegunToClose(s) ==> s.ended || s.sendClosed
  }

  lemma StepKeepsCause(s: State, a: Action)
    requires OnceInv(s) && CauseInv(s) && Enabled(s, a)
    ensures CauseInv(Apply(s, a))
  {
  }

  lemma {:induction false} HistoryKeepsCause(history: seq<Action>)
    requires After(history).Some?
    ensures CauseInv(After(history).value)
  {
    if history == [] {
    } else {
      var before := history[..|history| - 1];
      HistoryKeepsCause(before);
      HistoryKeepsInv(before);
      StepKeepsCause(After(before).value, history[|history| - 1]);
    }
  }

  /**
   The client begins to close only when nothing more can be read or the application
   has closed send: not after a message, whether it could be sent or unmarshalled or
   not.
   */
  lemma ClosesForCause(history: seq<Action>)
    requires After(history).Some? && HasBegunToClose(After(history).value)
    ensures After(history).value.ended || After(history).value.sendClosed
  {
    HistoryKeepsCause(history);
  }

  lemma Extend(history: seq<Action>, a: Action)
    requires After(history).Some? && Enabled(After(history).value, a)
    ensures After(history + [a]) == Some(Apply(After(history).value, a))
  {
    assert (history + [a])[..|history|] == history;
  }

  /**
   As long as it has not begun to close, the client can pass on the next message
   with the read loop's own next steps.
   */
  lemma NextIsReceived(history: seq<Action>) returns (next: seq<Action>)
    requires After(history).Some? && !HasBegunToClose(After(history).value) && !After(history).value.ended
    ensures forall a | a in next :: a in {ReaderGoesOn, Decodes, Delivers}
    ensures After(history + next).Some?
    ensures var s, s' := After(history).value, After(history + next).value;
            s'.passed == s.passed + [if s.reader.Delivering? then s.reader.m else s.received] && s'.reader.Top?
  {
    var s := After(history).value;
    next := [];
    assert history + next == history;
    if s.reader.Top? {
      next := ReadOn(history, next, ReaderGoesOn);
    }
    if After(history + next).value.reader.Decoding? {
      next := ReadOn(history, next, Decodes);
    }
    next := ReadOn(history, next, Delivers);
  }

  lemma ReadOn(history: seq<Action>, next: seq<Action>, a: Action) returns (more: seq<Action>)
    requires After(history + next).Some? && Enabled(After(history + next).value, a)
    ensures more == next + [a] && After(history + more) == Some(Apply(After(history + next).value, a))
  {
    more := next + [a];
    assert history + more == (history + next) + [a];
    Extend(history + next, a);
  }

  /** And it can take the application's next message, once the one before it has been sent. */
  lemma NextIsTaken(history: seq<Action>) returns (next: seq<Action>)
    requires After(history).Some? && !HasBegunToClose(After(history).value) && After(history).value.pending > 0
    ensures forall a | a in next :: a in {WriterSent, WriterTakes}
    ensures After(history + next).Some?
    ensures var s, s' := After(history).value, After(history + next).value;
            s'.pending == s.pending - 1 && s'.writer.Sending? && !HasBegunToClose(s')
  {
    next := [];
    assert history + next == history;
    if After(history).value.writer.Sending? {
      next := ReadOn(history, next, WriterSent);
    }
    next := ReadOn(history, next, WriterTakes);
  }

  // --- progress ----------------------------------------------------------------------------

  /** The client's own steps: those that wait for nothing from the peer or the application. */
  predicate IsOwn(s: State, a: Action) {
    match a
    case StreamEnds => false
    case AppSends => false
    case AppClosesSend => false
    case UnmarshalFails => false
    case Decodes => false
    case Delivers => false
    // a write to an open connection waits for the peer, one to a closed connection fails
    case WriterSent => s.connClosed
    case _ => true
  }

  /** One of the loops is on its way out, or closeCh is up already. */
  predicate IsClosing(s: State) {
    s.closeCh || s.reader.ReaderLeaving? || s.writer.WriterLeaving?
  }

  /**
   Once one loop ends, until recv is closed the client can always take a step of
   its own, whatever peer and application do or fail to do.
   */
  lemma NeverStuck(history: seq<Action>) returns (a: Action)
    requires After(history).Some? && IsClosing(After(history).value) && After(history).value.recvClosed == 0
    ensures Enabled(After(history).value, a) && IsOwn(After(history).value, a)
  {
    HistoryKeepsInv(history);
    var s := After(history).value;
    if s.body.Some? {
      a := NextInClose(s, s.body.value);
    } else if !s.onceDone {
      var t := if s.reader.ReaderLeaving? then Reader else Writer;
      a := if At(s, t, Called) then EnterBody(t) else NextInClose(s, t);
    } else {
      a := NextWhenClosed(s);
    }
  }

  function NextInClose(s: State, t: Thread): Action {
    if At(s, t, Outside) then CallCloseAll(t)
    else if At(s, t, Called) then FindDone(t)
    else if At(s, t, ClosingChannel) then CloseChannel(t)
    else if At(s, t, ClosingConnection) then CloseConnection(t)
    else LeaveLoop(t)
  }

  function NextWhenClosed(s: State): Action {
    if s.reader.Top? then ReaderSeesClose
    else if s.reader.Decoding? then DecodeFails
    else if s.reader.Delivering? then DeliveryGivesUp
    else if s.reader.ReaderLeaving? then NextInClose(s, Reader)
    else if s.writer.Selecting? then WriterSeesClose
    else if s.writer.Sending? then WriterSent
    else if s.writer.WriterLeaving? then NextInClose(s, Writer)
    else CloseRecv
  }

  function CallRank(s: State, t: Thread): nat {
    if t !in s.call then 0
    else
      match s.call[t]
      case Outside => 4
      case Called => 3
      case ClosingChannel => 2
      case ClosingConnection => 1
      case Returned => 0
  }

  function ReaderRank(pc: ReaderPc): nat {
    match pc
    case Decoding => 4
    case Delivering(_) => 3
    case Top => 2
    case ReaderLeaving => 1
    case ReaderDone => 0
  }

  function WriterRank(pc: WriterPc): nat {
    match pc
    case Sending => 3
    case Selecting => 2
    case WriterLeaving => 1
    case WriterDone => 0
  }

  function LoopRank(s: State): nat {
    ReaderRank(s.reader) + WriterRank(s.writer) + (if s.main.Finished? then 0 else 1)
    + 2 * s.pending + (if s.ended then 0 else 1) + (if s.sendClosed then 0 else 1)
  }

  /** How much can still happen once closeCh is up, not counting what the application goes on sending. */
  function Rank(s: State): nat {
    LoopRank(s) + CallRank(s, Reader) + CallRank(s, Writer)
  }

  lemma StepLowersRank(s: State, a: Action)
    requires OnceInv(s) && Enabled(s, a) && s.closeCh
    ensures Apply(s, a).closeCh
    ensures if a.AppSends? then Rank(Apply(s, a)) == Rank(s) + 2 else Rank(Apply(s, a)) < Rank(s)
  {
    if IsCallStep(a) {
      CallStepLowersRank(s, a);
    } else {
      LoopStepLowersRank(s, a);
    }
  }

  lemma CallStepLowersRank(s: State, a: Action)
    requires OnceInv(s) && Enabled(s, a) && s.closeCh && IsCallStep(a)
    ensures Apply(s, a).closeCh && LoopRank(Apply(s, a)) == LoopRank(s)
    ensures CallRank(Apply(s, a), Reader) + CallRank(Apply(s, a), Writer) < CallRank(s, Reader) + CallRank(s, Writer)
  {
  }

  lemma LoopStepLowersRank(s: State, a: Action)
    requires Enabled(s, a) && s.closeCh && !IsCallStep(a)
    ensures Apply(s, a).closeCh && Apply(s, a).call == s.call
    ensures if a.AppSends? then LoopRank(Apply(s, a)) == LoopRank(s) + 2 else LoopRank(Apply(s, a)) < LoopRank(s)
  {
    match a
    case AppSends =>
    case WriterTakes =>
    case _ =>
  }

  function Sends(history: seq<Action>): nat {
    if history == [] then 0
    else Sends(history[..|history| - 1]) + if history[|history| - 1].AppSends? then 1 else 0
  }

  /**
   After closeCh is up only so many steps can follow: a constant number, two for
   each message in send and three for each the application still puts there. Where
   they end, recv has been closed, since the client is never stuck before.
   */
  lemma {:induction false} ShutdownIsBounded(history: seq<Action>, more: seq<Action>)
    requires After(history).Some? && After(history).value.closeCh && After(history + more).Some?
    ensures After(history + more).value.closeCh
    ensures |more| + Rank(After(history + more).value) <= Rank(After(history).value) + 3 * Sends(more)
    ensures Rank(After(history).value) <= 18 + 2 * After(history).value.pending
  {
    if more == [] {
      assert history + more == history;
    } else {
      var front, a := more[..|more| - 1], more[|more| - 1];
      assert (history + more)[..|history + more| - 1] == history + front;
      assert (history + more)[|history + more| - 1] == a;
      ShutdownIsBounded(history, front);
      HistoryKeepsInv(history + front);
      StepLowersRank(After(history + front).value, a);
    }
  }
}
