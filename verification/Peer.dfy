/**
 pkg/router/peer.go, method by method: a peer whose goroutines interrupt each other
 between any two atomic actions, and the writer's batched write deadline.
 */
module Peer {
  import opened Bytes
  import opened Transport
  import opened ProtocolData
  import opened PeerQueue

  /**
   What the scheduler decides while a method runs: what the others do at its k-th
   pause, and which ready case a select takes.
   */
  datatype Schedule = Schedule(others: nat -> seq<Action>, coin: nat -> bool)

  class Peer {
    var state: State                // what the goroutines share
    ghost var history: seq<Action>  // the actions that led to it
    const conn: Conn
    const writeTimeout: nat         // in nanoseconds
    var lastDeadline: Option<int>   // when the deadline was last set; the zero time is None
    var deadline: Option<int>       // the connection's write deadline
    ghost var leeway: seq<int>      // for every write started so far, the time it was given

    constructor (conn: Conn, writeTimeout: nat)
      ensures this.conn == conn && this.writeTimeout == writeTimeout
      ensures state == INIT && history == [] && Valid() && DeadlineValid() && lastDeadline == None
    {
      this.conn, this.writeTimeout := conn, writeTimeout;
      state, history, lastDeadline, deadline, leeway := INIT, [], None, None, [];
    }

    /** The shared state is one a history of atomic actions leads to. */
    ghost predicate Valid()
      reads this
    {
      Reached(state, history)
    }

    // --- the goroutines ------------------------------------------------------------

    /** One atomic action. */
    method Do(a: Action)
      requires Valid() && Enabled(state, a)
      modifies this`state, this`history
      ensures Valid() && state == Apply(old(state), a) && history == old(history) + [a]
    {
      Extend(history, state, a);
      state, history := Apply(state, a), history + [a];
    }

    /** The other goroutines run for a while. They cannot move this one, nor undo a close. */
    method Interfere(others: seq<Action>, me: Thread)
      requires Valid()
      modifies this`state, this`history
      ensures Valid() && old(history) <= history && Untouched(old(state), state, me)
      ensures others == [] ==> state == old(state) && history == old(history)
    {
      for i := 0 to |others|
        invariant Valid() && old(history) <= history && Untouched(old(state), state, me)
        invariant i == 0 ==> state == old(state) && history == old(history)
      {
        if Owner(others[i]) != me && Enabled(state, others[i]) {
          HistoryKeepsInv(history);
          StepLeavesOthers(state, others[i], me);
          Do(others[i]);
        }
      }
    }

    /** The end of newPeer. Messages may have been delivered, and the peer closed for it, before. */
    method SetSubscriber(x: Schedule)
      requires Valid() && !state.hasSubscriber
      modifies this`state, this`history
      ensures Valid() && old(history) <= history && state.hasSubscriber
      ensures Ever(history, SkipsUnsubscribe) ==> state.closeCh && state.delivered > WRITE_BUFFER_SIZE
    {
      Interfere(x.others(0), Other(0));
      Do(AssignSubscriber);
      if Ever(history, SkipsUnsubscribe) {
        SkippedInTime(state, history);
      }
    }

    /**
     Close, called by any goroutine. If it returns, the close signal is up and the
     connection is closed, whoever did it, and the subscription is gone unless the
     body found peer.subscriber unset; it can only fail to return by waiting for
     another goroutine that is in the middle of the body.
     */
    method Close(me: Thread, x: Schedule, k: nat) returns (returned: bool)
      requires Valid() && Enabled(state, CallClose(me))
      modifies this`state, this`history
      ensures Valid() && old(history) <= history
      ensures me.Delivery? ==> state.dropped == old(state.dropped) && state.enqueued == old(state.enqueued)
      ensures me.Writer? ==> state.written == old(state.written) && state.cut == old(state.cut)
      ensures returned ==> state.closeCh && state.connClosed && me !in state.calls
      ensures returned ==> (state.subscribed <==> Ever(history, SkipsUnsubscribe))
      ensures returned ==> (me.Delivery? ==> state.delivery.Idle?) && (me.Writer? ==> state.writer.Exited?)
      ensures !returned ==> At(state, me, Called) && state.body.Some? && state.body.value != me
    {
      Do(CallClose(me));
      Interfere(x.others(k), me);
      if state.onceDone {
        Do(FindDone(me));
      } else if state.body.None? {
        RunBody(me, x, k);
      } else {
        ClosedForGood(state, history, me);
        return false;
      }
      Return(me);
      return true;
    }

    /** The end of a Close, whoever has run the body. */
    method Return(me: Thread)
      requires Valid() && At(state, me, Returned)
      modifies this`state, this`history
      ensures Valid() && old(history) <= history
      ensures me.Delivery? ==> state.dropped == old(state.dropped) && state.enqueued == old(state.enqueued)
      ensures me.Writer? ==> state.written == old(state.written) && state.cut == old(state.cut)
      ensures state.closeCh && state.connClosed && me !in state.calls
      ensures state.subscribed <==> Ever(history, SkipsUnsubscribe)
      ensures (me.Delivery? ==> state.delivery.Idle?) && (me.Writer? ==> state.writer.Exited?)
    {
      ReturnsWhenDone(state, history, me);
      Do(ReturnFromClose(me));
      ClosedForGood(state, history, me);
      UnsubscribedExact(history);
    }

    /** The body of closeOnce, with the others running between its statements. */
    method RunBody(me: Thread, x: Schedule, k: nat)
      requires Valid() && Enabled(state, EnterBody(me))
      modifies this`state, this`history
      ensures Valid() && old(history) <= history
      ensures At(state, me, Returned) && state.onceDone
      ensures me.Delivery? ==> state.dropped == old(state.dropped) && state.enqueued == old(state.enqueued)
      ensures me.Writer? ==> state.written == old(state.written) && state.cut == old(state.cut)
    {
      Do(EnterBody(me));
      Interfere(x.others(k + 1), me);
      Do(CloseChannel(me));
      FinishBody(me, x, k);
    }

    method FinishBody(me: Thread, x: Schedule, k: nat)
      requires Valid() && At(state, me, InBody(1))
      modifies this`state, this`history
      ensures Valid() && old(history) <= history
      ensures At(state, me, Returned) && state.onceDone
      ensures me.Delivery? ==> state.dropped == old(state.dropped) && state.enqueued == old(state.enqueued)
      ensures me.Writer? ==> state.written == old(state.written) && state.cut == old(state.cut)
    {
      Interfere(x.others(k + 2), me);
      Do(Unsubscribe(me));
      Interfere(x.others(k + 3), me);
      Do(CloseConn(me));
    }

    /**
     handleNATSMessage. The message handed over is queued, or it is dropped, and
     then the peer is being closed by somebody: there is no third way out. It is
     dropped only on a closed peer or on a full queue; left alone by the others, on
     an open peer, exactly on a full queue.
     */
    method HandleNatsMessage(x: Schedule) returns (returned: bool)
      requires Valid() && state.delivery.Idle? && Delivery !in state.calls
      modifies this`state, this`history
      ensures Valid() && old(history) <= history
      ensures returned ==> state.delivery.Idle?
      ensures Last(state.enqueued, old(state.delivered)) || Last(state.dropped, old(state.delivered))
      ensures !Last(state.enqueued, old(state.delivered)) ==> state.closeCh || state.body.Some?
      ensures !Last(state.enqueued, old(state.delivered)) ==> Since(|old(history)|, DropsForCause)
      ensures x.others(0) == [] && !old(state.closeCh) ==>
                (state.enqueued == old(state.enqueued) + [old(state.delivered)] <==> |old(state.queue)| < 1000)
    {
      Do(NatsDelivers);
      Interfere(x.others(0), Delivery);
      returned := SelectCase(x);
    }

    /** The callback's select, once the others have run. */
    method SelectCase(x: Schedule) returns (returned: bool)
      requires Valid() && state.delivery.Selecting? && Delivery !in state.calls
      modifies this`state, this`history
      ensures Valid() && old(history) <= history
      ensures returned ==> state.delivery.Idle?
      ensures var m := old(state.delivery.m);
              || (state.enqueued == old(state.enqueued) + [m] && |old(state.queue)| < 1000)
              || (&& state.enqueued == old(state.enqueued) && Last(state.dropped, m)
                  && (state.closeCh || state.body.Some?) && Since(|old(history)|, DropsForCause))
      ensures !old(state.closeCh) ==> (state.enqueued == old(state.enqueued) <==> |old(state.queue)| == 1000)
    {
      QueueBounded(state, history);
      ghost var before := history;
      if state.closeCh && (x.coin(0) || |state.queue| >= WRITE_BUFFER_SIZE) {
        Do(SelectClosed);
        Happened(before, SelectClosed, DropsForCause, |before|);
        return true;
      }
      if |state.queue| < WRITE_BUFFER_SIZE {
        Do(SelectSend);
        return true;
      }
      returned := GiveUp(x);
    }

    /** The default case of the select, on a full queue. */
    method GiveUp(x: Schedule) returns (returned: bool)
      requires Valid() && state.delivery.Selecting? && Delivery !in state.calls
      requires !state.closeCh && |state.queue| == 1000
      modifies this`state, this`history
      ensures Valid() && old(history) <= history
      ensures returned ==> state.delivery.Idle?
      ensures state.enqueued == old(state.enqueued) && Last(state.dropped, old(state.delivery.m))
      ensures (state.closeCh || state.body.Some?) && Since(|old(history)|, DropsForCause)
    {
      ghost var before := history;
      Do(SelectDefault);
      Happened(before, SelectDefault, DropsForCause, |before|);
      returned := Disconnect(x);
      StillHappened(before + [SelectDefault], DropsForCause, |before|);
    }

    /** Something of this kind has been done since the history had n actions. */
    ghost predicate Since(n: nat, what: (State, Action) -> bool)
      reads this
    {
      exists i | n <= i < |history| :: HappensAt(history, what, i)
    }

    /** The action just taken, in the state before it. */
    lemma Happened(before: seq<Action>, a: Action, what: (State, Action) -> bool, n: nat)
      requires history == before + [a] && n <= |before| && After(before).Some? && what(After(before).value, a)
      ensures HappensAt(history, what, |before|) && Since(n, what)
    {
      assert history[..|before|] == before;
      assert HappensAt(history, what, |before|);
    }

    lemma StillHappened(before: seq<Action>, what: (State, Action) -> bool, n: nat)
      requires before <= history && n < |before| && HappensAt(before, what, n)
      ensures HappensAt(history, what, n)
    {
      HappenedStays(before, history, what, n);
    }

    /** What a message is dropped for: the peer is closed, or its queue holds a thousand messages. */
    static predicate DropsForCause(s: State, a: Action) {
      (a.SelectClosed? && s.closeCh) || (a.SelectDefault? && |s.queue| == 1000)
    }

    /** The default case: look at closeCh once more, then disconnect the slow client. */
    method Disconnect(x: Schedule) returns (returned: bool)
      requires Valid() && state.delivery.Full? && Delivery !in state.calls
      modifies this`state, this`history
      ensures Valid() && old(history) <= history
      ensures returned ==> state.delivery.Idle?
      ensures Last(state.dropped, old(state.delivery.m)) && (state.closeCh || state.body.Some?)
      ensures state.enqueued == old(state.enqueued)
    {
      Interfere(x.others(1), Delivery);
      if state.closeCh {
        Do(RecheckClosed);
        return true;
      }
      Do(RecheckOpen);
      returned := Close(Delivery, x, 2);
    }

    static ghost predicate Last(s: seq<nat>, m: nat) {
      s != [] && s[|s| - 1] == m
    }

    // --- the writer's deadline ---------------------------------------------------------

    /** The deadline is writeTimeout after it was last set, and every write so far was started in time. */
    ghost predicate DeadlineValid()
      reads this
    {
      && (lastDeadline.Some? ==> deadline == Some(lastDeadline.value + writeTimeout))
      && forall i | 0 <= i < |leeway| :: InTime(leeway[i])
    }

    /** At least half of the timeout, and no more than all of it. */
    predicate InTime(left: int) {
      writeTimeout - writeTimeout / 2 <= left <= writeTimeout
    }

    /** The deadline was set at most half a timeout ago, so that it is not touched. */
    predicate DeadlineIsRecent(now: int)
      reads this
    {
      lastDeadline.Some? && now - lastDeadline.value <= writeTimeout / 2
    }

    /**
     A write of this data can succeed: its deadline stands or can be set, and the
     frame fits, and so does the connection.
     */
    ghost predicate Writable(data: bytes, now: int, setOk: bool)
      reads this, conn
    {
      (setOk || DeadlineIsRecent(now)) && |data| <= 65536 && conn.CanWrite(4 + |data|)
    }

    /**
     writeMessage. It succeeds exactly when the write can. The deadline is set anew
     only when more than half of the timeout has passed since it was last set; a
     write is never started with less than the other half.
     */
    method WriteMessage(data: bytes, now: int, setOk: bool) returns (ok: bool, started: bool)
      requires DeadlineValid() && (lastDeadline.Some? ==> lastDeadline.value <= now)
      modifies this`lastDeadline, this`deadline, this`leeway, conn`outbound, conn`writes, conn`credit, conn`broken
      ensures DeadlineValid() && (lastDeadline.Some? ==> lastDeadline.value <= now)
      ensures ok <==> old(Writable(data, now, setOk))
      ensures started <==> setOk || old(DeadlineIsRecent(now))
      ensures lastDeadline == if setOk && !old(DeadlineIsRecent(now)) then Some(now) else old(lastDeadline)
      ensures started ==> deadline.Some? && leeway == old(leeway) + [deadline.value - now]
      ensures !started ==> conn.outbound == old(conn.outbound) && leeway == old(leeway)
      ensures |data| > MAX_MESSAGE_SIZE ==> conn.outbound == old(conn.outbound)
      ensures ok ==> conn.outbound == old(conn.outbound) + ServerFrame(data)
      ensures ok ==> !conn.broken && conn.credit == old(conn.credit) - 4 - |data|
      ensures !ok ==> exists part ::
                && IsPrefix(part, ServerFrame(data)) && part != ServerFrame(data)
                && conn.outbound == old(conn.outbound) + part
    {
      if lastDeadline.None? || now - lastDeadline.value > writeTimeout / 2 {
        if !setOk {
          Nothing(conn.outbound, data);
          return false, false;
        }
        deadline := Some(now + writeTimeout);
        lastDeadline := Some(now);
      }
      started := true;
      leeway := leeway + [deadline.value - now];
      ghost var part := conn.Accepted(ServerFrame(data));
      ghost var before := conn.outbound;
      ok := EncodeServerMessage(data, conn);
      if !ok && |data| > MAX_MESSAGE_SIZE {
        Nothing(before, data);
      }
    }

    lemma Nothing(before: bytes, data: bytes)
      ensures exists part :: IsPrefix(part, ServerFrame(data)) && part != ServerFrame(data) && before == before + part
    {
      var part: bytes := [];
      assert IsPrefix(part, ServerFrame(data)) && part != ServerFrame(data) && before == before + part;
    }

    // --- the writer ------------------------------------------------------------------------

    /** The frames of these messages, where data says what each message is. */
    static function Frames(ms: seq<nat>, data: nat -> bytes): bytes {
      ServerFrames(seq(|ms|, i requires 0 <= i < |ms| => data(ms[i])))
    }

    static lemma FramesSnoc(ms: seq<nat>, m: nat, data: nat -> bytes)
      ensures Frames(ms + [m], data) == Frames(ms, data) + ServerFrame(data(m))
    {
      var datas := seq(|ms|, i requires 0 <= i < |ms| => data(ms[i]));
      assert seq(|ms + [m]|, i requires 0 <= i < |ms + [m]| => data((ms + [m])[i])) == datas + [data(m)];
      ServerFramesAppend(datas, [data(m)]);
      assert ServerFrames([data(m)]) == ServerFrame(data(m)) + [] by { assert [data(m)][1..] == []; }
    }

    /**
     What is on the wire is the messages the books call written, in order, each a
     whole frame; after a failure, part of one more.
     */
    ghost predicate WireMatches(base: bytes, data: nat -> bytes)
      reads this, conn
    {
      if state.cut == [] then conn.outbound == base + Frames(state.written, data)
      else exists part :: IsPrefix(part, ServerFrame(data(state.cut[0]))) && part != ServerFrame(data(state.cut[0]))
                       && conn.outbound == base + Frames(state.written, data) + part
    }

    /** A write fails because the connection has been closed. */
    static predicate FailsOnClosed(s: State, a: Action) {
      a.WriteFails? && s.connClosed
    }

    /** The connection has taken `written` since it could take `room` bytes. */
    predicate RoomLeft(room: int, wasBroken: bool)
      reads conn
    {
      conn.broken == wasBroken && |conn.outbound| + conn.credit == room
    }

    /** Why the loop has cut a message: closed meanwhile, no deadline, too long, or the connection would not take it. */
    ghost predicate Excused(n: nat, setOk: nat -> bool, rounds: nat, size: nat, sent: nat, room: int, wasBroken: bool)
      reads this
    {
      || Since(n, FailsOnClosed)
      || (exists k | 0 <= k < rounds :: !setOk(k))
      || size > 65536 || wasBroken || room < sent + 4 + size
    }

    /** The first n of the messages queued, or all of them. */
    static function FirstOf(queue: seq<nat>, n: nat): seq<nat> {
      if n <= |queue| then queue[..n] else queue
    }

    /** From `before` on, the first n messages of the queue have been written and no other. */
    static predicate Drained(before: State, after: State, n: nat) {
      && after.written == before.written + FirstOf(before.queue, n)
      && after.written + after.queue == before.written + before.queue
      && !after.closeCh
    }

    /** The message at the head of the queue has been written or cut, and nothing else has happened to the queue. */
    static predicate TakesHead(before: State, after: State) {
      && before.queue != [] && after.written + after.cut == before.written + [before.queue[0]]
      && (after.cut == [] ==> after.queue == before.queue[1..] && after.closeCh == before.closeCh)
    }

    static lemma DrainsOn(start: State, before: State, after: State, n: nat)
      requires Drained(start, before, n) && after.cut == []
      requires if before.queue != [] then TakesHead(before, after) else after == before
      ensures Drained(start, after, n + 1)
    {
      var done, left := |start.written| + n, start.written + start.queue;
      if before.queue != [] {
        assert after.written == before.written + [before.queue[0]];
        assert after.written + after.queue == before.written + before.queue;
        assert before.written == left[..|before.written|] && after.written == left[..|after.written|];
        assert n < |start.queue| by {
          assert |FirstOf(start.queue, n)| + |before.queue| == |start.queue|;
        }
        assert left[..|start.written| + n + 1] == start.written + start.queue[..n + 1];
      } else {
        assert |FirstOf(start.queue, n)| == |start.queue|;
      }
    }

    /**
     writeLoop, for as many rounds as the scheduler gives it: whatever the others
     do meanwhile, the bytes on the connection are the frames of the messages
     taken off the queue, and every write has been started in time. A message is
     cut only for a reason; and if the others leave the writer alone, it writes a
     message of the queue in each round, until one is cut.
     */
    method WriteLoop(x: Schedule, data: nat -> bytes, clock: nat -> int, setOk: nat -> bool, rounds: nat,
        ghost base: bytes)
      requires Valid() && DeadlineValid() && lastDeadline.None?
      requires state.writer.NotStarted? && state.hasSubscriber && Writer !in state.calls
      requires WireMatches(base, data)
      requires forall i, j | 0 <= i <= j :: clock(i) <= clock(j)
      modifies this, conn`outbound, conn`writes, conn`credit, conn`broken
      ensures Valid() && old(history) <= history && WireMatches(base, data) && DeadlineValid()
      ensures state.cut != [] ==>
                Excused(|old(history)|, setOk, rounds, |data(state.cut[0])|, |base + Frames(state.written, data)|,
                        |old(conn.outbound)| + old(conn.credit), old(conn.broken))
      ensures (forall k :: x.others(k) == []) && !old(state.closeCh) && state.cut == [] ==>
                state.written == old(state.written) + FirstOf(old(state.queue), rounds)
    {
      NothingCutYet(state, history);
      ghost var room, wasBroken := |conn.outbound| + conn.credit, conn.broken;
      Do(WriterStarts);
      var k := 0;
      while k < rounds
        invariant Valid() && old(history) <= history && DeadlineValid()
        invariant state.writer.Waiting? && state.cut == [] && Writer !in state.calls
        invariant lastDeadline.Some? ==> lastDeadline.value <= clock(k)
        invariant WireMatches(base, data) && RoomLeft(room, wasBroken) && k <= rounds
        invariant (forall k :: x.others(k) == []) && !old(state.closeCh) ==> Drained(old(state), state, k)
      {
        ghost var before := state;
        var more := Round(x, data, clock(k), setOk(k), base, k);
        if !more {
          return;
        }
        if (forall k :: x.others(k) == []) && !old(state.closeCh) {
          DrainsOn(old(state), before, state, k);
        }
        assert clock(k) <= clock(k + 1);
        k := k + 1;
      }
    }

    /** One round of writeLoop: the close signal, or a message, or neither is ready yet. */
    method Round(x: Schedule, data: nat -> bytes, now: int, setOk: bool, ghost base: bytes, k: nat) returns (more: bool)
      requires Valid() && DeadlineValid() && state.writer.Waiting? && Writer !in state.calls
      requires state.cut == [] && WireMatches(base, data)
      requires lastDeadline.Some? ==> lastDeadline.value <= now
      modifies this, conn`outbound, conn`writes, conn`credit, conn`broken
      ensures Valid() && old(history) <= history && WireMatches(base, data) && DeadlineValid()
      ensures more ==> state.writer.Waiting? && state.cut == [] && Writer !in state.calls
      ensures more ==> (lastDeadline.Some? ==> lastDeadline.value <= now)
      ensures more ==> RoomLeft(|old(conn.outbound)| + old(conn.credit), old(conn.broken))
      ensures !more && state.cut == [] ==> state.closeCh && state.writer.Exited?
      ensures state.cut != [] ==>
                Since(|old(history)|, FailsOnClosed)
                || (var m := state.cut[0]; !old(Writable(data(m), now, setOk)))
      ensures state.cut != [] ==> state.written == old(state.written) && !more
      ensures x.others(k) == [] && !old(state.closeCh) ==>
                if old(state.queue) != [] then TakesHead(old(state), state) else more && state == old(state)
    {
      Interfere(x.others(k), Writer);
      assert forall d: bytes :: Writable(d, now, setOk) == old(Writable(d, now, setOk));
      if state.closeCh && (x.coin(k) || state.queue == []) {
        Do(WriterStops);
        return false;
      }
      more := true;
      if state.queue != [] {
        more := TakeAndWrite(x, data, now, setOk, base, k);
      }
    }

    /**
     One message: taken off the queue, written, and accounted for; if the write
     fails, Close. It fails only if it could not succeed, or the connection has
     been closed since.
     */
    method TakeAndWrite(x: Schedule, data: nat -> bytes, now: int, setOk: bool, ghost base: bytes, k: nat)
      returns (ok: bool)
      requires Valid() && DeadlineValid() && state.writer.Waiting? && state.queue != [] && Writer !in state.calls
      requires state.cut == [] && WireMatches(base, data)
      requires lastDeadline.Some? ==> lastDeadline.value <= now
      modifies this, conn`outbound, conn`writes, conn`credit, conn`broken
      ensures Valid() && old(history) <= history && WireMatches(base, data) && DeadlineValid()
      ensures ok ==> state.writer.Waiting? && Writer !in state.calls
      ensures ok ==> (lastDeadline.Some? ==> lastDeadline.value <= now)
      ensures ok ==> state.written == old(state.written) + [old(state.queue[0])] && state.cut == []
      ensures ok ==> RoomLeft(|old(conn.outbound)| + old(conn.credit), old(conn.broken))
      ensures !ok ==> state.written == old(state.written) && state.cut == [old(state.queue[0])]
      ensures ok ==> old(Writable(data(state.queue[0]), now, setOk))
      ensures !ok ==> Since(|old(history)|, FailsOnClosed) || !old(Writable(data(state.queue[0]), now, setOk))
      ensures x.others(k) == [] ==> TakesHead(old(state), state)
    {
      var m := Take(x, k);
      ok := WriteUnlessClosed(data(m), now, setOk);
      if ok {
        Succeed(m, data, base);
      } else {
        Fail(m, x, data, base, k);
      }
    }

    /** The queue gives up its head, and the others run before it is written. */
    method Take(x: Schedule, k: nat) returns (m: nat)
      requires Valid() && state.writer.Waiting? && state.queue != [] && Writer !in state.calls
      modifies this`state, this`history
      ensures Valid() && old(history) <= history && state.writer == Writing(m) && Writer !in state.calls
      ensures m == old(state.queue)[0] && state.written == old(state.written) && state.cut == old(state.cut)
      ensures x.others(k) == [] ==> state.queue == old(state.queue)[1..] && state.closeCh == old(state.closeCh)
    {
      m := state.queue[0];
      Do(WriterTakes);
      Interfere(x.others(k), Writer);
    }

    method Fail(m: nat, x: Schedule, data: nat -> bytes, ghost base: bytes, k: nat)
      requires Valid() && state.writer == Writing(m) && state.cut == [] && Writer !in state.calls
      requires exists part :: IsPrefix(part, ServerFrame(data(m))) && part != ServerFrame(data(m))
                           && conn.outbound == base + Frames(state.written, data) + part
      modifies this`state, this`history
      ensures Valid() && old(history) <= history && WireMatches(base, data)
      ensures state.written == old(state.written) && state.cut == [m]
      ensures old(state.connClosed) ==> Since(|old(history)|, FailsOnClosed)
    {
      ghost var before := history;
      Do(WriteFails);
      assert state.cut == [m];
      if old(state.connClosed) {
        Happened(before, WriteFails, FailsOnClosed, |before|);
      }
      var _ := Close(Writer, x, k);
      if old(state.connClosed) {
        StillHappened(before + [WriteFails], FailsOnClosed, |before|);
      }
    }

    /** The write itself, which a connection closed meanwhile refuses. */
    method WriteUnlessClosed(data: bytes, now: int, setOk: bool) returns (ok: bool)
      requires DeadlineValid() && (lastDeadline.Some? ==> lastDeadline.value <= now)
      modifies this`lastDeadline, this`deadline, this`leeway, conn`outbound, conn`writes, conn`credit, conn`broken
      ensures DeadlineValid() && (lastDeadline.Some? ==> lastDeadline.value <= now)
      ensures ok <==> !state.connClosed && old(Writable(data, now, setOk))
      ensures ok ==> conn.outbound == old(conn.outbound) + ServerFrame(data)
      ensures ok ==> RoomLeft(|old(conn.outbound)| + old(conn.credit), old(conn.broken))
      ensures !ok ==> exists part ::
                && IsPrefix(part, ServerFrame(data)) && part != ServerFrame(data)
                && conn.outbound == old(conn.outbound) + part
    {
      if state.connClosed {
        Nothing(conn.outbound, data);
        return false;
      }
      var started;
      ok, started := WriteMessage(data, now, setOk);
    }

    method Succeed(m: nat, data: nat -> bytes, ghost base: bytes)
      requires Valid() && state.writer == Writing(m) && !state.connClosed && state.cut == []
      requires conn.outbound == base + Frames(state.written, data) + ServerFrame(data(m))
      modifies this`state, this`history
      ensures Valid() && old(history) <= history && WireMatches(base, data)
      ensures state.writer.Waiting? && state.cut == [] && state.calls == old(state.calls)
      ensures state.written == old(state.written) + [m]
      ensures state.queue == old(state.queue) && state.closeCh == old(state.closeCh)
    {
      FramesSnoc(state.written, m, data);
      assert base + Frames(state.written, data) + ServerFrame(data(m))
        == base + (Frames(state.written, data) + ServerFrame(data(m)));
      Do(WriteSucceeds);
    }
  }
}
