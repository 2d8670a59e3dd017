/**
 The receiving side of a session, from the broker's queue for its subscription to
 the bytes on its connection, whatever the messages on their way stand for; and the
 proof that this is what the peer of PeerQueue does, action by action.
 */
module Inboxes {
  import opened Bytes
  import opened ProtocolData
  import P = PeerQueue

  /** A message on its way: the index-th that its sender's connection has carried. */
  datatype Envelope = Envelope(src: nat, index: nat, message: ClientMessage, now: int)

  datatype Inbox = Inbox(
    subscribed: bool,
    fifo: seq<Envelope>,     // held by the broker for this subscription
    inHand: seq<Envelope>,   // with the subscription's callback
    queue: seq<Envelope>,    // the peer's writeCh
    writing: seq<Envelope>,  // with the writer
    cut: seq<Envelope>,      // being written when writing failed
    written: seq<Envelope>,
    wire: bytes,             // the bytes written to the recipient
    broken: bool)

  const EMPTY_INBOX: Inbox := Inbox(true, [], [], [], [], [], [], [], false)

  /** What can happen at one receiving side. */
  ghost predicate Local(data: Envelope -> bytes, x: Inbox, y: Inbox) {
    || HandsOver(x, y) || Enqueues(x, y) || DropsDelivery(x, y) || y == x.(subscribed := false)
    || Takes(x, y) || Writes(data, x, y) || IsCutOff(data, x, y) || Refuses(data, x, y)
  }

  /** The broker calls the subscription's callback. */
  predicate HandsOver(x: Inbox, y: Inbox) {
    x.fifo != [] && x.inHand == [] && y == x.(inHand := [x.fifo[0]], fifo := x.fifo[1..])
  }

  predicate Enqueues(x: Inbox, y: Inbox) {
    x.inHand != [] && |x.queue| < P.WRITE_BUFFER_SIZE && y == x.(queue := x.queue + x.inHand, inHand := [])
  }

  predicate DropsDelivery(x: Inbox, y: Inbox) {
    x.inHand != [] && y == x.(inHand := [])
  }

  /** The writer takes a message off the queue. */
  predicate Takes(x: Inbox, y: Inbox) {
    x.queue != [] && x.writing == [] && y == x.(writing := [x.queue[0]], queue := x.queue[1..])
  }

  /** The writer completes a frame. */
  predicate Writes(data: Envelope -> bytes, x: Inbox, y: Inbox) {
    && x.writing != [] && !x.broken && |data(x.writing[0])| <= MAX_MESSAGE_SIZE
    && y == x.(written := x.written + x.writing, writing := [], wire := x.wire + ServerFrame(data(x.writing[0])))
  }

  /** The connection fails in the middle of a frame. */
  ghost predicate IsCutOff(data: Envelope -> bytes, x: Inbox, y: Inbox) {
    && x.writing != [] && !x.broken && |data(x.writing[0])| <= MAX_MESSAGE_SIZE
    && exists part :: IsPrefix(part, ServerFrame(data(x.writing[0])))
         && y == x.(cut := x.writing, writing := [], wire := x.wire + part, broken := true)
  }

  /** The message is too large for a server frame. */
  predicate Refuses(data: Envelope -> bytes, x: Inbox, y: Inbox) {
    x.writing != [] && !x.broken && |data(x.writing[0])| > MAX_MESSAGE_SIZE && y == x.(writing := [], broken := true)
  }

  /** Of any two messages of one sender, the one behind was sent later. */
  predicate InOrder(chain: seq<Envelope>) {
    forall i, j | 0 <= i < j < |chain| && chain[i].src == chain[j].src :: chain[i].index < chain[j].index
  }

  predicate ChainOk(authentic: Envelope -> bool, chain: seq<Envelope>) {
    InOrder(chain) && forall i | 0 <= i < |chain| :: authentic(chain[i])
  }

  function Sent(x: Inbox): seq<Envelope> {
    x.written + x.cut
  }

  /** Everything on its way to a recipient or already with it, first to last. */
  function Chain(x: Inbox): seq<Envelope> {
    (Sent(x) + x.writing) + (x.queue + (x.inHand + x.fifo))
  }

  function Datas(data: Envelope -> bytes, es: seq<Envelope>): (r: seq<bytes>)
    ensures |r| == |es|
    ensures forall i | 0 <= i < |es| :: r[i] == data(es[i])
  {
    seq(|es|, i requires 0 <= i < |es| => data(es[i]))
  }

  /** The bytes written are a prefix of the frames of the messages written, and of the one cut. */
  predicate WireOk(data: Envelope -> bytes, x: Inbox) {
    && |x.writing| <= 1 && |x.inHand| <= 1
    && (forall i | 0 <= i < |Sent(x)| :: |data(Sent(x)[i])| <= MAX_MESSAGE_SIZE)
    && IsPrefix(x.wire, ServerFrames(Datas(data, Sent(x))))
    && (!x.broken ==> x.cut == [] && x.wire == ServerFrames(Datas(data, Sent(x))))
  }

  predicate InboxOk(authentic: Envelope -> bool, data: Envelope -> bytes, x: Inbox) {
    ChainOk(authentic, Chain(x)) && WireOk(data, x)
  }

  lemma AppendKeepsChain(authentic: Envelope -> bool, chain: seq<Envelope>, e: Envelope)
    requires ChainOk(authentic, chain) && authentic(e)
    requires forall i | 0 <= i < |chain| && chain[i].src == e.src :: chain[i].index < e.index
    ensures ChainOk(authentic, chain + [e])
  {
  }

  lemma DropKeepsChain(authentic: Envelope -> bool, front: seq<Envelope>, lost: seq<Envelope>, back: seq<Envelope>)
    requires ChainOk(authentic, front + (lost + back))
    ensures ChainOk(authentic, front + back)
  {
    var chain, rest := front + (lost + back), front + back;
    assert forall k | 0 <= k < |rest| :: rest[k] == chain[if k < |front| then k else k + |lost|];
  }

  lemma PrefixKeepsChain(authentic: Envelope -> bool, front: seq<Envelope>, back: seq<Envelope>)
    requires ChainOk(authentic, front + back)
    ensures ChainOk(authentic, front)
  {
    assert forall k | 0 <= k < |front| :: front[k] == (front + back)[k];
  }

  /** Two steps lose a message; the others only move one on. */
  lemma LocalMoves(data: Envelope -> bytes, x: Inbox, y: Inbox)
    requires WireOk(data, x) && Local(data, x, y) && !DropsDelivery(x, y) && !Refuses(data, x, y)
    ensures Chain(y) == Chain(x)
  {
    if HandsOver(x, y) {
      assert x.fifo == y.inHand + y.fifo && x.inHand + x.fifo == x.fifo;
    } else if Enqueues(x, y) {
      EnqueueMoves(x.queue, x.inHand, x.fifo);
    } else if Takes(x, y) {
      TakeMoves(Sent(x), x.queue, x.inHand + x.fifo);
    } else if Writes(data, x, y) || IsCutOff(data, x, y) {
      assert Sent(y) == x.written + x.writing;
      assert Sent(x) + x.writing == Sent(y) + y.writing;
    }
  }

  lemma EnqueueMoves(queue: seq<Envelope>, inHand: seq<Envelope>, fifo: seq<Envelope>)
    ensures queue + (inHand + fifo) == (queue + inHand) + ([] + fifo)
  {
  }

  lemma TakeMoves(sent: seq<Envelope>, queue: seq<Envelope>, back: seq<Envelope>)
    requires queue != []
    ensures (sent + []) + (queue + back) == (sent + [queue[0]]) + (queue[1..] + back)
  {
    assert queue == [queue[0]] + queue[1..];
    assert (sent + []) + (queue + back) == sent + ([queue[0]] + (queue[1..] + back));
  }

  lemma LocalKeepsChain(authentic: Envelope -> bool, data: Envelope -> bytes, x: Inbox, y: Inbox)
    requires InboxOk(authentic, data, x) && Local(data, x, y)
    ensures ChainOk(authentic, Chain(y))
  {
    var sent, back := Sent(x), x.queue + (x.inHand + x.fifo);
    if DropsDelivery(x, y) {
      var front := (sent + x.writing) + x.queue;
      assert Chain(x) == front + (x.inHand + x.fifo);
      DropKeepsChain(authentic, front, x.inHand, x.fifo);
      assert Chain(y) == front + x.fifo;
    } else if Refuses(data, x, y) {
      assert Chain(x) == sent + (x.writing + back);
      DropKeepsChain(authentic, sent, x.writing, back);
      assert Chain(y) == sent + back;
    } else {
      LocalMoves(data, x, y);
    }
  }

  lemma DatasSnoc(data: Envelope -> bytes, es: seq<Envelope>, e: Envelope)
    ensures ServerFrames(Datas(data, es + [e])) == ServerFrames(Datas(data, es)) + ServerFrame(data(e))
  {
    assert Datas(data, es + [e]) == Datas(data, es) + [data(e)];
    ServerFramesAppend(Datas(data, es), [data(e)]);
    assert [data(e)][1..] == [];
    assert ServerFrames([data(e)]) == ServerFrame(data(e)) + ServerFrames([]);
  }

  lemma LocalKeepsWire(data: Envelope -> bytes, x: Inbox, y: Inbox)
    requires WireOk(data, x) && Local(data, x, y)
    ensures WireOk(data, y)
  {
    if Sent(y) == Sent(x) && y.wire == x.wire {
    } else {
      var e := x.writing[0];
      DatasSnoc(data, Sent(x), e);
      assert Sent(y) == Sent(x) + [e];
    }
  }

  /** An inbox is fine under any reading of envelopes that agrees with the old one. */
  lemma Reinterpret(f: Envelope -> bool, g: Envelope -> bool, d: Envelope -> bytes, d': Envelope -> bytes, x: Inbox)
    requires InboxOk(f, d, x)
    requires forall e | f(e) :: g(e) && d'(e) == d(e)
    ensures InboxOk(g, d', x)
  {
    forall i | 0 <= i < |Sent(x)| ensures d'(Sent(x)[i]) == d(Sent(x)[i]) {
      assert Sent(x)[i] == Chain(x)[i];
    }
    assert Datas(d', Sent(x)) == Datas(d, Sent(x));
  }

  // --- the receiving side is what PeerQueue does -------------------------------------------

  predicate Below(ms: seq<nat>, n: nat) {
    forall i | 0 <= i < |ms| :: ms[i] < n
  }

  /** The envelopes with these numbers. */
  function Pick(all: seq<Envelope>, ms: seq<nat>): seq<Envelope>
    requires Below(ms, |all|)
  {
    seq(|ms|, i requires 0 <= i < |ms| => all[ms[i]])
  }

  /** All the numbers in a state are of messages handed over. */
  predicate Numbered(q: P.State, n: nat) {
    && Below(q.written, n) && Below(q.cut, n) && Below(P.InWriter(q), n)
    && Below(q.queue, n) && Below(P.InDelivery(q), n)
  }

  lemma AllNumbered(q: P.State)
    requires P.Inv(q)
    ensures Numbered(q, q.delivered)
  {
    PartsBelow(q.written, q.cut, P.InWriter(q), q.queue, q.delivered);
  }

  lemma PartsBelow(a: seq<nat>, b: seq<nat>, c: seq<nat>, d: seq<nat>, n: nat)
    requires Below(a + b + c + d, n)
    ensures Below(a, n) && Below(b, n) && Below(c, n) && Below(d, n)
  {
    var e := a + b + c + d;
    assert forall i | 0 <= i < |a| :: a[i] == e[i];
    assert forall i | 0 <= i < |b| :: b[i] == e[|a| + i];
    assert forall i | 0 <= i < |c| :: c[i] == e[|a| + |b| + i];
    assert forall i | 0 <= i < |d| :: d[i] == e[|a| + |b| + |c| + i];
  }

  /** A failed write that has put nothing on the wire, the message being too large for a frame. */
  function CutFrames(data: Envelope -> bytes, es: seq<Envelope>): seq<Envelope> {
    if es != [] && |data(es[0])| > MAX_MESSAGE_SIZE then [] else es
  }

  /** A peer's state as an inbox: `all` is everything published to its subscription, in order. */
  function View(data: Envelope -> bytes, q: P.State, all: seq<Envelope>, wire: bytes): Inbox
    requires q.delivered <= |all| && Numbered(q, |all|)
  {
    Inbox(q.subscribed, all[q.delivered..], Pick(all, P.InDelivery(q)), Pick(all, q.queue), Pick(all, P.InWriter(q)),
          CutFrames(data, Pick(all, q.cut)), Pick(all, q.written), wire, q.cut != [])
  }

  /** What an action of the peer puts on the wire; the writer's two are as Peer.WriteMessage has them. */
  ghost predicate WireStep(data: Envelope -> bytes, q: P.State, a: P.Action, all: seq<Envelope>, wire: bytes,
      wire': bytes)
    requires P.Enabled(q, a) && Numbered(q, |all|)
  {
    if a.WriteSucceeds? then
      var d := data(all[P.InWriter(q)[0]]);
      |d| <= MAX_MESSAGE_SIZE && wire' == wire + ServerFrame(d)
    else if a.WriteFails? then
      var d := data(all[P.InWriter(q)[0]]);
      if |d| > MAX_MESSAGE_SIZE then wire' == wire
      else exists part :: IsPrefix(part, ServerFrame(d)) && wire' == wire + part
    else wire' == wire
  }

  /** The step from q to q' is a step of the inbox, or none at all. */
  ghost predicate Refines(
    data: Envelope -> bytes, q: P.State, q': P.State, all: seq<Envelope>, wire: bytes, wire': bytes)
    requires q.delivered <= |all| && Numbered(q, |all|) && q'.delivered <= |all| && Numbered(q', |all|)
  {
    var x, y := View(data, q, all, wire), View(data, q', all, wire');
    y == x || Local(data, x, y)
  }

  lemma NextIsNumbered(q: P.State, a: P.Action, n: nat)
    requires P.Inv(q) && P.Enabled(q, a) && q.delivered <= n && (a.NatsDelivers? ==> q.delivered < n)
    ensures P.Apply(q, a).delivered <= n && Numbered(P.Apply(q, a), n)
  {
    P.StepKeepsInv(q, a);
    P.StepSettles(q, a);
    AllNumbered(P.Apply(q, a));
    assert P.Apply(q, a).delivered == if a.NatsDelivers? then q.delivered + 1 else q.delivered;
  }

  /** Every action of a peer's goroutines is a step of its inbox, or none at all. */
  lemma QueueRefines(data: Envelope -> bytes, q: P.State, a: P.Action, all: seq<Envelope>, wire: bytes, wire': bytes)
    requires P.Inv(q) && P.Enabled(q, a) && q.delivered <= |all| && Numbered(q, |all|)
    requires a.NatsDelivers? ==> q.delivered < |all|
    requires WireStep(data, q, a, all, wire, wire')
    ensures P.Apply(q, a).delivered <= |all| && Numbered(P.Apply(q, a), |all|)
    ensures Refines(data, q, P.Apply(q, a), all, wire, wire')
  {
    NextIsNumbered(q, a, |all|);
    if a.NatsDelivers? {
      DeliversRefines(data, q, all, wire);
    } else if a.SelectSend? {
      SendRefines(data, q, all, wire);
    } else if a.WriterTakes? {
      TakeRefines(data, q, all, wire);
    } else if a.WriteSucceeds? {
      SuccessRefines(data, q, all, wire, wire');
    } else if a.WriteFails? {
      FailureRefines(data, q, all, wire, wire');
    } else {
      OtherRefines(data, q, a, all, wire);
    }
  }

  /**
   The actions that touch neither queue nor wire: they lose the message in hand,
   end the subscription or change nothing here.
   */
  lemma OtherRefines(data: Envelope -> bytes, q: P.State, a: P.Action, all: seq<Envelope>, wire: bytes)
    requires P.Enabled(q, a) && q.delivered <= |all| && Numbered(q, |all|)
    requires !a.NatsDelivers? && !a.SelectSend? && !a.WriterTakes? && !a.WriteSucceeds? && !a.WriteFails?
    requires P.OnceInv(q)
    requires P.Apply(q, a).delivered <= |all| && Numbered(P.Apply(q, a), |all|)
    ensures Refines(data, q, P.Apply(q, a), all, wire, wire)
  {
    if a.SelectClosed? || a.RecheckClosed? || a.RecheckOpen? {
      DropRefines(data, q, a, all, wire);
    } else if a.Unsubscribe? {
      assert P.InDelivery(P.Apply(q, a)) == P.InDelivery(q) && P.InWriter(P.Apply(q, a)) == P.InWriter(q);
    } else {
      StutterRefines(data, q, a, all, wire);
    }
  }

  lemma DropRefines(data: Envelope -> bytes, q: P.State, a: P.Action, all: seq<Envelope>, wire: bytes)
    requires P.Enabled(q, a) && q.delivered <= |all| && Numbered(q, |all|)
    requires a.SelectClosed? || a.RecheckClosed? || a.RecheckOpen?
    requires P.Apply(q, a).delivered <= |all| && Numbered(P.Apply(q, a), |all|)
    ensures Refines(data, q, P.Apply(q, a), all, wire, wire)
  {
    assert DropsDelivery(View(data, q, all, wire), View(data, P.Apply(q, a), all, wire));
  }

  lemma StutterRefines(data: Envelope -> bytes, q: P.State, a: P.Action, all: seq<Envelope>, wire: bytes)
    requires P.Enabled(q, a) && q.delivered <= |all| && Numbered(q, |all|) && P.OnceInv(q)
    requires !a.NatsDelivers? && !a.SelectSend? && !a.WriterTakes? && !a.WriteSucceeds? && !a.WriteFails?
    requires !a.SelectClosed? && !a.RecheckClosed? && !a.RecheckOpen? && !a.Unsubscribe?
    requires P.Apply(q, a).delivered <= |all| && Numbered(P.Apply(q, a), |all|)
    ensures View(data, P.Apply(q, a), all, wire) == View(data, q, all, wire)
  {
    var q' := P.Apply(q, a);
    assert P.InDelivery(q') == P.InDelivery(q) && P.InWriter(q') == P.InWriter(q);
  }

  lemma DeliversRefines(data: Envelope -> bytes, q: P.State, all: seq<Envelope>, wire: bytes)
    requires P.Inv(q) && P.Enabled(q, P.NatsDelivers) && q.delivered < |all| && Numbered(q, |all|)
    requires Numbered(P.Apply(q, P.NatsDelivers), |all|)
    ensures Refines(data, q, P.Apply(q, P.NatsDelivers), all, wire, wire)
  {
    assert HandsOver(View(data, q, all, wire), View(data, P.Apply(q, P.NatsDelivers), all, wire));
  }

  lemma SendRefines(data: Envelope -> bytes, q: P.State, all: seq<Envelope>, wire: bytes)
    requires P.Inv(q) && P.Enabled(q, P.SelectSend) && q.delivered <= |all| && Numbered(q, |all|)
    requires Numbered(P.Apply(q, P.SelectSend), |all|)
    ensures Refines(data, q, P.Apply(q, P.SelectSend), all, wire, wire)
  {
    PickAppend(all, q.queue, P.InDelivery(q));
    assert Enqueues(View(data, q, all, wire), View(data, P.Apply(q, P.SelectSend), all, wire));
  }

  lemma TakeRefines(data: Envelope -> bytes, q: P.State, all: seq<Envelope>, wire: bytes)
    requires P.Inv(q) && P.Enabled(q, P.WriterTakes) && q.delivered <= |all| && Numbered(q, |all|)
    requires Numbered(P.Apply(q, P.WriterTakes), |all|)
    ensures Refines(data, q, P.Apply(q, P.WriterTakes), all, wire, wire)
  {
    assert Pick(all, q.queue)[1..] == Pick(all, q.queue[1..]);
    assert Pick(all, [q.queue[0]]) == [Pick(all, q.queue)[0]];
    assert Takes(View(data, q, all, wire), View(data, P.Apply(q, P.WriterTakes), all, wire));
  }

  lemma SuccessRefines(data: Envelope -> bytes, q: P.State, all: seq<Envelope>, wire: bytes, wire': bytes)
    requires P.InOrder(q) && P.Enabled(q, P.WriteSucceeds)
    requires q.delivered <= |all| && Numbered(q, |all|) && Numbered(P.Apply(q, P.WriteSucceeds), |all|)
    requires WireStep(data, q, P.WriteSucceeds, all, wire, wire')
    ensures Refines(data, q, P.Apply(q, P.WriteSucceeds), all, wire, wire')
  {
    PickAppend(all, q.written, P.InWriter(q));
    assert Writes(data, View(data, q, all, wire), View(data, P.Apply(q, P.WriteSucceeds), all, wire'));
  }

  lemma FailureRefines(data: Envelope -> bytes, q: P.State, all: seq<Envelope>, wire: bytes, wire': bytes)
    requires P.InOrder(q) && P.Enabled(q, P.WriteFails)
    requires q.delivered <= |all| && Numbered(q, |all|) && Numbered(P.Apply(q, P.WriteFails), |all|)
    requires WireStep(data, q, P.WriteFails, all, wire, wire')
    ensures Refines(data, q, P.Apply(q, P.WriteFails), all, wire, wire')
  {
    assert P.Apply(q, P.WriteFails).cut == P.InWriter(q);
    assert Pick(all, P.InWriter(q)) == [all[q.writer.m]];
    var x, y := View(data, q, all, wire), View(data, P.Apply(q, P.WriteFails), all, wire');
    assert IsCutOff(data, x, y) || Refuses(data, x, y);
  }

  lemma PickAppend(all: seq<Envelope>, a: seq<nat>, b: seq<nat>)
    requires Below(a, |all|) && Below(b, |all|)
    ensures Below(a + b, |all|) && Pick(all, a + b) == Pick(all, a) + Pick(all, b)
  {
    var s, t := Pick(all, a + b), Pick(all, a) + Pick(all, b);
    assert forall i | 0 <= i < |s| :: s[i] == t[i];
  }

  /** A new peer is an empty inbox, and a publication joins its broker's queue. */
  lemma PublicationRefines(data: Envelope -> bytes, q: P.State, all: seq<Envelope>, wire: bytes, e: Envelope)
    requires q.delivered <= |all| && Numbered(q, |all|)
    ensures View(data, P.INIT, [], []) == EMPTY_INBOX
    ensures var x := View(data, q, all, wire); View(data, q, all + [e], wire) == x.(fifo := x.fifo + [e])
  {
    assert forall ms | Below(ms, |all|) :: Pick(all + [e], ms) == Pick(all, ms);
  }
}
