/**
 The whole system at work: any number of clients are authenticated and send any
 bytes they like; their handlers relay, in any interleaving; the broker keeps one
 queue per subscription; peers queue, write, fail and lose messages; and recipients
 read whatever part of their stream has reached them.

 Assumed of the broker: it is published to by routers only, and delivers to each
 subscription, in the order of publication, at most once.
 */
module RelaySystem {
  import opened Bytes
  import opened ProtocolAuth
  import opened ProtocolData
  import opened Inboxes
  import Hex
  import Wire
  import A = Agreement
  import C = ClientAuth
  import S = ServerAuth
  import R = RouterMessage
  import Relay
  import ClientLoops

  /**
   An accepted connection: its key, the handshake it was accepted for, what has
   arrived since, and what of it has been relayed.
   */
  datatype Session = Session(
    key: bytes, serverId: bytes, env: S.Env, handshake: bytes, input: bytes, relayed: seq<ClientMessage>)

  datatype System = System(sessions: map<nat, Session>, inboxes: map<nat, Inbox>)

  // --- senders ---------------------------------------------------------------------------

  /** How much of its stream a session has handled. */
  function Position(x: Session): nat {
    |ClientFrames(x.relayed)|
  }

  /** A message the router relays. */
  predicate Relayable(max: nat, m: ClientMessage) {
    R.Acceptable(m) && Wire.IsUtf8(m.id) && TotalLen(m) <= max
  }

  /** The connection really was accepted under its key, and its stream follows the handshake. */
  predicate Authenticated(verify: S.Verifier, x: Session) {
    && x.env.Valid() && |x.serverId| == SERVER_ID_SIZE
    && var t := S.Run(x.handshake + x.input, x.serverId, x.env, verify);
       t.outcome == S.Accepted(x.key) && t.rest == x.input
  }

  /** What has been relayed is whole frames, the stream's first. */
  predicate RelaysItsStream(max: nat, x: Session) {
    (forall m | m in x.relayed :: Relayable(max, m)) && IsPrefix(ClientFrames(x.relayed), x.input)
  }

  predicate SessionOk(max: nat, verify: S.Verifier, x: Session) {
    Authenticated(verify, x) && RelaysItsStream(max, x) && |x.key| == PUBLIC_KEY_SIZE
  }

  /** The messages relayed are the first messages of the stream, each exactly once. */
  lemma RelayedAreFirst(max: nat, x: Session)
    requires max < U32_LIMIT && RelaysItsStream(max, x)
    ensures x.relayed <= ParseFrames(x.input, max).0
  {
    var rest := x.input[Position(x)..];
    assert x.input == ClientFrames(x.relayed) + rest;
    ParseFramesFirst(x.relayed, rest, max);
  }

  // --- what an envelope stands for -------------------------------------------------------

  /** e is a message its sender's session has relayed, and addressed to r. */
  predicate Authentic(max: nat, s: System, r: nat, e: Envelope) {
    && e.src in s.sessions && r in s.sessions && Wire.IsInt64(e.now)
    && var x := s.sessions[e.src];
    && |x.key| == PUBLIC_KEY_SIZE && Relayable(max, e.message)
    && e.index < |x.relayed| && x.relayed[e.index] == e.message
    && e.message.to == Hex.Encode(s.sessions[r].key)
  }

  /** What the recipient should see: From is the key the sender's session was authenticated with. */
  function Content(s: System, e: Envelope): Wire.Message {
    if e.src in s.sessions then Relay.Delivered(s.sessions[e.src].key, e.message, e.now) else Wire.EMPTY
  }

  function Data(s: System, e: Envelope): bytes {
    if e.src in s.sessions && Wire.IsInt64(e.now) then Wire.EncodeMessage(Content(s, e)) else []
  }

  function AuthenticAt(max: nat, s: System, r: nat): Envelope -> bool {
    e => Authentic(max, s, r, e)
  }

  function DataIn(s: System): Envelope -> bytes {
    e => Data(s, e)
  }

  function ContentIn(s: System): Envelope -> Wire.Message {
    e => Content(s, e)
  }

  // --- steps of the system ---------------------------------------------------------------

  /** A connection is authenticated and subscribed; whatever followed the handshake is its first input. */
  ghost predicate Join(
    verify: S.Verifier, a: System, b: System, i: nat, bytesIn: bytes, serverId: bytes, env: S.Env)
  {
    && i !in a.sessions && i !in a.inboxes && env.Valid() && |serverId| == SERVER_ID_SIZE
    && var t := S.Run(bytesIn, serverId, env, verify);
    && t.outcome.Accepted? && |t.rest| <= |bytesIn|
    && var x := Session(t.outcome.pubKey, serverId, env, bytesIn[..|bytesIn| - |t.rest|], t.rest, []);
    && b == System(a.sessions[i := x], a.inboxes[i := EMPTY_INBOX])
  }

  /** More of a sender's stream arrives. */
  ghost predicate Arrive(a: System, b: System, i: nat, data: bytes) {
    && i in a.sessions
    && b == a.(sessions := a.sessions[i := a.sessions[i].(input := a.sessions[i].input + data)])
  }

  /** Whether a publication on this subject reaches inbox r. */
  predicate Reaches(s: System, r: nat, subject: bytes) {
    r in s.sessions && r in s.inboxes && s.inboxes[r].subscribed
      && Hex.Subject(Hex.Encode(s.sessions[r].key)) == subject
  }

  /** What session i's handler does with the next message of its stream. */
  function Effect(max: nat, x: Session, now: int): R.Effect
    requires Position(x) <= |x.input| && Wire.IsInt64(now)
  {
    R.Handle(x.input[Position(x)..], max, Hex.Encode(x.key), now, true)
  }

  /** The handler of session i relays the next message of its stream, m, to every subscription of its recipient. */
  ghost predicate Publish(max: nat, a: System, b: System, i: nat, m: ClientMessage, now: int) {
    && i in a.sessions && Position(a.sessions[i]) <= |a.sessions[i].input| && Wire.IsInt64(now)
    && var x := a.sessions[i];
    && var effect := Effect(max, x, now);
    && effect.problem == None && R.Accept(x.input[Position(x)..], max) == Done(m, effect.rest)
    && b.sessions == a.sessions[i := x.(relayed := x.relayed + [m])]
    && b.inboxes == map r | r in a.inboxes :: Post(a, r, effect.published[0].subject, Envelope(i, |x.relayed|, m, now))
  }

  function Post(s: System, r: nat, subject: bytes, e: Envelope): Inbox
    requires r in s.inboxes
  {
    if Reaches(s, r, subject) then s.inboxes[r].(fifo := s.inboxes[r].fifo + [e]) else s.inboxes[r]
  }

  ghost predicate Receive(a: System, b: System, r: nat, y: Inbox) {
    r in a.inboxes && Local(DataIn(a), a.inboxes[r], y) && b == a.(inboxes := a.inboxes[r := y])
  }

  ghost predicate Next(max: nat, verify: S.Verifier, a: System, b: System) {
    || (exists i, bytesIn, serverId, env :: Join(verify, a, b, i, bytesIn, serverId, env))
    || (exists i, data :: Arrive(a, b, i, data))
    || (exists i, m, now :: Publish(max, a, b, i, m, now))
    || (exists r, y :: Receive(a, b, r, y))
  }

  ghost predicate IsRun(max: nat, verify: S.Verifier, run: seq<System>) {
    && run != [] && run[0] == System(map[], map[])
    && forall i | 0 < i < |run| :: Next(max, verify, run[i - 1], run[i])
  }

  // --- the invariant ---------------------------------------------------------------------

  function OkIn(max: nat, verify: S.Verifier): Session -> bool {
    x => SessionOk(max, verify, x)
  }

  predicate AllOk(ok: Session -> bool, sessions: map<nat, Session>) {
    forall i | i in sessions :: ok(sessions[i])
  }

  predicate SessionsOk(max: nat, verify: S.Verifier, s: System) {
    s.inboxes.Keys == s.sessions.Keys && AllOk(OkIn(max, verify), s.sessions)
  }

  function FineIn(max: nat, s: System): (nat, Inbox) -> bool {
    (r: nat, x: Inbox) => InboxOk(AuthenticAt(max, s, r), DataIn(s), x)
  }

  predicate AllFine(fine: (nat, Inbox) -> bool, inboxes: map<nat, Inbox>) {
    forall r | r in inboxes :: fine(r, inboxes[r])
  }

  predicate Inv(max: nat, verify: S.Verifier, s: System) {
    SessionsOk(max, verify, s) && AllFine(FineIn(max, s), s.inboxes)
  }

  lemma UpdateFine(fine: (nat, Inbox) -> bool, inboxes: map<nat, Inbox>, i: nat, y: Inbox)
    requires AllFine(fine, inboxes) && fine(i, y)
    ensures AllFine(fine, inboxes[i := y])
  {
  }

  /** Sessions keep their keys, and what they have relayed only grows. */
  predicate Grows(a: System, b: System) {
    forall i | i in a.sessions ::
      i in b.sessions && b.sessions[i].key == a.sessions[i].key && a.sessions[i].relayed <= b.sessions[i].relayed
  }

  lemma AuthenticGrows(max: nat, a: System, b: System, r: nat, e: Envelope)
    requires Grows(a, b) && Authentic(max, a, r, e)
    ensures Authentic(max, b, r, e) && Data(b, e) == Data(a, e)
  {
  }

  lemma InboxGrows(max: nat, a: System, b: System, r: nat, x: Inbox)
    requires Grows(a, b) && FineIn(max, a)(r, x)
    ensures FineIn(max, b)(r, x)
  {
    forall e | AuthenticAt(max, a, r)(e) ensures AuthenticAt(max, b, r)(e) && DataIn(b)(e) == DataIn(a)(e) {
      AuthenticGrows(max, a, b, r, e);
    }
    Reinterpret(AuthenticAt(max, a, r), AuthenticAt(max, b, r), DataIn(a), DataIn(b), x);
  }

  lemma InboxesGrow(max: nat, a: System, b: System, inboxes: map<nat, Inbox>)
    requires Grows(a, b) && AllFine(FineIn(max, a), inboxes)
    ensures AllFine(FineIn(max, b), inboxes)
  {
    forall r | r in inboxes ensures FineIn(max, b)(r, inboxes[r]) {
      InboxGrows(max, a, b, r, inboxes[r]);
    }
  }

  /** One session is new or goes on; every old inbox stays fine. */
  lemma SessionGoesOn(max: nat, verify: S.Verifier, a: System, b: System, i: nat, x: Session)
    requires Inv(max, verify, a) && SessionOk(max, verify, x) && b.sessions == a.sessions[i := x]
    requires i in a.sessions ==> x.key == a.sessions[i].key && a.sessions[i].relayed <= x.relayed
    ensures AllOk(OkIn(max, verify), b.sessions)
    ensures AllFine(FineIn(max, b), a.inboxes)
  {
    UpdateKeeps(OkIn(max, verify), a.sessions, i, x);
    UpdateGrows(a, b, i, x);
    InboxesGrow(max, a, b, a.inboxes);
  }

  lemma UpdateKeeps(ok: Session -> bool, sessions: map<nat, Session>, i: nat, x: Session)
    requires AllOk(ok, sessions) && ok(x)
    ensures AllOk(ok, sessions[i := x])
  {
  }

  lemma UpdateGrows(a: System, b: System, i: nat, x: Session)
    requires b.sessions == a.sessions[i := x]
    requires i in a.sessions ==> x.key == a.sessions[i].key && a.sessions[i].relayed <= x.relayed
    ensures Grows(a, b)
  {
  }

  lemma EmptyInboxOk(max: nat, s: System, r: nat)
    ensures FineIn(max, s)(r, EMPTY_INBOX)
  {
    assert Datas(DataIn(s), Sent(EMPTY_INBOX)) == [];
  }

  /** A session starts out authenticated, with nothing relayed. */
  lemma JoinedIsOk(max: nat, verify: S.Verifier, bytesIn: bytes, serverId: bytes, env: S.Env)
    requires env.Valid() && |serverId| == SERVER_ID_SIZE && S.Run(bytesIn, serverId, env, verify).outcome.Accepted?
    ensures var t := S.Run(bytesIn, serverId, env, verify);
            && |t.rest| <= |bytesIn|
            && SessionOk(max, verify,
              Session(t.outcome.pubKey, serverId, env, bytesIn[..|bytesIn| - |t.rest|], t.rest, []))
  {
    var t := S.Run(bytesIn, serverId, env, verify);
    S.AcceptedExact(bytesIn, serverId, env, verify, t.outcome.pubKey);
    assert bytesIn[..98] + t.rest == bytesIn;
  }

  lemma JoinKeeps(
    max: nat, verify: S.Verifier, a: System, b: System, i: nat, bytesIn: bytes, serverId: bytes, env: S.Env)
    requires Inv(max, verify, a) && Join(verify, a, b, i, bytesIn, serverId, env)
    ensures Inv(max, verify, b)
  {
    JoinedIsOk(max, verify, bytesIn, serverId, env);
    SessionGoesOn(max, verify, a, b, i, b.sessions[i]);
    EmptyInboxOk(max, b, i);
    UpdateFine(FineIn(max, b), a.inboxes, i, EMPTY_INBOX);
  }

  lemma ArrivedIsOk(max: nat, verify: S.Verifier, x: Session, data: bytes)
    requires SessionOk(max, verify, x)
    ensures SessionOk(max, verify, x.(input := x.input + data))
  {
    Assoc(x.handshake, x.input, data);
    S.AcceptanceIsStable(x.handshake + x.input, data, x.serverId, x.env, verify);
  }

  lemma ArriveKeeps(max: nat, verify: S.Verifier, a: System, b: System, i: nat, data: bytes)
    requires Inv(max, verify, a) && Arrive(a, b, i, data)
    ensures Inv(max, verify, b)
  {
    assert OkIn(max, verify)(a.sessions[i]);
    ArrivedIsOk(max, verify, a.sessions[i], data);
    SessionGoesOn(max, verify, a, b, i, b.sessions[i]);
  }

  /** What handling the next message means: it is a frame at the current position, and that moves past it. */
  lemma Handled(max: nat, x: Session, m: ClientMessage, now: int)
    requires max < U32_LIMIT && RelaysItsStream(max, x) && Wire.IsInt64(now) && |x.key| == PUBLIC_KEY_SIZE
    requires Effect(max, x, now).problem == None
        && R.Accept(x.input[Position(x)..], max) == Done(m, Effect(max, x, now).rest)
    ensures Effect(max, x, now).published[0].subject == Hex.Subject(m.to)
    ensures RelaysItsStream(max, x.(relayed := x.relayed + [m])) && Relayable(max, m)
  {
    var s, rest := x.input[Position(x)..], Effect(max, x, now).rest;
    R.RefinesDecoder(s, max, m, rest);
    ParseFrameExact(s, max, m, rest);
    Relay.RelayedExact(x.key, m, now);
    ClientFramesAppend(x.relayed, [m]);
    OneFrame(m);
    NextPrefix(x.input, ClientFrames(x.relayed), ClientFrame(m), rest);
  }

  lemma OneFrame(m: ClientMessage)
    ensures ClientFrames([m]) == ClientFrame(m)
  {
    assert [m][1..] == [];
  }

  lemma NextPrefix(s: bytes, p: bytes, q: bytes, rest: bytes)
    requires IsPrefix(p, s) && s[|p|..] == q + rest
    ensures IsPrefix(p + q, s)
  {
    assert s == p + (q + rest);
  }

  /** A publication reaches exactly the subscriptions of the key its recipient spells. */
  lemma PublishReaches(max: nat, verify: S.Verifier, a: System, b: System, i: nat, m: ClientMessage, now: int, r: nat)
    requires max < U32_LIMIT && SessionsOk(max, verify, a) && Publish(max, a, b, i, m, now) && r in a.inboxes
    ensures Hex.IsValidKey(m.to)
    ensures var x := a.inboxes[r];
            var named := Hex.Decode(m.to) == a.sessions[r].key && forall k | 0 <= k < |m.to| :: !Hex.IsUpper(m.to[k]);
            b.inboxes[r] == if x.subscribed && named
                            then x.(fifo := x.fifo + [Envelope(i, |a.sessions[i].relayed|, m, now)]) else x
  {
    assert OkIn(max, verify)(a.sessions[r]);
    PublishPosts(max, verify, a, b, i, m, now);
    Hex.Addressing(m.to, a.sessions[r].key);
  }

  /** What a publication does to the system, with the handler's parsing behind it. */
  ghost predicate Posts(a: System, b: System, x: Session, e: Envelope) {
    && b.sessions == a.sessions[e.src := x]
    && b.inboxes == map r | r in a.inboxes :: Post(a, r, Hex.Subject(e.message.to), e)
  }

  lemma PublishPosts(max: nat, verify: S.Verifier, a: System, b: System, i: nat, m: ClientMessage, now: int)
    requires max < U32_LIMIT && SessionsOk(max, verify, a) && Publish(max, a, b, i, m, now)
    ensures var x := a.sessions[i];
            var x' := x.(relayed := x.relayed + [m]);
            SessionOk(max, verify, x') && Relayable(max, m) && Posts(a, b, x', Envelope(i, |x.relayed|, m, now))
  {
    assert OkIn(max, verify)(a.sessions[i]);
    Handled(max, a.sessions[i], m, now);
  }

  lemma PostsKeep(max: nat, a: System, b: System, x: Session, e: Envelope)
    requires AllFine(FineIn(max, a), a.inboxes) && AllFine(FineIn(max, b), a.inboxes)
    requires Posts(a, b, x, e)
    requires e.src in a.sessions && x.key == a.sessions[e.src].key && Wire.IsInt64(e.now)
    requires Relayable(max, e.message) && |x.key| == PUBLIC_KEY_SIZE
    requires e.index == |a.sessions[e.src].relayed| && x.relayed == a.sessions[e.src].relayed + [e.message]
    ensures AllFine(FineIn(max, b), b.inboxes)
  {
    forall r | r in b.inboxes ensures FineIn(max, b)(r, b.inboxes[r]) {
      PostsKeepOne(max, a, b, x, e, r);
    }
  }

  lemma PostsKeepOne(max: nat, a: System, b: System, x: Session, e: Envelope, r: nat)
    requires AllFine(FineIn(max, a), a.inboxes) && AllFine(FineIn(max, b), a.inboxes)
    requires Posts(a, b, x, e) && r in a.inboxes
    requires e.src in a.sessions && x.key == a.sessions[e.src].key && Wire.IsInt64(e.now)
    requires Relayable(max, e.message) && |x.key| == PUBLIC_KEY_SIZE
    requires e.index == |a.sessions[e.src].relayed| && x.relayed == a.sessions[e.src].relayed + [e.message]
    ensures FineIn(max, b)(r, b.inboxes[r])
  {
    assert FineIn(max, b)(r, a.inboxes[r]);
    if Reaches(a, r, Hex.Subject(e.message.to)) {
      PostedIsAuthentic(max, a, b, x, e, r);
      assert FineIn(max, a)(r, a.inboxes[r]);
      PostKeeps(max, a, b, r, a.inboxes[r], e);
    }
  }

  lemma PostedIsAuthentic(max: nat, a: System, b: System, x: Session, e: Envelope, r: nat)
    requires Posts(a, b, x, e) && Reaches(a, r, Hex.Subject(e.message.to))
    requires e.src in a.sessions && x.key == a.sessions[e.src].key && Wire.IsInt64(e.now)
    requires Relayable(max, e.message) && |x.key| == PUBLIC_KEY_SIZE
    requires e.index == |a.sessions[e.src].relayed| && x.relayed == a.sessions[e.src].relayed + [e.message]
    ensures Authentic(max, b, r, e)
  {
    SubjectNamesKey(e.message.to, a.sessions[r].key);
  }

  lemma PublishKeeps(max: nat, verify: S.Verifier, a: System, b: System, i: nat, m: ClientMessage, now: int)
    requires max < U32_LIMIT && Inv(max, verify, a) && Publish(max, a, b, i, m, now)
    ensures Inv(max, verify, b)
  {
    var x := a.sessions[i];
    var x' := x.(relayed := x.relayed + [m]);
    PublishPosts(max, verify, a, b, i, m, now);
    SessionGoesOn(max, verify, a, b, i, x');
    PostsKeep(max, a, b, x', Envelope(i, |x.relayed|, m, now));
  }

  lemma SubjectNamesKey(to: bytes, key: bytes)
    requires Hex.Subject(Hex.Encode(key)) == Hex.Subject(to)
    ensures to == Hex.Encode(key)
  {
    assert to == Hex.Subject(to)[|Hex.SUBJECT_PREFIX|..] == Hex.Subject(Hex.Encode(key))[|Hex.SUBJECT_PREFIX|..];
  }

  lemma EarlierMessages(max: nat, s: System, r: nat, x: Inbox, i: nat)
    requires FineIn(max, s)(r, x) && i in s.sessions
    ensures forall k | 0 <= k < |Chain(x)| && Chain(x)[k].src == i :: Chain(x)[k].index < |s.sessions[i].relayed|
  {
    forall k | 0 <= k < |Chain(x)| && Chain(x)[k].src == i ensures Chain(x)[k].index < |s.sessions[i].relayed| {
      assert AuthenticAt(max, s, r)(Chain(x)[k]);
    }
  }

  lemma PostKeeps(max: nat, a: System, b: System, r: nat, x: Inbox, e: Envelope)
    requires FineIn(max, a)(r, x) && FineIn(max, b)(r, x) && Authentic(max, b, r, e)
    requires e.src in a.sessions && e.index == |a.sessions[e.src].relayed|
    ensures FineIn(max, b)(r, x.(fifo := x.fifo + [e]))
  {
    EarlierMessages(max, a, r, x, e.src);
    AppendKeepsChain(AuthenticAt(max, b, r), Chain(x), e);
    assert Chain(x.(fifo := x.fifo + [e])) == Chain(x) + [e];
  }

  lemma ReceiveKeeps(max: nat, verify: S.Verifier, a: System, b: System, r: nat, y: Inbox)
    requires Inv(max, verify, a) && Receive(a, b, r, y)
    ensures Inv(max, verify, b)
  {
    assert FineIn(max, a)(r, a.inboxes[r]);
    LocalKeepsFine(max, a, r, a.inboxes[r], y);
    UpdateFine(FineIn(max, a), a.inboxes, r, y);
    InboxesGrow(max, a, b, b.inboxes);
  }

  lemma LocalKeepsFine(max: nat, s: System, r: nat, x: Inbox, y: Inbox)
    requires FineIn(max, s)(r, x) && Local(DataIn(s), x, y)
    ensures FineIn(max, s)(r, y)
  {
    LocalKeepsChain(AuthenticAt(max, s, r), DataIn(s), x, y);
    LocalKeepsWire(DataIn(s), x, y);
  }

  lemma StepKeepsInv(max: nat, verify: S.Verifier, a: System, b: System)
    requires max < U32_LIMIT && Inv(max, verify, a) && Next(max, verify, a, b)
    ensures Inv(max, verify, b)
  {
    if i, bytesIn, serverId, env :| Join(verify, a, b, i, bytesIn, serverId, env) {
      JoinKeeps(max, verify, a, b, i, bytesIn, serverId, env);
    } else if i, data :| Arrive(a, b, i, data) {
      ArriveKeeps(max, verify, a, b, i, data);
    } else if i, m, now :| Publish(max, a, b, i, m, now) {
      PublishKeeps(max, verify, a, b, i, m, now);
    } else {
      var r, y :| Receive(a, b, r, y);
      ReceiveKeeps(max, verify, a, b, r, y);
    }
  }

  lemma {:induction false} RunKeepsInv(max: nat, verify: S.Verifier, run: seq<System>)
    requires max < U32_LIMIT && IsRun(max, verify, run)
    ensures Inv(max, verify, run[|run| - 1])
  {
    if |run| == 1 {
    } else {
      RunKeepsInv(max, verify, run[..|run| - 1]);
      StepKeepsInv(max, verify, run[|run| - 2], run[|run| - 1]);
    }
  }

  // --- the theorem -------------------------------------------------------------------------

  /** Frames that unmarshal to known contents are received as those contents. */
  lemma {:induction false} ContentsArrive(data: Envelope -> bytes, content: Envelope -> Wire.Message, es: seq<Envelope>)
    requires forall i | 0 <= i < |es| :: Wire.Unmarshal(data(es[i])) == Ok(content(es[i]))
    ensures |ClientLoops.Messages(Datas(data, es))| == |es|
    ensures forall k | 0 <= k < |es| :: ClientLoops.Messages(Datas(data, es))[k] == content(es[k])
  {
    if es == [] {
    } else {
      assert Datas(data, es)[1..] == Datas(data, es[1..]);
      ContentsArrive(data, content, es[1..]);
    }
  }

  /**
   Why a message was received: a session authenticated with the key in From has it
   at this index of the messages in its stream, addressed to the receiving session.
   */
  predicate Explains(max: nat, verify: S.Verifier, s: System, r: nat, e: Envelope, received: Wire.Message)
    requires max < U32_LIMIT
  {
    && e.src in s.sessions && r in s.sessions
    && var x := s.sessions[e.src];
       var stream := ParseFrames(x.input, max).0;
    && Authenticated(verify, x)
    && e.index < |stream| && stream[e.index] == e.message
    && received == Wire.Message(
         Hex.Encode(x.key), Hex.Encode(s.sessions[r].key), e.message.id, e.message.payload, e.now)
  }

  /** The frames a recipient can read are those of the first envelopes sent to it. */
  lemma FramesSeen(data: Envelope -> bytes, x: Inbox, seen: bytes) returns (es: seq<Envelope>)
    requires WireOk(data, x) && IsPrefix(seen, x.wire)
    ensures es <= Sent(x) && ParseServerFrames(seen).0 == Datas(data, es)
  {
    var datas := Datas(data, Sent(x));
    PrefixOfPrefix(seen, x.wire, ServerFrames(datas));
    forall d | d in datas ensures |d| <= MAX_MESSAGE_SIZE {
      var k :| 0 <= k < |datas| && datas[k] == d;
    }
    ServerStreamPrefix(datas, seen);
    var n := |ParseServerFrames(seen).0|;
    es := Sent(x)[..n];
    assert Datas(data, es) == datas[..n];
  }

  /**
   Safety of the relay, wherever a run has got to and however much of its stream
   has reached a recipient. Each message its application receives is explained by an
   envelope; and the envelopes of one sender have ever larger indices. So what a
   recipient gets from a session is a selection of the messages in that session's
   stream, in order and none twice, id and payload as sent; From is the key the
   session was authenticated with, and To the recipient's own.
   */
  lemma RelaySafety(max: nat, verify: S.Verifier, run: seq<System>, r: nat, seen: bytes) returns (es: seq<Envelope>)
    requires max < U32_LIMIT && IsRun(max, verify, run)
    requires var s := run[|run| - 1]; r in s.inboxes && IsPrefix(seen, s.inboxes[r].wire)
    ensures var s := run[|run| - 1];
            var received := ClientLoops.Messages(ParseServerFrames(seen).0);
            && |es| == |received|
            && InOrder(es)
            && forall k | 0 <= k < |es| :: Explains(max, verify, s, r, es[k], received[k])
  {
    RunKeepsInv(max, verify, run);
    var s := run[|run| - 1];
    es := SeenEnvelopes(max, verify, s, r, seen);
    SeenContents(max, verify, s, r, es);
  }

  lemma SeenEnvelopes(max: nat, verify: S.Verifier, s: System, r: nat, seen: bytes) returns (es: seq<Envelope>)
    requires Inv(max, verify, s) && r in s.inboxes && IsPrefix(seen, s.inboxes[r].wire)
    ensures ChainOk(AuthenticAt(max, s, r), es) && ParseServerFrames(seen).0 == Datas(DataIn(s), es)
  {
    assert FineIn(max, s)(r, s.inboxes[r]);
    es := SeenChain(AuthenticAt(max, s, r), DataIn(s), s.inboxes[r], seen);
  }

  lemma SeenChain(authentic: Envelope -> bool, data: Envelope -> bytes, x: Inbox, seen: bytes)
    returns (es: seq<Envelope>)
    requires InboxOk(authentic, data, x) && IsPrefix(seen, x.wire)
    ensures ChainOk(authentic, es) && ParseServerFrames(seen).0 == Datas(data, es)
  {
    es := FramesSeen(data, x, seen);
    var rest := Sent(x)[|es|..] + x.writing + (x.queue + (x.inHand + x.fifo));
    assert Chain(x) == es + rest;
    PrefixKeepsChain(authentic, es, rest);
  }

  lemma SeenContents(max: nat, verify: S.Verifier, s: System, r: nat, es: seq<Envelope>)
    requires max < U32_LIMIT && SessionsOk(max, verify, s) && ChainOk(AuthenticAt(max, s, r), es)
    ensures var received := ClientLoops.Messages(Datas(DataIn(s), es));
            |es| == |received| && forall k | 0 <= k < |es| :: Explains(max, verify, s, r, es[k], received[k])
  {
    forall i | 0 <= i < |es|
      ensures Wire.Unmarshal(DataIn(s)(es[i])) == Ok(ContentIn(s)(es[i]))
      ensures Explains(max, verify, s, r, es[i], ContentIn(s)(es[i]))
    {
      assert AuthenticAt(max, s, r)(es[i]) && OkIn(max, verify)(s.sessions[es[i].src]);
      Relay.RelayDecodes(s.sessions[es[i].src].key, es[i].message, es[i].now);
      RelayedAreFirst(max, s.sessions[es[i].src]);
    }
    ContentsArrive(DataIn(s), ContentIn(s), es);
  }

  // --- with honest senders -----------------------------------------------------------------

  /**
   From cannot be forged: if the signatures that verify are those of a run of
   Agreement, and From is an honest key's address, a client session of that key has
   signed the challenge, for the server and over the channel, of the very session
   the message came through.
   */
  lemma FromIsGenuine(
    honest: set<bytes>, worlds: seq<A.World>, max: nat, s: System, r: nat, e: Envelope, received: Wire.Message)
    returns (i: nat)
    requires A.IsRun(honest, worlds) && max < U32_LIMIT
    requires Explains(max, A.VerifierOf(worlds[|worlds| - 1]), s, r, e, received)
    requires s.sessions[e.src].key in honest
    ensures var w, x := worlds[|worlds| - 1], s.sessions[e.src];
            && i in w.clients && Hex.Encode(w.clients[i].key) == received.from
            && x.env.binding == Some(w.clients[i].binding)
            && C.ParseOffer(w.clients[i].input).Done?
            && C.ParseOffer(w.clients[i].input).value == S.Offer(x.env, x.serverId)
  {
    A.RunKeepsInv(honest, worlds);
    var x := s.sessions[e.src];
    i := A.AcceptedHasPartner(
      honest, worlds[|worlds| - 1], A.ServerSession(x.serverId, x.env, x.handshake + x.input, None), x.key);
  }

  /** If what a session has received are frames its client's encoder wrote, the message is the index-th of those. */
  lemma MessageIsAsSent(
    max: nat, verify: S.Verifier, s: System, r: nat, e: Envelope, received: Wire.Message, sent: seq<ClientMessage>)
    requires max < U32_LIMIT && Explains(max, verify, s, r, e, received)
    requires (forall m | m in sent :: Encodable(m)) && IsPrefix(s.sessions[e.src].input, ClientFrames(sent))
    ensures e.index < |sent|
    ensures received.to == Hex.Encode(s.sessions[r].key)
    ensures received.id == sent[e.index].id && received.payload == sent[e.index].payload
  {
    var stream := ParseFrames(s.sessions[e.src].input, max).0;
    ParseFramesOfPrefix(sent, s.sessions[e.src].input, max);
    AtPrefix(stream, sent, e.index);
  }

  lemma AtPrefix(stream: seq<ClientMessage>, sent: seq<ClientMessage>, k: nat)
    requires stream <= sent && k < |stream|
    ensures k < |sent| && sent[k] == stream[k]
  {
  }
}
