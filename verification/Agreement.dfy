/**
 Authentication across many interleaved sessions, with the network in the hands of
 an attacker who delivers to every session whatever bytes it likes.

 A session is the very function of its input that ServerAuth and ClientAuth prove
 of the code. Three things are assumed and appear as guards of the steps: honest
 keys sign only through a client session (and a signature that verifies under an
 honest key is on a message that key signed), two channels never share a channel
 binding on the client's side, and a challenge is never drawn twice.
 */
module Agreement {
  import opened Bytes
  import opened ProtocolAuth
  import C = ClientAuth
  import S = ServerAuth

  /** A client connection of an honest key: its channel and what has reached it. */
  datatype ClientSession = ClientSession(key: bytes, binding: bytes, input: bytes)

  /** A server connection: its surroundings, what has reached it, and the key it has accepted. */
  datatype ServerSession = ServerSession(serverId: bytes, env: S.Env, input: bytes, accepted: Option<bytes>)

  datatype World = World(
    clients: map<nat, ClientSession>,
    servers: map<nat, ServerSession>,
    signatures: set<(bytes, bytes, bytes)>)  // key, message, signature: everything that verifies

  function VerifierOf(w: World): S.Verifier {
    (key, message, signature) => (key, message, signature) in w.signatures
  }

  /** What a client session has signed: one challenge at most, the first its input contains. */
  function Signed(c: ClientSession): Option<bytes> {
    match C.ParseOffer(c.input)
    case Done(offer, _) => Some(SignedData(offer, c.key, c.binding))
    case Fail(_) => None
  }

  ghost predicate SignedBy(w: World, key: bytes, message: bytes) {
    exists i :: i in w.clients && w.clients[i].key == key && Signed(w.clients[i]) == Some(message)
  }

  // --- steps -----------------------------------------------------------------------

  ghost predicate OpenClient(honest: set<bytes>, a: World, b: World, i: nat, c: ClientSession) {
    && i !in a.clients && c.input == []
    && c.key in honest && |c.key| == PUBLIC_KEY_SIZE && |c.binding| == CHANNEL_BINDING_SIZE
    && (forall j | j in a.clients :: a.clients[j].binding != c.binding)
    && b == a.(clients := a.clients[i := c])
  }

  ghost predicate OpenServer(a: World, b: World, i: nat, s: ServerSession) {
    && i !in a.servers && s.input == [] && s.accepted == None
    && s.env.Valid() && |s.serverId| == SERVER_ID_SIZE
    && (forall j | j in a.servers :: a.servers[j].env.nonce != s.env.nonce)
    && b == a.(servers := a.servers[i := s])
  }

  /** Bytes reach a client; if they complete a challenge, the client signs it. */
  ghost predicate ToClient(a: World, b: World, i: nat, data: bytes, signature: bytes) {
    && i in a.clients
    && var c := a.clients[i].(input := a.clients[i].input + data);
    && b == a.(clients := a.clients[i := c],
               signatures := a.signatures + match Signed(c) case Some(m) => {(c.key, m, signature)} case None => {})
  }

  /**
   Bytes reach a server that has not accepted; if they complete a handshake, it
   accepts. A rejected session is not closed, which only gives the attacker more.
   */
  ghost predicate ToServer(a: World, b: World, i: nat, data: bytes) {
    && i in a.servers && a.servers[i].env.Valid() && a.servers[i].accepted.None?
    && var s := a.servers[i].(input := a.servers[i].input + data);
    && var outcome := S.Run(s.input, s.serverId, s.env, VerifierOf(a)).outcome;
    && b == a.(servers := a.servers[i := s.(accepted := if outcome.Accepted? then Some(outcome.pubKey) else None)])
  }

  /** The attacker signs with a key that is not honest, or varies a signature it has seen. */
  ghost predicate Forge(honest: set<bytes>, a: World, b: World, key: bytes, message: bytes, signature: bytes) {
    && (key !in honest || exists s :: (key, message, s) in a.signatures)
    && b == a.(signatures := a.signatures + {(key, message, signature)})
  }

  ghost predicate Next(honest: set<bytes>, a: World, b: World) {
    || (exists i, c :: OpenClient(honest, a, b, i, c))
    || (exists i, s :: OpenServer(a, b, i, s))
    || (exists i, data, signature :: ToClient(a, b, i, data, signature))
    || (exists i, data :: ToServer(a, b, i, data))
    || (exists key, message, signature :: Forge(honest, a, b, key, message, signature))
  }

  ghost predicate IsRun(honest: set<bytes>, run: seq<World>) {
    && run != [] && run[0] == World(map[], map[], {})
    && forall i | 0 < i < |run| :: Next(honest, run[i - 1], run[i])
  }

  // --- the invariant -----------------------------------------------------------------

  /** Client i took part in the handshake server j accepted: same key, challenge, time, server and channel. */
  ghost predicate Agree(w: World, i: nat, j: nat) {
    && i in w.clients && j in w.servers
    && var c, s := w.clients[i], w.servers[j];
    && s.accepted == Some(c.key)
    && s.env.binding == Some(c.binding)
    && C.ParseOffer(c.input).Done?
    && C.ParseOffer(c.input).value == S.Offer(s.env, s.serverId)
  }

  ghost predicate WellFormed(honest: set<bytes>, w: World) {
    && (forall i | i in w.clients ::
          w.clients[i].key in honest && |w.clients[i].key| == PUBLIC_KEY_SIZE
            && |w.clients[i].binding| == CHANNEL_BINDING_SIZE)
    && (forall i, j | i in w.clients && j in w.clients && i != j :: w.clients[i].binding != w.clients[j].binding)
    && (forall i | i in w.servers :: w.servers[i].env.Valid() && |w.servers[i].serverId| == SERVER_ID_SIZE)
    && (forall i, j | i in w.servers && j in w.servers && i != j :: w.servers[i].env.nonce != w.servers[j].env.nonce)
  }

  ghost predicate Genuine(honest: set<bytes>, w: World) {
    forall t | t in w.signatures && t.0 in honest :: SignedBy(w, t.0, t.1)
  }

  ghost predicate HasPartner(w: World, j: nat) {
    exists i :: Agree(w, i, j)
  }

  ghost predicate Partnered(honest: set<bytes>, w: World) {
    forall j | j in w.servers && w.servers[j].accepted.Some? && w.servers[j].accepted.value in honest ::
      HasPartner(w, j)
  }

  ghost predicate Inv(honest: set<bytes>, w: World) {
    WellFormed(honest, w) && Genuine(honest, w) && Partnered(honest, w)
  }

  /** Signed is what the client's code does: after its hello it writes a signature over this, and nothing else, ever. */
  lemma SignedIsWritten(c: ClientSession, env: C.Env)
    requires env.Valid() && env.deadlineOk && env.pubKey == c.key && env.binding == Some(c.binding)
    ensures C.Run(c.input, env).output
         == HelloMessage(c.key) + match Signed(c) case Some(m) => ResponseMessage(env.sign(m)) case None => []
  {
  }

  /** More input never changes what a client has signed. */
  lemma SignedOnce(c: ClientSession, data: bytes)
    requires Signed(c).Some?
    ensures Signed(c.(input := c.input + data)) == Signed(c)
    ensures C.ParseOffer(c.input + data).Done? && C.ParseOffer(c.input + data).value == C.ParseOffer(c.input).value
  {
    var more := c.input + data;
    assert more[1..] == c.input[1..] + data;
    assert more[1..][..32] == c.input[1..][..32];
    assert more[1..][32..40] == c.input[1..][32..40];
    assert more[1..][40..72] == c.input[1..][40..72];
  }

  /** No client session of a is forgotten in b, nor anything it has signed. */
  ghost predicate ClientsPersist(a: World, b: World) {
    forall k | k in a.clients ::
      && k in b.clients && b.clients[k].key == a.clients[k].key && b.clients[k].binding == a.clients[k].binding
      && (C.ParseOffer(a.clients[k].input).Done? ==>
            C.ParseOffer(b.clients[k].input).Done?
              && C.ParseOffer(b.clients[k].input).value == C.ParseOffer(a.clients[k].input).value)
  }

  lemma SignaturesPersist(a: World, b: World, key: bytes, message: bytes)
    requires ClientsPersist(a, b) && SignedBy(a, key, message)
    ensures SignedBy(b, key, message)
  {
  }

  /** Partners are kept as long as clients persist and the server session is untouched. */
  lemma PartnersPersist(a: World, b: World, j: nat)
    requires ClientsPersist(a, b) && HasPartner(a, j) && j in b.servers && b.servers[j] == a.servers[j]
    ensures HasPartner(b, j)
  {
    var k :| Agree(a, k, j);
    assert Agree(b, k, j);
  }

  lemma OpenClientKeeps(honest: set<bytes>, a: World, b: World, i: nat, c: ClientSession)
    requires Inv(honest, a) && OpenClient(honest, a, b, i, c)
    ensures Inv(honest, b)
  {
    assert ClientsPersist(a, b);
    forall t | t in b.signatures && t.0 in honest ensures SignedBy(b, t.0, t.1) {
      SignaturesPersist(a, b, t.0, t.1);
    }
    forall j | j in b.servers && b.servers[j].accepted.Some? && b.servers[j].accepted.value in honest
      ensures HasPartner(b, j)
    {
      PartnersPersist(a, b, j);
    }
  }

  lemma OpenServerKeeps(honest: set<bytes>, a: World, b: World, i: nat, s: ServerSession)
    requires Inv(honest, a) && OpenServer(a, b, i, s)
    ensures Inv(honest, b)
  {
    forall t | t in b.signatures && t.0 in honest ensures SignedBy(b, t.0, t.1) {
      SignaturesPersist(a, b, t.0, t.1);
    }
    forall j | j in b.servers && b.servers[j].accepted.Some? && b.servers[j].accepted.value in honest
      ensures HasPartner(b, j)
    {
      PartnersPersist(a, b, j);
    }
  }

  lemma ToClientPersists(a: World, b: World, i: nat, data: bytes, signature: bytes)
    requires ToClient(a, b, i, data, signature)
    ensures ClientsPersist(a, b)
  {
    if Signed(a.clients[i]).Some? { SignedOnce(a.clients[i], data); }
  }

  lemma ToClientKeeps(honest: set<bytes>, a: World, b: World, i: nat, data: bytes, signature: bytes)
    requires Inv(honest, a) && ToClient(a, b, i, data, signature)
    ensures Inv(honest, b)
  {
    ToClientPersists(a, b, i, data, signature);
    forall t | t in b.signatures && t.0 in honest ensures SignedBy(b, t.0, t.1) {
      if t in a.signatures {
        SignaturesPersist(a, b, t.0, t.1);
      } else {
        assert b.clients[i].key == t.0 && Signed(b.clients[i]) == Some(t.1);
      }
    }
    forall j | j in b.servers && b.servers[j].accepted.Some? && b.servers[j].accepted.value in honest
      ensures HasPartner(b, j)
    {
      PartnersPersist(a, b, j);
    }
  }

  /** The heart of it: what verified under an honest key was signed, field for field, by one of its sessions. */
  lemma AcceptedHasPartner(honest: set<bytes>, w: World, s: ServerSession, key: bytes) returns (i: nat)
    requires WellFormed(honest, w) && Genuine(honest, w) && key in honest
    requires s.env.Valid() && |s.serverId| == SERVER_ID_SIZE
    requires S.Run(s.input, s.serverId, s.env, VerifierOf(w)).outcome == S.Accepted(key)
    ensures i in w.clients && w.clients[i].key == key && s.env.binding == Some(w.clients[i].binding)
    ensures C.ParseOffer(w.clients[i].input).Done?
    ensures C.ParseOffer(w.clients[i].input).value == S.Offer(s.env, s.serverId)
  {
    S.AcceptedExact(s.input, s.serverId, s.env, VerifierOf(w), key);
    var offer := S.Offer(s.env, s.serverId);
    var data := SignedData(offer, key, s.env.binding.value);
    var signature :| |signature| == SIGNATURE_SIZE && VerifierOf(w)(key, data, signature);
    assert (key, data, signature) in w.signatures;
    assert SignedBy(w, key, data);
    i :| i in w.clients && w.clients[i].key == key && Signed(w.clients[i]) == Some(data);
    var c := w.clients[i];
    SignedDataInjective(C.ParseOffer(c.input).value, c.key, c.binding, offer, key, s.env.binding.value);
  }

  lemma ToServerKeeps(honest: set<bytes>, a: World, b: World, i: nat, data: bytes)
    requires Inv(honest, a) && ToServer(a, b, i, data)
    ensures Inv(honest, b)
  {
    forall t | t in b.signatures && t.0 in honest ensures SignedBy(b, t.0, t.1) {
      SignaturesPersist(a, b, t.0, t.1);
    }
    forall j | j in b.servers && b.servers[j].accepted.Some? && b.servers[j].accepted.value in honest
      ensures HasPartner(b, j)
    {
      if j == i {
        var k := AcceptedHasPartner(honest, a, b.servers[i], b.servers[i].accepted.value);
        assert Agree(b, k, i);
      } else {
        PartnersPersist(a, b, j);
      }
    }
  }

  lemma ForgeKeeps(honest: set<bytes>, a: World, b: World, key: bytes, message: bytes, signature: bytes)
    requires Inv(honest, a) && Forge(honest, a, b, key, message, signature)
    ensures Inv(honest, b)
  {
    forall t | t in b.signatures && t.0 in honest ensures SignedBy(b, t.0, t.1) {
      if t !in a.signatures {
        var s :| (key, message, s) in a.signatures;
        assert SignedBy(a, (key, message, s).0, (key, message, s).1);
      }
      SignaturesPersist(a, b, t.0, t.1);
    }
    forall j | j in b.servers && b.servers[j].accepted.Some? && b.servers[j].accepted.value in honest
      ensures HasPartner(b, j)
    {
      PartnersPersist(a, b, j);
    }
  }

  lemma {:induction false} RunKeepsInv(honest: set<bytes>, run: seq<World>)
    requires IsRun(honest, run)
    ensures Inv(honest, run[|run| - 1])
  {
    if |run| == 1 {
    } else {
      RunKeepsInv(honest, run[..|run| - 1]);
      var a, b := run[|run| - 2], run[|run| - 1];
      assert Next(honest, a, b);
      if i, c :| OpenClient(honest, a, b, i, c) {
        OpenClientKeeps(honest, a, b, i, c);
      } else if i, s :| OpenServer(a, b, i, s) {
        OpenServerKeeps(honest, a, b, i, s);
      } else if i, data, signature :| ToClient(a, b, i, data, signature) {
        ToClientKeeps(honest, a, b, i, data, signature);
      } else if i, data :| ToServer(a, b, i, data) {
        ToServerKeeps(honest, a, b, i, data);
      } else {
        var key, message, signature :| Forge(honest, a, b, key, message, signature);
        ForgeKeeps(honest, a, b, key, message, signature);
      }
    }
  }

  // --- the theorem -------------------------------------------------------------------

  /**
   Injective agreement, wherever a run has got to: a server session that has
   accepted an honest key has exactly one partner among the client sessions, one
   of that key, which signed this challenge, time and server over this channel;
   and no client session is the partner of two server sessions.
   */
  lemma InjectiveAgreement(honest: set<bytes>, run: seq<World>, j: nat)
    requires IsRun(honest, run)
    requires var w := run[|run| - 1];
             j in w.servers && w.servers[j].accepted.Some? && w.servers[j].accepted.value in honest
    ensures var w := run[|run| - 1];
            exists i :: Agree(w, i, j)
                     && (forall i' | Agree(w, i', j) :: i' == i)
                     && (forall j' | Agree(w, i, j') :: j' == j)
  {
    RunKeepsInv(honest, run);
    var w := run[|run| - 1];
    assert HasPartner(w, j);
    var i :| Agree(w, i, j);
    assert forall i' | Agree(w, i', j) :: i' == i;
    assert forall j' | Agree(w, i, j') :: j' == j;
  }

  /** A verdict is final: no later step changes a session that has accepted. */
  lemma VerdictIsFinal(honest: set<bytes>, a: World, b: World, j: nat)
    requires Next(honest, a, b) && j in a.servers && a.servers[j].accepted.Some?
    ensures j in b.servers && b.servers[j] == a.servers[j]
  {
  }
}
