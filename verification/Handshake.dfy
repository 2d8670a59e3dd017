/**
 The two halves of the handshake over one connection whose bytes arrive in order,
 cut into fragments at will. Each side is the function of its input proved of the
 code in ServerAuth and ClientAuth; the network is all that moves.
 */
module Handshake {
  import opened Bytes
  import opened ProtocolAuth
  import opened Freshness
  import C = ClientAuth
  import S = ServerAuth

  /** One connection: the two endpoints, and what each writes once its half has succeeded. */
  datatype Setup = Setup(client: C.Env, server: S.Env, serverId: bytes, frames: bytes, replies: bytes)

  /** Honest endpoints of one channel: no local failure, one channel binding, and a challenge answered in its window. */
  ghost predicate Honest(x: Setup, verify: S.Verifier) {
    && x.client.Valid() && x.client.deadlineOk
    && x.server.Valid() && x.server.deadlineOk && x.server.randomOk
    && |x.serverId| == SERVER_ID_SIZE
    && x.client.binding.Some? && x.client.binding == x.server.binding
    && CheckAge(x.server.timestamp, x.server.now, x.server.ttl).Fresh?
    && forall m: bytes {:trigger x.client.sign(m)} :: verify(x.client.pubKey, m, x.client.sign(m))
  }

  /** What the client has written when this much has reached it. */
  function ClientSent(x: Setup, input: bytes): bytes {
    var t := C.Run(input, x.client);
    if t.outcome.Connected? then t.output + x.frames else t.output
  }

  /** What the server has written when this much has reached it. */
  function ServerSent(x: Setup, verify: S.Verifier, input: bytes): bytes
    requires x.server.Valid()
  {
    var t := S.Run(input, x.serverId, x.server, verify);
    if t.outcome.Accepted? then t.output + x.replies else t.output
  }

  /** How much of each direction has been delivered. */
  datatype Net = Net(toServer: bytes, toClient: bytes)

  const INIT: Net := Net([], [])

  /** Some more of what has been written arrives. */
  ghost predicate Next(x: Setup, verify: S.Verifier, a: Net, b: Net)
    requires x.server.Valid()
  {
    || (&& b.toClient == a.toClient && a.toServer < b.toServer
        && IsPrefix(b.toServer, ClientSent(x, a.toClient)))
    || (&& b.toServer == a.toServer && a.toClient < b.toClient
        && IsPrefix(b.toClient, ServerSent(x, verify, a.toServer)))
  }

  ghost predicate CanMove(x: Setup, verify: S.Verifier, a: Net)
    requires x.server.Valid()
  {
    exists b :: Next(x, verify, a, b)
  }

  /** Everything written has arrived. */
  predicate Quiescent(x: Setup, verify: S.Verifier, n: Net)
    requires x.server.Valid()
  {
    n.toServer == ClientSent(x, n.toClient) && n.toClient == ServerSent(x, verify, n.toServer)
  }

  // --- what an undisturbed connection carries --------------------------------------

  function TheOffer(x: Setup): Challenge {
    S.Offer(x.server, x.serverId)
  }

  function TheSignature(x: Setup): bytes
    requires x.server.binding.Some?
  {
    x.client.sign(SignedData(TheOffer(x), x.client.pubKey, x.server.binding.value))
  }

  function ClientStream(x: Setup): bytes
    requires x.server.binding.Some?
  {
    HelloMessage(x.client.pubKey) + ResponseMessage(TheSignature(x)) + x.frames
  }

  function ServerStream(x: Setup): bytes {
    ChallengeMessage(TheOffer(x)) + S.OK_MESSAGE + x.replies
  }

  /** The client, after any prefix of the server's stream, has written a prefix of its own of known length. */
  lemma ClientOnPrefix(x: Setup, verify: S.Verifier, p: bytes)
    requires Honest(x, verify) && IsPrefix(p, ServerStream(x))
    ensures ClientSent(x, p) ==
              if |p| < 73 then ClientStream(x)[..33] else if |p| < 75 then ClientStream(x)[..98] else ClientStream(x)
    ensures |p| >= 75 ==> C.Run(p, x.client).outcome == C.Connected && C.Run(p, x.client).rest == p[75..]
  {
    var hello, response := HelloMessage(x.client.pubKey), ResponseMessage(TheSignature(x));
    assert ClientStream(x)[..33] == hello == hello + [];
    assert ClientStream(x)[..98] == hello + response;
    OfferOnPrefix(x, p);
    if |p| >= 73 {
      assert ServerStream(x) == ChallengeMessage(TheOffer(x)) + (S.OK_MESSAGE + x.replies);
      assert p[73..] == (S.OK_MESSAGE + x.replies)[..|p[73..]|];
      AnswerOnPrefix(x.replies, p[73..]);
      if |p| >= 75 { SliceOfDrop(p, 73, 2); }
    }
  }

  lemma OfferOnPrefix(x: Setup, p: bytes)
    requires x.server.Valid() && |x.serverId| == SERVER_ID_SIZE && IsPrefix(p, ServerStream(x))
    ensures C.ParseOffer(p) == if |p| < 73 then Fail(C.Failure.ReadFailed) else Parsed.Done(TheOffer(x), p[73..])
  {
    if |p| >= 73 {
      OfferArrives(x, p);
    } else if p != [] {
      assert p[0] == ServerStream(x)[0];
    }
  }

  lemma AnswerOnPrefix(replies: bytes, rest: bytes)
    requires IsPrefix(rest, S.OK_MESSAGE + replies)
    ensures C.ParseAnswer(rest) == if |rest| < 2 then Fail(C.Failure.ReadFailed) else Parsed.Done((), rest[2..])
  {
  }

  /** The server, after any prefix of the client's stream, likewise. */
  lemma ServerOnPrefix(x: Setup, verify: S.Verifier, p: bytes)
    requires Honest(x, verify) && IsPrefix(p, ClientStream(x))
    ensures ServerSent(x, verify, p) ==
              if |p| < 33 then [] else if |p| < 98 then ServerStream(x)[..73] else ServerStream(x)
    ensures |p| >= 98 ==>
              var t := S.Run(p, x.serverId, x.server, verify);
              t.outcome == S.Accepted(x.client.pubKey) && t.rest == p[98..]
  {
    var key := x.client.pubKey;
    var response := ResponseMessage(TheSignature(x)) + x.frames;
    assert ClientStream(x) == HelloMessage(key) + response;
    assert ServerStream(x)[..73] == ChallengeMessage(TheOffer(x));
    if p != [] { assert p[0] == HelloMessage(key)[0]; }
    if |p| >= 33 {
      assert p[..33] == HelloMessage(key);
      assert p[1..33] == p[..33][1..] == key;
      var tail := p[33..];
      assert tail == response[..|tail|];
      VerdictOnPrefix(x, verify, tail);
      if |tail| >= 65 { SliceOfDrop(p, 33, 65); }
    }
  }

  lemma VerdictOnPrefix(x: Setup, verify: S.Verifier, tail: bytes)
    requires Honest(x, verify) && IsPrefix(tail, ResponseMessage(TheSignature(x)) + x.frames)
    ensures S.Verdict(tail, x.client.pubKey, x.serverId, x.server, verify)
         == if |tail| < 65 then S.Rejected(S.Failure.ReadFailed) else S.Accepted(x.client.pubKey)
  {
    var response := ResponseMessage(TheSignature(x));
    if tail != [] { assert tail[0] == response[0] == TYPE_CLIENT_RESPONSE; }
    if |tail| >= 65 {
      assert tail[..65] == response;
      assert tail[1..65] == response[1..] == TheSignature(x);
    }
  }

  // --- the theorem -------------------------------------------------------------------

  /** What has arrived was written before, and is a prefix of the undisturbed stream. */
  ghost predicate Inv(x: Setup, verify: S.Verifier, n: Net)
    requires x.server.Valid() && x.server.binding.Some?
  {
    && IsPrefix(n.toServer, ClientStream(x)) && IsPrefix(n.toClient, ServerStream(x))
    && IsPrefix(n.toServer, ClientSent(x, n.toClient)) && IsPrefix(n.toClient, ServerSent(x, verify, n.toServer))
  }

  lemma NextKeepsInv(x: Setup, verify: S.Verifier, a: Net, b: Net)
    requires Honest(x, verify) && Inv(x, verify, a) && Next(x, verify, a, b)
    ensures Inv(x, verify, b)
    ensures |a.toServer| + |a.toClient| < |b.toServer| + |b.toClient|
  {
    if b.toClient == a.toClient {
      ClientOnPrefix(x, verify, a.toClient);
      PrefixOfPrefix(b.toServer, ClientSent(x, a.toClient), ClientStream(x));
      ServerMonotone(x, verify, a.toServer, b.toServer);
    } else {
      ServerOnPrefix(x, verify, a.toServer);
      PrefixOfPrefix(b.toClient, ServerSent(x, verify, a.toServer), ServerStream(x));
      ClientMonotone(x, verify, a.toClient, b.toClient);
    }
  }

  /** A side that has heard more has said no less. */
  lemma ServerMonotone(x: Setup, verify: S.Verifier, p: bytes, q: bytes)
    requires Honest(x, verify) && IsPrefix(q, ClientStream(x)) && IsPrefix(p, ClientStream(x)) && |p| <= |q|
    ensures forall s | IsPrefix(s, ServerSent(x, verify, p)) :: IsPrefix(s, ServerSent(x, verify, q))
  {
    ServerOnPrefix(x, verify, p);
    ServerOnPrefix(x, verify, q);
  }

  lemma ClientMonotone(x: Setup, verify: S.Verifier, p: bytes, q: bytes)
    requires Honest(x, verify) && IsPrefix(q, ServerStream(x)) && IsPrefix(p, ServerStream(x)) && |p| <= |q|
    ensures forall s | IsPrefix(s, ClientSent(x, p)) :: IsPrefix(s, ClientSent(x, q))
  {
    ClientOnPrefix(x, verify, p);
    ClientOnPrefix(x, verify, q);
  }

  /** However the bytes are fragmented, when nothing is left in flight both sides have succeeded and lost nothing. */
  lemma QuiescentIsDone(x: Setup, verify: S.Verifier, n: Net)
    requires Honest(x, verify) && Inv(x, verify, n) && Quiescent(x, verify, n)
    ensures Done(x, verify, n)
  {
    ClientOnPrefix(x, verify, n.toClient);
    ServerOnPrefix(x, verify, n.toServer);
    assert ClientStream(x)[98..] == x.frames;
    assert ServerStream(x)[75..] == x.replies;
  }

  /**
   Both sides have succeeded: the server has accepted the client's key after
   exactly 98 bytes and its next byte is the first of the client's frames; the
   client's next byte is the first of the server's.
   */
  ghost predicate Done(x: Setup, verify: S.Verifier, n: Net)
    requires x.server.Valid()
  {
    var s, c := S.Run(n.toServer, x.serverId, x.server, verify), C.Run(n.toClient, x.client);
    && s.outcome == S.Accepted(x.client.pubKey) && s.rest == x.frames && |n.toServer| == 98 + |x.frames|
    && c.outcome == C.Connected && c.rest == x.replies && |n.toClient| == 75 + |x.replies|
  }

  /** A sequence of deliveries from the start. */
  ghost predicate IsRun(x: Setup, verify: S.Verifier, run: seq<Net>)
    requires x.server.Valid()
  {
    && run != [] && run[0] == INIT
    && forall i | 0 < i < |run| :: Next(x, verify, run[i - 1], run[i])
  }

  lemma {:induction false} RunKeepsInv(x: Setup, verify: S.Verifier, run: seq<Net>)
    requires Honest(x, verify) && IsRun(x, verify, run)
    ensures var n := run[|run| - 1];
            Inv(x, verify, n) && |run| - 1 <= |n.toServer| + |n.toClient|
  {
    if |run| == 1 {
    } else {
      var before := run[..|run| - 1];
      RunKeepsInv(x, verify, before);
      NextKeepsInv(x, verify, run[|run| - 2], run[|run| - 1]);
    }
  }

  /**
   Completeness: between honest endpoints every run of deliveries is finite, with
   a bound known beforehand, and wherever it has got to it can either go on or
   both sides have succeeded.
   */
  lemma AlwaysCompletes(x: Setup, verify: S.Verifier, run: seq<Net>)
    requires Honest(x, verify) && IsRun(x, verify, run)
    ensures |run| <= 1 + 98 + |x.frames| + 75 + |x.replies|
    ensures Done(x, verify, run[|run| - 1]) || CanMove(x, verify, run[|run| - 1])
  {
    RunKeepsInv(x, verify, run);
    var n := run[|run| - 1];
    var c, s := ClientSent(x, n.toClient), ServerSent(x, verify, n.toServer);
    if Quiescent(x, verify, n) {
      QuiescentIsDone(x, verify, n);
    } else if n.toServer != c {
      assert Next(x, verify, n, n.(toServer := c));
    } else {
      assert Next(x, verify, n, n.(toClient := s));
    }
  }

  /** Both sides then have computed the same 148 bytes to sign and to verify. */
  lemma SameSignedData(x: Setup, verify: S.Verifier, n: Net)
    requires Honest(x, verify) && Inv(x, verify, n) && Quiescent(x, verify, n)
    ensures var offer := C.ParseOffer(n.toClient);
            && offer.Done?
            && SignedData(offer.value, x.client.pubKey, x.client.binding.value)
               == SignedData(S.Offer(x.server, x.serverId), n.toServer[1..33], x.server.binding.value)
  {
    QuiescentIsDone(x, verify, n);
    ServerOnPrefix(x, verify, n.toServer);
    ClientOnPrefix(x, verify, n.toClient);
    OfferArrives(x, n.toClient);
    assert n.toServer[1..33] == x.client.pubKey;
  }

  lemma OfferArrives(x: Setup, p: bytes)
    requires x.server.Valid() && |x.serverId| == SERVER_ID_SIZE
    requires IsPrefix(p, ServerStream(x)) && |p| >= 73
    ensures C.ParseOffer(p) == Parsed.Done(TheOffer(x), p[73..])
  {
    assert ServerStream(x) == ChallengeMessage(TheOffer(x)) + (S.OK_MESSAGE + x.replies);
    assert p[..73] == ChallengeMessage(TheOffer(x));
    assert [TYPE_SERVER_CHALLENGE] + p[1..] == p == ChallengeMessage(TheOffer(x)) + p[73..];
    ParseChallengeExact(p[1..], TheOffer(x), p[73..]);
  }
}
