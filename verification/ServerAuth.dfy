/**
 pkg/router/auth.go: the server's half of the handshake, carried out in one
 reused 444-byte buffer. `Run` says what the handshake is in terms of the message
 codecs; `Authenticate` is the in-place code, proved to be `Run` whatever the
 buffer held before.
 */
module ServerAuth {
  import opened Bytes
  import opened Transport
  import opened ProtocolAuth
  import opened Freshness

  const OFF_PUB_KEY: nat := 0
  const OFF_CHALLENGE: nat := 32
  const OFF_TIMESTAMP: nat := 64
  const OFF_SERVER_ID: nat := 72
  const OFF_SIGNATURE: nat := 104
  const OFF_SIGNED_DATA: nat := 168
  const OFF_WORK: nat := OFF_SIGNED_DATA + SIGNED_DATA_SIZE
  const AUTH_BUF_SIZE: nat := OFF_WORK + 128

  /** Everything the server takes from its surroundings during one handshake. */
  datatype Env = Env(
    deadlineOk: bool,        // SetDeadline succeeded
    randomOk: bool,          // the random source delivered
    nonce: bytes,            // the challenge it delivered
    timestamp: nat,          // the clock when the challenge is made
    binding: Option<bytes>,  // the channel binding, if it can be exported
    now: nat,                // the clock when the signature has been checked
    ttl: nat)                // whole seconds a challenge stays valid
  {
    predicate Valid() {
      && |nonce| == CHALLENGE_SIZE && timestamp < U64_LIMIT && now < U64_LIMIT
      && (binding.Some? ==> |binding.value| == CHANNEL_BINDING_SIZE)
    }
  }

  datatype Failure =
    | NoDeadline | ReadFailed | WriteFailed | WrongType | NoRandom | NoBinding | BadSignature
    | NotFresh(age: Age)

  datatype Outcome = Accepted(pubKey: bytes) | Rejected(reason: Failure)

  /** The verdict, the bytes sent and, on acceptance, the input left unread. */
  datatype Trace = Trace(outcome: Outcome, output: bytes, rest: bytes)

  type Verifier = (bytes, bytes, bytes) -> bool  // public key, message, signature

  function Offer(env: Env, serverId: bytes): Challenge {
    Challenge(env.nonce, env.timestamp, serverId)
  }

  /** AuthResult{Status: OK} */
  const OK_MESSAGE: bytes := [TYPE_AUTH_RESULT, STATUS_OK]

  lemma OkMessageIsEncoding(text: bytes)
    ensures OK_MESSAGE == ResultMessage(AuthResult(STATUS_OK, text))
  {
  }

  /** Why the server gives up before it has sent a challenge, if it does. */
  function Greeting(input: bytes, env: Env): Option<Failure> {
    if !env.deadlineOk then Some(NoDeadline)
    else if input == [] then Some(ReadFailed)
    else if input[0] != TYPE_CLIENT_HELLO then Some(WrongType)
    else if |input| < 1 + PUBLIC_KEY_SIZE then Some(ReadFailed)
    else if !env.randomOk then Some(NoRandom)
    else None
  }

  /** What the server makes of the bytes after the client's hello. */
  function Verdict(input: bytes, pubKey: bytes, serverId: bytes, env: Env, verify: Verifier): Outcome
    requires env.Valid()
  {
    if input == [] then Rejected(ReadFailed)
    else if input[0] != TYPE_CLIENT_RESPONSE then Rejected(WrongType)
    else if |input| < 1 + SIGNATURE_SIZE then Rejected(ReadFailed)
    else if env.binding.None? then Rejected(NoBinding)
    else if !verify(pubKey, SignedData(Offer(env, serverId), pubKey, env.binding.value),
      input[1..1 + SIGNATURE_SIZE]) then
      Rejected(BadSignature)
    else
      var age := CheckAge(env.timestamp, env.now, env.ttl);
      if age.Fresh? then Accepted(pubKey) else Rejected(NotFresh(age))
  }

  /** The server after the client's hello: the challenge, the verdict and, if it is favourable, OK. */
  function Judge(input: bytes, pubKey: bytes, serverId: bytes, env: Env, verify: Verifier): Trace
    requires env.Valid()
  {
    var sent := ChallengeMessage(Offer(env, serverId));
    var outcome := Verdict(input, pubKey, serverId, env, verify);
    if outcome.Accepted? then Trace(outcome, sent + OK_MESSAGE, input[1 + SIGNATURE_SIZE..])
    else Trace(outcome, sent, [])
  }

  /** The whole handshake as a function of the bytes that arrive. */
  function Run(input: bytes, serverId: bytes, env: Env, verify: Verifier): Trace
    requires env.Valid()
  {
    match Greeting(input, env)
    case Some(e) => Trace(Rejected(e), [], [])
    case None => Judge(input[1 + PUBLIC_KEY_SIZE..], input[1..1 + PUBLIC_KEY_SIZE], serverId, env, verify)
  }

  /**
   What acceptance means: the input is exactly a hello, a response whose
   signature covers this very challenge, server, key and channel, and whatever
   comes after them; the challenge is in its window; and the answer is the
   challenge and an OK.
   */
  lemma AcceptedExact(input: bytes, serverId: bytes, env: Env, verify: Verifier, pubKey: bytes)
    requires env.Valid()
    ensures var t := Run(input, serverId, env, verify);
            t.outcome == Accepted(pubKey)
            <==>
            && env.deadlineOk && env.randomOk && env.binding.Some?
            && |pubKey| == PUBLIC_KEY_SIZE
            && CheckAge(env.timestamp, env.now, env.ttl).Fresh?
            && exists signature: bytes, rest: bytes ::
                 && |signature| == SIGNATURE_SIZE
                 && input == HelloMessage(pubKey) + ResponseMessage(signature) + rest
                 && verify(pubKey, SignedData(Offer(env, serverId), pubKey, env.binding.value), signature)
    ensures var t := Run(input, serverId, env, verify);
            t.outcome.Accepted? ==>
              && |input| == 98 + |t.rest| && t.rest == input[98..]
              && t.output == ChallengeMessage(Offer(env, serverId)) + OK_MESSAGE
  {
    var t := Run(input, serverId, env, verify);
    if t.outcome == Accepted(pubKey) {
      var tail := input[33..];
      assert input == HelloMessage(pubKey) + tail;
      assert tail == ResponseMessage(tail[1..65]) + tail[65..];
      assert input == HelloMessage(pubKey) + ResponseMessage(tail[1..65]) + tail[65..];
    }
    forall signature: bytes, rest: bytes |
      |signature| == SIGNATURE_SIZE && |pubKey| == PUBLIC_KEY_SIZE
        && input == HelloMessage(pubKey) + ResponseMessage(signature) + rest
      ensures |input| >= 98 && input[0] == TYPE_CLIENT_HELLO && input[1..33] == pubKey
           && input[33] == TYPE_CLIENT_RESPONSE && input[33..][1..65] == signature
    {
      assert input[33..] == ResponseMessage(signature) + rest;
    }
  }

  /** Why a complete handshake is turned down: its signature first, then the age of its challenge. */
  lemma CompleteHandshake(
    serverId: bytes, env: Env, verify: Verifier, pubKey: bytes, signature: bytes, rest: bytes)
    requires env.Valid() && env.deadlineOk && env.randomOk && env.binding.Some?
    requires |pubKey| == PUBLIC_KEY_SIZE && |signature| == SIGNATURE_SIZE
    ensures var outcome := Run(HelloMessage(pubKey) + ResponseMessage(signature) + rest, serverId, env, verify).outcome;
            var genuine := verify(pubKey, SignedData(Offer(env, serverId), pubKey, env.binding.value), signature);
            var age := CheckAge(env.timestamp, env.now, env.ttl);
            outcome == if !genuine then Rejected(BadSignature)
                       else if age.Fresh? then Accepted(pubKey) else Rejected(NotFresh(age))
  {
    var input := HelloMessage(pubKey) + ResponseMessage(signature) + rest;
    Assoc(HelloMessage(pubKey), ResponseMessage(signature), rest);
    Parts(HelloMessage(pubKey), ResponseMessage(signature) + rest);
    assert input[1..33] == pubKey && input[33..] == ResponseMessage(signature) + rest;
    assert input[33..][1..65] == signature;
  }

  /** What the server writes: a challenge exactly after a hello it can answer, and an OK exactly when it accepts. */
  lemma OutputExact(input: bytes, serverId: bytes, env: Env, verify: Verifier)
    requires env.Valid()
    ensures var t := Run(input, serverId, env, verify);
            t.output == (if env.deadlineOk && env.randomOk && |input| >= 33 && input[0] == 1
                         then ChallengeMessage(Offer(env, serverId)) else [])
                        + (if t.outcome.Accepted? then ResultMessage(AuthResult(0, [])) else [])
  {
    assert ResultMessage(AuthResult(0, [])) == OK_MESSAGE;
    assert ChallengeMessage(Offer(env, serverId)) + [] == ChallengeMessage(Offer(env, serverId));
  }

  /** More input never changes an acceptance; it is left unread. */
  lemma AcceptanceIsStable(input: bytes, more: bytes, serverId: bytes, env: Env, verify: Verifier)
    requires env.Valid() && Run(input, serverId, env, verify).outcome.Accepted?
    ensures var t := Run(input, serverId, env, verify);
            Run(input + more, serverId, env, verify) == t.(rest := t.rest + more)
  {
    var t := Run(input, serverId, env, verify);
    var pubKey := t.outcome.pubKey;
    AcceptedExact(input, serverId, env, verify, pubKey);
    var signature: bytes, rest: bytes :|
      && |signature| == SIGNATURE_SIZE && input == HelloMessage(pubKey) + ResponseMessage(signature) + rest
      && verify(pubKey, SignedData(Offer(env, serverId), pubKey, env.binding.value), signature);
    assert input + more == HelloMessage(pubKey) + ResponseMessage(signature) + (rest + more);
    AcceptedExact(input + more, serverId, env, verify, pubKey);
  }

  /** Nor do more signatures that verify. */
  lemma AcceptanceIsMonotone(input: bytes, serverId: bytes, env: Env, verify: Verifier, verify': Verifier)
    requires env.Valid() && Run(input, serverId, env, verify).outcome.Accepted?
    requires forall key, message, signature | verify(key, message, signature) :: verify'(key, message, signature)
    ensures Run(input, serverId, env, verify') == Run(input, serverId, env, verify)
  {
  }

  /** The three regions that outlive the messages being read and written. */
  ghost predicate Holds(buf: array<byte>, pubKey: bytes, nonce: bytes, serverId: bytes)
    requires buf.Length == AUTH_BUF_SIZE
    reads buf
  {
    && buf[OFF_PUB_KEY..OFF_PUB_KEY + PUBLIC_KEY_SIZE] == pubKey
    && buf[OFF_CHALLENGE..OFF_CHALLENGE + CHALLENGE_SIZE] == nonce
    && buf[OFF_SERVER_ID..OFF_SERVER_ID + SERVER_ID_SIZE] == serverId
  }

  /**
   authenticate. The contract mentions the old buffer only for the server-ID
   region, so nothing an earlier handshake left behind can matter; that region
   survives every outcome, and an accepted key is left in its own region.
   */
  method Authenticate(conn: Conn, buf: array<byte>, env: Env, verify: Verifier) returns (outcome: Outcome)
    requires env.Valid() && buf.Length == AUTH_BUF_SIZE
    modifies conn, buf
    ensures buf[OFF_SERVER_ID..OFF_SERVER_ID + SERVER_ID_SIZE]
        == old(buf[OFF_SERVER_ID..OFF_SERVER_ID + SERVER_ID_SIZE])
    ensures outcome.Accepted? ==> buf[OFF_PUB_KEY..OFF_PUB_KEY + PUBLIC_KEY_SIZE] == outcome.pubKey
    ensures old(conn.outbound) <= conn.outbound
    ensures outcome.Accepted? ==>
              conn.writes == old(conn.writes)
                + [ChallengeMessage(Offer(env, old(buf[OFF_SERVER_ID..OFF_SERVER_ID + SERVER_ID_SIZE]))), OK_MESSAGE]
    ensures CarriedOut(Run(old(conn.Pending()), old(buf[OFF_SERVER_ID..OFF_SERVER_ID + SERVER_ID_SIZE]), env, verify),
                       old(conn.broken), old(conn.credit), conn.outbound[|old(conn.outbound)|..],
                       outcome, conn.Pending())
  {
    ghost var input, serverId := conn.Pending(), buf[OFF_SERVER_ID..OFF_SERVER_ID + SERVER_ID_SIZE];
    ghost var before, sent := conn.outbound, ChallengeMessage(Offer(env, serverId));
    var problem := Greet(conn, buf, env);
    if problem.Some? {
      if Greeting(input, env).None? {
        Parts(before, Sendable(old(conn.broken), old(conn.credit), sent));
        CutShort(input, serverId, env, verify, old(conn.broken), old(conn.credit), conn.Pending());
      }
      return Rejected(problem.value);
    }
    outcome := JudgeInPlace(conn, buf, env, verify, input[1..33], serverId);
    ghost var tail := conn.outbound[|before + sent|..];
    assert conn.outbound == before + sent + tail;
    Combine(input, serverId, env, verify, old(conn.credit), before, tail, outcome, conn.Pending());
  }

  /**
   A handshake that went as t says, over a connection that may fail: the bytes
   written are those of t as far as the connection took them, the outcome is t's
   unless they were cut short, and after acceptance exactly t's rest is unread.
   */
  ghost predicate CarriedOut(t: Trace, broken: bool, credit: nat, written: bytes, outcome: Outcome, unread: bytes) {
    && written == Sendable(broken, credit, t.output)
    && outcome == (if written == t.output then t.outcome else Rejected(WriteFailed))
    && (outcome.Accepted? ==> unread == t.rest)
  }

  /** The challenge and the result, written one after the other, are the answer of Run written at once. */
  lemma Combine(input: bytes, serverId: bytes, env: Env, verify: Verifier, credit: nat,
                before: bytes, tail: bytes, outcome: Outcome, unread: bytes)
    requires env.Valid() && |serverId| == SERVER_ID_SIZE && Greeting(input, env).None? && 73 <= credit
    requires var verdict := Verdict(input[33..], input[1..33], serverId, env, verify);
             if verdict.Accepted? then
               && tail == Sendable(false, credit - 73, OK_MESSAGE)
               && outcome == (if 2 <= credit - 73 then verdict else Rejected(WriteFailed))
               && (outcome.Accepted? ==> unread == input[33..][65..])
             else tail == [] && outcome == verdict
    ensures var out := before + ChallengeMessage(Offer(env, serverId)) + tail;
            before <= out
              && CarriedOut(Run(input, serverId, env, verify), false, credit, out[|before|..], outcome, unread)
  {
    var sent := ChallengeMessage(Offer(env, serverId));
    Assoc(before, sent, tail);
    Parts(before, sent + tail);
    SendableSplit(false, credit, sent, OK_MESSAGE);
    assert sent + [] == sent;
  }

  lemma CutShort(input: bytes, serverId: bytes, env: Env, verify: Verifier, broken: bool, credit: nat, unread: bytes)
    requires env.Valid() && |serverId| == SERVER_ID_SIZE && Greeting(input, env).None? && (broken || credit < 73)
    ensures CarriedOut(Run(input, serverId, env, verify), broken, credit,
                       Sendable(broken, credit, ChallengeMessage(Offer(env, serverId))), Rejected(WriteFailed), unread)
  {
  }

  /** authenticate, up to and including the challenge it sends. */
  method Greet(conn: Conn, buf: array<byte>, env: Env) returns (problem: Option<Failure>)
    requires env.Valid() && buf.Length == AUTH_BUF_SIZE
    modifies conn, buf
    ensures buf[OFF_SERVER_ID..OFF_SERVER_ID + SERVER_ID_SIZE]
        == old(buf[OFF_SERVER_ID..OFF_SERVER_ID + SERVER_ID_SIZE])
    ensures var input := old(conn.Pending());
            var serverId := old(buf[OFF_SERVER_ID..OFF_SERVER_ID + SERVER_ID_SIZE]);
            var sent := ChallengeMessage(Offer(env, serverId));
            match Greeting(input, env)
            case Some(e) => problem == Some(e) && conn.outbound == old(conn.outbound)
            case None =>
              && conn.outbound == old(conn.outbound) + old(conn.Accepted(sent))
              && problem == (if old(conn.CanWrite(|sent|)) then None else Some(WriteFailed))
              && (problem.None? ==>
                    && Holds(buf, input[1..33], env.nonce, serverId)
                    && conn.Pending() == input[33..] && !conn.broken && conn.credit == old(conn.credit) - |sent|
                    && conn.writes == old(conn.writes) + [sent])
  {
    ghost var input, serverId := conn.Pending(), buf[OFF_SERVER_ID..OFF_SERVER_ID + SERVER_ID_SIZE];
    if !env.deadlineOk { return Some(NoDeadline); }
    problem := ReadHello(conn, buf);
    if problem.Some? { return; }
    if !env.randomOk { return Some(NoRandom); }
    WriteChallenge(buf, env, input[1..33], serverId);
    var ok := conn.Write(buf[OFF_WORK..OFF_WORK + 73]);
    if !ok { return Some(WriteFailed); }
  }

  /** A type byte into the work area, then the field it announces into its own region. */
  method ReadTyped(conn: Conn, buf: array<byte>, kind: byte, lo: nat, size: nat) returns (problem: Option<Failure>)
    requires buf.Length == AUTH_BUF_SIZE && lo + size <= OFF_WORK
    modifies conn`inbound, buf
    ensures forall i | 0 <= i < OFF_WORK && !(lo <= i < lo + size) :: buf[i] == old(buf[i])
    ensures var input := old(conn.Pending());
            match problem
            case None =>
              && |input| >= 1 + size && input[0] == kind
              && buf[lo..lo + size] == input[1..][..size] && conn.Pending() == input[1..][size..]
            case Some(ReadFailed) => input == [] || (input[0] == kind && |input| < 1 + size)
            case Some(WrongType) => input != [] && input[0] != kind
            case Some(_) => false
  {
    var got, ok := ReadType(conn, buf);
    if !ok { return Some(ReadFailed); }
    if got != kind { return Some(WrongType); }
    ok := conn.ReadFull(buf, lo, lo + size);
    if !ok { return Some(ReadFailed); }
    return None;
  }

  /** One byte into the work area. */
  method ReadType(conn: Conn, buf: array<byte>) returns (kind: byte, ok: bool)
    requires buf.Length == AUTH_BUF_SIZE
    modifies conn`inbound, buf
    ensures forall i | 0 <= i < OFF_WORK :: buf[i] == old(buf[i])
    ensures ok <==> old(conn.Pending()) != []
    ensures ok ==> kind == old(conn.Pending())[0] && conn.Pending() == old(conn.Pending())[1..]
  {
    ok := conn.ReadFull(buf, OFF_WORK, OFF_WORK + 1);
    kind := buf[OFF_WORK];
    assert kind == buf[OFF_WORK..OFF_WORK + 1][0];
  }

  method ReadHello(conn: Conn, buf: array<byte>) returns (problem: Option<Failure>)
    requires buf.Length == AUTH_BUF_SIZE
    modifies conn`inbound, buf
    ensures buf[OFF_SERVER_ID..OFF_SERVER_ID + SERVER_ID_SIZE]
        == old(buf[OFF_SERVER_ID..OFF_SERVER_ID + SERVER_ID_SIZE])
    ensures var input := old(conn.Pending());
            match problem
            case None =>
              && |input| >= 33 && input[0] == TYPE_CLIENT_HELLO
              && buf[OFF_PUB_KEY..OFF_PUB_KEY + PUBLIC_KEY_SIZE] == input[1..33] && conn.Pending() == input[33..]
            case Some(ReadFailed) => input == [] || (input[0] == TYPE_CLIENT_HELLO && |input| < 33)
            case Some(WrongType) => input != [] && input[0] != TYPE_CLIENT_HELLO
            case Some(_) => false
  {
    ghost var input := conn.Pending();
    problem := ReadTyped(conn, buf, TYPE_CLIENT_HELLO, OFF_PUB_KEY, PUBLIC_KEY_SIZE);
    if problem.None? { SliceOfDrop(input, 1, PUBLIC_KEY_SIZE); }
  }

  method ReadResponse(conn: Conn, buf: array<byte>, ghost pubKey: bytes, ghost nonce: bytes, ghost serverId: bytes)
    returns (problem: Option<Failure>)
    requires buf.Length == AUTH_BUF_SIZE && Holds(buf, pubKey, nonce, serverId)
    modifies conn`inbound, buf
    ensures Holds(buf, pubKey, nonce, serverId)
    ensures var input := old(conn.Pending());
            match problem
            case None =>
              && |input| >= 65 && input[0] == TYPE_CLIENT_RESPONSE
              && buf[OFF_SIGNATURE..OFF_SIGNATURE + SIGNATURE_SIZE] == input[1..65] && conn.Pending() == input[65..]
            case Some(ReadFailed) => input == [] || (input[0] == TYPE_CLIENT_RESPONSE && |input| < 65)
            case Some(WrongType) => input != [] && input[0] != TYPE_CLIENT_RESPONSE
            case Some(_) => false
  {
    ghost var input := conn.Pending();
    problem := ReadTyped(conn, buf, TYPE_CLIENT_RESPONSE, OFF_SIGNATURE, SIGNATURE_SIZE);
    if problem.None? { SliceOfDrop(input, 1, SIGNATURE_SIZE); }
  }

  /** The challenge and its time, each in its own region. */
  method StoreChallenge(buf: array<byte>, env: Env)
    requires env.Valid() && buf.Length == AUTH_BUF_SIZE
    modifies buf
    ensures buf[OFF_CHALLENGE..OFF_CHALLENGE + CHALLENGE_SIZE] == env.nonce
    ensures buf[OFF_TIMESTAMP..OFF_TIMESTAMP + TIMESTAMP_SIZE] == BigEndian(TIMESTAMP_SIZE, env.timestamp)
    ensures forall i | 0 <= i < OFF_CHALLENGE || OFF_SERVER_ID <= i < buf.Length :: buf[i] == old(buf[i])
  {
    Copy(buf, OFF_CHALLENGE, env.nonce);
    Copy(buf, OFF_TIMESTAMP, BigEndian(TIMESTAMP_SIZE, env.timestamp));
    assert buf[OFF_CHALLENGE..OFF_CHALLENGE + CHALLENGE_SIZE] == env.nonce;
  }

  /**
   The challenge message, assembled in the work area out of the challenge, time
   and server-ID regions: byte for byte what ServerChallenge.Encode writes.
   */
  method AssembleChallenge(buf: array<byte>, ghost c: Challenge)
    requires buf.Length == AUTH_BUF_SIZE && c.Valid()
    requires buf[OFF_CHALLENGE..OFF_CHALLENGE + CHALLENGE_SIZE] == c.nonce
    requires buf[OFF_TIMESTAMP..OFF_TIMESTAMP + TIMESTAMP_SIZE] == BigEndian(TIMESTAMP_SIZE, c.timestamp)
    requires buf[OFF_SERVER_ID..OFF_SERVER_ID + SERVER_ID_SIZE] == c.serverId
    modifies buf
    ensures buf[OFF_WORK..OFF_WORK + 73] == ChallengeMessage(c)
    ensures buf[..OFF_WORK] == old(buf[..OFF_WORK])
  {
    ghost var before := buf[..OFF_WORK];
    assert before[OFF_CHALLENGE..OFF_CHALLENGE + CHALLENGE_SIZE] == c.nonce;
    assert before[OFF_TIMESTAMP..OFF_TIMESTAMP + TIMESTAMP_SIZE] == BigEndian(TIMESTAMP_SIZE, c.timestamp);
    assert before[OFF_SERVER_ID..OFF_SERVER_ID + SERVER_ID_SIZE] == c.serverId;
    SetType(buf, before);
    AppendRegion(buf, 1, OFF_CHALLENGE, CHALLENGE_SIZE, c.nonce, before);
    AppendRegion(buf, 33, OFF_TIMESTAMP, TIMESTAMP_SIZE, BigEndian(TIMESTAMP_SIZE, c.timestamp), before);
    AppendRegion(buf, 41, OFF_SERVER_ID, SERVER_ID_SIZE, c.serverId, before);
    ChallengeInParts(c);
  }

  lemma ChallengeInParts(c: Challenge)
    ensures ChallengeMessage(c)
        == [TYPE_SERVER_CHALLENGE] + c.nonce + BigEndian(TIMESTAMP_SIZE, c.timestamp) + c.serverId
  {
  }

  method SetType(buf: array<byte>, ghost before: bytes)
    requires buf.Length == AUTH_BUF_SIZE && buf[..OFF_WORK] == before
    modifies buf
    ensures buf[..OFF_WORK] == before && buf[OFF_WORK..OFF_WORK + 1] == [TYPE_SERVER_CHALLENGE]
  {
    buf[OFF_WORK] := TYPE_SERVER_CHALLENGE;
  }

  /** copy of one region to the end of the message in the work area. */
  method AppendRegion(buf: array<byte>, offset: nat, lo: nat, size: nat, ghost field: bytes, ghost before: bytes)
    requires buf.Length == AUTH_BUF_SIZE && lo + size <= OFF_WORK && OFF_WORK + offset + size <= buf.Length
    requires buf[..OFF_WORK] == before && before[lo..lo + size] == field
    modifies buf
    ensures buf[..OFF_WORK] == before
    ensures buf[OFF_WORK..OFF_WORK + offset + size] == old(buf[OFF_WORK..OFF_WORK + offset]) + field
  {
    var region := buf[lo..lo + size];
    assert region == buf[..OFF_WORK][lo..lo + size];
    var _ := Append(buf, OFF_WORK, offset, region);
    assert buf[..OFF_WORK] == before;
  }

  method WriteChallenge(buf: array<byte>, env: Env, ghost pubKey: bytes, ghost serverId: bytes)
    requires env.Valid() && buf.Length == AUTH_BUF_SIZE
    requires buf[OFF_PUB_KEY..OFF_PUB_KEY + PUBLIC_KEY_SIZE] == pubKey
    requires buf[OFF_SERVER_ID..OFF_SERVER_ID + SERVER_ID_SIZE] == serverId
    modifies buf
    ensures Holds(buf, pubKey, env.nonce, serverId)
    ensures buf[OFF_WORK..OFF_WORK + 73] == ChallengeMessage(Offer(env, serverId))
  {
    StoreChallenge(buf, env);
    assert buf[OFF_PUB_KEY..OFF_PUB_KEY + PUBLIC_KEY_SIZE] == pubKey;
    assert buf[OFF_SERVER_ID..OFF_SERVER_ID + SERVER_ID_SIZE] == serverId;
    ghost var stored := buf[..OFF_WORK];
    AssembleChallenge(buf, Offer(env, serverId));
    assert buf[..OFF_WORK] == stored;
    assert buf[OFF_PUB_KEY..OFF_PUB_KEY + PUBLIC_KEY_SIZE] == stored[OFF_PUB_KEY..OFF_PUB_KEY + PUBLIC_KEY_SIZE];
    assert buf[OFF_CHALLENGE..OFF_CHALLENGE + CHALLENGE_SIZE] == stored[OFF_CHALLENGE..OFF_CHALLENGE + CHALLENGE_SIZE];
    assert buf[OFF_SERVER_ID..OFF_SERVER_ID + SERVER_ID_SIZE] == stored[OFF_SERVER_ID..OFF_SERVER_ID + SERVER_ID_SIZE];
  }

  /** authenticate, from the client's response on. */
  method JudgeInPlace(conn: Conn, buf: array<byte>, env: Env, verify: Verifier, ghost pubKey: bytes,
      ghost serverId: bytes)
    returns (outcome: Outcome)
    requires env.Valid() && buf.Length == AUTH_BUF_SIZE && Holds(buf, pubKey, env.nonce, serverId)
    modifies conn, buf
    ensures Holds(buf, pubKey, env.nonce, serverId)
    ensures var verdict := Verdict(old(conn.Pending()), pubKey, serverId, env, verify);
            if verdict.Accepted? then
              && conn.outbound == old(conn.outbound) + old(conn.Accepted(OK_MESSAGE))
              && (if old(conn.CanWrite(2)) then outcome == verdict else outcome == Rejected(WriteFailed))
              && (outcome.Accepted? ==>
                conn.Pending() == old(conn.Pending())[65..] && conn.writes == old(conn.writes) + [OK_MESSAGE])
            else
              conn.outbound == old(conn.outbound) && outcome == verdict
  {
    ghost var input := conn.Pending();
    var problem := ReadResponse(conn, buf, pubKey, env.nonce, serverId);
    if problem.Some? { return Rejected(problem.value); }
    if env.binding.None? { return Rejected(NoBinding); }
    var genuine := VerifyInPlace(buf, env, verify, pubKey, serverId, input[1..65]);
    if !genuine { return Rejected(BadSignature); }
    var age := CheckAge(env.timestamp, env.now, env.ttl);
    if !age.Fresh? { return Rejected(NotFresh(age)); }
    SetOk(buf, pubKey, env.nonce, serverId);
    var ok := conn.Write(buf[OFF_WORK..OFF_WORK + 2]);
    if !ok { return Rejected(WriteFailed); }
    return Accepted(buf[OFF_PUB_KEY..OFF_PUB_KEY + PUBLIC_KEY_SIZE]);
  }

  method SetOk(buf: array<byte>, ghost pubKey: bytes, ghost nonce: bytes, ghost serverId: bytes)
    requires buf.Length == AUTH_BUF_SIZE && Holds(buf, pubKey, nonce, serverId)
    modifies buf
    ensures Holds(buf, pubKey, nonce, serverId)
    ensures buf[OFF_WORK..OFF_WORK + 2] == OK_MESSAGE
  {
    buf[OFF_WORK] := TYPE_AUTH_RESULT;
    buf[OFF_WORK + 1] := STATUS_OK;
  }

  /** ed25519.Verify over the signed data, rebuilt from the regions into its own. */
  method VerifyInPlace(buf: array<byte>, env: Env, verify: Verifier,
                       ghost pubKey: bytes, ghost serverId: bytes, ghost signature: bytes)
    returns (genuine: bool)
    requires env.Valid() && env.binding.Some? && buf.Length == AUTH_BUF_SIZE && Holds(buf, pubKey, env.nonce, serverId)
    requires buf[OFF_SIGNATURE..OFF_SIGNATURE + SIGNATURE_SIZE] == signature
    modifies buf
    ensures Holds(buf, pubKey, env.nonce, serverId)
    ensures genuine == verify(pubKey, SignedData(Offer(env, serverId), pubKey, env.binding.value), signature)
  {
    var challenge := Challenge(buf[OFF_CHALLENGE..OFF_CHALLENGE + CHALLENGE_SIZE], env.timestamp,
                               buf[OFF_SERVER_ID..OFF_SERVER_ID + SERVER_ID_SIZE]);
    var size := BuildSignedDataTo(buf, OFF_SIGNED_DATA, challenge, buf[OFF_PUB_KEY..OFF_PUB_KEY + PUBLIC_KEY_SIZE],
      env.binding.value);
    assert buf[OFF_PUB_KEY..OFF_PUB_KEY + PUBLIC_KEY_SIZE] == pubKey;
    assert buf[OFF_SIGNATURE..OFF_SIGNATURE + SIGNATURE_SIZE] == signature;
    genuine := verify(buf[OFF_PUB_KEY..OFF_PUB_KEY + PUBLIC_KEY_SIZE], buf[OFF_SIGNED_DATA..OFF_SIGNED_DATA + size],
                      buf[OFF_SIGNATURE..OFF_SIGNATURE + SIGNATURE_SIZE]);
  }
}
