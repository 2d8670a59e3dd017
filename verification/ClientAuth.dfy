/**
 pkg/client/auth.go and client.authenticate: the client's half of the handshake,
 and what becomes of the bufio.Reader it was carried out through.
 */
module ClientAuth {
  import opened Bytes
  import opened Transport
  import opened ProtocolAuth

  datatype Env = Env(
    deadlineOk: bool,        // SetDeadline succeeded
    pubKey: bytes,
    sign: bytes -> bytes,    // the private key, as the function it computes
    binding: Option<bytes>)  // the channel binding, if it can be exported
  {
    ghost predicate Valid() {
      && |pubKey| == PUBLIC_KEY_SIZE
      && (binding.Some? ==> |binding.value| == CHANNEL_BINDING_SIZE)
      && forall m: bytes :: |sign(m)| == SIGNATURE_SIZE
    }
  }

  datatype Failure =
    NoDeadline | ReadFailed | WriteFailed | WrongType | NoBinding | BadResult | Refused(errorMsg: bytes)

  datatype Outcome = Connected | Failed(reason: Failure)

  datatype Trace = Trace(outcome: Outcome, output: bytes, rest: bytes)

  /** The challenge message at the front of the input. */
  function ParseOffer(input: bytes): (r: Parsed<Challenge, Failure>)
    ensures r.Done? ==> r.value.Valid()
  {
    if input == [] then Fail(ReadFailed)
    else if input[0] != TYPE_SERVER_CHALLENGE then Fail(WrongType)
    else
      match ParseChallenge(input[1..])
      case Done(c, rest) => Done(c, rest)
      case Fail(_) => Fail(ReadFailed)
  }

  /** The server's answer at the front of the input; anything but OK is a failure. */
  function ParseAnswer(input: bytes): Parsed<(), Failure>
  {
    if input == [] then Fail(ReadFailed)
    else if input[0] != TYPE_AUTH_RESULT then Fail(WrongType)
    else
      match ParseResult(input[1..])
      case Fail(Short) => Fail(ReadFailed)
      case Fail(TooLong) => Fail(BadResult)
      case Done(r, rest) => if r.status == STATUS_OK then Done((), rest) else Fail(Refused(r.errorMsg))
  }

  /** signChallenge: the signature over what this client sees of the connection. */
  function SignChallenge(c: Challenge, env: Env): Option<bytes> {
    if env.binding.None? then None
    else Some(env.sign(SignedData(c, env.pubKey, env.binding.value)))
  }

  /** The response to an offer: nothing if there is no offer, or it cannot be signed. */
  function Response(offer: Parsed<Challenge, Failure>, env: Env): bytes {
    match offer
    case Fail(_) => []
    case Done(c, _) =>
      match SignChallenge(c, env)
      case None => []
      case Some(signature) => ResponseMessage(signature)
  }

  /** The client after it has sent its response. */
  function AwaitAnswer(input: bytes, sent: bytes): Trace {
    match ParseAnswer(input)
    case Fail(e) => Trace(Failed(e), sent, [])
    case Done(_, rest) => Trace(Connected, sent, rest)
  }

  /** The whole handshake as a function of the bytes that arrive. */
  function Run(input: bytes, env: Env): Trace {
    var hello := HelloMessage(env.pubKey);
    if !env.deadlineOk then Trace(Failed(NoDeadline), [], [])
    else
      var offer := ParseOffer(input);
      var sent := hello + Response(offer, env);
      match offer
      case Fail(e) => Trace(Failed(e), sent, [])
      case Done(_, rest) => if env.binding.None? then Trace(Failed(NoBinding), sent, []) else AwaitAnswer(rest, sent)
  }

  /** The input is this challenge, this result and whatever comes after them. */
  ghost predicate Answers(input: bytes, c: Challenge, r: AuthResult, rest: bytes) {
    c.Valid() && input == ChallengeMessage(c) + ResultMessage(r) + rest
  }

  lemma OfferExact(input: bytes, c: Challenge, rest: bytes)
    ensures ParseOffer(input) == Parsed.Done(c, rest) <==> c.Valid() && input == ChallengeMessage(c) + rest
  {
    if input != [] && input[0] == TYPE_SERVER_CHALLENGE {
      assert input == [TYPE_SERVER_CHALLENGE] + input[1..];
      ParseChallengeExact(input[1..], c, rest);
    }
  }

  lemma AnswerExact(input: bytes, rest: bytes)
    ensures ParseAnswer(input) == Parsed.Done((), rest) <==> input == ResultMessage(AuthResult(0, [])) + rest
  {
    if input != [] {
      assert input == [input[0]] + input[1..];
      ParseResultExact(input[1..], AuthResult(0, []), rest);
      assert ResultMessage(AuthResult(0, [])) + rest == [TYPE_AUTH_RESULT] + (ResultBody(AuthResult(0, [])) + rest);
    }
  }

  lemma RefusalExact(input: bytes, text: bytes)
    ensures ParseAnswer(input) == Parsed.Fail(Refused(text))
       <==> exists status: byte, rest: bytes ::
              status != 0 && |text| <= 1024 && input == ResultMessage(AuthResult(status, text)) + rest
  {
    if ParseAnswer(input) == Parsed.Fail(Refused(text)) {
      var r, rest := ParseResult(input[1..]).value, ParseResult(input[1..]).rest;
      ParseResultExact(input[1..], r, rest);
      assert input == [TYPE_AUTH_RESULT] + input[1..];
      Assoc([TYPE_AUTH_RESULT], ResultBody(r), rest);
      assert input == ResultMessage(AuthResult(r.status, text)) + rest;
    }
    forall status: byte, rest: bytes |
      status != 0 && |text| <= 1024 && input == ResultMessage(AuthResult(status, text)) + rest
      ensures ParseAnswer(input) == Parsed.Fail(Refused(text))
    {
      Assoc([TYPE_AUTH_RESULT], ResultBody(AuthResult(status, text)), rest);
      ParseResultExact(input[1..], AuthResult(status, text), rest);
    }
  }

  /**
   What connecting means: nothing local fails, and the input is exactly a
   challenge, an OK and whatever comes after them. The client has then sent its
   hello and the signature over that challenge, its own key and its own channel.
   */
  lemma ConnectedExact(input: bytes, env: Env)
    requires env.Valid()
    ensures Run(input, env).outcome.Connected?
       <==> env.deadlineOk && env.binding.Some? && exists c, rest :: Answers(input, c, AuthResult(0, []), rest)
    ensures forall c, rest | env.deadlineOk && env.binding.Some? && Answers(input, c, AuthResult(0, []), rest) ::
              Run(input, env) == Trace(
                Connected,
                HelloMessage(env.pubKey) + ResponseMessage(env.sign(SignedData(c, env.pubKey, env.binding.value))),
                rest)
  {
    if Run(input, env).outcome.Connected? {
      var c, left := ParseOffer(input).value, ParseOffer(input).rest;
      OfferExact(input, c, left);
      var rest := ParseAnswer(left).rest;
      AnswerExact(left, rest);
      Assoc(ChallengeMessage(c), ResultMessage(AuthResult(0, [])), rest);
      assert Answers(input, c, AuthResult(0, []), rest);
    }
    forall c, rest | Answers(input, c, AuthResult(0, []), rest)
      ensures ParseOffer(input) == Parsed.Done(c, ResultMessage(AuthResult(0, [])) + rest)
      ensures ParseAnswer(ResultMessage(AuthResult(0, [])) + rest) == Parsed.Done((), rest)
    {
      Assoc(ChallengeMessage(c), ResultMessage(AuthResult(0, [])), rest);
      OfferExact(input, c, ResultMessage(AuthResult(0, [])) + rest);
      AnswerExact(ResultMessage(AuthResult(0, [])) + rest, rest);
    }
  }

  /** A client is refused exactly when the answer to its response is a result other than OK; it learns the text. */
  lemma RefusedExact(input: bytes, env: Env, text: bytes)
    requires env.Valid()
    ensures Run(input, env).outcome == Failed(Refused(text))
       <==> && env.deadlineOk && env.binding.Some? && |text| <= 1024
            && exists c, status: byte, rest :: status != 0 && Answers(input, c, AuthResult(status, text), rest)
  {
    if Run(input, env).outcome == Failed(Refused(text)) {
      var c, left := ParseOffer(input).value, ParseOffer(input).rest;
      OfferExact(input, c, left);
      RefusalExact(left, text);
      var status: byte, rest: bytes :| status != 0 && left == ResultMessage(AuthResult(status, text)) + rest;
      Assoc(ChallengeMessage(c), ResultMessage(AuthResult(status, text)), rest);
      assert Answers(input, c, AuthResult(status, text), rest);
    }
    forall c, status: byte, rest | |text| <= 1024 && status != 0 && Answers(input, c, AuthResult(status, text), rest)
      ensures ParseOffer(input) == Parsed.Done(c, ResultMessage(AuthResult(status, text)) + rest)
      ensures ParseAnswer(ResultMessage(AuthResult(status, text)) + rest) == Parsed.Fail(Refused(text))
    {
      Assoc(ChallengeMessage(c), ResultMessage(AuthResult(status, text)), rest);
      OfferExact(input, c, ResultMessage(AuthResult(status, text)) + rest);
      RefusalExact(ResultMessage(AuthResult(status, text)) + rest, text);
    }
  }

  /** Whatever text a refusing server encodes, the client learns its first 1024 bytes. */
  lemma RefusalIsTruncated(input: bytes, env: Env, c: Challenge, r: AuthResult, rest: bytes)
    requires env.Valid() && env.deadlineOk && env.binding.Some?
    requires 0 < r.status < 256 && Answers(input, c, r, rest)
    ensures Run(input, env).outcome == Failed(Refused(if |r.errorMsg| > 1024 then r.errorMsg[..1024] else r.errorMsg))
  {
    var text := Truncated(r.errorMsg);
    assert ResultMessage(r) == ResultMessage(AuthResult(r.status, text));
    assert Answers(input, c, AuthResult(r.status, text), rest);
    RefusedExact(input, env, text);
  }

  /** The server's two handshake messages as the records they travel in; `extra` shares a record with the second. */
  ghost predicate HandshakeRecords(records: seq<bytes>, c: Challenge, extra: bytes, later: seq<bytes>) {
    && c.Valid()
    && records == [ChallengeMessage(c), ResultMessage(AuthResult(STATUS_OK, [])) + extra] + later
    && 2 + |extra| <= BUFIO_SIZE
  }

  lemma RecordSizes(records: seq<bytes>, c: Challenge, extra: bytes, later: seq<bytes>)
    requires HandshakeRecords(records, c, extra, later)
    ensures |records| >= 2 && |records[0]| == 73 && 2 <= |records[1]| <= BUFIO_SIZE
    ensures records[1][2..] == extra && records[2..] == later
  {
  }

  /** ReadMessageType and DecodeServerChallenge. A record holding just the challenge leaves the reader empty. */
  method ReadOffer(reader: BufReader) returns (res: Result<Challenge, Failure>)
    modifies reader, reader.conn`inbound
    ensures match ParseOffer(old(reader.Pending()))
            case Done(c, rest) => res == Ok(c) && reader.Pending() == rest
            case Fail(e) => res == Err(e)
    ensures old(reader.RecordWaits(1) && |reader.conn.inbound[0]| == 73) && res.Ok? ==>
              reader.buffered == [] && reader.conn.inbound == old(reader.conn.inbound)[1..]
  {
    var kind, ok := ReadMessageType(reader);
    if !ok { return Err(ReadFailed); }
    if kind != TYPE_SERVER_CHALLENGE { return Err(WrongType); }
    var challenge := DecodeServerChallenge(reader);
    if challenge.Err? { return Err(ReadFailed); }
    return Ok(challenge.value);
  }

  /**
   ReadMessageType and DecodeAuthResult. An OK at the front of a record leaves the
   rest of the record in the reader.
   */
  method ReadAnswer(reader: BufReader) returns (problem: Option<Failure>)
    modifies reader, reader.conn`inbound
    ensures match ParseAnswer(old(reader.Pending()))
            case Done(_, rest) => problem == None && reader.Pending() == rest
            case Fail(e) => problem == Some(e)
    ensures old(reader.RecordWaits(1) && |reader.conn.inbound[0]| >= 2) && problem.None? ==>
              reader.buffered == old(reader.conn.inbound)[0][2..]
                && reader.conn.inbound == old(reader.conn.inbound)[1..]
  {
    var kind, ok := ReadMessageType(reader);
    if !ok { return Some(ReadFailed); }
    if kind != TYPE_AUTH_RESULT { return Some(WrongType); }
    var result := DecodeAuthResult(reader);
    if result == Err(AuthError.Short) { return Some(ReadFailed); }
    if result == Err(TooLong) { return Some(BadResult); }
    if result.value.status != STATUS_OK { return Some(Refused(result.value.errorMsg)); }
    return None;
  }

  /**
   client.authenticate. Besides refining Run, it says where the bytes after the
   handshake are: if the two messages arrive as the records the server wrote, the
   reader the function drops holds exactly what shared a record with the result.
   */
  method Authenticate(conn: Conn, env: Env, ghost c: Challenge, ghost extra: bytes, ghost later: seq<bytes>)
    returns (outcome: Outcome, reader: BufReader)
    requires env.Valid()
    modifies conn
    ensures fresh(reader) && reader.conn == conn
    ensures old(conn.outbound) <= conn.outbound
    ensures CarriedOut(Run(old(conn.Pending()), env), old(conn.broken), old(conn.credit),
                       conn.outbound[|old(conn.outbound)|..], outcome, reader.Pending())
    ensures old(HandshakeRecords(conn.inbound, c, extra, later)) && outcome.Connected? ==>
              reader.buffered == extra && conn.inbound == later
  {
    if HandshakeRecords(conn.inbound, c, extra, later) {
      RecordSizes(conn.inbound, c, extra, later);
    }
    reader := new BufReader(conn, BUFIO_SIZE);
    assert reader.Pending() == conn.Pending();
    outcome := Converse(reader, env);
  }

  /** The next two records are a challenge by itself and something that starts with two bytes of result. */
  ghost predicate OffersThenAnswers(reader: BufReader)
    reads reader, reader.conn
  {
    && reader.RecordWaits(1) && |reader.conn.inbound[0]| == 73
    && |reader.conn.inbound| >= 2 && 2 <= |reader.conn.inbound[1]| <= reader.size
  }

  /** client.authenticate once its reader exists. */
  method Converse(reader: BufReader, env: Env) returns (outcome: Outcome)
    requires env.Valid()
    modifies reader, reader.conn
    ensures old(reader.conn.outbound) <= reader.conn.outbound
    ensures CarriedOut(Run(old(reader.Pending()), env), old(reader.conn.broken), old(reader.conn.credit),
                       reader.conn.outbound[|old(reader.conn.outbound)|..], outcome, reader.Pending())
    ensures old(OffersThenAnswers(reader)) && outcome.Connected? ==>
              reader.buffered == old(reader.conn.inbound)[1][2..]
                && reader.conn.inbound == old(reader.conn.inbound)[2..]
  {
    ghost var input, before, hello := reader.Pending(), reader.conn.outbound, HelloMessage(env.pubKey);
    var problem := SayHello(reader, env);
    if problem.Some? { return Failed(problem.value); }
    outcome := Continue(reader, env);
    ghost var tail := reader.conn.outbound[|before + hello|..];
    assert reader.conn.outbound == before + hello + tail;
    Combine(input, env, old(reader.conn.credit), before, tail, outcome, reader.Pending());
  }

  /** client.authenticate up to and including the hello. */
  method SayHello(reader: BufReader, env: Env) returns (problem: Option<Failure>)
    requires env.Valid()
    modifies reader.conn`outbound, reader.conn`writes, reader.conn`credit, reader.conn`broken
    ensures old(reader.conn.outbound) <= reader.conn.outbound && reader.Pending() == old(reader.Pending())
    ensures match problem
            case Some(e) =>
              CarriedOut(Run(old(reader.Pending()), env), old(reader.conn.broken), old(reader.conn.credit),
                         reader.conn.outbound[|old(reader.conn.outbound)|..], Failed(e), reader.Pending())
            case None =>
              && env.deadlineOk && old(reader.conn.CanWrite(33)) && !reader.conn.broken
              && reader.conn.credit == old(reader.conn.credit) - 33
              && reader.conn.outbound == old(reader.conn.outbound) + HelloMessage(env.pubKey)
  {
    if !env.deadlineOk { return Some(NoDeadline); }
    var conn := reader.conn;
    var ok := EncodeTyped(TYPE_CLIENT_HELLO, env.pubKey, conn);
    if !ok {
      Parts(old(conn.outbound), old(conn.Accepted(HelloMessage(env.pubKey))));
      CutShort(reader.Pending(), env, old(conn.broken), old(conn.credit), reader.Pending());
      return Some(WriteFailed);
    }
    return None;
  }

  /** A handshake that went as t says, over a connection that may fail. */
  ghost predicate CarriedOut(t: Trace, broken: bool, credit: nat, written: bytes, outcome: Outcome, unread: bytes) {
    && written == Sendable(broken, credit, t.output)
    && outcome == (if written == t.output then t.outcome else Failed(WriteFailed))
    && (outcome.Connected? ==> unread == t.rest)
  }

  /** What the client, having sent its hello, makes of its input over a connection with this credit. */
  ghost predicate Continued(input: bytes, env: Env, credit: nat, tail: bytes, outcome: Outcome, unread: bytes) {
    var offer := ParseOffer(input);
    var response := Response(offer, env);
    && tail == Sendable(false, credit, response)
    && match offer {
         case Fail(e) => outcome == Failed(e)
         case Done(_, rest) =>
           if env.binding.None? then outcome == Failed(NoBinding)
           else if credit < |response| then outcome == Failed(WriteFailed)
           else match ParseAnswer(rest)
             case Fail(e) => outcome == Failed(e)
             case Done(_, left) => outcome == Connected && unread == left
       }
  }

  /** The hello and what Continue wrote after it, seen as one answer of Run. */
  lemma Combine(input: bytes, env: Env, credit: nat, before: bytes, tail: bytes, outcome: Outcome, unread: bytes)
    requires env.Valid() && env.deadlineOk && 33 <= credit && Continued(input, env, credit - 33, tail, outcome, unread)
    ensures var out := before + HelloMessage(env.pubKey) + tail;
            before <= out && CarriedOut(Run(input, env), false, credit, out[|before|..], outcome, unread)
  {
    var hello := HelloMessage(env.pubKey);
    Assoc(before, hello, tail);
    Parts(before, hello + tail);
    SendableSplit(false, credit, hello, Response(ParseOffer(input), env));
  }

  lemma CutShort(input: bytes, env: Env, broken: bool, credit: nat, unread: bytes)
    requires env.Valid() && env.deadlineOk && (broken || credit < 33)
    ensures CarriedOut(Run(input, env), broken, credit,
                       Sendable(broken, credit, HelloMessage(env.pubKey)), Failed(WriteFailed), unread)
  {
  }

  /** client.authenticate after the hello. */
  method Continue(reader: BufReader, env: Env) returns (outcome: Outcome)
    requires env.Valid() && !reader.conn.broken
    modifies reader, reader.conn
    ensures old(reader.conn.outbound) <= reader.conn.outbound
    ensures Continued(old(reader.Pending()), env, old(reader.conn.credit),
                      reader.conn.outbound[|old(reader.conn.outbound)|..], outcome, reader.Pending())
    ensures old(OffersThenAnswers(reader)) && outcome.Connected? ==>
              reader.buffered == old(reader.conn.inbound)[1][2..]
                && reader.conn.inbound == old(reader.conn.inbound)[2..]
  {
    var conn := reader.conn;
    var offer := ReadOffer(reader);
    if offer.Err? { return Failed(offer.error); }
    var signature := SignChallenge(offer.value, env);
    if signature.None? { return Failed(NoBinding); }
    var ok := EncodeTyped(TYPE_CLIENT_RESPONSE, signature.value, conn);
    if !ok { return Failed(WriteFailed); }
    var problem := ReadAnswer(reader);
    if problem.Some? { return Failed(problem.value); }
    return Connected;
  }
}
