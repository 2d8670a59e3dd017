/**
 pkg/router/message.go: parsing a client's frame in place in a pooled buffer, and
 relaying it. `Accept` follows the code branch by branch; RefinesDecoder says it
 is the decoder of ProtocolData with two more demands, and `ReadLoop` carries that
 over a whole connection.
 */
module RouterMessage {
  import opened Bytes
  import opened Transport
  import opened ProtocolData
  import Hex
  import Wire

  const MIN_MESSAGE_SIZE: nat := TO_SIZE + 2

  datatype HandleError =
    | PrefixCut | OverLimit | TooSmall | BodyCut | InvalidRecipient | IdTooLong | BadStructure
    | MarshalFailed | PublishFailed

  datatype Publication = Publication(subject: bytes, data: bytes)

  /** What handleMessage makes of the bytes to come, up to the point where it has parsed them. */
  function Accept(s: bytes, max: nat): Parsed<ClientMessage, HandleError> {
    if |s| < 4 then Fail(PrefixCut)
    else
      var total := FromBigEndian(s[..4]);
      if total > max then Fail(OverLimit)
      else if total < MIN_MESSAGE_SIZE then Fail(TooSmall)
      else if |s| < 4 + total then Fail(BodyCut)
      else
        match AcceptBody(s[4..4 + total])
        case Err(e) => Fail(e)
        case Ok(m) => Done(m, s[4 + total..])
  }

  function AcceptBody(body: bytes): Result<ClientMessage, HandleError>
    requires MIN_MESSAGE_SIZE <= |body|
  {
    var to := body[..TO_SIZE];
    var idLen := FromBigEndian(body[TO_SIZE..TO_SIZE + 2]);
    var idEnd := MIN_MESSAGE_SIZE + idLen;
    if !Hex.IsValidKey(to) then Err(InvalidRecipient)
    else if idLen > MAX_MSG_ID_LEN then Err(IdTooLong)
    else if idEnd > |body| then Err(BadStructure)
    else Ok(ClientMessage(to, body[MIN_MESSAGE_SIZE..idEnd], body[idEnd..]))
  }

  /** What the router demands beyond what the decoder does. */
  predicate Acceptable(m: ClientMessage) {
    Hex.IsValidKey(m.to) && |m.id| <= MAX_MSG_ID_LEN
  }

  /**
   The fast form refines the simple one: the router accepts m at the front of s
   exactly when the decoder does, the recipient is hex and the id is not too
   long; and it consumes the same bytes.
   */
  lemma RefinesDecoder(s: bytes, max: nat, m: ClientMessage, rest: bytes)
    ensures Accept(s, max) == Done(m, rest) <==> ParseFrame(s, max) == Done(m, rest) && Acceptable(m)
  {
    if |s| >= 4 {
      var total := FromBigEndian(s[..4]);
      if MIN_MESSAGE_SIZE <= total && 4 + total <= |s| {
        var body := s[4..4 + total];
        assert s[4..][..total] == body && s[4..][total..] == s[4 + total..];
        BodyRefinesDecoder(body);
      }
    }
  }

  /** The same, as one decision with one result. */
  lemma SameDecision(s: bytes, max: nat) returns (decoded: Option<(ClientMessage, bytes)>)
    requires max < U32_LIMIT
    ensures match decoded
            case Some(d) =>
              && ParseFrame(s, max) == Done(d.0, d.1) && Acceptable(d.0)
              && Accept(s, max) == Done(d.0, d.1) && |d.1| < |s|
            case None =>
              && Accept(s, max).Fail?
              && (ParseFrame(s, max).Done? ==> !Acceptable(ParseFrame(s, max).value))
  {
    match ParseFrame(s, max)
    case Done(m, rest) =>
      RefinesDecoder(s, max, m, rest);
      ParseFrameExact(s, max, m, rest);
      if Acceptable(m) {
        return Some((m, rest));
      }
      NoneAccepted(s, max);
      return None;
    case Fail(_) =>
      NoneAccepted(s, max);
      return None;
  }

  lemma NoneAccepted(s: bytes, max: nat)
    requires ParseFrame(s, max).Done? ==> !Acceptable(ParseFrame(s, max).value)
    ensures Accept(s, max).Fail?
  {
    match Accept(s, max)
    case Done(m, rest) => RefinesDecoder(s, max, m, rest);
    case Fail(_) =>
  }

  lemma BodyRefinesDecoder(body: bytes)
    requires MIN_MESSAGE_SIZE <= |body|
    ensures AcceptBody(body).Ok? <==> ParseBody(body).Some? && Acceptable(ParseBody(body).value)
    ensures AcceptBody(body).Ok? ==> AcceptBody(body).value == ParseBody(body).value
  {
    var tail := body[TO_SIZE..];
    assert tail[..2] == body[TO_SIZE..TO_SIZE + 2];
    var idLen := FromBigEndian(tail[..2]);
    assert tail[2..] == body[MIN_MESSAGE_SIZE..];
    if idLen <= |tail[2..]| {
      assert tail[2..][..idLen] == body[MIN_MESSAGE_SIZE..MIN_MESSAGE_SIZE + idLen];
      assert tail[2..][idLen..] == body[MIN_MESSAGE_SIZE + idLen..];
    }
  }

  /** The router's configured limit against the protocol's own: the smaller one decides. */
  lemma LimitsCompared(s: bytes, max: nat, m: ClientMessage, rest: bytes)
    requires max < U32_LIMIT
    ensures Accept(s, max) == Done(m, rest) && TotalLen(m) <= 65536
       <==> ParseClientFrame(s) == Done(m, rest) && Hex.IsValidKey(m.to) && |m.id| <= 256 && TotalLen(m) <= max
  {
    RefinesDecoder(s, max, m, rest);
    ParseFrameExact(s, max, m, rest);
    ParseClientFrameExact(s, m, rest);
  }

  // --- pooled objects --------------------------------------------------------------

  /** A Go slice: part of an array somebody else may be holding too. */
  datatype Slice = Slice(data: array<byte>, lo: nat, hi: nat) {
    ghost predicate Valid() {
      lo <= hi <= data.Length
    }

    ghost function Contents(): bytes
      requires Valid()
      reads data
    {
      data[lo..hi]
    }
  }

  /** A message.Message out of messagePool. Its payload is not copied: it is a slice of the pooled buffer. */
  class PooledMessage {
    var from: bytes
    var to: bytes
    var id: bytes
    var payload: Option<Slice>
    var time: int

    constructor ()
      ensures IsReset()
    {
      from, to, id, payload, time := [], [], [], None, 0;
    }

    ghost predicate IsReset()
      reads this
    {
      from == to == id == [] && payload == None && time == 0
    }

    method Reset()
      modifies this
      ensures IsReset()
    {
      from, to, id, payload, time := [], [], [], None, 0;
    }

    /** proto.Marshal: a fresh copy of everything, the payload included. */
    method Marshal() returns (res: Result<bytes, Wire.WireError>)
      requires payload.Some? && payload.value.Valid() && Wire.IsInt64(time)
      ensures res == Wire.Marshal(Wire.Message(from, to, id, payload.value.Contents(), time))
    {
      var content := payload.value.data[payload.value.lo..payload.value.hi];
      res := Wire.Marshal(Wire.Message(from, to, id, content, time));
    }
  }

  /** The router's connection to NATS: everything published, in order. */
  class Publisher {
    var log: seq<Publication>

    constructor ()
      ensures log == []
    {
      log := [];
    }

    method Publish(to: bytes, data: bytes, up: bool) returns (ok: bool)
      modifies this
      ensures ok == up
      ensures log == old(log) + if up then [Publication(Hex.Subject(to), data)] else []
    {
      if up {
        log := log + [Publication(Hex.Subject(to), data)];
      }
      ok := up;
    }
  }

  // --- one message -------------------------------------------------------------------

  /** What is published for an accepted message. */
  function Relay(from: bytes, m: ClientMessage, now: int): Option<Publication>
    requires Wire.IsInt64(now)
  {
    match Wire.Marshal(Wire.Message(from, m.to, m.id, m.payload, now))
    case Ok(data) => Some(Publication(Hex.Subject(m.to), data))
    case Err(_) => None
  }

  /** The whole effect of handleMessage: its error, what it publishes, and what it leaves unread. */
  datatype Effect = Effect(problem: Option<HandleError>, published: seq<Publication>, rest: bytes)

  function Handle(s: bytes, max: nat, from: bytes, now: int, up: bool): Effect
    requires Wire.IsInt64(now)
  {
    match Accept(s, max)
    case Fail(e) => Effect(Some(e), [], [])
    case Done(m, rest) =>
      match Relay(from, m, now)
      case None => Effect(Some(MarshalFailed), [], rest)
      case Some(p) => if up then Effect(None, [p], rest) else Effect(Some(PublishFailed), [], rest)
  }

  /**
   handleMessage. The length prefix is read into the front of the buffer and then
   overwritten by the body; the contract does not mention what the buffer held.
   */
  method HandleMessage(conn: Conn, buf: array<byte>, msg: PooledMessage, publisher: Publisher,
                       from: bytes, now: int, up: bool)
    returns (problem: Option<HandleError>)
    requires 4 <= buf.Length < U32_LIMIT && Wire.IsInt64(now)
    modifies conn`inbound, buf, msg, publisher
    ensures var effect := Handle(old(conn.Pending()), buf.Length, from, now, up);
            && problem == effect.problem
            && publisher.log == old(publisher.log) + effect.published
            && (problem.None? ==> conn.Pending() == effect.rest && msg.IsReset())
  {
    ghost var s := conn.Pending();
    var total;
    total, problem := ReadBody(conn, buf);
    if problem.Some? { return; }
    var parsed := ParseInPlace(buf, total);
    if parsed.Err? { return Some(parsed.error); }
    var (to, id, idEnd) := parsed.value;
    problem := PublishAs(msg, publisher, from, to, id, Slice(buf, idEnd, total), now, up);
  }

  /** The fields of the body in the buffer: the recipient, the id, and where the payload starts. */
  method ParseInPlace(buf: array<byte>, total: nat) returns (res: Result<(bytes, bytes, nat), HandleError>)
    requires MIN_MESSAGE_SIZE <= total <= buf.Length
    ensures match AcceptBody(buf[..total])
            case Err(e) => res == Err(e)
            case Ok(m) =>
              && res.Ok? && res.value.0 == m.to && res.value.1 == m.id
              && res.value.2 <= total && buf[res.value.2..total] == m.payload
  {
    ghost var body := buf[..total];
    assert forall i | 0 <= i < total :: body[i] == buf[i];
    var to := buf[..TO_SIZE];
    assert to == body[..TO_SIZE];
    var valid := Hex.CheckKey(to);
    if !valid { return Err(InvalidRecipient); }
    var idLen := FromBigEndian(buf[TO_SIZE..TO_SIZE + 2]);
    assert buf[TO_SIZE..TO_SIZE + 2] == body[TO_SIZE..TO_SIZE + 2];
    if idLen > MAX_MSG_ID_LEN { return Err(IdTooLong); }
    var idStart := TO_SIZE + 2;
    var idEnd := idStart + idLen;
    if idEnd > total { return Err(BadStructure); }
    assert buf[idStart..idEnd] == body[idStart..idEnd];
    assert buf[idEnd..total] == body[idEnd..];
    return Ok((to, buf[idStart..idEnd], idEnd));
  }

  /** The pooled message filled, marshalled, published and reset. */
  method PublishAs(msg: PooledMessage, publisher: Publisher, from: bytes, to: bytes, id: bytes, payload: Slice,
      now: int, up: bool)
    returns (problem: Option<HandleError>)
    requires payload.Valid() && Wire.IsInt64(now)
    modifies msg, publisher
    ensures msg.IsReset()
    ensures match Relay(from, ClientMessage(to, id, payload.Contents()), now)
            case None => problem == Some(MarshalFailed) && publisher.log == old(publisher.log)
            case Some(p) =>
              && problem == (if up then None else Some(PublishFailed))
              && publisher.log == old(publisher.log) + if up then [p] else []
  {
    msg.from, msg.to, msg.id, msg.payload, msg.time := from, to, id, Some(payload), now;
    var data := msg.Marshal();
    if data.Err? {
      msg.Reset();
      return Some(MarshalFailed);
    }
    var ok := publisher.Publish(to, data.value, up);
    msg.Reset();
    return if ok then None else Some(PublishFailed);
  }

  /** The length prefix, its checks, and the body over it. */
  method ReadBody(conn: Conn, buf: array<byte>) returns (total: nat, problem: Option<HandleError>)
    requires 4 <= buf.Length < U32_LIMIT
    modifies conn`inbound, buf
    ensures var s := old(conn.Pending());
            match problem
            case None =>
              && |s| >= 4 && total == FromBigEndian(s[..4]) && MIN_MESSAGE_SIZE <= total <= buf.Length
                && 4 + total <= |s|
              && buf[..total] == s[4..4 + total] && conn.Pending() == s[4 + total..]
            case Some(e) => Accept(s, buf.Length) == Fail(e)
  {
    ghost var s := conn.Pending();
    total := 0;
    var ok := conn.ReadFull(buf, 0, 4);
    if !ok { return total, Some(PrefixCut); }
    total := FromBigEndian(buf[..4]);
    if total > buf.Length { return total, Some(OverLimit); }
    if total < MIN_MESSAGE_SIZE { return total, Some(TooSmall); }
    assert conn.Pending() == s[4..];
    ok := conn.ReadFull(buf, 0, total);
    if !ok { return total, Some(BodyCut); }
    assert buf[..total] == buf[0..total] == s[4..][..total] == s[4..4 + total];
    return total, None;
  }

  // --- a whole connection --------------------------------------------------------------

  /** What a connection meets at its k-th message: the clock, whether to go on at all, whether NATS is up. */
  datatype Surroundings = Surroundings(clock: nat -> int, goOn: nat -> bool, up: nat -> bool)
  {
    ghost predicate Valid() {
      forall k :: Wire.IsInt64(clock(k))
    }
  }

  /** The publications of a connection, in terms of the decoder alone, from its k-th message on. */
  function Relayed(s: bytes, max: nat, from: bytes, x: Surroundings, k: nat): seq<Publication>
    requires max < U32_LIMIT && x.Valid()
    decreases |s|
  {
    if !x.goOn(k) then []
    else
      match ParseFrame(s, max)
      case Fail(_) => []
      case Done(m, rest) =>
        ParseFrameExact(s, max, m, rest);
        if !Acceptable(m) || !x.up(k) then []
        else
          match Relay(from, m, x.clock(k))
          case None => []
          case Some(p) => [p] + Relayed(rest, max, from, x, k + 1)
  }

  /**
   The read loop of handleConn, for any stream in any chunks, taking at each
   message whichever buffer the pool gives it, with whatever that buffer holds.
   */
  method ReadLoop(conn: Conn, pool: seq<array<byte>>, pick: nat -> nat, msg: PooledMessage, publisher: Publisher,
                  max: nat, from: bytes, x: Surroundings)
    requires 4 <= max < U32_LIMIT && x.Valid()
    requires pool != [] && forall i | 0 <= i < |pool| :: pool[i].Length == max
    modifies conn`inbound, pool, msg, publisher
    ensures publisher.log == old(publisher.log) + Relayed(old(conn.Pending()), max, from, x, 0)
  {
    var k := 0;
    while x.goOn(k)
      invariant publisher.log + Relayed(conn.Pending(), max, from, x, k)
             == old(publisher.log) + Relayed(old(conn.Pending()), max, from, x, 0)
      decreases |conn.Pending()|
    {
      var more := Round(conn, pool[pick(k) % |pool|], msg, publisher, from, x, k);
      if !more { return; }
      k := k + 1;
    }
  }

  /** One round of the loop: it publishes the first of the connection's publications, or ends it. */
  method Round(conn: Conn, buf: array<byte>, msg: PooledMessage, publisher: Publisher, from: bytes, x: Surroundings,
      k: nat)
    returns (more: bool)
    requires 4 <= buf.Length < U32_LIMIT && x.Valid() && x.goOn(k)
    modifies conn`inbound, buf, msg, publisher
    ensures !more ==> publisher.log == old(publisher.log) + Relayed(old(conn.Pending()), buf.Length, from, x, k)
    ensures more ==> publisher.log + Relayed(conn.Pending(), buf.Length, from, x, k + 1)
                     == old(publisher.log) + Relayed(old(conn.Pending()), buf.Length, from, x, k)
    ensures more ==> |conn.Pending()| < |old(conn.Pending())|
  {
    ghost var log, effect := publisher.log, Handle(conn.Pending(), buf.Length, from, x.clock(k), x.up(k));
    StepRefines(conn.Pending(), buf.Length, from, x, k);
    var problem := HandleMessage(conn, buf, msg, publisher, from, x.clock(k), x.up(k));
    more := problem.None?;
    if more {
      Reassociate(log, effect.published, Relayed(effect.rest, buf.Length, from, x, k + 1));
    }
  }

  lemma Reassociate(a: seq<Publication>, b: seq<Publication>, c: seq<Publication>)
    ensures a + b + c == a + (b + c)
  {
  }

  /** One round of the loop, seen from the decoder. */
  lemma StepRefines(s: bytes, max: nat, from: bytes, x: Surroundings, k: nat)
    requires max < U32_LIMIT && x.Valid() && x.goOn(k)
    ensures var effect := Handle(s, max, from, x.clock(k), x.up(k));
            && (effect.problem.Some? ==> effect.published == [] && Relayed(s, max, from, x, k) == [])
            && (effect.problem.None? ==>
                  && |effect.rest| < |s|
                  && Relayed(s, max, from, x, k) == effect.published + Relayed(effect.rest, max, from, x, k + 1))
  {
    var decoded := SameDecision(s, max);
  }

  /** A message nothing about which stops its connection. */
  predicate Passes(m: ClientMessage, max: nat) {
    TotalLen(m) <= max && Acceptable(m) && Wire.IsUtf8(m.to) && Wire.IsUtf8(m.id)
  }

  /** What such a message is published as. */
  function Published(from: bytes, m: ClientMessage, now: int): Publication
    requires Wire.IsInt64(now)
  {
    Publication(Hex.Subject(m.to), Wire.EncodeMessage(Wire.Message(from, m.to, m.id, m.payload, now)))
  }

  /** These publications start with one for each of ms, numbered from k. */
  predicate StartsWith(
    ps: seq<Publication>, ms: seq<ClientMessage>, publish: (ClientMessage, nat) --> Publication, k: nat)
    requires forall m, j :: publish.requires(m, j)
  {
    |ps| >= |ms| && forall i | 0 <= i < |ms| :: ps[i] == publish(ms[i], k + i)
  }

  /** The frame of m at the front of a stream is published, and what follows is taken in turn. */
  predicate TakesFrame(
    all: (bytes, nat) --> seq<Publication>, publish: (ClientMessage, nat) --> Publication,
    m: ClientMessage, tail: bytes, j: nat)
    requires (forall s, j :: all.requires(s, j)) && forall m, j :: publish.requires(m, j)
  {
    all(ClientFrame(m) + tail, j) == [publish(m, j)] + all(tail, j + 1)
  }

  /** Whatever takes one frame at a time takes them all. */
  lemma {:induction false} FrameByFrame(
    all: (bytes, nat) --> seq<Publication>, publish: (ClientMessage, nat) --> Publication,
    ms: seq<ClientMessage>, rest: bytes, k: nat)
    requires (forall s, j :: all.requires(s, j)) && forall m, j :: publish.requires(m, j)
    requires forall m, tail, j | m in ms && k <= j < k + |ms| ::
               TakesFrame(all, publish, m, tail, j)
    ensures StartsWith(all(ClientFrames(ms) + rest, k), ms, publish, k)
    ensures all(ClientFrames(ms) + rest, k)[|ms|..] == all(rest, k + |ms|)
  {
    if ms == [] {
      assert ClientFrames(ms) + rest == rest;
    } else {
      var tail := ClientFrames(ms[1..]) + rest;
      FrameByFrame(all, publish, ms[1..], rest, k + 1);
      Assoc(ClientFrame(ms[0]), ClientFrames(ms[1..]), rest);
      assert TakesFrame(all, publish, ms[0], tail, k);
      StartsWithOneMore(all(tail, k + 1), ms, publish, k);
    }
  }

  lemma StartsWithOneMore(
    ps: seq<Publication>, ms: seq<ClientMessage>, publish: (ClientMessage, nat) --> Publication, k: nat)
    requires (forall m, j :: publish.requires(m, j)) && ms != [] && StartsWith(ps, ms[1..], publish, k + 1)
    ensures var more := [publish(ms[0], k)] + ps;
            StartsWith(more, ms, publish, k) && more[|ms|..] == ps[|ms[1..]|..]
  {
    var more := [publish(ms[0], k)] + ps;
    forall i | 0 <= i < |ms| ensures more[i] == publish(ms[i], k + i) {
      if i > 0 {
        assert more[i] == ps[i - 1] == publish(ms[1..][i - 1], k + 1 + (i - 1));
      }
    }
  }

  function RelayOf(max: nat, from: bytes, x: Surroundings): (bytes, nat) --> seq<Publication> {
    (s: bytes, j: nat) requires max < U32_LIMIT && x.Valid() => Relayed(s, max, from, x, j)
  }

  function PublishOf(from: bytes, x: Surroundings): (ClientMessage, nat) --> Publication {
    (m: ClientMessage, j: nat) requires x.Valid() => Published(from, m, x.clock(j))
  }

  lemma RelaysEach(max: nat, from: bytes, x: Surroundings, k: nat, n: nat)
    requires max < U32_LIMIT && x.Valid() && Wire.IsUtf8(from) && forall j | k <= j < n :: x.goOn(j) && x.up(j)
    ensures forall m, tail, j | Passes(m, max) && k <= j < n ::
              TakesFrame(RelayOf(max, from, x), PublishOf(from, x), m, tail, j)
  {
    forall m, tail, j | Passes(m, max) && k <= j < n
      ensures TakesFrame(RelayOf(max, from, x), PublishOf(from, x), m, tail, j)
    {
      RelaysFirst(m, tail, max, from, x, j);
    }
  }

  /** While nothing stops a connection, each of its frames is published, in order, with its own clock. */
  lemma RelaysAll(ms: seq<ClientMessage>, rest: bytes, max: nat, from: bytes, x: Surroundings, k: nat)
    requires max < U32_LIMIT && x.Valid() && Wire.IsUtf8(from) && forall m | m in ms :: Passes(m, max)
    requires forall j | k <= j < k + |ms| :: x.goOn(j) && x.up(j)
    ensures StartsWith(RelayOf(max, from, x)(ClientFrames(ms) + rest, k), ms, PublishOf(from, x), k)
    ensures RelayOf(max, from, x)(ClientFrames(ms) + rest, k)[|ms|..] == RelayOf(max, from, x)(rest, k + |ms|)
  {
    RelaysEach(max, from, x, k, k + |ms|);
    FrameByFrame(RelayOf(max, from, x), PublishOf(from, x), ms, rest, k);
  }

  lemma RelaysFirst(m: ClientMessage, rest: bytes, max: nat, from: bytes, x: Surroundings, k: nat)
    requires max < U32_LIMIT && x.Valid() && Wire.IsUtf8(from) && Passes(m, max) && x.goOn(k) && x.up(k)
    ensures TakesFrame(RelayOf(max, from, x), PublishOf(from, x), m, rest, k)
  {
    ParseFrameExact(ClientFrame(m) + rest, max, m, rest);
  }

  /** A connection publishes nothing from its k-th message on exactly when that message is the one that stops it. */
  lemma StopsExactly(s: bytes, max: nat, from: bytes, x: Surroundings, k: nat)
    requires max < U32_LIMIT && x.Valid()
    ensures Relayed(s, max, from, x, k) == []
       <==> || !x.goOn(k) || !x.up(k) || ParseFrame(s, max).Fail?
            || !Acceptable(ParseFrame(s, max).value) || Relay(from, ParseFrame(s, max).value, x.clock(k)).None?
  {
  }
}
