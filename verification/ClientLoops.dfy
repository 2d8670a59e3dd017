/**
 pkg/client/client.go after authentication: what the write loop puts on the
 connection, and what the read loop takes off it.
 */
module ClientLoops {
  import opened Bytes
  import opened Transport
  import opened ProtocolData
  import opened ProtocolAuth
  import C = ClientAuth
  import S = ServerAuth
  import Wire

  // --- writing -----------------------------------------------------------------------

  /**
   The outside world of a write loop: whether the i-th deadline can be set, and
   whether closeCh ends the loop before the i-th message.
   */
  datatype SendPlan = SendPlan(deadlineOk: nat -> bool, stop: nat -> bool)

  /** The messages that get as far as being written: not refused by the encoder, nor by their deadline. */
  function Attempted(ms: seq<ClientMessage>, x: SendPlan, i: nat): (r: seq<ClientMessage>)
    ensures forall m | m in r :: m in ms && Encodable(m)
  {
    if ms == [] || x.stop(i) then []
    else (if x.deadlineOk(i) && Encodable(ms[0]) then [ms[0]] else []) + Attempted(ms[1..], x, i + 1)
  }

  /** Whatever treats a list message by message treats two parts of it one after the other. */
  lemma {:induction false} MessageByMessage(
    all: (seq<ClientMessage>, nat) -> seq<ClientMessage>, one: (ClientMessage, nat) -> seq<ClientMessage>,
    a: seq<ClientMessage>, b: seq<ClientMessage>, i: nat)
    requires forall m, rest, j | i <= j < i + |a| :: all([m] + rest, j) == one(m, j) + all(rest, j + 1)
    requires all([], i + |a|) == []
    ensures all(a + b, i) == all(a, i) + all(b, i + |a|)
  {
    if a == [] {
      assert [] + b == b;
    } else {
      MessageByMessage(all, one, a[1..], b, i + 1);
      assert a == [a[0]] + a[1..] && a + b == [a[0]] + (a[1..] + b);
      assert one(a[0], i) + (all(a[1..], i + 1) + all(b, i + |a|))
          == (one(a[0], i) + all(a[1..], i + 1)) + all(b, i + |a|);
    }
  }

  lemma AttemptedAppend(a: seq<ClientMessage>, b: seq<ClientMessage>, x: SendPlan, i: nat)
    requires forall j | i <= j < i + |a| :: !x.stop(j)
    ensures Attempted(a + b, x, i) == Attempted(a, x, i) + Attempted(b, x, i + |a|)
  {
    var all := (ms: seq<ClientMessage>, j: nat) => Attempted(ms, x, j);
    var one := (m: ClientMessage, j: nat) => if x.deadlineOk(j) && Encodable(m) then [m] else [];
    forall m, rest, j | i <= j < i + |a| ensures all([m] + rest, j) == one(m, j) + all(rest, j + 1) {
      AttemptedRest(m, rest, x, j);
    }
    MessageByMessage(all, one, a, b, i);
  }

  lemma AttemptedRest(m: ClientMessage, b: seq<ClientMessage>, x: SendPlan, i: nat)
    requires !x.stop(i)
    ensures Attempted([m] + b, x, i)
         == (if x.deadlineOk(i) && Encodable(m) then [m] else []) + Attempted(b, x, i + 1)
  {
    assert ([m] + b)[1..] == b;
  }

  /** A message that is refused, or lacks its deadline, is left out; those before and after it are not affected. */
  lemma AttemptedParts(a: seq<ClientMessage>, m: ClientMessage, b: seq<ClientMessage>, x: SendPlan, i: nat)
    requires forall j | i <= j <= i + |a| :: !x.stop(j)
    ensures Attempted(a + ([m] + b), x, i)
         == Attempted(a, x, i) + ((if x.deadlineOk(i + |a|) && Encodable(m) then [m] else [])
                                  + Attempted(b, x, i + |a| + 1))
  {
    AttemptedAppend(a, [m] + b, x, i);
    AttemptedRest(m, b, x, i + |a|);
  }

  /** If nothing is refused and nothing stops the loop, every message is attempted. */
  lemma {:induction false} AttemptedAll(ms: seq<ClientMessage>, x: SendPlan, i: nat)
    requires forall m | m in ms :: Encodable(m)
    requires forall j | i <= j < i + |ms| :: !x.stop(j) && x.deadlineOk(j)
    ensures Attempted(ms, x, i) == ms
  {
    if ms == [] {
    } else {
      AttemptedAll(ms[1..], x, i + 1);
      assert ms == [ms[0]] + ms[1..];
    }
  }

  /** sendMessage */
  method SendMessage(conn: Conn, m: ClientMessage, deadlineOk: bool) returns (ok: bool)
    modifies conn`outbound, conn`writes, conn`credit, conn`broken
    ensures !deadlineOk || !Encodable(m) ==>
              conn.outbound == old(conn.outbound) && conn.credit == old(conn.credit) && conn.broken == old(conn.broken)
    ensures ok <==> deadlineOk && Encodable(m) && old(conn.CanWrite(4 + TotalLen(m)))
    ensures deadlineOk && Encodable(m) ==>
              && conn.outbound == old(conn.outbound) + old(conn.Accepted(ClientFrame(m)))
              && conn.broken == !old(conn.CanWrite(|ClientFrame(m)|))
              && (!conn.broken ==> conn.credit == old(conn.credit) - |ClientFrame(m)|)
  {
    if !deadlineOk { return false; }
    ok := EncodeClientMessage(m, conn);
  }

  /**
   writeLoop. Errors are reported and the loop goes on, yet the bytes on the
   connection are as if the attempted frames had been written at once: a prefix
   of them, which reads as some of those messages in order and, after a failed
   write, one incomplete frame.
   */
  method WriteLoop(conn: Conn, send: seq<ClientMessage>, x: SendPlan)
    modifies conn`outbound, conn`writes, conn`credit, conn`broken
    ensures conn.outbound == old(conn.outbound) + old(conn.Accepted(ClientFrames(Attempted(send, x, 0))))
    ensures var written := conn.outbound[|old(conn.outbound)|..];
            CutStream(Attempted(send, x, 0), written, ParseClientFrames(written).0, ParseClientFrames(written).1)
    ensures !conn.broken ==> ParseClientFrames(conn.outbound[|old(conn.outbound)|..]) == (Attempted(send, x, 0), [])
  {
    ghost var done: seq<ClientMessage> := [];
    ghost var base, broken, credit := conn.outbound, conn.broken, conn.credit;
    var i := 0;
    while i < |send| && !x.stop(i)
      invariant i <= |send|
      invariant done + Attempted(send[i..], x, i) == Attempted(send, x, 0)
      invariant conn.outbound == base + Sendable(broken, credit, ClientFrames(done))
      invariant conn.broken == (broken || credit < |ClientFrames(done)|)
      invariant !conn.broken ==> conn.credit == credit - |ClientFrames(done)|
    {
      ghost var now := if x.deadlineOk(i) && Encodable(send[i]) then [send[i]] else [];
      Unroll(done, now, send, x, i);
      ghost var before := conn.outbound;
      var _ := SendMessage(conn, send[i], x.deadlineOk(i));
      Extended(base, broken, credit, done, now);
      done := done + now;
      i := i + 1;
    }
    assert Attempted(send[i..], x, i) == [];
    assert done == Attempted(send, x, 0);
    ghost var written := conn.outbound[|base|..];
    assert written == Sendable(broken, credit, ClientFrames(done));
    ClientStreamPrefix(done, written);
  }

  lemma Unroll(done: seq<ClientMessage>, now: seq<ClientMessage>, send: seq<ClientMessage>, x: SendPlan, i: nat)
    requires i < |send| && !x.stop(i) && now == if x.deadlineOk(i) && Encodable(send[i]) then [send[i]] else []
    ensures done + Attempted(send[i..], x, i) == done + now + Attempted(send[i + 1..], x, i + 1)
  {
  }

  /** Writing one more frame after those already sent. */
  lemma Extended(base: bytes, broken: bool, credit: nat, done: seq<ClientMessage>, now: seq<ClientMessage>)
    requires |now| <= 1
    ensures var sent, more := ClientFrames(done), ClientFrames(now);
            && ClientFrames(done + now) == sent + more
            && |ClientFrames(done + now)| == |sent| + |more|
            && (broken || credit < |sent| ==>
              Sendable(broken, credit, ClientFrames(done + now)) == Sendable(broken, credit, sent))
            && (!broken && |sent| <= credit ==>
                  base + Sendable(broken, credit, ClientFrames(done + now))
                  == base + Sendable(broken, credit, sent) + Sendable(false, credit - |sent|, more))
    ensures now == [] ==> ClientFrames(now) == []
    ensures now != [] ==> ClientFrames(now) == ClientFrame(now[0])
  {
    ClientFramesAppend(done, now);
    SendableSplit(broken, credit, ClientFrames(done), ClientFrames(now));
    if now != [] {
      assert now[1..] == [];
    }
  }

  // --- reading -----------------------------------------------------------------------

  /** What reaches the application: the frames that unmarshal, in order. */
  function Messages(frames: seq<bytes>): seq<Wire.Message> {
    if frames == [] then []
    else
      match Wire.Unmarshal(frames[0])
      case Ok(m) => [m] + Messages(frames[1..])
      case Err(_) => Messages(frames[1..])
  }

  lemma {:induction false} MessagesAppend(a: seq<bytes>, b: seq<bytes>)
    ensures Messages(a + b) == Messages(a) + Messages(b)
  {
    if a == [] {
      assert [] + b == b;
    } else {
      assert (a + b)[0] == a[0] && (a + b)[1..] == a[1..] + b;
      MessagesAppend(a[1..], b);
    }
  }

  lemma MessagesRest(frame: bytes, b: seq<bytes>)
    ensures Messages([frame] + b)
         == (match Wire.Unmarshal(frame) case Ok(m) => [m] case Err(_) => []) + Messages(b)
  {
    assert ([frame] + b)[1..] == b;
  }

  /** A frame that does not unmarshal is passed over; those before and after it are not affected. */
  lemma MessagesParts(a: seq<bytes>, frame: bytes, b: seq<bytes>)
    ensures Messages(a + ([frame] + b))
         == Messages(a) + ((match Wire.Unmarshal(frame) case Ok(m) => [m] case Err(_) => []) + Messages(b))
  {
    MessagesAppend(a, [frame] + b);
    MessagesRest(frame, b);
  }

  /** readLoop, until the stream ends or closeCh stops it before its k-th frame. */
  method ReadLoop(conn: Conn, stop: nat -> bool) returns (recv: seq<Wire.Message>)
    modifies conn`inbound
    ensures recv <= Messages(ParseServerFrames(old(conn.Pending())).0)
    ensures (forall k :: !stop(k)) ==> recv == Messages(ParseServerFrames(old(conn.Pending())).0)
  {
    var reader := new BufReader(conn, BUFIO_SIZE);
    assert reader.Pending() == conn.Pending();
    recv := [];
    var k := 0;
    while !stop(k)
      invariant fresh(reader) && reader.conn == conn
      invariant recv + Messages(ParseServerFrames(reader.Pending()).0)
          == Messages(ParseServerFrames(old(conn.Pending())).0)
      decreases |reader.Pending()|
    {
      ghost var s := reader.Pending();
      var frame := DecodeServerMessage(reader);
      if frame.Err? {
        assert ParseServerFrames(s).0 == [];
        return;
      }
      ghost var rest := reader.Pending();
      ParseServerFrameExact(s, frame.value, rest);
      var m := Wire.Unmarshal(frame.value);
      Received(recv, s, frame.value, rest);
      if m.Ok? {
        recv := recv + [m.value];
      }
      k := k + 1;
    }
  }

  lemma Received(recv: seq<Wire.Message>, s: bytes, frame: bytes, rest: bytes)
    requires ParseServerFrame(s) == Done(frame, rest)
    ensures recv + Messages(ParseServerFrames(s).0)
         == recv + (match Wire.Unmarshal(frame) case Ok(m) => [m] case Err(_) => [])
           + Messages(ParseServerFrames(rest).0)
  {
    var frames := ParseServerFrames(s).0;
    assert frames[1..] == ParseServerFrames(rest).0;
  }

  // --- the handover between the two readers --------------------------------------------

  /**
   The two writes ServerAuth.Authenticate makes, sent as a record each and
   followed by anything, are such records, with nothing sharing the second.
   */
  lemma ServerRecords(c: Challenge, later: seq<bytes>)
    requires c.Valid()
    ensures C.HandshakeRecords([ChallengeMessage(c), S.OK_MESSAGE] + later, c, [], later)
  {
    assert ResultMessage(AuthResult(STATUS_OK, [])) + [] == S.OK_MESSAGE;
  }

  /**
   Connect's steps 5 and 6. The read loop starts with a new reader, so what the
   handshake's own reader still holds is lost. If the server's handshake messages
   arrive as the records it wrote, the loop sees every byte the server sends
   after them exactly when nothing else shared a record with the second one.
   */
  method ConnectAndRead(conn: Conn, env: C.Env, ghost c: Challenge, ghost extra: bytes, ghost later: seq<bytes>,
      stop: nat -> bool)
    returns (outcome: C.Outcome, recv: seq<Wire.Message>, ghost seen: bytes)
    requires env.Valid() && C.HandshakeRecords(conn.inbound, c, extra, later)
    modifies conn
    ensures outcome.Connected? ==>
              && seen == Flatten(later)
              && C.Run(old(conn.Pending()), env).rest == extra + seen
              && (seen == C.Run(old(conn.Pending()), env).rest <==> extra == [])
    ensures outcome.Connected? && (forall k :: !stop(k)) ==> recv == Messages(ParseServerFrames(seen).0)
  {
    recv, seen := [], [];
    var reader;
    outcome, reader := C.Authenticate(conn, env, c, extra, later);
    if outcome.Connected? {
      seen := conn.Pending();
      assert reader.Pending() == extra + seen;
      recv := ReadLoop(conn, stop);
    }
  }
}
