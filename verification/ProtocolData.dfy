/**
 pkg/protocol/data.go: the length-prefixed frames exchanged after authentication.
 Each codec is given twice, as a function over bytes and as the source's sequence
 of reads or writes, and the second is proved to be the first for every chunking
 of the input and every point at which output may fail.
 */
module ProtocolData {
  import opened Bytes
  import opened Transport

  const TO_SIZE: nat := 2 * PUBLIC_KEY_SIZE
  const MAX_MESSAGE_SIZE: nat := 65536
  const MAX_MSG_ID_LEN: nat := 256

  datatype ClientMessage = ClientMessage(to: bytes, id: bytes, payload: bytes)

  datatype FrameError = Short | TooLarge | TooShort | BadIdLength

  // --- client frames -----------------------------------------------------------

  /** The value of the length prefix. */
  function TotalLen(m: ClientMessage): nat {
    TO_SIZE + 2 + |m.id| + |m.payload|
  }

  /** What ClientMessage.Encode demands of a message. */
  predicate Encodable(m: ClientMessage) {
    && |m.to| == TO_SIZE
    && |m.id| <= MAX_MSG_ID_LEN
    && TotalLen(m) <= MAX_MESSAGE_SIZE
  }

  function ClientFrame(m: ClientMessage): (s: bytes)
    ensures |m.to| == TO_SIZE ==> |s| == 4 + TotalLen(m)
  {
    BigEndian(4, TotalLen(m)) + m.to + BigEndian(2, |m.id|) + m.id + m.payload
  }

  /** The body of a frame, after its length prefix has been removed. */
  function ParseBody(data: bytes): (r: Option<ClientMessage>)
  {
    if |data| < TO_SIZE + 2 then None
    else
      var to, tail := data[..TO_SIZE], data[TO_SIZE..];
      var idLen := FromBigEndian(tail[..2]);
      var rest := tail[2..];
      if idLen > |rest| then None
      else Some(ClientMessage(to, rest[..idLen], rest[idLen..]))
  }

  /** A frame whose body is at most limit bytes. */
  function ParseFrame(s: bytes, limit: nat): Parsed<ClientMessage, FrameError>
  {
    match Take(s, 4, Short)
    case Fail(e) => Fail(e)
    case Done(prefix, tail) =>
      var total := FromBigEndian(prefix);
      if total > limit then Fail(TooLarge)
      else
        match Take(tail, total, Short)
        case Fail(e) => Fail(e)
        case Done(data, rest) =>
          if total < TO_SIZE + 2 then Fail(TooShort)
          else
            match ParseBody(data)
            case None => Fail(BadIdLength)
            case Some(m) => Done(m, rest)
  }

  /** DecodeClientMessage, as a function of the bytes to come. */
  function ParseClientFrame(s: bytes): Parsed<ClientMessage, FrameError> {
    ParseFrame(s, MAX_MESSAGE_SIZE)
  }

  /** A body parses to m exactly when it is m's fields in order. */
  lemma ParseBodyExact(data: bytes, m: ClientMessage)
    ensures ParseBody(data) == Some(m)
       <==> |m.to| == TO_SIZE && |m.id| < U16_LIMIT && data == m.to + BigEndian(2, |m.id|) + m.id + m.payload
  {
    if ParseBody(data) == Some(m) {
      BodyOfParse(data, m);
    }
    if |m.to| == TO_SIZE && |m.id| < U16_LIMIT && data == m.to + BigEndian(2, |m.id|) + m.id + m.payload {
      ParseOfBody(m);
    }
  }

  lemma BodyOfParse(data: bytes, m: ClientMessage)
    requires ParseBody(data) == Some(m)
    ensures |m.to| == TO_SIZE && |m.id| < U16_LIMIT && data == m.to + BigEndian(2, |m.id|) + m.id + m.payload
  {
    PowersOf256();
    var tail := data[TO_SIZE..];
    var lenBuf, rest := tail[..2], tail[2..];
    FromBigEndianRoundTrip(lenBuf);
    assert rest == m.id + m.payload;
    assert tail == lenBuf + rest;
    assert data == m.to + tail;
    RightAssoc(m.to, lenBuf, m.id, m.payload);
  }

  lemma ParseOfBody(m: ClientMessage)
    requires |m.to| == TO_SIZE && |m.id| < U16_LIMIT
    ensures ParseBody(m.to + BigEndian(2, |m.id|) + m.id + m.payload) == Some(m)
  {
    PowersOf256();
    var lenBuf := BigEndian(2, |m.id|);
    RightAssoc(m.to, lenBuf, m.id, m.payload);
    Parts(m.to, lenBuf + (m.id + m.payload));
    Parts(lenBuf, m.id + m.payload);
    BigEndianRoundTrip(2, |m.id|);
    Parts(m.id, m.payload);
  }

  lemma RightAssoc(a: bytes, b: bytes, c: bytes, d: bytes)
    ensures a + b + c + d == a + (b + (c + d))
  {
  }

  /**
   A decoder accepts m at the front of s, leaving rest, exactly when s is the
   frame of m followed by rest. Both directions at once: nothing else decodes to
   m, and every frame of legal size decodes, whatever follows it.
   */
  lemma ParseFrameExact(s: bytes, limit: nat, m: ClientMessage, rest: bytes)
    requires limit < U32_LIMIT
    ensures ParseFrame(s, limit) == Done(m, rest)
       <==> |m.to| == TO_SIZE && |m.id| < U16_LIMIT && TotalLen(m) <= limit && s == ClientFrame(m) + rest
  {
    if ParseFrame(s, limit) == Done(m, rest) {
      FrameOfParse(s, limit, m, rest);
    }
    if |m.to| == TO_SIZE && |m.id| < U16_LIMIT && TotalLen(m) <= limit && s == ClientFrame(m) + rest {
      ParseOfFrame(limit, m, rest);
    }
  }

  lemma FrameOfParse(s: bytes, limit: nat, m: ClientMessage, rest: bytes)
    requires ParseFrame(s, limit) == Done(m, rest)
    ensures |m.to| == TO_SIZE && |m.id| < U16_LIMIT && TotalLen(m) <= limit && s == ClientFrame(m) + rest
  {
    var prefix, tail := s[..4], s[4..];
    var total := FromBigEndian(prefix);
    var body := tail[..total];
    ParseBodyExact(body, m);
    FromBigEndianRoundTrip(prefix);
    assert total == |body| == TotalLen(m);
    FrameIsPrefixAndBody(m);
    Assoc(prefix, body, rest);
    assert tail == body + rest && s == prefix + tail;
  }

  lemma FrameIsPrefixAndBody(m: ClientMessage)
    ensures ClientFrame(m) == BigEndian(4, TotalLen(m)) + (m.to + BigEndian(2, |m.id|) + m.id + m.payload)
  {
  }

  lemma ParseOfFrame(limit: nat, m: ClientMessage, rest: bytes)
    requires limit < U32_LIMIT && |m.to| == TO_SIZE && |m.id| < U16_LIMIT && TotalLen(m) <= limit
    ensures ParseFrame(ClientFrame(m) + rest, limit) == Done(m, rest)
  {
    PowersOf256();
    var body := m.to + BigEndian(2, |m.id|) + m.id + m.payload;
    var prefix := BigEndian(4, TotalLen(m));
    FrameIsPrefixAndBody(m);
    Assoc(prefix, body, rest);
    TakeFront(prefix, body + rest, Short);
    BigEndianRoundTrip(4, TotalLen(m));
    TakeFront(body, rest, Short);
    ParseBodyExact(body, m);
  }

  lemma ParseClientFrameExact(s: bytes, m: ClientMessage, rest: bytes)
    ensures ParseClientFrame(s) == Done(m, rest)
       <==> |m.to| == 64 && |m.id| < U16_LIMIT && TotalLen(m) <= 65536 && s == ClientFrame(m) + rest
  {
    ParseFrameExact(s, MAX_MESSAGE_SIZE, m, rest);
  }

  /** Encode then decode is the identity, whatever bytes follow the frame. */
  lemma ClientFrameRoundTrip(m: ClientMessage, rest: bytes)
    requires Encodable(m)
    ensures ParseClientFrame(ClientFrame(m) + rest) == Done(m, rest)
  {
    ParseClientFrameExact(ClientFrame(m) + rest, m, rest);
  }

  /**
   Canonicity: a decoded message can be encoded again exactly when its id is
   within the encoder's limit, and then the encoding is the bytes consumed.
   */
  lemma ClientFrameCanonical(s: bytes, m: ClientMessage, rest: bytes)
    requires ParseClientFrame(s) == Done(m, rest)
    ensures Encodable(m) <==> |m.id| <= 256
    ensures ClientFrame(m) == s[..|s| - |rest|]
  {
    ParseClientFrameExact(s, m, rest);
  }

  /** Prefix-freedom: no frame is a proper prefix of another. */
  lemma ClientFramesPrefixFree(m: ClientMessage, n: ClientMessage)
    requires Encodable(m) && Encodable(n) && IsPrefix(ClientFrame(m), ClientFrame(n))
    ensures m == n
  {
    var rest := ClientFrame(n)[|ClientFrame(m)|..];
    ClientFrameRoundTrip(m, rest);
    ClientFrameRoundTrip(n, []);
    assert ClientFrame(n) == ClientFrame(m) + rest;
    assert ClientFrame(n) + [] == ClientFrame(n);
  }

  // --- server frames -----------------------------------------------------------

  function ServerFrame(data: bytes): (s: bytes)
    ensures |s| == 4 + |data|
  {
    BigEndian(4, |data|) + data
  }

  function ParseServerFrame(s: bytes): Parsed<bytes, FrameError>
  {
    match Take(s, 4, Short)
    case Fail(e) => Fail(e)
    case Done(prefix, tail) =>
      var total := FromBigEndian(prefix);
      if total > MAX_MESSAGE_SIZE then Fail(TooLarge) else Take(tail, total, Short)
  }

  lemma ParseServerFrameExact(s: bytes, data: bytes, rest: bytes)
    ensures ParseServerFrame(s) == Done(data, rest) <==> |data| <= 65536 && s == ServerFrame(data) + rest
  {
    PowersOf256();
    if ParseServerFrame(s) == Done(data, rest) {
      FromBigEndianRoundTrip(s[..4]);
      assert s == s[..4] + s[4..];
      assert s[4..] == data + rest;
    }
    if |data| <= MAX_MESSAGE_SIZE && s == ServerFrame(data) + rest {
      assert s[..4] == BigEndian(4, |data|);
      BigEndianRoundTrip(4, |data|);
      assert s[4..] == data + rest;
      assert (data + rest)[..|data|] == data && (data + rest)[|data|..] == rest;
    }
  }

  /** A stream cut anywhere inside a server frame is incomplete, never misread. */
  lemma CutServerFrame(data: bytes, p: bytes)
    requires |data| <= MAX_MESSAGE_SIZE && IsPrefix(p, ServerFrame(data)) && p != ServerFrame(data)
    ensures ParseServerFrame(p) == Fail(Short)
  {
    PowersOf256();
    if |p| >= 4 {
      assert p[..4] == BigEndian(4, |data|);
      BigEndianRoundTrip(4, |data|);
    }
  }

  /** The same for client frames, under any limit. */
  lemma CutFrame(m: ClientMessage, p: bytes, limit: nat)
    requires Encodable(m) && IsPrefix(p, ClientFrame(m)) && p != ClientFrame(m)
    ensures ParseFrame(p, limit) == Fail(if |p| < 4 || TotalLen(m) <= limit then Short else TooLarge)
  {
    PowersOf256();
    if |p| >= 4 {
      assert p[..4] == BigEndian(4, TotalLen(m));
      BigEndianRoundTrip(4, TotalLen(m));
    }
  }

  lemma CutClientFrame(m: ClientMessage, p: bytes)
    requires Encodable(m) && IsPrefix(p, ClientFrame(m)) && p != ClientFrame(m)
    ensures ParseClientFrame(p) == Fail(Short)
  {
    CutFrame(m, p, MAX_MESSAGE_SIZE);
  }

  // --- whole streams -----------------------------------------------------------

  /** The frames at the front of a stream and what is left when no further one can be read. */
  function ParseServerFrames(s: bytes): (r: (seq<bytes>, bytes))
    decreases |s|
  {
    match ParseServerFrame(s)
    case Fail(_) => ([], s)
    case Done(data, rest) =>
      ParseServerFrameExact(s, data, rest);
      var tail := ParseServerFrames(rest);
      ([data] + tail.0, tail.1)
  }

  function ServerFrames(datas: seq<bytes>): bytes {
    if datas == [] then [] else ServerFrame(datas[0]) + ServerFrames(datas[1..])
  }

  /** The frames of at most limit bytes at the front of a stream, and what is left. */
  function ParseFrames(s: bytes, limit: nat): (r: (seq<ClientMessage>, bytes))
    requires limit < U32_LIMIT
    decreases |s|
  {
    match ParseFrame(s, limit)
    case Fail(_) => ([], s)
    case Done(m, rest) =>
      ParseFrameExact(s, limit, m, rest);
      var tail := ParseFrames(rest, limit);
      ([m] + tail.0, tail.1)
  }

  function ParseClientFrames(s: bytes): (seq<ClientMessage>, bytes) {
    ParseFrames(s, MAX_MESSAGE_SIZE)
  }

  function ClientFrames(ms: seq<ClientMessage>): bytes {
    if ms == [] then [] else ClientFrame(ms[0]) + ClientFrames(ms[1..])
  }

  lemma {:induction false} ServerFramesAppend(a: seq<bytes>, b: seq<bytes>)
    ensures ServerFrames(a + b) == ServerFrames(a) + ServerFrames(b)
  {
    if a == [] {
      assert a + b == b;
    } else {
      assert (a + b)[1..] == a[1..] + b;
      ServerFramesAppend(a[1..], b);
      assert ServerFrames(a + b) == ServerFrame(a[0]) + (ServerFrames(a[1..]) + ServerFrames(b));
    }
  }

  lemma ParseServerFramesCons(data: bytes, rest: bytes)
    requires |data| <= MAX_MESSAGE_SIZE
    ensures ParseServerFrames(ServerFrame(data) + rest)
         == ([data] + ParseServerFrames(rest).0, ParseServerFrames(rest).1)
  {
    ParseServerFrameExact(ServerFrame(data) + rest, data, rest);
  }

  predicate Legal(m: ClientMessage, limit: nat) {
    |m.to| == TO_SIZE && |m.id| < U16_LIMIT && TotalLen(m) <= limit
  }

  lemma ParseFramesCons(m: ClientMessage, rest: bytes, limit: nat)
    requires limit < U32_LIMIT && Legal(m, limit)
    ensures ParseFrames(ClientFrame(m) + rest, limit) == ([m] + ParseFrames(rest, limit).0, ParseFrames(rest, limit).1)
  {
    ParseFrameExact(ClientFrame(m) + rest, limit, m, rest);
  }

  lemma ParseClientFramesCons(m: ClientMessage, rest: bytes)
    requires Encodable(m)
    ensures ParseClientFrames(ClientFrame(m) + rest)
         == ([m] + ParseClientFrames(rest).0, ParseClientFrames(rest).1)
  {
    ParseFramesCons(m, rest, MAX_MESSAGE_SIZE);
  }

  /** A stream that starts with frames decodes to their messages first. */
  lemma {:induction false} ParseFramesFirst(ms: seq<ClientMessage>, rest: bytes, limit: nat)
    requires limit < U32_LIMIT && forall m | m in ms :: Legal(m, limit)
    ensures ms <= ParseFrames(ClientFrames(ms) + rest, limit).0
  {
    if ms == [] {
    } else {
      var tail := ClientFrames(ms[1..]) + rest;
      ParseFramesFirst(ms[1..], rest, limit);
      Assoc(ClientFrame(ms[0]), ClientFrames(ms[1..]), rest);
      ParseFramesCons(ms[0], tail, limit);
      PrefixCons(ms, ParseFrames(tail, limit).0);
    }
  }

  lemma PrefixCons(ms: seq<ClientMessage>, got: seq<ClientMessage>)
    requires ms != [] && ms[1..] <= got
    ensures ms <= [ms[0]] + got
  {
  }

  /** What can be read, under any limit, of the frames an encoder wrote is some of its messages from the first on. */
  lemma {:induction false} ParseFramesOfPrefix(ms: seq<ClientMessage>, p: bytes, limit: nat)
    requires limit < U32_LIMIT && (forall m | m in ms :: Encodable(m)) && IsPrefix(p, ClientFrames(ms))
    ensures ParseFrames(p, limit).0 <= ms
  {
    if ms == [] {
    } else {
      var rest := SplitPrefix(p, ClientFrame(ms[0]), ClientFrames(ms[1..]));
      FirstFrame(ms[0], p, rest, limit);
      if ParseFrame(p, limit).Done? {
        ParseFramesOfPrefix(ms[1..], rest, limit);
        assert ms == [ms[0]] + ms[1..];
      }
    }
  }

  lemma FirstFrame(m: ClientMessage, p: bytes, rest: bytes, limit: nat)
    requires limit < U32_LIMIT && Encodable(m)
    requires if |p| < |ClientFrame(m)| then IsPrefix(p, ClientFrame(m)) else p == ClientFrame(m) + rest
    ensures ParseFrame(p, limit).Done? ==> ParseFrame(p, limit) == Done(m, rest) && |p| >= |ClientFrame(m)|
  {
    if |p| < |ClientFrame(m)| {
      CutFrame(m, p, limit);
    } else if TotalLen(m) <= limit {
      ParseFrameExact(p, limit, m, rest);
    } else {
      PowersOf256();
      assert p[..4] == BigEndian(4, TotalLen(m));
      BigEndianRoundTrip(4, TotalLen(m));
    }
  }

  /** A prefix of a + b either stops inside a or is a followed by a prefix of b. */
  lemma SplitPrefix(p: bytes, a: bytes, b: bytes) returns (rest: bytes)
    requires IsPrefix(p, a + b)
    ensures |p| < |a| ==> IsPrefix(p, a) && p != a
    ensures |a| <= |p| ==> p == a + rest && IsPrefix(rest, b)
    ensures |a| <= |p| ==> (p == a + b <==> rest == b)
  {
    if |p| < |a| {
      assert p == a[..|p|];
      rest := [];
    } else {
      rest := p[|a|..];
      assert p[..|a|] == a;
      assert p == a + rest;
      assert rest == (a + b)[|a|..|p|] == b[..|rest|];
    }
  }

  lemma {:induction false} ClientFramesAppend(a: seq<ClientMessage>, b: seq<ClientMessage>)
    ensures ClientFrames(a + b) == ClientFrames(a) + ClientFrames(b)
  {
    if a == [] {
      assert a + b == b;
    } else {
      assert (a + b)[1..] == a[1..] + b;
      ClientFramesAppend(a[1..], b);
      assert ClientFrames(a + b) == ClientFrame(a[0]) + (ClientFrames(a[1..]) + ClientFrames(b));
    }
  }

  /**
   Whatever prefix of a stream of server frames has arrived, reading it yields a
   prefix of the frames that were sent, in order and unchanged.
   */
  lemma {:induction false} ServerStreamPrefix(datas: seq<bytes>, p: bytes)
    requires forall d | d in datas :: |d| <= MAX_MESSAGE_SIZE
    requires IsPrefix(p, ServerFrames(datas))
    ensures ParseServerFrames(p).0 <= datas
    ensures p == ServerFrames(datas) ==> ParseServerFrames(p) == (datas, [])
  {
    if datas == [] {
      assert ParseServerFrames([]) == ([], []);
    } else {
      assert datas == [datas[0]] + datas[1..];
      var rest := SplitPrefix(p, ServerFrame(datas[0]), ServerFrames(datas[1..]));
      if |p| < |ServerFrame(datas[0])| {
        CutServerFrame(datas[0], p);
      } else {
        ParseServerFramesCons(datas[0], rest);
        ServerStreamPrefix(datas[1..], rest);
      }
    }
  }

  /** What a stream of client frames cut anywhere reads as: some of the messages, then an incomplete frame. */
  ghost predicate CutStream(ms: seq<ClientMessage>, p: bytes, got: seq<ClientMessage>, left: bytes) {
    && got <= ms
    && p == ClientFrames(got) + left
    && (left != [] ==> |got| < |ms| && IsPrefix(left, ClientFrame(ms[|got|])) && left != ClientFrame(ms[|got|]))
  }

  lemma {:induction false} ClientStreamPrefix(ms: seq<ClientMessage>, p: bytes)
    requires forall m | m in ms :: Encodable(m)
    requires IsPrefix(p, ClientFrames(ms))
    ensures CutStream(ms, p, ParseClientFrames(p).0, ParseClientFrames(p).1)
    ensures p == ClientFrames(ms) ==> ParseClientFrames(p) == (ms, [])
  {
    if ms == [] {
      assert ParseClientFrames([]) == ([], []);
    } else {
      var m, tail := ms[0], ms[1..];
      var rest := SplitPrefix(p, ClientFrame(m), ClientFrames(tail));
      if |p| < |ClientFrame(m)| {
        CutStreamNil(ms, p);
      } else {
        ClientStreamPrefix(tail, rest);
        CutStreamCons(ms, rest, ParseClientFrames(rest).0, ParseClientFrames(rest).1);
        ParseClientFramesCons(m, rest);
        assert ms == [m] + tail;
      }
    }
  }

  lemma CutStreamNil(ms: seq<ClientMessage>, p: bytes)
    requires ms != [] && Encodable(ms[0]) && IsPrefix(p, ClientFrame(ms[0])) && p != ClientFrame(ms[0])
    ensures ParseClientFrames(p) == ([], p)
    ensures CutStream(ms, p, [], p)
  {
    CutClientFrame(ms[0], p);
    assert p == ClientFrames([]) + p;
  }

  lemma CutStreamCons(ms: seq<ClientMessage>, p: bytes, got: seq<ClientMessage>, left: bytes)
    requires ms != [] && CutStream(ms[1..], p, got, left)
    ensures CutStream(ms, ClientFrame(ms[0]) + p, [ms[0]] + got, left)
  {
  }

  // --- the source's readers and writers ----------------------------------------

  /** ClientMessage.Encode: five writes; a refused message writes nothing. */
  method EncodeClientMessage(m: ClientMessage, w: Conn) returns (ok: bool)
    modifies w`outbound, w`writes, w`credit, w`broken
    ensures ok <==> Encodable(m) && old(w.CanWrite(|ClientFrame(m)|))
    ensures !Encodable(m) ==> w.outbound == old(w.outbound) && w.credit == old(w.credit) && w.broken == old(w.broken)
    ensures Encodable(m) ==> w.outbound == old(w.outbound) + old(w.Accepted(ClientFrame(m)))
    ensures ok ==> w.credit == old(w.credit) - |ClientFrame(m)| && !w.broken
    ensures Encodable(m) && !ok ==> w.broken
  {
    if |m.to| != TO_SIZE { return false; }
    if |m.id| > MAX_MSG_ID_LEN { return false; }
    var total := TO_SIZE + 2 + |m.id| + |m.payload|;
    if total > MAX_MESSAGE_SIZE { return false; }
    ok := w.WriteAll([BigEndian(4, total), m.to, BigEndian(2, |m.id|), m.id, m.payload]);
    FlattenFive(BigEndian(4, total), m.to, BigEndian(2, |m.id|), m.id, m.payload);
  }

  /** ServerMessage.Encode: the length, then the data. */
  method EncodeServerMessage(data: bytes, w: Conn) returns (ok: bool)
    modifies w`outbound, w`writes, w`credit, w`broken
    ensures ok <==> |data| <= MAX_MESSAGE_SIZE && old(w.CanWrite(|ServerFrame(data)|))
    ensures |data| > MAX_MESSAGE_SIZE ==> w.outbound == old(w.outbound)
    ensures |data| <= MAX_MESSAGE_SIZE ==> w.outbound == old(w.outbound) + old(w.Accepted(ServerFrame(data)))
    ensures ok ==> !w.broken && w.credit == old(w.credit) - |ServerFrame(data)|
  {
    if |data| > MAX_MESSAGE_SIZE { return false; }
    ok := w.WriteAll([BigEndian(4, |data|), data]);
    FlattenTwo(BigEndian(4, |data|), data);
  }

  lemma FlattenFive(a: bytes, b: bytes, c: bytes, d: bytes, e: bytes)
    ensures Flatten([a, b, c, d, e]) == a + b + c + d + e
  {
    FlattenAppend([a, b, c, d], [e]);
    FlattenAppend([a, b, c], [d]);
    FlattenAppend([a, b], [c]);
    FlattenAppend([a], [b]);
    FlattenOne(a); FlattenOne(b); FlattenOne(c); FlattenOne(d); FlattenOne(e);
    assert [a] + [b] == [a, b] && [a, b] + [c] == [a, b, c];
    assert [a, b, c] + [d] == [a, b, c, d] && [a, b, c, d] + [e] == [a, b, c, d, e];
  }

  method DecodeClientMessage(r: BufReader) returns (res: Result<ClientMessage, FrameError>)
    modifies r, r.conn`inbound
    ensures match ParseClientFrame(old(r.Pending()))
            case Done(m, rest) => res == Ok(m) && r.Pending() == rest
            case Fail(e) => res == Err(e)
  {
    var lenBuf, ok := r.ReadFull(4);
    if !ok { return Err(Short); }
    var total := FromBigEndian(lenBuf);
    if total > MAX_MESSAGE_SIZE { return Err(TooLarge); }
    var data, more := r.ReadFull(total);
    if !more { return Err(Short); }
    if |data| < TO_SIZE + 2 { return Err(TooShort); }
    var to := data[..TO_SIZE];
    data := data[TO_SIZE..];
    var idLen := FromBigEndian(data[..2]);
    data := data[2..];
    if idLen > |data| { return Err(BadIdLength); }
    return Ok(ClientMessage(to, data[..idLen], data[idLen..]));
  }

  method DecodeServerMessage(r: BufReader) returns (res: Result<bytes, FrameError>)
    modifies r, r.conn`inbound
    ensures match ParseServerFrame(old(r.Pending()))
            case Done(data, rest) => res == Ok(data) && r.Pending() == rest
            case Fail(e) => res == Err(e)
  {
    var lenBuf, ok := r.ReadFull(4);
    if !ok { return Err(Short); }
    var total := FromBigEndian(lenBuf);
    if total > MAX_MESSAGE_SIZE { return Err(TooLarge); }
    var data, more := r.ReadFull(total);
    if !more { return Err(Short); }
    return Ok(data);
  }
}
