/**
 pkg/protocol/auth.go: the four handshake messages and the data the client signs.
 */
module ProtocolAuth {
  import opened Bytes
  import opened Transport

  const TYPE_CLIENT_HELLO: byte := 1
  const TYPE_SERVER_CHALLENGE: byte := 2
  const TYPE_CLIENT_RESPONSE: byte := 3
  const TYPE_AUTH_RESULT: byte := 4

  const CHALLENGE_SIZE: nat := 32
  const TIMESTAMP_SIZE: nat := 8
  const SERVER_ID_SIZE: nat := 32
  const SIGNATURE_SIZE: nat := 64
  const CHANNEL_BINDING_SIZE: nat := 32

  const STATUS_OK: byte := 0
  const MAX_ERROR_MSG_LEN: nat := 1024

  /** "goro-auth-v1" */
  const PROTOCOL_VERSION: bytes := [103, 111, 114, 111, 45, 97, 117, 116, 104, 45, 118, 49]

  const SIGNED_DATA_SIZE: nat :=
    |PROTOCOL_VERSION| + CHALLENGE_SIZE + TIMESTAMP_SIZE + SERVER_ID_SIZE + PUBLIC_KEY_SIZE + CHANNEL_BINDING_SIZE

  datatype Challenge = Challenge(nonce: bytes, timestamp: nat, serverId: bytes) {
    predicate Valid() {
      |nonce| == CHALLENGE_SIZE && timestamp < U64_LIMIT && |serverId| == SERVER_ID_SIZE
    }
  }

  datatype AuthResult = AuthResult(status: byte, errorMsg: bytes)

  datatype AuthError = Short | TooLong

  // --- message bytes -----------------------------------------------------------

  function HelloMessage(pubKey: bytes): bytes {
    [TYPE_CLIENT_HELLO] + pubKey
  }

  function ChallengeMessage(c: Challenge): bytes {
    [TYPE_SERVER_CHALLENGE] + (c.nonce + BigEndian(TIMESTAMP_SIZE, c.timestamp) + c.serverId)
  }

  function ResponseMessage(signature: bytes): bytes {
    [TYPE_CLIENT_RESPONSE] + signature
  }

  /** The four messages, byte for byte. */
  lemma MessageLayout(pubKey: bytes, c: Challenge, signature: bytes, r: AuthResult)
    requires |r.errorMsg| <= 1024
    ensures HelloMessage(pubKey) == [1] + pubKey
    ensures ChallengeMessage(c) == [2] + c.nonce + BigEndian(8, c.timestamp) + c.serverId
    ensures ResponseMessage(signature) == [3] + signature
    ensures ResultMessage(r)
         == if r.status == 0 then [4, 0] else [4, r.status] + BigEndian(2, |r.errorMsg|) + r.errorMsg
  {
  }

  function Truncated(text: bytes): bytes {
    if |text| > MAX_ERROR_MSG_LEN then text[..MAX_ERROR_MSG_LEN] else text
  }

  function ResultBody(r: AuthResult): bytes {
    if r.status == STATUS_OK then [r.status]
    else [r.status] + (BigEndian(2, |Truncated(r.errorMsg)|) + Truncated(r.errorMsg))
  }

  function ResultMessage(r: AuthResult): bytes {
    [TYPE_AUTH_RESULT] + ResultBody(r)
  }

  // --- parsers, after the type byte ----------------------------------------------

  function ParseChallenge(s: bytes): (r: Parsed<Challenge, AuthError>)
    ensures r.Done? ==> r.value.Valid()
  {
    var size := CHALLENGE_SIZE + TIMESTAMP_SIZE + SERVER_ID_SIZE;
    if |s| < size then Fail(Short)
    else
      PowersOf256();
      Done(Challenge(s[..32], FromBigEndian(s[32..40]), s[40..72]), s[72..])
  }

  function ParseResult(s: bytes): Parsed<AuthResult, AuthError>
  {
    match Take(s, 1, Short)
    case Fail(e) => Fail(e)
    case Done(status, tail) =>
      if status[0] == STATUS_OK then Done(AuthResult(STATUS_OK, []), tail)
      else
        match ParseErrorText(tail)
        case Fail(e) => Fail(e)
        case Done(text, rest) => Done(AuthResult(status[0], text), rest)
  }

  function ParseErrorText(s: bytes): Parsed<bytes, AuthError>
  {
    match Take(s, 2, Short)
    case Fail(e) => Fail(e)
    case Done(lenBuf, tail) =>
      if FromBigEndian(lenBuf) > MAX_ERROR_MSG_LEN then Fail(TooLong) else Take(tail, FromBigEndian(lenBuf), Short)
  }

  /** A challenge decodes to c exactly from c's own encoding. */
  lemma ParseChallengeExact(s: bytes, c: Challenge, rest: bytes)
    ensures ParseChallenge(s) == Done(c, rest)
        <==> c.Valid() && [TYPE_SERVER_CHALLENGE] + s == ChallengeMessage(c) + rest
  {
    PowersOf256();
    var body := c.nonce + BigEndian(8, c.timestamp) + c.serverId;
    if ParseChallenge(s) == Done(c, rest) {
      FromBigEndianRoundTrip(s[32..40]);
      assert s == s[..32] + s[32..40] + s[40..72] + s[72..];
      assert s == body + rest;
      assert [TYPE_SERVER_CHALLENGE] + (body + rest) == ChallengeMessage(c) + rest;
    }
    if c.Valid() && [TYPE_SERVER_CHALLENGE] + s == ChallengeMessage(c) + rest {
      assert s == ([TYPE_SERVER_CHALLENGE] + s)[1..] == body + rest;
      assert s[..32] == c.nonce && s[32..40] == BigEndian(8, c.timestamp) && s[40..72] == c.serverId;
      BigEndianRoundTrip(8, c.timestamp);
    }
  }

  /** Decoding an encoded result gives it back with its text cut to 1024 bytes, and none at all for OK. */
  lemma ResultRoundTrip(r: AuthResult, rest: bytes)
    ensures ParseResult(ResultBody(r) + rest)
         == Done(AuthResult(r.status, if r.status == STATUS_OK then [] else Truncated(r.errorMsg)), rest)
  {
    if r.status == STATUS_OK {
      TakeFront([r.status], rest, Short);
    } else {
      var text := Truncated(r.errorMsg);
      var field := BigEndian(2, |text|) + text;
      Assoc([r.status], field, rest);
      TakeFront([r.status], field + rest, Short);
      ErrorTextRoundTrip(text, rest);
    }
  }

  lemma ErrorTextRoundTrip(text: bytes, rest: bytes)
    requires |text| <= MAX_ERROR_MSG_LEN
    ensures ParseErrorText(BigEndian(2, |text|) + text + rest) == Done(text, rest)
  {
    var lenBuf := BigEndian(2, |text|);
    Assoc(lenBuf, text, rest);
    TakeFront(lenBuf, text + rest, Short);
    TakeFront(text, rest, Short);
    PowersOf256();
    BigEndianRoundTrip(2, |text|);
  }

  /**
   A stream decodes to a result exactly when it is that result's encoding: OK
   without text, or a text of at most 1024 bytes.
   */
  lemma ParseResultExact(s: bytes, r: AuthResult, rest: bytes)
    ensures ParseResult(s) == Done(r, rest)
       <==> && (if r.status == 0 then r.errorMsg == [] else |r.errorMsg| <= 1024)
            && 0 <= r.status < 256 && s == ResultBody(r) + rest
  {
    if ParseResult(s) == Done(r, rest) {
      assert s == [s[0]] + s[1..];
      if r.status != STATUS_OK {
        ErrorTextExact(s[1..], r.errorMsg, rest);
        Assoc([r.status], BigEndian(2, |r.errorMsg|) + r.errorMsg, rest);
      }
    }
    if (if r.status == 0 then r.errorMsg == [] else |r.errorMsg| <= 1024) && s == ResultBody(r) + rest {
      ResultRoundTrip(r, rest);
    }
  }

  lemma ErrorTextExact(s: bytes, text: bytes, rest: bytes)
    requires ParseErrorText(s) == Done(text, rest)
    ensures |text| <= 1024 && s == BigEndian(2, |text|) + text + rest
  {
    FromBigEndianRoundTrip(s[..2]);
    assert s == s[..2] + s[2..];
    Assoc(s[..2], text, rest);
  }

  // --- signed data -----------------------------------------------------------------

  /** What the client signs and the server verifies. */
  function SignedData(c: Challenge, pubKey: bytes, binding: bytes): bytes {
    PROTOCOL_VERSION + c.nonce + BigEndian(TIMESTAMP_SIZE, c.timestamp) + c.serverId + pubKey + binding
  }

  /** Equal signed data means equal challenge, timestamp, server, key and channel. */
  lemma SignedDataInjective(c: Challenge, pk: bytes, cb: bytes, c': Challenge, pk': bytes, cb': bytes)
    requires c.Valid() && |pk| == PUBLIC_KEY_SIZE && |cb| == CHANNEL_BINDING_SIZE
    requires c'.Valid() && |pk'| == PUBLIC_KEY_SIZE && |cb'| == CHANNEL_BINDING_SIZE
    requires SignedData(c, pk, cb) == SignedData(c', pk', cb')
    ensures c == c' && pk == pk' && cb == cb'
  {
    SignedDataFields(c, pk, cb);
    SignedDataFields(c', pk', cb');
    PowersOf256();
    BigEndianInjective(8, c.timestamp, c'.timestamp);
  }

  /** The signed data starts with the protocol's name and version. */
  lemma SignedDataStart(c: Challenge, pk: bytes, cb: bytes)
    requires c.Valid()
    ensures |SignedData(c, pk, cb)| >= 12
    ensures forall i | 0 <= i < 12 :: SignedData(c, pk, cb)[i] == "goro-auth-v1"[i] as int
  {
    assert SignedData(c, pk, cb)[..12] == PROTOCOL_VERSION;
    assert forall i | 0 <= i < 12 :: SignedData(c, pk, cb)[..12][i] == SignedData(c, pk, cb)[i];
  }

  lemma SignedDataFields(c: Challenge, pk: bytes, cb: bytes)
    requires c.Valid() && |pk| == PUBLIC_KEY_SIZE && |cb| == CHANNEL_BINDING_SIZE
    ensures var d := SignedData(c, pk, cb);
            && |d| == SIGNED_DATA_SIZE == 148
            && d[12..44] == c.nonce && d[44..52] == BigEndian(8, c.timestamp)
            && d[52..84] == c.serverId && d[84..116] == pk && d[116..148] == cb
  {
  }

  /** BuildSignedDataTo, filling buf[at:at+148] field by field with a running offset. */
  method BuildSignedDataTo(buf: array<byte>, at: nat, c: Challenge, pubKey: bytes, binding: bytes)
    returns (size: nat)
    requires c.Valid() && |pubKey| == PUBLIC_KEY_SIZE && |binding| == CHANNEL_BINDING_SIZE
    requires at + SIGNED_DATA_SIZE <= buf.Length
    modifies buf
    ensures size == SIGNED_DATA_SIZE
    ensures buf[at..at + size] == SignedData(c, pubKey, binding)
    ensures forall i | 0 <= i < buf.Length && !(at <= i < at + size) :: buf[i] == old(buf[i])
  {
    var offset := Append(buf, at, 0, PROTOCOL_VERSION);
    offset := Append(buf, at, offset, c.nonce);
    offset := Append(buf, at, offset, BigEndian(TIMESTAMP_SIZE, c.timestamp));
    offset := Append(buf, at, offset, c.serverId);
    offset := Append(buf, at, offset, pubKey);
    offset := Append(buf, at, offset, binding);
    size := offset;
    assert [] + PROTOCOL_VERSION == PROTOCOL_VERSION;
  }

  /** offset += copy(buf[at+offset:], field) */
  method Append(buf: array<byte>, at: nat, offset: nat, field: bytes) returns (next: nat)
    requires at + offset + |field| <= buf.Length
    modifies buf
    ensures next == offset + |field|
    ensures buf[at..at + next] == old(buf[at..at + offset]) + field
    ensures forall i | 0 <= i < buf.Length && !(at + offset <= i < at + next) :: buf[i] == old(buf[i])
  {
    Copy(buf, at + offset, field);
    next := offset + |field|;
    assert buf[at..at + next] == buf[at..at + offset] + buf[at + offset..at + next];
  }

  // --- the source's readers and writers ----------------------------------------------

  /** ClientHello.Encode and ClientResponse.Encode: a type byte, then the field. */
  method EncodeTyped(kind: byte, field: bytes, w: Conn) returns (ok: bool)
    modifies w`outbound, w`writes, w`credit, w`broken
    ensures ok <==> old(w.CanWrite(1 + |field|))
    ensures w.outbound == old(w.outbound) + old(w.Accepted([kind] + field))
    ensures ok ==> w.credit == old(w.credit) - 1 - |field| && !w.broken
    ensures !ok ==> w.broken
  {
    ok := w.WriteAll([[kind], field]);
    FlattenTwo([kind], field);
  }

  method ReadMessageType(r: BufReader) returns (kind: byte, ok: bool)
    modifies r, r.conn`inbound
    ensures ok <==> old(r.Pending()) != []
    ensures ok ==> kind == old(r.Pending())[0] && r.Pending() == old(r.Pending())[1..]
    ensures old(r.RecordWaits(1)) ==>
        r.buffered == old(r.conn.inbound)[0][1..] && r.conn.inbound == old(r.conn.inbound)[1..]
    ensures 1 <= |old(r.buffered)| ==> r.buffered == old(r.buffered)[1..] && r.conn.inbound == old(r.conn.inbound)
  {
    var t, got := r.ReadFull(1);
    if !got { return 0, false; }
    return t[0], true;
  }

  method DecodeServerChallenge(r: BufReader) returns (res: Result<Challenge, AuthError>)
    modifies r, r.conn`inbound
    ensures match ParseChallenge(old(r.Pending()))
            case Done(c, rest) => res == Ok(c) && r.Pending() == rest
            case Fail(e) => res == Err(e)
    ensures 72 <= |old(r.buffered)| ==> r.buffered == old(r.buffered)[72..] && r.conn.inbound == old(r.conn.inbound)
  {
    ghost var s := r.Pending();
    var nonce, ok := r.ReadFull(CHALLENGE_SIZE);
    if !ok { return Err(Short); }
    var ts;
    ts, ok := r.ReadFull(TIMESTAMP_SIZE);
    if !ok { return Err(Short); }
    var serverId;
    serverId, ok := r.ReadFull(SERVER_ID_SIZE);
    if !ok { return Err(Short); }
    assert ts == s[32..40] && serverId == s[40..72] && r.Pending() == s[72..];
    return Ok(Challenge(nonce, FromBigEndian(ts), serverId));
  }

  method DecodeAuthResult(r: BufReader) returns (res: Result<AuthResult, AuthError>)
    modifies r, r.conn`inbound
    ensures match ParseResult(old(r.Pending()))
            case Done(a, rest) => res == Ok(a) && r.Pending() == rest
            case Fail(e) => res == Err(e)
    ensures 1 <= |old(r.buffered)| && res.Ok? && res.value.status == STATUS_OK ==>
              r.buffered == old(r.buffered)[1..] && r.conn.inbound == old(r.conn.inbound)
  {
    var status, ok := r.ReadFull(1);
    if !ok { return Err(Short); }
    if status[0] == STATUS_OK {
      return Ok(AuthResult(STATUS_OK, []));
    }
    var text := DecodeErrorText(r);
    if text.Err? { return Err(text.error); }
    return Ok(AuthResult(status[0], text.value));
  }

  /** The part of DecodeAuthResult after a status other than OK. */
  method DecodeErrorText(r: BufReader) returns (res: Result<bytes, AuthError>)
    modifies r, r.conn`inbound
    ensures match ParseErrorText(old(r.Pending()))
            case Done(text, rest) => res == Ok(text) && r.Pending() == rest
            case Fail(e) => res == Err(e)
  {
    var lenBuf, ok := r.ReadFull(2);
    if !ok { return Err(Short); }
    var errLen := FromBigEndian(lenBuf);
    if errLen > MAX_ERROR_MSG_LEN { return Err(TooLong); }
    var text;
    text, ok := r.ReadFull(errLen);
    if !ok { return Err(Short); }
    return Ok(text);
  }
}
