/**
 The relay transformation end to end: client frame, protobuf message, server
 frame, protobuf message. What arrives is what was sent, and how much longer it
 has become on the way is known to the byte.
 */
module Relay {
  import opened Bytes
  import opened ProtocolData
  import Hex
  import Wire
  import R = RouterMessage

  /** The message a recipient should see. */
  function Delivered(sender: bytes, m: ClientMessage, now: int): Wire.Message {
    Wire.Message(Hex.Encode(sender), m.to, m.id, m.payload, now)
  }

  lemma AddressIsUtf8(s: bytes)
    requires forall i | 0 <= i < |s| :: Hex.IsHexChar(s[i])
    ensures Wire.IsUtf8(s)
  {
  }

  /** An acceptable message is marshalled exactly when its id is UTF-8. */
  lemma RelayedExact(sender: bytes, m: ClientMessage, now: int)
    requires |sender| == PUBLIC_KEY_SIZE && R.Acceptable(m) && Wire.IsInt64(now)
    ensures R.Relay(Hex.Encode(sender), m, now)
         == if Wire.IsUtf8(m.id)
            then Some(R.Publication(Hex.Subject(m.to), Wire.EncodeMessage(Delivered(sender, m, now)))) else None
  {
    Hex.EncodeIsLowerHex(sender);
    AddressIsUtf8(Hex.Encode(sender));
    AddressIsUtf8(m.to);
  }

  // --- round trip --------------------------------------------------------------------

  /** Decoding what the router relays gives the sender's address, the sender's message and the router's clock. */
  lemma RelayDecodes(sender: bytes, m: ClientMessage, now: int)
    requires |sender| == PUBLIC_KEY_SIZE && R.Acceptable(m) && Wire.IsUtf8(m.id) && Wire.IsInt64(now)
    requires |m.payload| < U32_LIMIT
    ensures Wire.Unmarshal(Wire.EncodeMessage(Delivered(sender, m, now))) == Ok(Delivered(sender, m, now))
  {
    Hex.EncodeIsLowerHex(sender);
    AddressIsUtf8(Hex.Encode(sender));
    AddressIsUtf8(m.to);
    Wire.RoundTrip(Delivered(sender, m, now));
  }

  /**
   The whole path. The frame an honest client writes, at the front of any stream,
   is parsed by the router, marshalled, framed for the recipient and, at the
   front of any stream of the recipient's, decoded: the message that comes out is
   the one that went in, with the sender's address and the time. Empty ids, empty
   payloads and any clock included.
   */
  lemma EndToEnd(sender: bytes, m: ClientMessage, now: int, max: nat, sent: bytes, received: bytes)
    requires |sender| == PUBLIC_KEY_SIZE && Wire.IsInt64(now)
    requires Encodable(m) && Hex.IsValidKey(m.to) && Wire.IsUtf8(m.id) && TotalLen(m) <= max < U32_LIMIT
    ensures var effect := R.Handle(ClientFrame(m) + sent, max, Hex.Encode(sender), now, true);
            && effect.problem == None && effect.rest == sent
            && |effect.published| == 1
            && var p := effect.published[0];
               && p.subject == Hex.Subject(m.to)
               && (|p.data| <= MAX_MESSAGE_SIZE ==>
                 ParseServerFrame(ServerFrame(p.data) + received) == Done(p.data, received))
               && Wire.Unmarshal(p.data) == Ok(Delivered(sender, m, now))
  {
    ParseFrameExact(ClientFrame(m) + sent, max, m, sent);
    R.RefinesDecoder(ClientFrame(m) + sent, max, m, sent);
    RelayedExact(sender, m, now);
    RelayDecodes(sender, m, now);
    var data := Wire.EncodeMessage(Delivered(sender, m, now));
    ParseServerFrameExact(ServerFrame(data) + received, data, received);
  }

  // --- size ------------------------------------------------------------------------------

  /** The bytes a length-delimited field adds to its content. */
  function FieldOverhead(n: nat): nat {
    if n == 0 then 0 else if n < 128 then 2 else if n < 16384 then 3 else if n < 0x20_0000 then 4
      else if n < 0x1000_0000 then 5 else 6
  }

  lemma FieldSize(tag: byte, s: bytes)
    requires |s| < U32_LIMIT
    ensures |Wire.LenField(tag, s)| == |s| + FieldOverhead(|s|)
  {
    Wire.Powers();
    Wire.VarintSize(|s|, 1);
    Wire.VarintSize(|s|, 2);
    Wire.VarintSize(|s|, 3);
    Wire.VarintSize(|s|, 4);
    Wire.VarintSize(|s|, 5);
  }

  lemma TimeSize(t: int)
    requires Wire.IsInt64(t)
    ensures |Wire.TimeField(t)| <= 11
    ensures 0 <= t < 0x8_0000_0000 ==> |Wire.TimeField(t)| <= 6
    ensures 0 <= t < 0x8_0000_0000 ==> (|Wire.TimeField(t)| == 6 <==> 0x1000_0000 <= t)
  {
    Wire.Powers();
    Wire.VarintSize(Wire.ToUint64(t), 4);
    Wire.VarintSize(Wire.ToUint64(t), 5);
    Wire.VarintSize(Wire.ToUint64(t), 10);
  }

  /**
   The size of a relayed message, exactly: the frame's own length and 66 bytes,
   plus what the three variable fields add.
   */
  lemma RelaySize(sender: bytes, m: ClientMessage, now: int)
    requires |sender| == PUBLIC_KEY_SIZE && R.Acceptable(m) && Wire.IsInt64(now) && |m.payload| < U32_LIMIT
    ensures |Wire.EncodeMessage(Delivered(sender, m, now))|
         == TotalLen(m) + 66 + FieldOverhead(|m.id|) + FieldOverhead(|m.payload|) + |Wire.TimeField(now)|
  {
    FieldSize(Wire.TAG_FROM, Hex.Encode(sender));
    FieldSize(Wire.TAG_TO, m.to);
    FieldSize(Wire.TAG_ID, m.id);
    FieldSize(Wire.TAG_PAYLOAD, m.payload);
  }

  /**
   For every clock from 1970 to the year 3058 a relayed message is at most 79
   bytes longer than its frame, and exactly 79 bytes longer precisely when the
   id has at least 128 bytes, the payload at least 16384 and the clock at least
   2^28 seconds.
   */
  lemma GrowthExact(sender: bytes, m: ClientMessage, now: int)
    requires |sender| == PUBLIC_KEY_SIZE && R.Acceptable(m) && 0 <= now < 0x8_0000_0000
        && TotalLen(m) <= MAX_MESSAGE_SIZE
    ensures var size := |Wire.EncodeMessage(Delivered(sender, m, now))|;
            && size <= TotalLen(m) + 79
            && (size == TotalLen(m) + 79 <==> 128 <= |m.id| && 16384 <= |m.payload| && 0x1000_0000 <= now)
  {
    RelaySize(sender, m, now);
    TimeSize(now);
  }

  /**
   The longest frame that is certain to fit. An accepted frame may be up to 65536
   bytes, yet its relayed form may then exceed the server frame's own 65536, and
   writing it fails on the recipient's connection. A length is safe for every
   message exactly when it is at most 65536 - 79.
   */
  lemma SafeLength(n: nat)
    requires R.MIN_MESSAGE_SIZE <= n <= MAX_MESSAGE_SIZE
    ensures (forall sender: bytes, m: ClientMessage, now: int ::
               |sender| == PUBLIC_KEY_SIZE && R.Acceptable(m) && TotalLen(m) == n && 0 <= now < 0x8_0000_0000 ==>
                 FitsServerFrame(sender, m, now))
            <==> n <= 65536 - 79
  {
    if n <= MAX_MESSAGE_SIZE - 79 {
      forall sender: bytes, m: ClientMessage, now: int |
        |sender| == PUBLIC_KEY_SIZE && R.Acceptable(m) && TotalLen(m) == n && 0 <= now < 0x8_0000_0000
        ensures FitsServerFrame(sender, m, now)
      {
        GrowthExact(sender, m, now);
      }
    } else {
      var key: bytes := seq(PUBLIC_KEY_SIZE, _ => 0);
      var m := ClientMessage(Hex.Encode(key), seq(128, _ => 97), seq(n - 194, _ => 0));
      Hex.EncodeIsValid(key);
      GrowthExact(key, m, 0x1000_0000);
      assert !FitsServerFrame(key, m, 0x1000_0000);
    }
  }

  /** The message can be written to its recipient. */
  predicate FitsServerFrame(sender: bytes, m: ClientMessage, now: int) {
    Wire.IsInt64(now) && |Wire.EncodeMessage(Delivered(sender, m, now))| <= MAX_MESSAGE_SIZE
  }
}
