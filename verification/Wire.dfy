/**
 The protobuf message of pkg/message/message.proto on the wire: five proto3 fields,
 default values omitted, strings required to be UTF-8.
 */
module Wire {
  import opened Bytes

  datatype Message = Message(from: bytes, to: bytes, id: bytes, payload: bytes, time: int)

  const EMPTY: Message := Message([], [], [], [], 0)

  datatype WireError = Truncated | Overflow | InvalidUtf8 | UnknownField

  // --- varints -------------------------------------------------------------------

  function Pow128(k: nat): (p: nat)
    ensures 0 < p
  {
    if k == 0 then 1 else 128 * Pow128(k - 1)
  }

  /** Base-128, least significant group first, high bit on all but the last. */
  function Varint(n: nat): (s: bytes)
    ensures s != []
  {
    if n < 128 then [n] else [n % 128 + 128] + Varint(n / 128)
  }

  function ReadGroups(s: bytes, left: nat): (r: Parsed<nat, WireError>)
    ensures r.Done? ==> |r.rest| < |s|
    decreases left
  {
    if s == [] then Fail(Truncated)
    else if left == 0 then Fail(Overflow)
    else if s[0] < 128 then Done(s[0], s[1..])
    else
      match ReadGroups(s[1..], left - 1)
      case Fail(e) => Fail(e)
      case Done(high, rest) => Done(s[0] - 128 + 128 * high, rest)
  }

  /** At most ten groups, and a value that fits in 64 bits. */
  function ReadVarint(s: bytes): (r: Parsed<nat, WireError>)
    ensures r.Done? ==> |r.rest| < |s|
  {
    match ReadGroups(s, 10)
    case Fail(e) => Fail(e)
    case Done(n, rest) => if n < U64_LIMIT then Done(n, rest) else Fail(Overflow)
  }

  lemma {:induction false} GroupsRoundTrip(n: nat, k: nat, rest: bytes)
    requires 0 < k && n < Pow128(k)
    ensures ReadGroups(Varint(n) + rest, k) == Done(n, rest)
  {
    var s := Varint(n) + rest;
    if n < 128 {
      assert s[1..] == rest;
    } else {
      assert n < 128 * Pow128(k - 1);
      assert k > 1;
      GroupsRoundTrip(n / 128, k - 1, rest);
      assert s[1..] == Varint(n / 128) + rest;
    }
  }

  lemma VarintRoundTrip(n: nat, rest: bytes)
    requires n < U64_LIMIT
    ensures ReadVarint(Varint(n) + rest) == Done(n, rest)
  {
    Powers();
    GroupsRoundTrip(n, 10, rest);
  }

  lemma Powers()
    ensures Pow128(1) == 128 && Pow128(2) == 16384 && Pow128(3) == 0x20_0000
    ensures Pow128(4) == 0x1000_0000 && Pow128(5) == 0x8_0000_0000 && Pow128(10) > U64_LIMIT
  {
    assert Pow128(2) == 128 * Pow128(1);
    assert Pow128(3) == 128 * Pow128(2);
    assert Pow128(4) == 128 * Pow128(3);
    assert Pow128(5) == 128 * Pow128(4);
    assert Pow128(6) == 128 * Pow128(5);
    assert Pow128(7) == 128 * Pow128(6);
    assert Pow128(8) == 128 * Pow128(7);
    assert Pow128(9) == 128 * Pow128(8);
    assert Pow128(10) == 128 * Pow128(9);
  }

  /** A varint takes at most k bytes exactly when its value has at most 7k bits. */
  lemma {:induction false} VarintSize(n: nat, k: nat)
    requires 0 < k
    ensures |Varint(n)| <= k <==> n < Pow128(k)
  {
    if k == 1 {
    } else if n >= 128 {
      VarintSize(n / 128, k - 1);
      assert Pow128(k) == 128 * Pow128(k - 1);
    } else {
      assert Pow128(k) == 128 * Pow128(k - 1) >= 128;
    }
  }

  /** The i-th byte of a varint is its digit of weight 128 to the i, with the high bit on all but the last. */
  lemma {:induction false} VarintDigit(n: nat, i: nat)
    requires i < |Varint(n)|
    ensures Varint(n)[i] == n / Pow128(i) % 128 + if i == |Varint(n)| - 1 then 0 else 128
  {
    if i == 0 {
    } else {
      VarintDigit(n / 128, i - 1);
      QuotientOfQuotient(n, 128, Pow128(i - 1));
    }
  }

  // --- UTF-8 (section 4 of RFC 3629) -----------------------------------------------

  predicate Within(s: bytes, i: nat, lo: byte, hi: byte) {
    i < |s| && lo <= s[i] <= hi
  }

  /** The length of the UTF-8 character s starts with, or 0 if it starts with none. */
  function CharLength(s: bytes): (n: nat)
    ensures n <= |s|
  {
    if s == [] then 0
    else if s[0] <= 0x7F then 1
    else if 0xC2 <= s[0] <= 0xDF && Within(s, 1, 0x80, 0xBF) then 2
    else if Within(s, 2, 0x80, 0xBF)
         && (|| (s[0] == 0xE0 && Within(s, 1, 0xA0, 0xBF))
             || (0xE1 <= s[0] <= 0xEC && Within(s, 1, 0x80, 0xBF))
             || (s[0] == 0xED && Within(s, 1, 0x80, 0x9F))
             || (0xEE <= s[0] <= 0xEF && Within(s, 1, 0x80, 0xBF))) then 3
    else if Within(s, 2, 0x80, 0xBF) && Within(s, 3, 0x80, 0xBF)
         && (|| (s[0] == 0xF0 && Within(s, 1, 0x90, 0xBF))
             || (0xF1 <= s[0] <= 0xF3 && Within(s, 1, 0x80, 0xBF))
             || (s[0] == 0xF4 && Within(s, 1, 0x80, 0x8F))) then 4
    else 0
  }

  predicate IsUtf8(s: bytes) {
    s == [] || (CharLength(s) > 0 && IsUtf8(s[CharLength(s)..]))
  }

  // The same from the other end: the encodings of Unicode scalar values.

  predicate IsScalar(c: nat) {
    c <= 0x10FFFF && !(0xD800 <= c <= 0xDFFF)
  }

  function EncodeScalar(c: nat): bytes
    requires IsScalar(c)
  {
    if c < 0x80 then [c]
    else if c < 0x800 then [0xC0 + c / 0x40, 0x80 + c % 0x40]
    else if c < 0x10000 then [0xE0 + c / 0x1000, 0x80 + c / 0x40 % 0x40, 0x80 + c % 0x40]
    else [0xF0 + c / 0x40000, 0x80 + c / 0x1000 % 0x40, 0x80 + c / 0x40 % 0x40, 0x80 + c % 0x40]
  }

  function EncodeText(cs: seq<nat>): bytes
    requires forall c | c in cs :: IsScalar(c)
  {
    if cs == [] then [] else EncodeScalar(cs[0]) + EncodeText(cs[1..])
  }

  lemma CharOfScalar(c: nat, rest: bytes)
    requires IsScalar(c)
    ensures CharLength(EncodeScalar(c) + rest) == |EncodeScalar(c)| > 0
  {
    var e := EncodeScalar(c);
    var s := e + rest;
    assert |e| > 1 ==> s[1] == e[1];
    assert |e| > 2 ==> s[2] == e[2];
    assert |e| > 3 ==> s[3] == e[3];
    ScalarBytes(c);
  }

  /** The first two bytes tell the ranges apart; the rest are continuation bytes. */
  lemma ScalarBytes(c: nat)
    requires IsScalar(c)
    ensures var e := EncodeScalar(c);
            && (forall i | 1 <= i < |e| :: 0x80 <= e[i] <= 0xBF)
            && match |e| {
                 case 1 => e[0] <= 0x7F
                 case 2 => 0xC2 <= e[0] <= 0xDF
                 case 3 => 0xE0 <= e[0] <= 0xEF && (e[0] == 0xE0 ==> e[1] >= 0xA0) && (e[0] == 0xED ==> e[1] <= 0x9F)
                 case _ => 0xF0 <= e[0] <= 0xF4 && (e[0] == 0xF0 ==> e[1] >= 0x90) && (e[0] == 0xF4 ==> e[1] <= 0x8F)
               }
  {
  }

  lemma ScalarOfChar(s: bytes) returns (c: nat)
    requires CharLength(s) > 0
    ensures IsScalar(c) && EncodeScalar(c) == s[..CharLength(s)]
  {
    var n := CharLength(s);
    if n == 1 {
      c := s[0];
    } else if n == 2 {
      c := ScalarOfTwo(s[0], s[1]);
    } else if n == 3 {
      c := ScalarOfThree(s[0], s[1], s[2]);
    } else {
      c := ScalarOfFour(s[0], s[1], s[2], s[3]);
    }
  }

  lemma ScalarOfTwo(a: byte, b: byte) returns (c: nat)
    requires 0xC2 <= a <= 0xDF && 0x80 <= b <= 0xBF
    ensures IsScalar(c) && EncodeScalar(c) == [a, b]
  {
    c := (a as int - 0xC0) * 0x40 + (b as int - 0x80);
  }

  lemma ScalarOfThree(a: byte, b: byte, d: byte) returns (c: nat)
    requires 0xE0 <= a <= 0xEF && 0x80 <= b <= 0xBF && 0x80 <= d <= 0xBF
    requires (a == 0xE0 ==> 0xA0 <= b) && (a == 0xED ==> b <= 0x9F)
    ensures IsScalar(c) && EncodeScalar(c) == [a, b, d]
  {
    var high, low: nat := (a as int - 0xE0) * 0x40 + (b as int - 0x80), d as int - 0x80;
    c := high * 0x40 + low;
    assert c / 0x40 == high && c % 0x40 == low;
    assert c / 0x1000 == high / 0x40;
  }

  lemma ScalarOfFour(a: byte, b: byte, d: byte, e: byte) returns (c: nat)
    requires 0xF0 <= a <= 0xF4 && 0x80 <= b <= 0xBF && 0x80 <= d <= 0xBF && 0x80 <= e <= 0xBF
    requires (a == 0xF0 ==> 0x90 <= b) && (a == 0xF4 ==> b <= 0x8F)
    ensures IsScalar(c) && EncodeScalar(c) == [a, b, d, e]
  {
    var top: nat := (a as int - 0xF0) * 0x40 + (b as int - 0x80);
    var high, low: nat := top * 0x40 + (d as int - 0x80), e as int - 0x80;
    c := high * 0x40 + low;
    assert c / 0x40 == high && c % 0x40 == low;
    assert c / 0x1000 == top;
    assert c / 0x40000 == top / 0x40;
  }

  lemma {:induction false} TextIsUtf8(cs: seq<nat>)
    requires forall c | c in cs :: IsScalar(c)
    ensures IsUtf8(EncodeText(cs))
  {
    if cs == [] {
    } else {
      var rest := EncodeText(cs[1..]);
      TextIsUtf8(cs[1..]);
      CharOfScalar(cs[0], rest);
      assert EncodeText(cs)[|EncodeScalar(cs[0])|..] == rest;
    }
  }

  lemma {:induction false} Utf8IsText(s: bytes) returns (cs: seq<nat>)
    requires IsUtf8(s)
    ensures (forall c | c in cs :: IsScalar(c)) && EncodeText(cs) == s
    decreases |s|
  {
    if s == [] {
      cs := [];
    } else {
      var n := CharLength(s);
      var c := ScalarOfChar(s);
      var rest := Utf8IsText(s[n..]);
      cs := [c] + rest;
      assert cs[1..] == rest;
      assert s == s[..n] + s[n..];
    }
  }

  /** A string is UTF-8 exactly when it is the encodings of some scalar values, one after the other. */
  lemma Utf8Exact(s: bytes)
    ensures IsUtf8(s) <==> exists cs: seq<nat> :: (forall c | c in cs :: IsScalar(c)) && EncodeText(cs) == s
  {
    if IsUtf8(s) {
      var cs := Utf8IsText(s);
    }
    forall cs: seq<nat> | (forall c | c in cs :: IsScalar(c)) && EncodeText(cs) == s ensures IsUtf8(s) {
      TextIsUtf8(cs);
    }
  }

  lemma {:induction false} AsciiIsUtf8(s: bytes)
    requires forall i | 0 <= i < |s| :: s[i] < 0x80
    ensures IsUtf8(s)
  {
    if s == [] {
    } else {
      AsciiIsUtf8(s[1..]);
    }
  }

  // --- fields ------------------------------------------------------------------------

  const TAG_FROM: byte := 10     // field 1, length-delimited
  const TAG_TO: byte := 18       // field 2, length-delimited
  const TAG_ID: byte := 26       // field 3, length-delimited
  const TAG_PAYLOAD: byte := 34  // field 4, length-delimited
  const TAG_TIME: byte := 40     // field 5, varint

  predicate IsInt64(t: int) {
    0 - INT64_LIMIT <= t < INT64_LIMIT
  }

  /** Two's complement. */
  function ToUint64(t: int): (n: nat)
    requires IsInt64(t)
    ensures n < U64_LIMIT
  {
    if t < 0 then t + U64_LIMIT else t
  }

  function FromUint64(n: nat): (t: int)
    requires n < U64_LIMIT
    ensures IsInt64(t)
  {
    if n < INT64_LIMIT then n else n - U64_LIMIT
  }

  function LenField(tag: byte, s: bytes): bytes {
    if s == [] then [] else [tag] + Varint(|s|) + s
  }

  function TimeField(t: int): bytes
    requires IsInt64(t)
  {
    if t == 0 then [] else [TAG_TIME] + Varint(ToUint64(t))
  }

  function EncodeMessage(m: Message): bytes
    requires IsInt64(m.time)
  {
    LenField(TAG_FROM, m.from) + LenField(TAG_TO, m.to) + LenField(TAG_ID, m.id) + LenField(TAG_PAYLOAD, m.payload)
      + TimeField(m.time)
  }

  /** proto.Marshal, which refuses a string that is not UTF-8. */
  function Marshal(m: Message): Result<bytes, WireError>
    requires IsInt64(m.time)
  {
    if IsUtf8(m.from) && IsUtf8(m.to) && IsUtf8(m.id) then Ok(EncodeMessage(m)) else Err(InvalidUtf8)
  }

  function ReadLen(s: bytes): (r: Parsed<bytes, WireError>)
    ensures r.Done? ==> |r.rest| < |s|
  {
    match ReadVarint(s)
    case Fail(e) => Fail(e)
    case Done(n, tail) => if n <= |tail| then Done(tail[..n], tail[n..]) else Fail(Truncated)
  }

  /** The message with one length-delimited field set; tags other than the four leave none. */
  function SetField(m: Message, tag: nat, v: bytes): Option<Message> {
    if tag == TAG_FROM then Some(m.(from := v))
    else if tag == TAG_TO then Some(m.(to := v))
    else if tag == TAG_ID then Some(m.(id := v))
    else if tag == TAG_PAYLOAD then Some(m.(payload := v))
    else None
  }

  /** proto.Unmarshal of the known fields: records in any order, the last of each kind counting. */
  function ReadFields(s: bytes, m: Message): Result<Message, WireError>
    decreases |s|
  {
    if s == [] then Ok(m)
    else
      match ReadVarint(s)
      case Fail(e) => Err(e)
      case Done(tag, tail) =>
        if tag == TAG_TIME then
          match ReadVarint(tail) {
            case Fail(e) => Err(e)
            case Done(n, rest) =>
              NoLoss(tail);
              ReadFields(rest, m.(time := FromUint64(n)))
          }
        else
          match ReadLen(tail) {
            case Fail(e) => if SetField(m, tag, []).None? then Err(UnknownField) else Err(e)
            case Done(v, rest) =>
              match SetField(m, tag, v) {
                case None => Err(UnknownField)
                case Some(m') => if tag != TAG_PAYLOAD && !IsUtf8(v) then Err(InvalidUtf8) else ReadFields(rest, m')
              }
          }
  }

  lemma NoLoss(s: bytes)
    ensures ReadVarint(s).Done? ==> ReadVarint(s).value < U64_LIMIT
  {
  }

  function Unmarshal(s: bytes): Result<Message, WireError> {
    ReadFields(s, EMPTY)
  }

  // --- layout ----------------------------------------------------------------------------

  /** A record: the field's number and wire type in one varint, then its content. */
  function Record(field: nat, wireType: nat, content: bytes): bytes {
    Varint(8 * field + wireType) + content
  }

  function Delimited(s: bytes): bytes {
    Varint(|s|) + s
  }

  /**
   Fields 1 to 4 are length-delimited (wire type 2), field 5 is a varint (0); a
   field at its default has no record.
   */
  lemma EncodedAsRecords(m: Message)
    requires IsInt64(m.time)
    ensures EncodeMessage(m)
         == (if m.from == [] then [] else Record(1, 2, Delimited(m.from)))
          + (if m.to == [] then [] else Record(2, 2, Delimited(m.to)))
          + (if m.id == [] then [] else Record(3, 2, Delimited(m.id)))
          + (if m.payload == [] then [] else Record(4, 2, Delimited(m.payload)))
          + (if m.time == 0 then [] else Record(5, 0, Varint(if m.time < 0 then m.time + U64_LIMIT else m.time)))
  {
    Assoc(Varint(10), Varint(|m.from|), m.from);
    Assoc(Varint(18), Varint(|m.to|), m.to);
    Assoc(Varint(26), Varint(|m.id|), m.id);
    Assoc(Varint(34), Varint(|m.payload|), m.payload);
  }

  // --- round trip ----------------------------------------------------------------------

  lemma ReadTag(tag: byte, tail: bytes)
    requires tag < 128
    ensures ReadVarint([tag] + tail) == Done(tag, tail)
  {
  }

  /** Reading a field that was written gives the message with that field set, and goes on with what follows. */
  lemma ReadLenField(tag: byte, v: bytes, rest: bytes, m: Message)
    requires tag in {TAG_FROM, TAG_TO, TAG_ID, TAG_PAYLOAD} && |v| < U64_LIMIT
    requires tag != TAG_PAYLOAD ==> IsUtf8(v)
    requires SetField(m, tag, []) == Some(m)
    ensures ReadFields(LenField(tag, v) + rest, m) == ReadFields(rest, SetField(m, tag, v).value)
  {
    if v == [] {
      assert [] + rest == rest;
    } else {
      var tail := Varint(|v|) + (v + rest);
      assert LenField(tag, v) + rest == [tag] + tail;
      ReadTag(tag, tail);
      ReadContent(v, rest);
    }
  }

  lemma ReadContent(v: bytes, rest: bytes)
    requires |v| < U64_LIMIT
    ensures ReadLen(Varint(|v|) + (v + rest)) == Done(v, rest)
  {
    VarintRoundTrip(|v|, v + rest);
    Parts(v, rest);
  }

  lemma ReadTimeField(t: int, m: Message)
    requires IsInt64(t) && m.time == 0
    ensures ReadFields(TimeField(t), m) == Ok(m.(time := t))
  {
    if t != 0 {
      var tail := Varint(ToUint64(t));
      ReadTag(TAG_TIME, tail);
      VarintRoundTrip(ToUint64(t), []);
      assert tail + [] == tail;
    }
  }

  /** Decoding what was encoded gives it back, default values and negative times included. */
  lemma RoundTrip(m: Message)
    requires IsInt64(m.time) && Marshal(m).Ok?
    requires |m.from| < U64_LIMIT && |m.to| < U64_LIMIT && |m.id| < U64_LIMIT && |m.payload| < U64_LIMIT
    ensures Unmarshal(Marshal(m).value) == Ok(m)
  {
    var f5 := TimeField(m.time);
    var f4 := LenField(TAG_PAYLOAD, m.payload) + f5;
    var f3 := LenField(TAG_ID, m.id) + f4;
    var f2 := LenField(TAG_TO, m.to) + f3;
    var f1 := LenField(TAG_FROM, m.from) + f2;
    assert EncodeMessage(m) == f1;
    var m1 := EMPTY.(from := m.from);
    var m2 := m1.(to := m.to);
    var m3 := m2.(id := m.id);
    var m4 := m3.(payload := m.payload);
    ReadLenField(TAG_FROM, m.from, f2, EMPTY);
    ReadLenField(TAG_TO, m.to, f3, m1);
    ReadLenField(TAG_ID, m.id, f4, m2);
    ReadLenField(TAG_PAYLOAD, m.payload, f5, m3);
    ReadTimeField(m.time, m4);
  }
}
