/**
 Addresses: hex.EncodeToString of a key, the recipient check of
 pkg/router/message.go and the subjects of pkg/broker/subscriber.go.
 */
module Hex {
  import opened Bytes

  /** "goro.msg." */
  const SUBJECT_PREFIX: bytes := [103, 111, 114, 111, 46, 109, 115, 103, 46]

  function Digit(n: nat): byte
    requires n < 16
  {
    if n < 10 then 48 + n else 87 + n
  }

  /** hex.EncodeToString: lower-case, high half first. */
  function Encode(s: bytes): (h: bytes)
    ensures |h| == 2 * |s|
  {
    if s == [] then [] else [Digit(s[0] / 16), Digit(s[0] % 16)] + Encode(s[1..])
  }

  predicate IsHexChar(c: byte) {
    48 <= c <= 57 || 97 <= c <= 102 || 65 <= c <= 70
  }

  predicate IsUpper(c: byte) {
    65 <= c <= 70
  }

  predicate IsValidKey(s: bytes) {
    |s| == 2 * PUBLIC_KEY_SIZE && forall i | 0 <= i < |s| :: IsHexChar(s[i])
  }

  lemma HexCharText(c: byte)
    ensures IsHexChar(c) <==> c as char in "0123456789abcdefABCDEF"
    ensures IsHexChar(c) ==> Digit(Value(c)) == if c as char in "ABCDEF" then c + 32 else c
  {
    assert "0123456789abcdefABCDEF" == "0123456789" + "abcdef" + "ABCDEF";
  }

  /** A key's address, in the alphabet it is written in. */
  lemma ValidKeyText(s: bytes)
    ensures IsValidKey(s) <==> |s| == 64 && forall i | 0 <= i < |s| :: s[i] as char in "0123456789abcdefABCDEF"
  {
    forall i | 0 <= i < |s| ensures IsHexChar(s[i]) <==> s[i] as char in "0123456789abcdefABCDEF" {
      HexCharText(s[i]);
    }
  }

  /** isValidHexPubKey */
  method CheckKey(s: bytes) returns (valid: bool)
    ensures valid <==> IsValidKey(s)
  {
    if |s| != 2 * PUBLIC_KEY_SIZE { return false; }
    for i := 0 to |s|
      invariant forall k | 0 <= k < i :: IsHexChar(s[k])
    {
      var c := s[i];
      if !((c >= 48 && c <= 57) || (c >= 97 && c <= 102) || (c >= 65 && c <= 70)) {
        return false;
      }
    }
    return true;
  }

  function Value(c: byte): nat
    requires IsHexChar(c)
    ensures Value(c) < 16
  {
    if c <= 57 then c - 48 else if c <= 70 then c - 55 else c - 87
  }

  /** The key a hex string names, in either case. */
  function Decode(h: bytes): (s: bytes)
    requires |h| % 2 == 0 && forall i | 0 <= i < |h| :: IsHexChar(h[i])
    ensures |s| == |h| / 2
  {
    if h == [] then [] else [Value(h[0]) * 16 + Value(h[1])] + Decode(h[2..])
  }

  lemma {:induction false} EncodeIsLowerHex(s: bytes)
    ensures forall i | 0 <= i < 2 * |s| :: IsHexChar(Encode(s)[i]) && !IsUpper(Encode(s)[i])
  {
    if s == [] {
    } else {
      EncodeIsLowerHex(s[1..]);
    }
  }

  lemma {:induction false} DecodeEncode(s: bytes)
    ensures forall i | 0 <= i < 2 * |s| :: IsHexChar(Encode(s)[i])
    ensures Decode(Encode(s)) == s
  {
    EncodeIsLowerHex(s);
    if s == [] {
    } else {
      DecodeEncode(s[1..]);
      assert Encode(s)[2..] == Encode(s[1..]);
    }
  }

  /** A string is the encoding of the key it names exactly when it has no upper-case digit. */
  lemma {:induction false} EncodeDecode(h: bytes)
    requires |h| % 2 == 0 && forall i | 0 <= i < |h| :: IsHexChar(h[i])
    ensures Encode(Decode(h)) == h <==> forall i | 0 <= i < |h| :: !IsUpper(h[i])
  {
    if h == [] {
    } else {
      EncodeDecode(h[2..]);
      var low, rest := Encode(Decode(h))[..2], Encode(Decode(h[2..]));
      assert Decode(h)[1..] == Decode(h[2..]);
      assert Encode(Decode(h)) == low + rest;
      assert h == h[..2] + h[2..];
      PairOfDigits(h[0], h[1]);
      assert low[0] == h[0] <==> !IsUpper(h[0]);
      assert low[1] == h[1] <==> !IsUpper(h[1]);
      LowerByParts(h);
      assert low + rest == h <==> low == h[..2] && rest == h[2..];
    }
  }

  lemma PairOfDigits(c: byte, d: byte)
    requires IsHexChar(c) && IsHexChar(d)
    ensures var n := Value(c) * 16 + Value(d);
            n < 256 && n / 16 == Value(c) && n % 16 == Value(d)
    ensures Digit(Value(c)) == c <==> !IsUpper(c)
    ensures Digit(Value(d)) == d <==> !IsUpper(d)
  {
  }

  lemma LowerByParts(h: bytes)
    requires |h| >= 2
    ensures (forall i | 0 <= i < |h| :: !IsUpper(h[i]))
       <==> !IsUpper(h[0]) && !IsUpper(h[1]) && forall i | 0 <= i < |h[2..]| :: !IsUpper(h[2..][i])
  {
    if forall i | 0 <= i < |h[2..]| :: !IsUpper(h[2..][i]) {
      assert forall i | 2 <= i < |h| :: h[i] == h[2..][i - 2];
    }
  }

  /** Two digits for each byte, the high half first. */
  lemma {:induction false} EncodeAt(s: bytes, i: nat)
    requires i < |s|
    ensures Encode(s)[2 * i] == "0123456789abcdef"[s[i] / 16] as int
    ensures Encode(s)[2 * i + 1] == "0123456789abcdef"[s[i] % 16] as int
  {
    if i == 0 {
      DigitText(s[0] / 16);
      DigitText(s[0] % 16);
    } else {
      EncodeAt(s[1..], i - 1);
    }
  }

  lemma DigitText(n: nat)
    requires n < 16
    ensures Digit(n) == "0123456789abcdef"[n] as int
  {
  }

  /** Distinct keys have distinct addresses. */
  lemma EncodeInjective(a: bytes, b: bytes)
    requires Encode(a) == Encode(b)
    ensures a == b
  {
    DecodeEncode(a);
    DecodeEncode(b);
  }

  /** Every key's address passes the recipient check. */
  lemma EncodeIsValid(key: bytes)
    requires |key| == PUBLIC_KEY_SIZE
    ensures IsValidKey(Encode(key))
  {
    EncodeIsLowerHex(key);
  }

  /** subjectForClient */
  function Subject(address: bytes): bytes {
    SUBJECT_PREFIX + address
  }

  lemma SubjectText(address: bytes)
    ensures |Subject(address)| == 9 + |address| && Subject(address)[9..] == address
    ensures forall i | 0 <= i < 9 :: Subject(address)[i] == "goro.msg."[i] as int
  {
  }

  /**
   Addressing is exact. An accepted recipient names one key; it is published on a
   subject that peer listens to exactly when it is written without upper-case
   digits, and on no other key's subject in any case.
   */
  lemma Addressing(to: bytes, key: bytes)
    requires IsValidKey(to) && |key| == PUBLIC_KEY_SIZE
    ensures Subject(to) == Subject(Encode(key)) <==> Decode(to) == key && forall i | 0 <= i < |to| :: !IsUpper(to[i])
  {
    EncodeDecode(to);
    DecodeEncode(key);
    if Subject(to) == Subject(Encode(key)) {
      assert to == Subject(to)[|SUBJECT_PREFIX|..] == Subject(Encode(key))[|SUBJECT_PREFIX|..] == Encode(key);
    }
  }

  /** No accepted recipient contains a subject separator, a wildcard or a space. */
  lemma NoInjection(to: bytes)
    requires IsValidKey(to)
    ensures 46 !in to && 42 !in to && 62 !in to && 32 !in to
  {
  }
}
