/**
 Bytes, big-endian integers and the few sequence operations the wire formats are made of.
 A Go string is the sequence of its bytes, so `bytes` stands for both []byte and string.
 */
module Bytes {

  type byte = x: int | 0 <= x < 256

  type bytes = seq<byte>

  datatype Option<+T> = None | Some(value: T)

  datatype Result<+T, +E> = Ok(value: T) | Err(error: E)

  /** The outcome of reading a value off the front of a byte stream. */
  datatype Parsed<+T, +E> = Done(value: T, rest: bytes) | Fail(error: E)

  const U16_LIMIT: nat := 0x1_0000
  const U32_LIMIT: nat := 0x1_0000_0000
  const U64_LIMIT: nat := 0x1_0000_0000_0000_0000
  const INT64_LIMIT: nat := 0x8000_0000_0000_0000

  const PUBLIC_KEY_SIZE: nat := 32

  // --- big-endian integers ---------------------------------------------------

  function Pow256(k: nat): (p: nat)
    ensures 0 < p
  {
    if k == 0 then 1 else 256 * Pow256(k - 1)
  }

  lemma PowersOf256()
    ensures Pow256(2) == U16_LIMIT && Pow256(4) == U32_LIMIT && Pow256(8) == U64_LIMIT
  {
    assert Pow256(4) == 256 * 256 * Pow256(2);
    assert Pow256(8) == 256 * 256 * 256 * 256 * Pow256(4) by {
      assert Pow256(6) == 256 * 256 * Pow256(4);
      assert Pow256(8) == 256 * 256 * Pow256(6);
    }
  }

  /** The k low-order bytes of n, most significant first; larger n wrap as a Go conversion does. */
  function BigEndian(k: nat, n: nat): (s: bytes)
    ensures |s| == k
  {
    if k == 0 then [] else BigEndian(k - 1, n / 256) + [n % 256]
  }

  function FromBigEndian(s: bytes): (n: nat)
    ensures n < Pow256(|s|)
  {
    if s == [] then 0 else FromBigEndian(s[..|s| - 1]) * 256 + s[|s| - 1]
  }

  lemma {:induction false} BigEndianRoundTrip(k: nat, n: nat)
    requires n < Pow256(k)
    ensures FromBigEndian(BigEndian(k, n)) == n
  {
    if k == 0 {
    } else {
      var s := BigEndian(k, n);
      assert s[..k - 1] == BigEndian(k - 1, n / 256);
      BigEndianRoundTrip(k - 1, n / 256);
    }
  }

  lemma {:induction false} FromBigEndianRoundTrip(s: bytes)
    ensures BigEndian(|s|, FromBigEndian(s)) == s
  {
    if s == [] {
    } else {
      FromBigEndianRoundTrip(s[..|s| - 1]);
      assert s == s[..|s| - 1] + [s[|s| - 1]];
    }
  }

  /** The i-th of the k bytes of n is its digit of weight 256 to the k - 1 - i. */
  lemma {:induction false} BigEndianDigit(k: nat, n: nat, i: nat)
    requires i < k
    ensures BigEndian(k, n)[i] == n / Pow256(k - 1 - i) % 256
  {
    if i == k - 1 {
    } else {
      BigEndianDigit(k - 1, n / 256, i);
      QuotientOfQuotient(n, 256, Pow256(k - 2 - i));
    }
  }

  lemma QuotientOfQuotient(n: nat, a: nat, b: nat)
    requires 0 < a && 0 < b
    ensures 0 < a * b && n / (a * b) == n / a / b
  {
    Division(n, a);
    Division(n / a, b);
    Spread(a, b, n / a / b, n / a % b, n % a);
    Division(n, a * b);
    UniqueQuotient(a * b, n / (a * b), n % (a * b), n / a / b, a * (n / a % b) + n % a);
  }

  lemma Division(n: nat, d: nat)
    requires 0 < d
    ensures n == d * (n / d) + n % d && n % d < d
  {
  }

  lemma Spread(a: nat, b: nat, q: nat, r': nat, r: nat)
    requires 0 < a && r' < b && r < a
    ensures 0 < a * b && a * (b * q + r') + r == (a * b) * q + (a * r' + r)
    ensures 0 <= a * r' + r < a * b
  {
    assert a * (b * q) == (a * b) * q;
    MulNext(a, r', b);
  }

  lemma MulNext(d: nat, q: nat, q': nat)
    requires q < q'
    ensures d * q + d <= d * q'
  {
    assert d * q' == d * q + d + d * (q' - q - 1);
  }

  lemma UniqueQuotient(d: nat, q: nat, r: nat, q': nat, r': nat)
    requires d * q + r == d * q' + r' && r < d && r' < d
    ensures q == q'
  {
    if q < q' {
      MulNext(d, q, q');
    } else if q' < q {
      MulNext(d, q', q);
    }
  }

  lemma BigEndianInjective(k: nat, m: nat, n: nat)
    requires m < Pow256(k) && n < Pow256(k) && BigEndian(k, m) == BigEndian(k, n)
    ensures m == n
  {
    BigEndianRoundTrip(k, m);
    BigEndianRoundTrip(k, n);
  }

  // --- streams and buffers ---------------------------------------------------

  /** The first n bytes of s, or failure when the stream ends before them. */
  function Take<E>(s: bytes, n: nat, short: E): (r: Parsed<bytes, E>)
    ensures r.Done? <==> n <= |s|
    ensures r.Done? ==> r.value + r.rest == s && |r.value| == n
    ensures r.Fail? ==> r.error == short
  {
    if n <= |s| then Done(s[..n], s[n..]) else Fail(short)
  }

  lemma TakeFront<E>(a: bytes, b: bytes, short: E)
    ensures Take(a + b, |a|, short) == Done(a, b)
  {
    Parts(a, b);
  }

  function Flatten(chunks: seq<bytes>): bytes
  {
    if chunks == [] then [] else chunks[0] + Flatten(chunks[1..])
  }

  lemma {:induction false} FlattenAppend(a: seq<bytes>, b: seq<bytes>)
    ensures Flatten(a + b) == Flatten(a) + Flatten(b)
  {
    if a == [] {
      assert a + b == b;
    } else {
      assert (a + b)[1..] == a[1..] + b;
      FlattenAppend(a[1..], b);
      assert Flatten(a + b) == a[0] + (Flatten(a[1..]) + Flatten(b));
    }
  }

  lemma FlattenOne(a: bytes)
    ensures Flatten([a]) == a
  {
    assert [a][1..] == [];
    assert a + Flatten([]) == a;
  }

  lemma FlattenTwo(a: bytes, b: bytes)
    ensures Flatten([a, b]) == a + b
  {
    FlattenOne(b);
    assert [a, b][1..] == [b];
  }

  /** Slices of what is left of s after its first a bytes. */
  lemma SliceOfDrop(s: bytes, a: nat, n: nat)
    requires a + n <= |s|
    ensures s[a..][..n] == s[a..a + n] && s[a..][n..] == s[a + n..]
  {
  }

  /** The two parts of a concatenation. */
  lemma Parts(a: bytes, b: bytes)
    ensures (a + b)[..|a|] == a && (a + b)[|a|..] == b
  {
  }

  lemma Assoc(a: bytes, b: bytes, c: bytes)
    ensures a + b + c == a + (b + c)
  {
  }

  predicate IsPrefix(p: bytes, s: bytes) {
    |p| <= |s| && p == s[..|p|]
  }

  lemma PrefixOfPrefix(p: bytes, q: bytes, s: bytes)
    requires IsPrefix(p, q) && IsPrefix(q, s)
    ensures IsPrefix(p, s)
  {
  }

  /** Go's copy(dst[at:], src) for a source that fits. */
  method Copy(dst: array<byte>, at: nat, src: bytes)
    requires at + |src| <= dst.Length
    modifies dst
    ensures dst[at..at + |src|] == src
    ensures forall i | 0 <= i < dst.Length && !(at <= i < at + |src|) :: dst[i] == old(dst[i])
  {
    forall i | 0 <= i < |src| {
      dst[at + i] := src[i];
    }
  }
}
