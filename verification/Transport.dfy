/**
 The byte transport under both endpoints: a TLS connection, io.ReadFull over it,
 and the bufio.Reader the client puts in front of it.

 A read that fails, for whatever reason, is the end of `inbound`; a write that
 fails is the end of `credit`. Contracts that hold for every `inbound` and every
 `credit` therefore hold for every chunking and every point of failure.
 */
module Transport {
  import opened Bytes

  /** What a connection with this much credit left takes of a write. */
  function Sendable(broken: bool, credit: nat, data: bytes): (sent: bytes)
    ensures IsPrefix(sent, data)
  {
    if broken then [] else if |data| <= credit then data else data[..credit]
  }

  /** Two writes in a row are one write of both, stopping where the first one fails. */
  lemma SendableSplit(broken: bool, credit: nat, a: bytes, b: bytes)
    ensures broken || credit < |a| ==> Sendable(broken, credit, a + b) == Sendable(broken, credit, a)
    ensures !broken && |a| <= credit ==> Sendable(broken, credit, a + b) == a + Sendable(false, credit - |a|, b)
  {
  }

  class Conn {
    var inbound: seq<bytes>  // what is still to be read, one element per TLS record
    var outbound: bytes      // everything the peer will be able to read
    ghost var writes: seq<bytes>  // the same as the Write calls it came from, the completed ones
    var credit: nat          // how many more bytes can be written before writes fail
    var broken: bool         // a write has failed; tls.Conn then refuses all later ones

    constructor (inbound: seq<bytes>, credit: nat)
      ensures this.inbound == inbound && this.credit == credit
      ensures outbound == [] && writes == [] && !broken
    {
      this.inbound, this.credit := inbound, credit;
      outbound, writes, broken := [], [], false;
    }

    ghost function Pending(): bytes
      reads this
    {
      Flatten(inbound)
    }

    /** What `data` becomes on the wire if it is written now. */
    ghost function Accepted(data: bytes): (sent: bytes)
      reads this
      ensures IsPrefix(sent, data)
    {
      Sendable(broken, credit, data)
    }

    ghost predicate CanWrite(n: nat)
      reads this
    {
      !broken && n <= credit
    }

    /** One Read: at most `cap` bytes, and never bytes of two records. */
    method Read(cap: nat) returns (data: bytes, ok: bool)
      requires 0 < cap
      modifies this`inbound
      ensures !ok ==> data == [] && inbound == [] == old(inbound)
      ensures ok ==> old(inbound) != [] && |data| <= cap && IsPrefix(data, old(inbound)[0])
      ensures ok ==>
          inbound == (if |data| == |old(inbound)[0]| then [] else [old(inbound)[0][|data|..]]) + old(inbound)[1..]
      ensures ok ==> |data| == (if |old(inbound)[0]| <= cap then |old(inbound)[0]| else cap)
      ensures data + Pending() == old(Pending())
      ensures ok ==> |inbound| < |old(inbound)| || |Pending()| < |old(Pending())|
    {
      if inbound == [] {
        return [], false;
      }
      ok := true;
      var head, tail := inbound[0], inbound[1..];
      if |head| <= cap {
        data, inbound := head, tail;
      } else {
        data, inbound := head[..cap], [head[cap..]] + tail;
        assert inbound[1..] == tail;
        assert head == head[..cap] + head[cap..];
        assert Pending() == head[cap..] + Flatten(tail);
      }
    }

    /**
     io.ReadFull(conn, buf[lo:hi]). On failure the bytes that did arrive have
     been written into the buffer all the same.
     */
    method ReadFull(buf: array<byte>, lo: nat, hi: nat) returns (ok: bool)
      requires lo <= hi <= buf.Length
      modifies this`inbound, buf
      ensures ok <==> hi - lo <= |old(Pending())|
      ensures ok ==> buf[lo..hi] == old(Pending())[..hi - lo] && Pending() == old(Pending())[hi - lo..]
      ensures !ok ==> Pending() == []
      ensures forall i | 0 <= i < buf.Length && !(lo <= i < hi) :: buf[i] == old(buf[i])
    {
      var at := lo;
      ghost var stream := Pending();
      assert buf[lo..at] == [];
      while at < hi
        invariant lo <= at <= hi
        invariant buf[lo..at] + Pending() == stream
        invariant forall i | 0 <= i < buf.Length && !(lo <= i < hi) :: buf[i] == old(buf[i])
        decreases |inbound| + 2 * |Pending()|
      {
        var next, more := ReadSome(buf, lo, at, hi);
        if !more {
          assert stream == buf[lo..at];
          return false;
        }
        at := next;
      }
      ghost var got := buf[lo..hi];
      Parts(got, Pending());
      assert |got| == hi - lo;
      return true;
    }

    /** One round of io.ReadFull. */
    method ReadSome(buf: array<byte>, lo: nat, at: nat, hi: nat) returns (next: nat, ok: bool)
      requires lo <= at < hi <= buf.Length
      modifies this`inbound, buf
      ensures !ok ==> Pending() == old(Pending()) == [] && next == at
      ensures at <= next <= hi
      ensures buf[lo..next] + Pending() == old(buf[lo..at]) + old(Pending())
      ensures forall i | 0 <= i < buf.Length && !(lo <= i < hi) :: buf[i] == old(buf[i])
      ensures ok ==> |inbound| < |old(inbound)| || |Pending()| < |old(Pending())|
      ensures |inbound| <= |old(inbound)| && |Pending()| <= |old(Pending())|
    {
      ghost var got := buf[lo..at];
      var data;
      data, ok := Read(hi - at);
      if !ok {
        return at, false;
      }
      Copy(buf, at, data);
      next := at + |data|;
      assert buf[lo..next] == got + data;
      Assoc(got, data, Pending());
    }

    /** One Write. Once it fails, every later one does. */
    method Write(data: bytes) returns (ok: bool)
      modifies this`outbound, this`writes, this`credit, this`broken
      ensures ok <==> old(CanWrite(|data|))
      ensures outbound == old(outbound) + old(Accepted(data))
      ensures ok ==> credit == old(credit) - |data| && !broken && writes == old(writes) + [data]
      ensures !ok ==> broken && writes == old(writes)
    {
      if broken {
        return false;
      }
      if |data| <= credit {
        outbound, writes, credit := outbound + data, writes + [data], credit - |data|;
        return true;
      }
      outbound, credit, broken := outbound + data[..credit], 0, true;
      return false;
    }

    /** Consecutive writes, stopping at the first that fails: together they are one write of all the bytes. */
    method WriteAll(parts: seq<bytes>) returns (ok: bool)
      modifies this`outbound, this`writes, this`credit, this`broken
      ensures ok <==> parts == [] || old(CanWrite(|Flatten(parts)|))
      ensures outbound == old(outbound) + old(Accepted(Flatten(parts)))
      ensures ok ==> credit == old(credit) - |Flatten(parts)| && broken == old(broken)
      ensures !ok ==> broken
    {
      if parts == [] {
        return true;
      }
      ok := Write(parts[0]);
      if ok {
        ok := WriteAll(parts[1..]);
      }
    }
  }

  /** The default buffer of bufio.NewReader. */
  const BUFIO_SIZE: nat := 4096

  /**
   A bufio.Reader over a connection. With size 0 every read goes straight to the
   connection, so the class also stands for a plain io.Reader.
   */
  class BufReader {
    const conn: Conn
    const size: nat
    var buffered: bytes

    constructor (conn: Conn, size: nat)
      ensures this.conn == conn && this.size == size && buffered == []
    {
      this.conn, this.size := conn, size;
      buffered := [];
    }

    /** Every byte that reads through this reader can still return. */
    ghost function Pending(): bytes
      reads this, conn
    {
      buffered + conn.Pending()
    }

    /** The buffer is empty and the next record holds n bytes and fits in it. */
    ghost predicate RecordWaits(n: nat)
      reads this, conn
    {
      buffered == [] && conn.inbound != [] && 0 < n <= |conn.inbound[0]| <= size && n < size
    }

    /** One Read of the connection into the empty buffer. */
    method Fill() returns (ok: bool)
      requires buffered == [] && 0 < size
      modifies this, conn`inbound
      ensures Pending() == old(Pending())
      ensures !ok ==> buffered == [] && Pending() == []
      ensures ok ==> |conn.inbound| + |conn.Pending()| < old(|conn.inbound| + |conn.Pending()|)
      ensures old(conn.inbound) != [] && |old(conn.inbound)[0]| <= size ==>
                buffered == old(conn.inbound)[0] && conn.inbound == old(conn.inbound)[1..]
    {
      buffered, ok := conn.Read(size);
    }

    /** Reader.Read for a non-empty destination of n bytes. */
    method Read(n: nat) returns (data: bytes, ok: bool)
      requires 0 < n
      modifies this, conn`inbound
      ensures |data| <= n
      ensures data + Pending() == old(Pending())
      ensures !ok ==> data == [] && Pending() == []
      ensures n <= |old(buffered)| ==>
          |data| == n && buffered == old(buffered)[n..] && conn.inbound == old(conn.inbound)
      ensures old(RecordWaits(n)) ==>
          |data| == n && buffered == old(conn.inbound)[0][n..] && conn.inbound == old(conn.inbound)[1..]
      ensures ok ==>
          |conn.inbound| + |conn.Pending()| + |Pending()| < old(|conn.inbound| + |conn.Pending()| + |Pending()|)
    {
      if buffered == [] {
        if size <= n {
          data, ok := conn.Read(n);
          return;
        }
        ok := Fill();
        if buffered == [] {
          return [], ok;
        }
      }
      ok := true;
      data := Drain(n);
    }

    /** Copying out of the buffer. */
    method Drain(n: nat) returns (data: bytes)
      requires buffered != [] && 0 < n
      modifies this
      ensures |data| == if |old(buffered)| <= n then |old(buffered)| else n
      ensures buffered == old(buffered)[|data|..]
      ensures data + Pending() == old(Pending())
    {
      var k := if |buffered| <= n then |buffered| else n;
      data := buffered[..k];
      buffered := buffered[k..];
      assert data + buffered + conn.Pending() == data + (buffered + conn.Pending());
    }

    /** io.ReadFull into a fresh buffer of n bytes. */
    method ReadFull(n: nat) returns (data: bytes, ok: bool)
      modifies this, conn`inbound
      ensures ok <==> n <= |old(Pending())|
      ensures ok ==> data == old(Pending())[..n] && Pending() == old(Pending())[n..]
      ensures !ok ==> Pending() == []
      ensures n <= |old(buffered)| ==> buffered == old(buffered)[n..] && conn.inbound == old(conn.inbound)
      ensures old(RecordWaits(n)) ==> buffered == old(conn.inbound)[0][n..] && conn.inbound == old(conn.inbound)[1..]
    {
      data := [];
      ghost var stream, inPart := Pending(), n <= |buffered|;
      ghost var once := inPart || RecordWaits(n);
      ghost var left := if inPart then buffered[n..] else if once then conn.inbound[0][n..] else [];
      ghost var leftInbound := if !inPart && once then conn.inbound[1..] else conn.inbound;
      while |data| < n
        invariant |data| <= n
        invariant data + Pending() == stream
        invariant once && data == [] ==> buffered == old(buffered) && conn.inbound == old(conn.inbound)
        invariant once && data != [] ==> |data| == n && buffered == left && conn.inbound == leftInbound
        decreases |conn.inbound| + |conn.Pending()| + |Pending()|
      {
        ghost var before := data;
        var more, alive := Read(n - |data|);
        if !alive {
          return data, false;
        }
        data := data + more;
        assert before + more + Pending() == before + (more + Pending());
      }
      return data, true;
    }
  }
}
