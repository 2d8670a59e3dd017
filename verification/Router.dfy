/**
 pkg/router/router.go, function by function: the authentication buffers as real
 arrays, and a handler running from its handshake to the return of its buffer
 while others run between any two of its steps.
 */
module Router {
  import opened Bytes
  import opened Transport
  import opened ProtocolAuth
  import opened RouterSlots
  import S = ServerAuth
  import M = RouterMessage
  import Hex

  /** Something another goroutine does: a step of its own, or a whole handshake over its own connection. */
  datatype Event = Move(a: Action) | Handshake(h: nat, conn: Conn, env: S.Env)

  class Router {
    const max: nat
    const serverId: bytes
    const bufs: seq<array<byte>>
    var state: State
    ghost var history: seq<Action>

    /** The part of Serve that fills the semaphore: max buffers, each with the server ID written into it. */
    constructor (max: nat, serverId: bytes)
      requires |serverId| == SERVER_ID_SIZE
      ensures this.max == max && this.serverId == serverId && state == Init(max)
      ensures Valid() && BuffersReady()
      ensures |bufs| == max && forall i | 0 <= i < |bufs| :: fresh(bufs[i]) && bufs[i].Length == 444
    {
      var all: seq<array<byte>> := [];
      for n := 0 to max
        invariant |all| == n
        invariant forall i | 0 <= i < n :: fresh(all[i]) && all[i].Length == S.AUTH_BUF_SIZE
        invariant forall i, j | 0 <= i < j < n :: all[i] != all[j]
        invariant forall i | 0 <= i < n :: ServerIdOf(all[i]) == serverId
      {
        var buf := new byte[S.AUTH_BUF_SIZE];
        Copy(buf, S.OFF_SERVER_ID, serverId);
        all := all + [buf];
      }
      this.max, this.serverId, this.bufs := max, serverId, all;
      state, history := Init(max), [];
    }

    static ghost function ServerIdOf(buf: array<byte>): bytes
      requires buf.Length == S.AUTH_BUF_SIZE
      reads buf
    {
      buf[S.OFF_SERVER_ID..S.OFF_SERVER_ID + SERVER_ID_SIZE]
    }

    ghost predicate Valid()
      reads this
    {
      && Reached(state, max, history)
      && |bufs| == max
      && (forall i | 0 <= i < max :: bufs[i].Length == S.AUTH_BUF_SIZE)
      && (forall i, j | 0 <= i < j < max :: bufs[i] != bufs[j])
    }

    /** Every buffer, free or held, carries the server ID. */
    ghost predicate BuffersReady()
      requires Valid()
      reads this, bufs
    {
      forall i | 0 <= i < max :: ServerIdOf(bufs[i]) == serverId
    }

    method Do(a: Action)
      requires Valid() && Enabled(state, max, a)
      modifies this`state, this`history
      ensures Valid() && state == Apply(old(state), max, a) && history == old(history) + [a]
    {
      var next := Step(a);
      state, history := next, history + [a];
    }

    method Step(a: Action) returns (next: State)
      requires Reached(state, max, history) && Enabled(state, max, a)
      ensures next == Apply(state, max, a) && Reached(next, max, history + [a])
    {
      next := Apply(state, max, a);
      Extend(state, max, history, a);
    }

    /**
     The select of the accept loop: a connection gets a handler and a buffer, or,
     exactly when every slot is taken, it is turned away.
     */
    method Admit() returns (h: Option<nat>)
      requires Valid() && BuffersReady()
      modifies this`state, this`history
      ensures Valid() && BuffersReady() && old(history) <= history
      ensures h.None? <==> |old(state.handlers)| == max
      ensures h.None? ==> state == old(state)
      ensures h.Some? ==>
                && h.value !in old(state).handlers && h.value in state.handlers
                && state.handlers[h.value].pc == Authenticating && state.handlers[h.value].buf < max
    {
      SlotSafety(max, history);
      if state.free == [] {
        return None;
      }
      var id := state.nextHandler;
      AdmitOne(state, max, history);
      Do(Accept);
      return Some(id);
    }

    static lemma AdmitOne(s: State, max: nat, history: seq<Action>)
      requires Reached(s, max, history) && s.free != []
      ensures s.nextHandler !in s.handlers
      ensures var s' := Apply(s, max, Accept);
              s.nextHandler in s'.handlers && s'.handlers[s.nextHandler].pc == Authenticating
                && s'.handlers[s.nextHandler].buf < max
    {
      HistoryKeepsInv(max, history);
    }

    /** A handshake in the buffer its handler holds. No other buffer changes, and the server ID in this one survives. */
    method Greet(h: nat, conn: Conn, env: S.Env, verify: S.Verifier) returns (outcome: S.Outcome)
      requires Valid() && BuffersReady() && h in state.handlers && env.Valid() && state.handlers[h].buf < max
      modifies bufs[state.handlers[h].buf], conn
      ensures BuffersReady()
      ensures old(conn.outbound) <= conn.outbound
      ensures S.CarriedOut(S.Run(old(conn.Pending()), serverId, env, verify), old(conn.broken), old(conn.credit),
                           conn.outbound[|old(conn.outbound)|..], outcome, conn.Pending())
      ensures outcome.Accepted? ==> bufs[state.handlers[h].buf][..PUBLIC_KEY_SIZE] == outcome.pubKey
    {
      var b := state.handlers[h].buf;
      assert ServerIdOf(bufs[b]) == serverId;
      outcome := S.Authenticate(conn, bufs[b], env, verify);
      assert ServerIdOf(bufs[b]) == serverId;
      assert bufs[b][..PUBLIC_KEY_SIZE] == bufs[b][S.OFF_PUB_KEY..S.OFF_PUB_KEY + PUBLIC_KEY_SIZE];
    }

    /**
     The others run for a while, handshakes included. The handler `me` is where it
     was, and its buffer is as it left it.
     */
    method Interfere(events: seq<Event>, me: nat, conns: set<Conn>, verify: S.Verifier)
      requires Valid() && BuffersReady() && me in state.handlers
      requires forall e | e in events && e.Handshake? :: e.conn in conns && e.env.Valid()
      modifies this`state, this`history, bufs, conns
      ensures Valid() && BuffersReady() && old(history) <= history
      ensures me in state.handlers && state.handlers[me] == old(state.handlers[me]) && state.handlers[me].buf < max
      ensures bufs[state.handlers[me].buf][..] == old(bufs[state.handlers[me].buf][..])
    {
      HeldSlot(state, max, history, me, me);
      for i := 0 to |events|
        invariant Valid() && BuffersReady() && old(history) <= history
        invariant me in state.handlers && state.handlers[me] == old(state.handlers[me]) && state.handlers[me].buf < max
        invariant bufs[state.handlers[me].buf][..] == old(bufs[state.handlers[me].buf][..])
      {
        var e := events[i];
        if e.Move? && Owner(e.a) != Some(me) && !e.a.AuthSucceeds? && !e.a.AuthFails? && Enabled(state, max, e.a) {
          StepLeavesHandler(state, max, history, e.a, me);
          Do(e.a);
        } else if e.Handshake? && e.h != me && e.h in state.handlers && state.handlers[e.h].pc.Authenticating? {
          HeldSlot(state, max, history, e.h, me);
          var outcome := Greet(e.h, e.conn, e.env, verify);
          var a := if outcome.Accepted? then AuthSucceeds(e.h, outcome.pubKey) else AuthFails(e.h);
          StepLeavesHandler(state, max, history, a, me);
          Do(a);
        }
      }
    }

    // --- handleConn --------------------------------------------------------------------

    /** The scheduler's part in one handler: what the others do at its k-th pause, over their own connections. */
    ghost predicate Plan(others: nat -> seq<Event>, conns: set<Conn>) {
      forall k, e | e in others(k) && e.Handshake? :: e.conn in conns && e.env.Valid()
    }

    /** Handler h is at pc, and the buffer it holds starts with this key. */
    ghost predicate At(h: nat, pc: HandlerPc, key: bytes)
      requires Valid()
      reads this, bufs
    {
      && h in state.handlers && state.handlers[h].pc == pc && state.handlers[h].buf < max
      && bufs[state.handlers[h].buf][..PUBLIC_KEY_SIZE] == key
    }

    /** A pause: nothing about this handler changes. */
    method Pause(events: seq<Event>, h: nat, ghost pc: HandlerPc, ghost key: bytes, conns: set<Conn>,
        verify: S.Verifier)
      requires Valid() && BuffersReady() && At(h, pc, key)
      requires forall e | e in events && e.Handshake? :: e.conn in conns && e.env.Valid()
      modifies this`state, this`history, bufs, conns
      ensures Valid() && BuffersReady() && At(h, pc, key) && old(history) <= history
    {
      Interfere(events, h, conns, verify);
      assert bufs[state.handlers[h].buf][..PUBLIC_KEY_SIZE] == bufs[state.handlers[h].buf][..][..PUBLIC_KEY_SIZE];
    }

    /** A step of this handler's own, and then a pause. */
    method Then(a: Action, h: nat, ghost key: bytes, events: seq<Event>, conns: set<Conn>, verify: S.Verifier)
      requires Valid() && BuffersReady() && h in state.handlers && At(h, state.handlers[h].pc, key)
      requires Enabled(state, max, a) && Owner(a) == Some(h) && !a.ReturnBuf?
      requires forall e | e in events && e.Handshake? :: e.conn in conns && e.env.Valid()
      modifies this`state, this`history, bufs, conns
      ensures Valid() && BuffersReady() && old(history) <= history
      ensures At(h, NextPc(old(state), old(state).handlers[h].pc, a), key)
    {
      StepMovesHandler(state, max, a, h);
      ghost var pc := NextPc(state, state.handlers[h].pc, a);
      Do(a);
      Pause(events, h, pc, key, conns, verify);
    }

    /** newPeer, replacing whoever is registered under the key, and peers.Store. */
    method Register(h: nat, key: bytes, others: nat -> seq<Event>, conns: set<Conn>, verify: S.Verifier)
      returns (peer: nat)
      requires Valid() && BuffersReady() && At(h, Creating(key), key) && Plan(others, conns)
      modifies this`state, this`history, bufs, conns
      ensures Valid() && BuffersReady() && At(h, Running(key, peer), key) && old(history) <= history
    {
      peer := state.nextPeer;
      Then(CreatePeer(h), h, key, others(1), conns, verify);
      Replace(h, key, peer, others, conns, verify);
      Then(Store(h), h, key, [], conns, verify);
    }

    /** The peer registered under this key before, if any, is taken out and closed. */
    method Replace(h: nat, key: bytes, peer: nat, others: nat -> seq<Event>, conns: set<Conn>, verify: S.Verifier)
      requires Valid() && BuffersReady() && At(h, Replacing(key, peer), key) && Plan(others, conns)
      modifies this`state, this`history, bufs, conns
      ensures Valid() && BuffersReady() && At(h, Storing(key, peer), key) && old(history) <= history
    {
      var loaded := if key in state.registry then Some(state.registry[key]) else None;
      Then(LoadAndDelete(h), h, key, others(2), conns, verify);
      if loaded.Some? {
        assert At(h, ClosingOld(key, peer, loaded.value), key);
        HeldSlot(state, max, history, h, h);
        Then(CloseOld(h), h, key, others(3), conns, verify);
      }
    }

    /** The deferred cleanup: peers.Delete, then peer.Close. */
    method CleanUp(h: nat, key: bytes, peer: nat, others: nat -> seq<Event>, conns: set<Conn>, verify: S.Verifier)
      requires Valid() && BuffersReady() && At(h, Running(key, peer), key) && Plan(others, conns)
      modifies this`state, this`history, bufs, conns
      ensures Valid() && BuffersReady() && At(h, ClosingConn, key) && old(history) <= history
    {
      Then(StopReading(h), h, key, others(5), conns, verify);
      Then(Delete(h), h, key, others(6), conns, verify);
      HeldSlot(state, max, history, h, h);
      Then(CloseSelf(h), h, key, others(7), conns, verify);
    }

    /** The outer defers: the connection is closed and the buffer returned, which never blocks. */
    method Leave(h: nat, ghost key: bytes, others: nat -> seq<Event>, conns: set<Conn>, verify: S.Verifier)
      requires Valid() && BuffersReady() && At(h, ClosingConn, key) && Plan(others, conns)
      modifies this`state, this`history, bufs, conns
      ensures Valid() && BuffersReady() && h !in state.handlers && old(history) <= history
    {
      Then(CloseConn(h), h, key, others(8), conns, verify);
      HeldSlot(state, max, history, h, h);
      Do(ReturnBuf(h));
    }

    /**
     handleConn, from accept to the return of the slot, among other handlers. The
     handshake is ServerAuth.Run; what is published is what the accepted stream
     relays under the accepted key, read from the buffer after others have run;
     and at the end the slot is free again, all buffers ready for the next.
     */
    method HandleConn(h: nat, conn: Conn, env: S.Env, verify: S.Verifier, subscribed: bool,
                      others: nat -> seq<Event>, conns: set<Conn>,
                      pool: seq<array<byte>>, pick: nat -> nat, msg: M.PooledMessage, publisher: M.Publisher,
                      maxMessageSize: nat, x: M.Surroundings)
      returns (outcome: S.Outcome)
      requires Valid() && BuffersReady() && h in state.handlers && state.handlers[h].pc.Authenticating?
      requires env.Valid() && conn !in conns && Plan(others, conns)
      requires 4 <= maxMessageSize < U32_LIMIT && x.Valid()
      requires pool != [] && forall i | 0 <= i < |pool| :: pool[i].Length == maxMessageSize && pool[i] !in bufs
      modifies this`state, this`history, bufs, conns, conn, pool, msg, publisher
      ensures Valid() && BuffersReady() && h !in state.handlers && old(history) <= history
      ensures old(conn.outbound) <= conn.outbound
      ensures exists unread: bytes ::
                && S.CarriedOut(S.Run(old(conn.Pending()), serverId, env, verify), old(conn.broken), old(conn.credit),
                                conn.outbound[|old(conn.outbound)|..], outcome, unread)
                && publisher.log == old(publisher.log)
                     + if outcome.Accepted? && subscribed
                       then M.Relayed(unread, maxMessageSize, Hex.Encode(outcome.pubKey), x, 0) else []
    {
      HeldSlot(state, max, history, h, h);
      outcome := Greet(h, conn, env, verify);
      ghost var unread, answered := conn.Pending(), conn.outbound;
      Attend(h, outcome, conn, subscribed, others, conns, verify, pool, pick, msg, publisher, maxMessageSize, x);
      assert conn.outbound == answered;
    }

    /** handleConn after authenticate. */
    method Attend(h: nat, outcome: S.Outcome, conn: Conn, subscribed: bool,
                  others: nat -> seq<Event>, conns: set<Conn>, verify: S.Verifier,
                  pool: seq<array<byte>>, pick: nat -> nat, msg: M.PooledMessage, publisher: M.Publisher,
                  maxMessageSize: nat, x: M.Surroundings)
      requires Valid() && BuffersReady() && h in state.handlers && state.handlers[h].pc.Authenticating?
          && state.handlers[h].buf < max
      requires outcome.Accepted? ==> At(h, Authenticating, outcome.pubKey)
      requires conn !in conns && Plan(others, conns)
      requires 4 <= maxMessageSize < U32_LIMIT && x.Valid()
      requires pool != [] && forall i | 0 <= i < |pool| :: pool[i].Length == maxMessageSize && pool[i] !in bufs
      modifies this`state, this`history, bufs, conns, conn`inbound, pool, msg, publisher
      ensures Valid() && BuffersReady() && h !in state.handlers && old(history) <= history
      ensures publisher.log == old(publisher.log)
                + if outcome.Accepted? && subscribed
                  then M.Relayed(old(conn.Pending()), maxMessageSize, Hex.Encode(outcome.pubKey), x, 0) else []
    {
      if outcome.Rejected? {
        ghost var stale := bufs[state.handlers[h].buf][..PUBLIC_KEY_SIZE];
        Then(AuthFails(h), h, stale, others(0), conns, verify);
        Leave(h, stale, others, conns, verify);
        return;
      }
      ghost var records := conn.inbound;
      Then(AuthSucceeds(h, outcome.pubKey), h, outcome.pubKey, others(0), conns, verify);
      assert conn.inbound == records;
      var id := bufs[state.handlers[h].buf][..PUBLIC_KEY_SIZE];
      if subscribed {
        Serve(h, id, conn, others, conns, verify, pool, pick, msg, publisher, maxMessageSize, x);
      } else {
        GiveUp(h, id, others, conns, verify);
      }
    }

    /** newPeer failed. */
    method GiveUp(h: nat, key: bytes, others: nat -> seq<Event>, conns: set<Conn>, verify: S.Verifier)
      requires Valid() && BuffersReady() && At(h, Creating(key), key) && Plan(others, conns)
      modifies this`state, this`history, bufs, conns
      ensures Valid() && BuffersReady() && h !in state.handlers && old(history) <= history
    {
      Then(CreateFails(h), h, key, others(1), conns, verify);
      Leave(h, key, others, conns, verify);
    }

    /** handleConn, once the peer can be created: register, relay until the stream ends, clean up. */
    method Serve(h: nat, id: bytes, conn: Conn, others: nat -> seq<Event>, conns: set<Conn>, verify: S.Verifier,
                 pool: seq<array<byte>>, pick: nat -> nat, msg: M.PooledMessage, publisher: M.Publisher,
                 maxMessageSize: nat, x: M.Surroundings)
      requires Valid() && BuffersReady() && At(h, Creating(id), id) && Plan(others, conns) && conn !in conns
      requires 4 <= maxMessageSize < U32_LIMIT && x.Valid()
      requires pool != [] && forall i | 0 <= i < |pool| :: pool[i].Length == maxMessageSize && pool[i] !in bufs
      modifies this`state, this`history, bufs, conns, conn`inbound, pool, msg, publisher
      ensures Valid() && BuffersReady() && h !in state.handlers && old(history) <= history
      ensures publisher.log == old(publisher.log) + M.Relayed(old(conn.Pending()), maxMessageSize, Hex.Encode(id), x, 0)
    {
      ghost var records := conn.inbound;
      var peer := Register(h, id, others, conns, verify);
      assert conn.inbound == records;
      RelayAll(h, id, peer, conn, pool, pick, msg, publisher, maxMessageSize, x);
      Depart(h, id, peer, others, conns, verify);
    }

    method Depart(h: nat, key: bytes, peer: nat, others: nat -> seq<Event>, conns: set<Conn>, verify: S.Verifier)
      requires Valid() && BuffersReady() && At(h, Running(key, peer), key) && Plan(others, conns)
      modifies this`state, this`history, bufs, conns
      ensures Valid() && BuffersReady() && h !in state.handlers && old(history) <= history
    {
      CleanUp(h, key, peer, others, conns, verify);
      Leave(h, key, others, conns, verify);
    }

    /** The read loop, which has no business with the authentication buffers. */
    method RelayAll(h: nat, id: bytes, ghost peer: nat, conn: Conn,
                    pool: seq<array<byte>>, pick: nat -> nat, msg: M.PooledMessage, publisher: M.Publisher,
                    maxMessageSize: nat, x: M.Surroundings)
      requires Valid() && BuffersReady() && At(h, Running(id, peer), id)
      requires 4 <= maxMessageSize < U32_LIMIT && x.Valid()
      requires pool != [] && forall i | 0 <= i < |pool| :: pool[i].Length == maxMessageSize && pool[i] !in bufs
      modifies conn`inbound, pool, msg, publisher
      ensures Valid() && BuffersReady() && At(h, Running(id, peer), id)
      ensures publisher.log == old(publisher.log) + M.Relayed(old(conn.Pending()), maxMessageSize, Hex.Encode(id), x, 0)
    {
      M.ReadLoop(conn, pool, pick, msg, publisher, maxMessageSize, Hex.Encode(id), x);
    }
  }
}
