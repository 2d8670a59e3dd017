/**
 pkg/router/router.go as its goroutines run it: the channel of authentication
 buffers that is also the limit on connections, and the registry of peers, under
 any interleaving of the accept loop and the handlers.
 */
module RouterSlots {
  import opened Bytes

  /** Where a handler is. `id` is the authenticated key, `peer` the peer it created. */
  datatype HandlerPc =
    | Authenticating
    | Creating(id: bytes)
    | Replacing(id: bytes, peer: nat)
    | ClosingOld(id: bytes, peer: nat, previous: nat)
    | Storing(id: bytes, peer: nat)
    | Running(id: bytes, peer: nat)
    | Deleting(id: bytes, peer: nat)
    | ClosingSelf(id: bytes, peer: nat)
    | ClosingConn
    | Returning

  datatype Handler = Handler(buf: nat, pc: HandlerPc)

  datatype PeerRecord = PeerRecord(id: bytes, owner: nat, closed: bool)

  datatype State = State(
    free: seq<nat>,                  // authSem: the buffers nobody holds
    handlers: map<nat, Handler>,
    peers: map<nat, PeerRecord>,     // every peer ever created
    registry: map<bytes, nat>,       // the sync.Map
    nextHandler: nat,
    nextPeer: nat)

  datatype Action =
    | Accept
    | AuthFails(h: nat) | AuthSucceeds(h: nat, key: bytes)
    | CreateFails(h: nat) | CreatePeer(h: nat)
    | LoadAndDelete(h: nat) | CloseOld(h: nat) | Store(h: nat)
    | StopReading(h: nat) | Delete(h: nat) | CloseSelf(h: nat)
    | CloseConn(h: nat) | ReturnBuf(h: nat)
    | ClosedByWriterOrQueue(p: nat)

  function Init(max: nat): State {
    State(seq(max, i => i), map[], map[], map[], 0, 0)
  }

  predicate Enabled(s: State, max: nat, a: Action) {
    match a
    case Accept => s.free != []
    case AuthFails(h) => h in s.handlers && s.handlers[h].pc.Authenticating?
    case AuthSucceeds(h, _) => h in s.handlers && s.handlers[h].pc.Authenticating?
    case CreateFails(h) => h in s.handlers && s.handlers[h].pc.Creating?
    case CreatePeer(h) => h in s.handlers && s.handlers[h].pc.Creating?
    case LoadAndDelete(h) => h in s.handlers && s.handlers[h].pc.Replacing?
    case CloseOld(h) => h in s.handlers && s.handlers[h].pc.ClosingOld? && s.handlers[h].pc.previous in s.peers
    case Store(h) => h in s.handlers && s.handlers[h].pc.Storing?
    case StopReading(h) => h in s.handlers && s.handlers[h].pc.Running?
    case Delete(h) => h in s.handlers && s.handlers[h].pc.Deleting?
    case CloseSelf(h) => h in s.handlers && s.handlers[h].pc.ClosingSelf? && s.handlers[h].pc.peer in s.peers
    case CloseConn(h) => h in s.handlers && s.handlers[h].pc.ClosingConn?
    // a send on a full channel would block
    case ReturnBuf(h) => h in s.handlers && s.handlers[h].pc.Returning? && |s.free| < max
    case ClosedByWriterOrQueue(p) => p in s.peers
  }

  function Go(s: State, h: nat, pc: HandlerPc): State
    requires h in s.handlers
  {
    s.(handlers := s.handlers[h := s.handlers[h].(pc := pc)])
  }

  function Closed(s: State, p: nat): State
    requires p in s.peers
  {
    s.(peers := s.peers[p := s.peers[p].(closed := true)])
  }

  function Unregistered(s: State, id: bytes): State {
    s.(registry := s.registry - {id})
  }

  function Registered(s: State, id: bytes, p: nat): State {
    s.(registry := s.registry[id := p])
  }

  function WithPeer(s: State, id: bytes, h: nat): State {
    s.(peers := s.peers[s.nextPeer := PeerRecord(id, h, false)], nextPeer := s.nextPeer + 1)
  }

  function Apply(s: State, max: nat, a: Action): State
    requires Enabled(s, max, a)
  {
    match a
    case Accept =>
      s.(free := s.free[1..],
         handlers := s.handlers[s.nextHandler := Handler(s.free[0], Authenticating)],
         nextHandler := s.nextHandler + 1)
    case AuthFails(h) => Go(s, h, ClosingConn)
    case AuthSucceeds(h, key) => Go(s, h, Creating(key))
    case CreateFails(h) => Go(s, h, ClosingConn)
    case CreatePeer(h) => Go(WithPeer(s, s.handlers[h].pc.id, h), h, Replacing(s.handlers[h].pc.id, s.nextPeer))
    case LoadAndDelete(h) =>
      var pc := s.handlers[h].pc;
      if pc.id in s.registry then Go(Unregistered(s, pc.id), h, ClosingOld(pc.id, pc.peer, s.registry[pc.id]))
      else Go(s, h, Storing(pc.id, pc.peer))
    case CloseOld(h) =>
      var pc := s.handlers[h].pc;
      Go(Closed(s, pc.previous), h, Storing(pc.id, pc.peer))
    case Store(h) =>
      var pc := s.handlers[h].pc;
      Registered(Go(s, h, Running(pc.id, pc.peer)), pc.id, pc.peer)
    case StopReading(h) => Go(s, h, Deleting(s.handlers[h].pc.id, s.handlers[h].pc.peer))
    case Delete(h) =>
      var pc := s.handlers[h].pc;
      Go(Unregistered(s, pc.id), h, ClosingSelf(pc.id, pc.peer))
    case CloseSelf(h) => Go(Closed(s, s.handlers[h].pc.peer), h, ClosingConn)
    case CloseConn(h) => Go(s, h, Returning)
    case ReturnBuf(h) => s.(free := s.free + [s.handlers[h].buf], handlers := s.handlers - {h})
    case ClosedByWriterOrQueue(p) => Closed(s, p)
  }

  function After(max: nat, history: seq<Action>): Option<State> {
    if history == [] then Some(Init(max))
    else
      var a := history[|history| - 1];
      match After(max, history[..|history| - 1])
      case None => None
      case Some(s) => if Enabled(s, max, a) then Some(Apply(s, max, a)) else None
  }

  // --- buffers ---------------------------------------------------------------------------

  /** Each buffer is in the channel or with one handler, and there are max of them. */
  predicate SlotInv(s: State, max: nat) {
    && |s.free| + |s.handlers| == max
    && (forall i | 0 <= i < |s.free| :: s.free[i] < max)
    && (forall i, j | 0 <= i < j < |s.free| :: s.free[i] != s.free[j])
    && (forall h | h in s.handlers :: s.handlers[h].buf < max && s.handlers[h].buf !in s.free && h < s.nextHandler)
    && (forall h, g | h in s.handlers && g in s.handlers && h != g :: s.handlers[h].buf != s.handlers[g].buf)
  }

  lemma StepKeepsSlots(s: State, max: nat, a: Action)
    requires SlotInv(s, max) && Enabled(s, max, a)
    ensures SlotInv(Apply(s, max, a), max)
  {
    match a
    case Accept => AcceptKeepsSlots(s, max);
    case ReturnBuf(h) => ReturnKeepsSlots(s, max, h);
    case _ =>
      StepLeavesSlots(s, max, a);
      SameSlots(s, Apply(s, max, a), max);
  }

  predicate SlotsUntouched(s: State, s': State) {
    && s'.free == s.free && s'.nextHandler == s.nextHandler && s'.handlers.Keys == s.handlers.Keys
    && forall h | h in s.handlers :: s'.handlers[h].buf == s.handlers[h].buf
  }

  lemma StepLeavesSlots(s: State, max: nat, a: Action)
    requires Enabled(s, max, a) && !a.Accept? && !a.ReturnBuf?
    ensures SlotsUntouched(s, Apply(s, max, a))
  {
    assert forall h, pc | h in s.handlers :: s.handlers[h := s.handlers[h].(pc := pc)].Keys == s.handlers.Keys;
  }

  lemma AcceptKeepsSlots(s: State, max: nat)
    requires SlotInv(s, max) && s.free != []
    ensures SlotInv(Apply(s, max, Accept), max)
  {
    assert s.free[0] !in s.free[1..];
  }

  lemma ReturnKeepsSlots(s: State, max: nat, h: nat)
    requires SlotInv(s, max) && Enabled(s, max, ReturnBuf(h))
    ensures SlotInv(Apply(s, max, ReturnBuf(h)), max)
  {
    RemoveOne(s.handlers, h);
  }

  lemma RemoveOne(m: map<nat, Handler>, h: nat)
    requires h in m
    ensures |m - {h}| == |m| - 1
  {
    assert (m - {h}).Keys == m.Keys - {h};
  }

  lemma SameSlots(s: State, s': State, max: nat)
    requires SlotInv(s, max) && SlotsUntouched(s, s')
    ensures SlotInv(s', max)
  {
    assert |s'.handlers| == |s'.handlers.Keys| == |s.handlers|;
  }

  // --- peers and registry ------------------------------------------------------------------

  /** The peer a handler has created and not yet closed. */
  function PeerOf(pc: HandlerPc): Option<(bytes, nat)> {
    match pc
    case Replacing(id, p) => Some((id, p))
    case ClosingOld(id, p, _) => Some((id, p))
    case Storing(id, p) => Some((id, p))
    case Running(id, p) => Some((id, p))
    case Deleting(id, p) => Some((id, p))
    case ClosingSelf(id, p) => Some((id, p))
    case _ => None
  }

  /** The handler has stored the peer and not yet run its own delete. */
  predicate Serving(pc: HandlerPc, id: bytes, p: nat) {
    pc == Running(id, p) || pc == Deleting(id, p)
  }

  predicate PeerInv(s: State) {
    && (forall h | h in s.handlers && PeerOf(s.handlers[h].pc).Some? ::
          var (id, p) := PeerOf(s.handlers[h].pc).value;
          p in s.peers && s.peers[p].owner == h && s.peers[p].id == id)
    && (forall h | h in s.handlers && s.handlers[h].pc.ClosingOld? :: s.handlers[h].pc.previous in s.peers)
    && (forall h | h in s.handlers :: h < s.nextHandler)
    && (forall p | p in s.peers :: p < s.nextPeer && s.peers[p].owner < s.nextHandler)
    && (forall p | p in s.peers && !s.peers[p].closed ::
          s.peers[p].owner in s.handlers && PeerOf(s.handlers[s.peers[p].owner].pc) == Some((s.peers[p].id, p)))
  }

  predicate RegistryInv(s: State) {
    forall k | k in s.registry ::
      && s.registry[k] in s.peers && s.peers[s.registry[k]].id == k
      && s.peers[s.registry[k]].owner in s.handlers
      && Serving(s.handlers[s.peers[s.registry[k]].owner].pc, k, s.registry[k])
  }

  lemma GoKeepsPeers(s: State, h: nat, pc: HandlerPc)
    requires PeerInv(s) && h in s.handlers && PeerOf(pc) == PeerOf(s.handlers[h].pc)
    requires pc.ClosingOld? ==> pc.previous in s.peers
    ensures PeerInv(Go(s, h, pc))
  {
  }

  lemma CloseKeepsPeers(s: State, p: nat)
    requires PeerInv(s) && p in s.peers
    ensures PeerInv(Closed(s, p))
  {
  }

  /** A handler may lose sight of its peer once that is closed. */
  lemma LeaveKeepsPeers(s: State, h: nat)
    requires PeerInv(s) && h in s.handlers && s.handlers[h].pc.ClosingSelf?
    requires var p := s.handlers[h].pc.peer; p in s.peers && s.peers[p].closed
    ensures PeerInv(Go(s, h, ClosingConn))
  {
  }

  lemma CreateKeepsPeers(s: State, h: nat)
    requires PeerInv(s) && h in s.handlers && s.handlers[h].pc.Creating?
    ensures PeerInv(Go(WithPeer(s, s.handlers[h].pc.id, h), h, Replacing(s.handlers[h].pc.id, s.nextPeer)))
  {
  }

  lemma AcceptKeepsPeers(s: State, max: nat)
    requires PeerInv(s) && s.free != []
    ensures PeerInv(Apply(s, max, Accept))
  {
  }

  lemma ReturnKeepsPeers(s: State, max: nat, h: nat)
    requires PeerInv(s) && Enabled(s, max, ReturnBuf(h))
    ensures PeerInv(Apply(s, max, ReturnBuf(h)))
  {
    assert forall p | p in s.peers && !s.peers[p].closed :: s.peers[p].owner != h;
  }

  lemma StepKeepsPeers(s: State, max: nat, a: Action)
    requires PeerInv(s) && RegistryInv(s) && Enabled(s, max, a)
    ensures PeerInv(Apply(s, max, a))
  {
    match a
    case Accept => AcceptKeepsPeers(s, max);
    case CreatePeer(h) => CreateKeepsPeers(s, h);
    case CloseOld(h) => CloseOldKeepsPeers(s, max, h);
    case CloseSelf(h) =>
      CloseKeepsPeers(s, s.handlers[h].pc.peer);
      LeaveKeepsPeers(Closed(s, s.handlers[h].pc.peer), h);
    case ReturnBuf(h) => ReturnKeepsPeers(s, max, h);
    case ClosedByWriterOrQueue(p) => CloseKeepsPeers(s, p);
    case LoadAndDelete(h) => LoadKeepsPeers(s, max, h);
    case Store(h) => StoreKeepsPeers(s, max, h);
    case Delete(h) => DeleteKeepsPeers(s, max, h);
    case AuthFails(h) => GoKeepsPeers(s, h, ClosingConn);
    case AuthSucceeds(h, key) => GoKeepsPeers(s, h, Creating(key));
    case CreateFails(h) => GoKeepsPeers(s, h, ClosingConn);
    case StopReading(h) => GoKeepsPeers(s, h, Deleting(s.handlers[h].pc.id, s.handlers[h].pc.peer));
    case CloseConn(h) => GoKeepsPeers(s, h, Returning);
  }

  lemma LoadKeepsPeers(s: State, max: nat, h: nat)
    requires PeerInv(s) && RegistryInv(s) && Enabled(s, max, LoadAndDelete(h))
    ensures PeerInv(Apply(s, max, LoadAndDelete(h)))
  {
    var pc := s.handlers[h].pc;
    if pc.id in s.registry {
      GoKeepsPeers(Unregistered(s, pc.id), h, ClosingOld(pc.id, pc.peer, s.registry[pc.id]));
    } else {
      GoKeepsPeers(s, h, Storing(pc.id, pc.peer));
    }
  }

  lemma CloseOldKeepsPeers(s: State, max: nat, h: nat)
    requires PeerInv(s) && Enabled(s, max, CloseOld(h))
    ensures PeerInv(Apply(s, max, CloseOld(h)))
  {
    var pc := s.handlers[h].pc;
    CloseKeepsPeers(s, pc.previous);
    GoKeepsPeers(Closed(s, pc.previous), h, Storing(pc.id, pc.peer));
  }

  lemma StoreKeepsPeers(s: State, max: nat, h: nat)
    requires PeerInv(s) && Enabled(s, max, Store(h))
    ensures PeerInv(Apply(s, max, Store(h)))
  {
    GoKeepsPeers(s, h, Running(s.handlers[h].pc.id, s.handlers[h].pc.peer));
  }

  lemma DeleteKeepsPeers(s: State, max: nat, h: nat)
    requires PeerInv(s) && Enabled(s, max, Delete(h))
    ensures PeerInv(Apply(s, max, Delete(h)))
  {
    var pc := s.handlers[h].pc;
    GoKeepsPeers(Unregistered(s, pc.id), h, ClosingSelf(pc.id, pc.peer));
  }

  lemma GoKeepsRegistry(s: State, h: nat, pc: HandlerPc)
    requires PeerInv(s) && RegistryInv(s) && h in s.handlers
    requires forall k, p | Serving(s.handlers[h].pc, k, p) && k in s.registry && s.registry[k] == p :: Serving(pc, k, p)
    ensures RegistryInv(Go(s, h, pc))
  {
  }

  lemma CloseKeepsRegistry(s: State, p: nat)
    requires RegistryInv(s) && p in s.peers
    ensures RegistryInv(Closed(s, p))
  {
  }

  lemma UnregisterKeepsRegistry(s: State, id: bytes)
    requires RegistryInv(s)
    ensures RegistryInv(Unregistered(s, id))
  {
  }

  lemma StoreKeepsRegistry(s: State, h: nat, id: bytes, p: nat)
    requires PeerInv(s) && RegistryInv(s) && h in s.handlers && s.handlers[h].pc == Running(id, p)
    ensures RegistryInv(Registered(s, id, p))
  {
  }

  lemma CreateKeepsRegistry(s: State, id: bytes, h: nat)
    requires PeerInv(s) && RegistryInv(s)
    ensures RegistryInv(WithPeer(s, id, h))
  {
  }

  lemma HandlersKeepRegistry(s: State, s': State)
    requires RegistryInv(s) && s'.registry == s.registry && s'.peers == s.peers
    requires forall k | k in s.registry ::
               var h := s.peers[s.registry[k]].owner; h in s'.handlers && s'.handlers[h] == s.handlers[h]
    ensures RegistryInv(s')
  {
  }

  /** A handler that serves nobody can go. */
  lemma ReturnKeepsRegistry(s: State, max: nat, h: nat)
    requires RegistryInv(s) && Enabled(s, max, ReturnBuf(h))
    ensures RegistryInv(Apply(s, max, ReturnBuf(h)))
  {
    forall k | k in s.registry ensures s.peers[s.registry[k]].owner != h {
      assert Serving(s.handlers[s.peers[s.registry[k]].owner].pc, k, s.registry[k]);
    }
    HandlersKeepRegistry(s, Apply(s, max, ReturnBuf(h)));
  }

  lemma AcceptKeepsRegistry(s: State, max: nat)
    requires PeerInv(s) && RegistryInv(s) && Enabled(s, max, Accept)
    ensures RegistryInv(Apply(s, max, Accept))
  {
    HandlersKeepRegistry(s, Apply(s, max, Accept));
  }

  lemma GoOnKeepsRegistry(s: State, h: nat, pc: HandlerPc)
    requires PeerInv(s) && RegistryInv(s) && h in s.handlers
    requires !s.handlers[h].pc.Running? && !s.handlers[h].pc.Deleting?
    ensures RegistryInv(Go(s, h, pc))
  {
    GoKeepsRegistry(s, h, pc);
  }

  lemma CloseAndGoKeepsRegistry(s: State, h: nat, p: nat, pc: HandlerPc)
    requires PeerInv(s) && RegistryInv(s) && h in s.handlers && p in s.peers
    requires !s.handlers[h].pc.Running? && !s.handlers[h].pc.Deleting?
    ensures RegistryInv(Go(Closed(s, p), h, pc))
  {
    CloseKeepsPeers(s, p);
    CloseKeepsRegistry(s, p);
    GoOnKeepsRegistry(Closed(s, p), h, pc);
  }

  lemma StoreStepKeepsRegistry(s: State, h: nat)
    requires PeerInv(s) && RegistryInv(s) && h in s.handlers && s.handlers[h].pc.Storing?
    ensures var pc := s.handlers[h].pc; RegistryInv(Registered(Go(s, h, Running(pc.id, pc.peer)), pc.id, pc.peer))
  {
    var pc := s.handlers[h].pc;
    GoOnKeepsRegistry(s, h, Running(pc.id, pc.peer));
    GoKeepsPeers(s, h, Running(pc.id, pc.peer));
    StoreKeepsRegistry(Go(s, h, Running(pc.id, pc.peer)), h, pc.id, pc.peer);
  }

  lemma DeleteKeepsRegistry(s: State, h: nat)
    requires PeerInv(s) && RegistryInv(s) && h in s.handlers && s.handlers[h].pc.Deleting?
    ensures var pc := s.handlers[h].pc; RegistryInv(Go(Unregistered(s, pc.id), h, ClosingSelf(pc.id, pc.peer)))
  {
    var pc := s.handlers[h].pc;
    UnregisterKeepsRegistry(s, pc.id);
    GoKeepsRegistry(Unregistered(s, pc.id), h, ClosingSelf(pc.id, pc.peer));
  }

  lemma LoadKeepsRegistry(s: State, h: nat)
    requires PeerInv(s) && RegistryInv(s) && h in s.handlers && s.handlers[h].pc.Replacing?
    ensures var pc := s.handlers[h].pc;
            && (pc.id in s.registry ==>
              RegistryInv(Go(Unregistered(s, pc.id), h, ClosingOld(pc.id, pc.peer, s.registry[pc.id]))))
            && (pc.id !in s.registry ==> RegistryInv(Go(s, h, Storing(pc.id, pc.peer))))
  {
    var pc := s.handlers[h].pc;
    if pc.id in s.registry {
      UnregisterKeepsRegistry(s, pc.id);
      GoOnKeepsRegistry(Unregistered(s, pc.id), h, ClosingOld(pc.id, pc.peer, s.registry[pc.id]));
    } else {
      GoOnKeepsRegistry(s, h, Storing(pc.id, pc.peer));
    }
  }

  lemma StepKeepsRegistry(s: State, max: nat, a: Action)
    requires PeerInv(s) && RegistryInv(s) && Enabled(s, max, a)
    ensures RegistryInv(Apply(s, max, a))
  {
    match a
    case Accept => AcceptKeepsRegistry(s, max);
    case AuthFails(h) => GoOnKeepsRegistry(s, h, ClosingConn);
    case AuthSucceeds(h, key) => GoOnKeepsRegistry(s, h, Creating(key));
    case CreateFails(h) => GoOnKeepsRegistry(s, h, ClosingConn);
    case CreatePeer(h) =>
      CreateKeepsRegistry(s, s.handlers[h].pc.id, h);
      CreatedGoes(s, s.handlers[h].pc.id, h);
    case LoadAndDelete(h) => LoadKeepsRegistry(s, h);
    case CloseOld(h) =>
      CloseAndGoKeepsRegistry(s, h, s.handlers[h].pc.previous, Storing(s.handlers[h].pc.id, s.handlers[h].pc.peer));
    case Store(h) => StoreStepKeepsRegistry(s, h);
    case StopReading(h) => GoKeepsRegistry(s, h, Deleting(s.handlers[h].pc.id, s.handlers[h].pc.peer));
    case Delete(h) => DeleteKeepsRegistry(s, h);
    case CloseSelf(h) => CloseAndGoKeepsRegistry(s, h, s.handlers[h].pc.peer, ClosingConn);
    case CloseConn(h) => GoOnKeepsRegistry(s, h, Returning);
    case ReturnBuf(h) => ReturnKeepsRegistry(s, max, h);
    case ClosedByWriterOrQueue(p) => CloseKeepsRegistry(s, p);
  }

  lemma CreatedGoes(s: State, id: bytes, h: nat)
    requires PeerInv(s) && RegistryInv(WithPeer(s, id, h)) && h in s.handlers && s.handlers[h].pc.Creating?
    ensures RegistryInv(Go(WithPeer(s, id, h), h, Replacing(id, s.nextPeer)))
  {
  }

  predicate Inv(s: State, max: nat) {
    SlotInv(s, max) && PeerInv(s) && RegistryInv(s)
  }

  lemma {:induction false} HistoryKeepsInv(max: nat, history: seq<Action>)
    requires After(max, history).Some?
    ensures Inv(After(max, history).value, max)
  {
    if history == [] {
    } else {
      HistoryKeepsInv(max, history[..|history| - 1]);
      var s, a := After(max, history[..|history| - 1]).value, history[|history| - 1];
      StepKeepsSlots(s, max, a);
      StepKeepsPeers(s, max, a);
      StepKeepsRegistry(s, max, a);
    }
  }

  /** A state some history leads to. */
  ghost predicate Reached(s: State, max: nat, history: seq<Action>) {
    After(max, history) == Some(s)
  }

  /** The handler an action belongs to; the accept loop and the peers' own goroutines belong to none. */
  function Owner(a: Action): Option<nat> {
    match a
    case Accept => None
    case AuthFails(h) => Some(h)
    case AuthSucceeds(h, _) => Some(h)
    case CreateFails(h) => Some(h)
    case CreatePeer(h) => Some(h)
    case LoadAndDelete(h) => Some(h)
    case CloseOld(h) => Some(h)
    case Store(h) => Some(h)
    case StopReading(h) => Some(h)
    case Delete(h) => Some(h)
    case CloseSelf(h) => Some(h)
    case CloseConn(h) => Some(h)
    case ReturnBuf(h) => Some(h)
    case ClosedByWriterOrQueue(_) => None
  }

  /** Where a handler's own step takes it, as long as it keeps its slot. */
  function NextPc(s: State, pc: HandlerPc, a: Action): HandlerPc {
    match a
    case AuthSucceeds(_, key) => Creating(key)
    case CreatePeer(_) => if pc.Creating? then Replacing(pc.id, s.nextPeer) else pc
    case LoadAndDelete(_) =>
      if !pc.Replacing? then pc
      else if pc.id in s.registry then ClosingOld(pc.id, pc.peer, s.registry[pc.id])
      else Storing(pc.id, pc.peer)
    case CloseOld(_) => if pc.ClosingOld? then Storing(pc.id, pc.peer) else pc
    case Store(_) => if pc.Storing? then Running(pc.id, pc.peer) else pc
    case StopReading(_) => if pc.Running? then Deleting(pc.id, pc.peer) else pc
    case Delete(_) => if pc.Deleting? then ClosingSelf(pc.id, pc.peer) else pc
    case CloseConn(_) => Returning
    case _ => ClosingConn
  }

  lemma StepMovesHandler(s: State, max: nat, a: Action, h: nat)
    requires Enabled(s, max, a) && Owner(a) == Some(h) && !a.ReturnBuf?
    ensures h in s.handlers && h in Apply(s, max, a).handlers
    ensures Apply(s, max, a).handlers[h] == s.handlers[h].(pc := NextPc(s, s.handlers[h].pc, a))
  {
  }

  /** Others cannot move a handler. */
  lemma StepLeavesHandler(s: State, max: nat, history: seq<Action>, a: Action, me: nat)
    requires Reached(s, max, history) && Enabled(s, max, a) && Owner(a) != Some(me) && me in s.handlers
    ensures me in Apply(s, max, a).handlers && Apply(s, max, a).handlers[me] == s.handlers[me]
  {
    HistoryKeepsInv(max, history);
  }

  lemma Extend(s: State, max: nat, history: seq<Action>, a: Action)
    requires Reached(s, max, history) && Enabled(s, max, a)
    ensures Reached(Apply(s, max, a), max, history + [a])
  {
    assert (history + [a])[..|history|] == history;
  }

  /** What a handler knows of the slot it holds. */
  lemma HeldSlot(s: State, max: nat, history: seq<Action>, h: nat, g: nat)
    requires Reached(s, max, history) && h in s.handlers && g in s.handlers
    ensures s.handlers[h].buf < max && s.handlers[g].buf < max
    ensures h != g ==> s.handlers[h].buf != s.handlers[g].buf
    ensures s.handlers[h].pc.Returning? ==> Enabled(s, max, ReturnBuf(h))
    ensures s.handlers[h].pc.ClosingOld? ==> s.handlers[h].pc.previous in s.peers
    ensures s.handlers[h].pc.ClosingSelf? ==> s.handlers[h].pc.peer in s.peers
  {
    SlotSafety(max, history);
    HistoryKeepsInv(max, history);
  }

  // --- what the invariant says -----------------------------------------------------------

  /**
   The channel of buffers over every interleaving: free buffers and running
   handlers always add up to max, no buffer is held twice, and a handler that is
   done can always return its own.
   */
  lemma SlotSafety(max: nat, history: seq<Action>)
    requires After(max, history).Some?
    ensures var s := After(max, history).value;
            && |s.free| + |s.handlers| == max
            && (forall h | h in s.handlers :: s.handlers[h].buf < max && s.handlers[h].buf !in s.free)
            && (forall h, g | h in s.handlers && g in s.handlers && h != g :: s.handlers[h].buf != s.handlers[g].buf)
            && (forall h | h in s.handlers && s.handlers[h].pc.Returning? :: Enabled(s, max, ReturnBuf(h)))
  {
    HistoryKeepsInv(max, history);
    var s := After(max, history).value;
    forall h | h in s.handlers && s.handlers[h].pc.Returning? ensures Enabled(s, max, ReturnBuf(h)) {
      RemoveOne(s.handlers, h);
    }
  }

  lemma {:induction false} InjectionSize(keys: set<bytes>, owner: map<bytes, nat>, owners: set<nat>)
    requires forall k | k in keys :: k in owner && owner[k] in owners
    requires forall k, l | k in keys && l in keys && k != l :: owner[k] != owner[l]
    ensures |keys| <= |owners|
  {
    if keys == {} {
    } else {
      var k :| k in keys;
      InjectionSize(keys - {k}, owner, owners - {owner[k]});
    }
  }

  /**
   The registry over every interleaving: an entry for a key is a peer of that key
   whose handler is still serving it, so there are no more entries than slots in
   use; and the peers of handlers that are gone are closed and not registered.
   */
  lemma RegistrySafety(max: nat, history: seq<Action>)
    requires After(max, history).Some?
    ensures var s := After(max, history).value;
            && (forall k | k in s.registry ::
                  && s.registry[k] in s.peers && s.peers[s.registry[k]].id == k
                  && s.peers[s.registry[k]].owner in s.handlers
                  && Serving(s.handlers[s.peers[s.registry[k]].owner].pc, k, s.registry[k]))
            && |s.registry| <= |s.handlers| <= max
            && (forall p | p in s.peers && s.peers[p].owner !in s.handlers ::
                  s.peers[p].closed && p !in s.registry.Values)
  {
    HistoryKeepsInv(max, history);
    var s := After(max, history).value;
    RegistrySize(s);
    GonePeers(s);
    assert |s.free| + |s.handlers| == max;
  }

  lemma RegistrySize(s: State)
    requires RegistryInv(s)
    ensures |s.registry| <= |s.handlers|
  {
    var owner := map k | k in s.registry :: s.peers[s.registry[k]].owner;
    forall k, l | k in s.registry && l in s.registry && k != l ensures owner[k] != owner[l] {
      assert Serving(s.handlers[owner[k]].pc, k, s.registry[k]) && Serving(s.handlers[owner[l]].pc, l, s.registry[l]);
    }
    InjectionSize(s.registry.Keys, owner, s.handlers.Keys);
    assert |s.registry| == |s.registry.Keys| && |s.handlers| == |s.handlers.Keys|;
  }

  lemma GonePeers(s: State)
    requires PeerInv(s) && RegistryInv(s)
    ensures forall p | p in s.peers && s.peers[p].owner !in s.handlers :: s.peers[p].closed && p !in s.registry.Values
  {
  }

  /** The key a handler has authenticated. */
  function KeyOf(pc: HandlerPc): Option<bytes> {
    match pc
    case Creating(id) => Some(id)
    case _ => match PeerOf(pc) case Some((id, _)) => Some(id) case None => None
  }

  /** Keys come from handshakes: whoever has one, or a peer of one, has been authenticated under it. */
  predicate KeysInv(s: State, history: seq<Action>) {
    && (forall h | h in s.handlers && KeyOf(s.handlers[h].pc).Some? ::
          AuthSucceeds(h, KeyOf(s.handlers[h].pc).value) in history)
    && (forall p | p in s.peers :: AuthSucceeds(s.peers[p].owner, s.peers[p].id) in history)
  }

  lemma StepKeepsKeys(s: State, max: nat, before: seq<Action>, a: Action)
    requires KeysInv(s, before) && Enabled(s, max, a)
    ensures KeysInv(Apply(s, max, a), before + [a])
  {
  }

  /** Every peer, registered or not, is of a key its own handler has been authenticated under. */
  lemma {:induction false} PeersAreAuthenticated(max: nat, history: seq<Action>)
    requires After(max, history).Some?
    ensures KeysInv(After(max, history).value, history)
  {
    if history == [] {
    } else {
      var before, a := history[..|history| - 1], history[|history| - 1];
      PeersAreAuthenticated(max, before);
      StepKeepsKeys(After(max, before).value, max, before, a);
      assert history == before + [a];
    }
  }

  /** Handlers that are gone, or about to return their slot, have closed their connections. */
  predicate ConnsInv(s: State, history: seq<Action>) {
    && (forall h | h in s.handlers :: h < s.nextHandler)
    && (forall h | 0 <= h < s.nextHandler && (h !in s.handlers || s.handlers[h].pc.Returning?) ::
          CloseConn(h) in history)
  }

  lemma StepKeepsConns(s: State, max: nat, before: seq<Action>, a: Action)
    requires ConnsInv(s, before) && Enabled(s, max, a)
    ensures ConnsInv(Apply(s, max, a), before + [a])
  {
  }

  /** No slot is free again before the connection that held it has been closed. */
  lemma {:induction false} GoneHandlersHaveClosed(max: nat, history: seq<Action>)
    requires After(max, history).Some?
    ensures ConnsInv(After(max, history).value, history)
  {
    if history == [] {
    } else {
      var before, a := history[..|history| - 1], history[|history| - 1];
      GoneHandlersHaveClosed(max, before);
      StepKeepsConns(After(max, before).value, max, before, a);
      assert history == before + [a];
    }
  }

  // --- when a running peer is registered ---------------------------------------------------

  predicate IsRegistered(s: State, p: nat) {
    p in s.peers && s.peers[p].id in s.registry && s.registry[s.peers[p].id] == p
  }

  /** Some handler has taken p out of the registry in order to close it. */
  predicate BeingReplaced(s: State, p: nat) {
    exists g | g in s.handlers :: s.handlers[g].pc.ClosingOld? && s.handlers[g].pc.previous == p
  }

  /** A peer whose handler relays for it, which nobody has closed or is about to close as an old one. */
  predicate Live(s: State, p: nat) {
    && p in s.peers && !s.peers[p].closed && !BeingReplaced(s, p)
    && s.peers[p].owner in s.handlers && s.handlers[s.peers[p].owner].pc == Running(s.peers[p].id, p)
  }

  /** The unguarded step: another handler's delete or store hits a registry entry that is p. */
  predicate Displaces(s: State, a: Action, p: nat) {
    && (a.Delete? || a.Store?) && a.h in s.handlers
    && p in s.peers && s.peers[p].owner != a.h && IsRegistered(s, p)
    && PeerOf(s.handlers[a.h].pc).Some? && PeerOf(s.handlers[a.h].pc).value.0 == s.peers[p].id
  }

  ghost predicate Displaced(max: nat, history: seq<Action>, p: nat) {
    exists n | 0 <= n < |history| :: DisplacedAt(max, history, p, n)
  }

  predicate DisplacedAt(max: nat, history: seq<Action>, p: nat, n: nat)
    requires n < |history|
  {
    After(max, history[..n]).Some? && Displaces(After(max, history[..n]).value, history[n], p)
  }

  /** The handler of p has created it and not yet stored it. */
  predicate Unstored(s: State, p: nat) {
    && p in s.peers && s.peers[p].owner in s.handlers
    && var pc := s.handlers[s.peers[p].owner].pc;
       (pc.Replacing? || pc.ClosingOld? || pc.Storing?) && pc.peer == p
  }

  /** What has been done to p so far: nothing before it was stored, and a live p is registered unless displaced. */
  predicate Account(s: State, p: nat, displaced: bool) {
    && (p !in s.peers || Unstored(s, p) ==> !displaced)
    && (Live(s, p) ==> (IsRegistered(s, p) <==> !displaced))
  }

  /** A peer that is being replaced goes on being so until it is closed. */
  lemma ReplacedUntilClosed(s: State, max: nat, a: Action, p: nat)
    requires PeerInv(s) && Enabled(s, max, a) && p in s.peers && BeingReplaced(s, p)
    ensures var s' := Apply(s, max, a);
            BeingReplaced(s', p) || (p in s'.peers && s'.peers[p].closed)
  {
    var s' := Apply(s, max, a);
    var g :| g in s.handlers && s.handlers[g].pc.ClosingOld? && s.handlers[g].pc.previous == p;
    if a != CloseOld(g) {
      assert g in s'.handlers && s'.handlers[g] == s.handlers[g];
    }
  }

  /** Only its own store makes a peer live. */
  lemma LiveBefore(s: State, max: nat, a: Action, p: nat)
    requires PeerInv(s) && Enabled(s, max, a) && Live(Apply(s, max, a), p)
    ensures p in s.peers
    ensures if a == Store(s.peers[p].owner) then Unstored(s, p) else Live(s, p)
  {
    if p in s.peers && BeingReplaced(s, p) {
      ReplacedUntilClosed(s, max, a, p);
    }
  }

  lemma UnstoredBefore(s: State, max: nat, a: Action, p: nat)
    requires PeerInv(s) && Enabled(s, max, a)
    requires p !in Apply(s, max, a).peers || Unstored(Apply(s, max, a), p)
    ensures p !in s.peers || Unstored(s, p)
  {
  }

  /** A live peer stays in the registry, or out of it, except through a displacement. */
  lemma RegistrationChanges(s: State, max: nat, a: Action, p: nat)
    requires PeerInv(s) && RegistryInv(s) && Enabled(s, max, a) && Live(s, p) && Live(Apply(s, max, a), p)
    ensures IsRegistered(Apply(s, max, a), p) <==> IsRegistered(s, p) && !Displaces(s, a, p)
  {
    match a
    case LoadAndDelete(h) => LoadOfAnother(s, max, h, p);
    case Delete(h) => DeleteOfAnother(s, max, h, p);
    case Store(h) => StoreOfAnother(s, max, h, p);
    case _ => assert Apply(s, max, a).registry == s.registry;
  }

  lemma DeleteOfAnother(s: State, max: nat, h: nat, p: nat)
    requires PeerInv(s) && Enabled(s, max, Delete(h)) && Live(s, p)
    ensures IsRegistered(Apply(s, max, Delete(h)), p) <==> IsRegistered(s, p) && !Displaces(s, Delete(h), p)
  {
  }

  lemma StoreOfAnother(s: State, max: nat, h: nat, p: nat)
    requires PeerInv(s) && Enabled(s, max, Store(h)) && Live(s, p)
    ensures IsRegistered(Apply(s, max, Store(h)), p) <==> IsRegistered(s, p) && !Displaces(s, Store(h), p)
  {
  }

  /** Whoever loads a live peer starts replacing it. */
  lemma LoadOfAnother(s: State, max: nat, h: nat, p: nat)
    requires Enabled(s, max, LoadAndDelete(h)) && Live(s, p) && Live(Apply(s, max, LoadAndDelete(h)), p)
    ensures IsRegistered(Apply(s, max, LoadAndDelete(h)), p) <==> IsRegistered(s, p)
  {
    var pc, s' := s.handlers[h].pc, Apply(s, max, LoadAndDelete(h));
    if pc.id in s.registry {
      assert s'.handlers[h].pc == ClosingOld(pc.id, pc.peer, s.registry[pc.id]);
      assert s.registry[pc.id] != p;
    }
  }

  lemma StepKeepsAccount(s: State, max: nat, a: Action, p: nat, displaced: bool)
    requires PeerInv(s) && RegistryInv(s) && Enabled(s, max, a) && Account(s, p, displaced)
    ensures Account(Apply(s, max, a), p, displaced || Displaces(s, a, p))
  {
    var s' := Apply(s, max, a);
    if p !in s'.peers || Unstored(s', p) {
      UnstoredBefore(s, max, a, p);
      NotYetDisplaced(s, a, p);
    }
    if Live(s', p) {
      LiveBefore(s, max, a, p);
      if Live(s, p) {
        RegistrationChanges(s, max, a, p);
      } else {
        NotYetDisplaced(s, a, p);
        assert IsRegistered(s', p);
      }
    }
  }

  lemma NotYetDisplaced(s: State, a: Action, p: nat)
    requires RegistryInv(s) && (p !in s.peers || Unstored(s, p))
    ensures !Displaces(s, a, p)
  {
  }

  lemma {:induction false} HistoryKeepsAccount(max: nat, history: seq<Action>, p: nat)
    requires After(max, history).Some?
    ensures Account(After(max, history).value, p, Displaced(max, history, p))
  {
    if history == [] {
    } else {
      var n := |history| - 1;
      var before, a := history[..n], history[n];
      HistoryKeepsAccount(max, before, p);
      HistoryKeepsInv(max, before);
      StepKeepsAccount(After(max, before).value, max, a, p, Displaced(max, before, p));
      DisplacedSnoc(max, before, a, p);
      assert history == before + [a];
    }
  }

  lemma DisplacedSnoc(max: nat, before: seq<Action>, a: Action, p: nat)
    requires After(max, before).Some?
    ensures Displaced(max, before + [a], p) <==> Displaced(max, before, p) || Displaces(After(max, before).value, a, p)
  {
    var history := before + [a];
    assert forall n | 0 <= n <= |before| :: history[..n] == before[..n];
    assert before[..|before|] == before;
    if Displaced(max, before, p) {
      var n :| 0 <= n < |before| && DisplacedAt(max, before, p, n);
      assert DisplacedAt(max, history, p, n);
    }
    if Displaces(After(max, before).value, a, p) {
      assert DisplacedAt(max, history, p, |before|);
    }
    if Displaced(max, history, p) {
      var n :| 0 <= n < |history| && DisplacedAt(max, history, p, n);
      assert n < |before| ==> DisplacedAt(max, before, p, n);
    }
  }

  /**
   A live peer can be missing from the registry, because two steps change an entry
   without looking whose it is: the delete of a cleanup, and a store after another
   handler's store. It is missing exactly when one of the two has hit it.
   */
  lemma RegisteredExact(max: nat, history: seq<Action>, p: nat)
    requires After(max, history).Some? && Live(After(max, history).value, p)
    ensures IsRegistered(After(max, history).value, p) <==> !Displaced(max, history, p)
  {
    HistoryKeepsAccount(max, history, p);
  }

  /** So when two peers of one key are live at once, at least one of them has been displaced. */
  lemma TwoLivePeers(max: nat, history: seq<Action>, p: nat, q: nat)
    requires After(max, history).Some? && p != q
    requires var s := After(max, history).value; Live(s, p) && Live(s, q) && s.peers[p].id == s.peers[q].id
    ensures Displaced(max, history, p) || Displaced(max, history, q)
  {
    RegisteredExact(max, history, p);
    RegisteredExact(max, history, q);
  }

  /**
   The first of the two: a client reconnects, the second handler replaces the first
   peer and stores its own, and then the first handler's cleanup removes that.
   */
  lemma OrphanRun(key: bytes) returns (history: seq<Action>, s: State)
    ensures Reached(s, 2, history) && Live(s, 1) && !IsRegistered(s, 1) && key !in s.registry
  {
    history, s := TwoAccepted();
    history, s := FirstServes(key, history, s);
    history, s := SecondReplaces(key, history, s);
    history, s := FirstLeaves(key, history, s);
  }

  /**
   The second: two connections of one key both look for an old peer before either
   has stored its own, so the later store covers the earlier one.
   */
  lemma OverwrittenRun(key: bytes) returns (history: seq<Action>, s: State)
    ensures Reached(s, 2, history) && Live(s, 0) && !IsRegistered(s, 0) && Live(s, 1) && IsRegistered(s, 1)
  {
    history, s := TwoAccepted();
    history, s := BothLoad(key, history, s);
    history, s := TakeStep(2, history, s, Store(0));
    history, s := TakeStep(2, history, s, Store(1));
  }

  lemma BothLoad(key: bytes, before: seq<Action>, s0: State) returns (history: seq<Action>, s: State)
    requires After(2, before) == Some(s0) && s0.handlers.Keys == {0, 1}
    requires s0.handlers[0].pc == s0.handlers[1].pc == Authenticating
    requires s0.registry == map[] && s0.peers == map[] && s0.nextPeer == 0
    ensures After(2, history) == Some(s) && s.handlers.Keys == {0, 1} && s.registry == map[]
    ensures s.handlers[0].pc == Storing(key, 0) && s.handlers[1].pc == Storing(key, 1)
    ensures s.peers == map[0 := PeerRecord(key, 0, false), 1 := PeerRecord(key, 1, false)]
  {
    history, s := BothCreate(key, before, s0);
    history, s := TakeStep(2, history, s, LoadAndDelete(0));
    history, s := TakeStep(2, history, s, LoadAndDelete(1));
  }

  lemma BothCreate(key: bytes, before: seq<Action>, s0: State) returns (history: seq<Action>, s: State)
    requires After(2, before) == Some(s0) && s0.handlers.Keys == {0, 1}
    requires s0.handlers[0].pc == s0.handlers[1].pc == Authenticating
    requires s0.registry == map[] && s0.peers == map[] && s0.nextPeer == 0
    ensures After(2, history) == Some(s) && s.handlers.Keys == {0, 1} && s.registry == map[]
    ensures s.handlers[0].pc == Replacing(key, 0) && s.handlers[1].pc == Replacing(key, 1)
    ensures s.peers == map[0 := PeerRecord(key, 0, false), 1 := PeerRecord(key, 1, false)]
  {
    history, s := TakeStep(2, before, s0, AuthSucceeds(0, key));
    history, s := TakeStep(2, history, s, AuthSucceeds(1, key));
    history, s := TakeStep(2, history, s, CreatePeer(0));
    history, s := TakeStep(2, history, s, CreatePeer(1));
  }

  lemma FirstLeaves(key: bytes, before: seq<Action>, s0: State) returns (history: seq<Action>, s: State)
    requires After(2, before) == Some(s0) && s0.handlers.Keys == {0, 1}
    requires s0.handlers[0].pc == Running(key, 0) && s0.handlers[1].pc == Running(key, 1)
    requires 1 in s0.peers && s0.peers[1] == PeerRecord(key, 1, false)
    ensures After(2, history) == Some(s) && Live(s, 1) && !IsRegistered(s, 1) && key !in s.registry
  {
    history, s := TakeStep(2, before, s0, StopReading(0));
    history, s := TakeStep(2, history, s, Delete(0));
    assert s.handlers[0].pc == ClosingSelf(key, 0) && s.handlers[1].pc == Running(key, 1);
  }

  lemma TwoAccepted() returns (history: seq<Action>, s: State)
    ensures After(2, history) == Some(s) && s.handlers.Keys == {0, 1}
    ensures s.handlers[0].pc == s.handlers[1].pc == Authenticating
    ensures s.registry == map[] && s.peers == map[] && s.nextPeer == 0
  {
    s := Init(2);
    assert s.free == [0, 1];
    history, s := TakeStep(2, [], s, Accept);
    history, s := TakeStep(2, history, s, Accept);
  }

  lemma FirstServes(key: bytes, before: seq<Action>, s0: State) returns (history: seq<Action>, s: State)
    requires After(2, before) == Some(s0) && s0.handlers.Keys == {0, 1}
    requires s0.handlers[0].pc == s0.handlers[1].pc == Authenticating
    requires s0.registry == map[] && s0.peers == map[] && s0.nextPeer == 0
    ensures After(2, history) == Some(s)
    ensures s.handlers.Keys == {0, 1} && s.handlers[0].pc == Running(key, 0) && s.handlers[1].pc == Authenticating
    ensures s.registry == map[key := 0] && s.nextPeer == 1 && 0 in s.peers
  {
    history, s := TakeStep(2, before, s0, AuthSucceeds(0, key));
    history, s := TakeStep(2, history, s, CreatePeer(0));
    assert s.handlers[0].pc == Replacing(key, 0) && s.handlers[1].pc == Authenticating;
    history, s := TakeStep(2, history, s, LoadAndDelete(0));
    history, s := TakeStep(2, history, s, Store(0));
  }

  lemma SecondReplaces(key: bytes, before: seq<Action>, s0: State) returns (history: seq<Action>, s: State)
    requires After(2, before) == Some(s0) && s0.handlers.Keys == {0, 1}
    requires s0.handlers[0].pc == Running(key, 0) && s0.handlers[1].pc == Authenticating
    requires s0.registry == map[key := 0] && s0.nextPeer == 1 && 0 in s0.peers
    ensures After(2, history) == Some(s)
    ensures s.handlers.Keys == {0, 1} && s.handlers[0].pc == Running(key, 0) && s.handlers[1].pc == Running(key, 1)
    ensures 1 in s.peers && s.peers[1] == PeerRecord(key, 1, false)
  {
    history, s := TakeStep(2, before, s0, AuthSucceeds(1, key));
    history, s := TakeStep(2, history, s, CreatePeer(1));
    assert s.handlers[1].pc == Replacing(key, 1) && s.handlers[0].pc == Running(key, 0);
    history, s := TakeStep(2, history, s, LoadAndDelete(1));
    assert s.handlers[1].pc == ClosingOld(key, 1, 0) && s.handlers[0].pc == Running(key, 0);
    history, s := TakeStep(2, history, s, CloseOld(1));
    history, s := TakeStep(2, history, s, Store(1));
  }

  lemma TakeStep(max: nat, before: seq<Action>, s: State, a: Action) returns (history: seq<Action>, s': State)
    requires After(max, before) == Some(s) && Enabled(s, max, a)
    ensures s' == Apply(s, max, a) && history == before + [a] && After(max, history) == Some(s')
  {
    history, s' := before + [a], Apply(s, max, a);
    assert history[..|before|] == before;
  }
}
