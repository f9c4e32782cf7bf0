/**
 Block download bookkeeping: which block is being fetched from which peer, and the counters kept
 over all peers.  One value holds the global state; each operation is a step from one such value to
 the next, and every run of steps keeps the books consistent.
 */
module Downloads {

  type NodeId = int
  type Hash = nat

  const MAX_BLOCKS_IN_TRANSIT_PER_PEER := 2048
  const MAX_OUTBOUND_PEERS_TO_PROTECT_FROM_DISCONNECT := 4

  /** A block requested from a peer; `validated` when its header is known. */
  datatype QueuedBlock = QueuedBlock(hash: Hash, validated: bool)

  datatype NodeState = NodeState(
    blocks: seq<QueuedBlock>, nBlocksInFlight: int, nValidHeaders: int, preferred: bool, protect: bool,
    syncStarted: bool)

  const NEW_NODE := NodeState([], 0, 0, false, false, false)

  datatype Books = Books(
    nodes: map<NodeId, NodeState>, inFlight: map<Hash, NodeId>,
    nPreferredDownload: int, nPeersWithValidatedDownloads: int, nProtected: int, nSyncStarted: int)

  const EMPTY := Books(map[], map[], 0, 0, 0, 0)

  function Bit(b: bool): int { if b then 1 else 0 }

  // ---- Lists of queued blocks ----

  predicate Has(blocks: seq<QueuedBlock>, h: Hash)
  {
    exists i :: 0 <= i < |blocks| && blocks[i].hash == h
  }

  function IndexOf(blocks: seq<QueuedBlock>, h: Hash): (i: nat)
    requires Has(blocks, h)
    ensures i < |blocks| && blocks[i].hash == h
  {
    if blocks[0].hash == h then 0 else
      assert Has(blocks[1..], h) by {
        var i :| 0 <= i < |blocks| && blocks[i].hash == h;
        assert blocks[1..][i - 1].hash == h;
      }
      1 + IndexOf(blocks[1..], h)
  }

  function Without(blocks: seq<QueuedBlock>, i: nat): seq<QueuedBlock>
    requires i < |blocks|
  {
    blocks[..i] + blocks[i + 1..]
  }

  predicate NoRepeats(blocks: seq<QueuedBlock>)
  {
    forall i, j | 0 <= i < j < |blocks| :: blocks[i].hash != blocks[j].hash
  }

  function CountValidated(blocks: seq<QueuedBlock>): nat
  {
    if blocks == [] then 0 else CountValidated(blocks[..|blocks| - 1]) + Bit(blocks[|blocks| - 1].validated)
  }

  lemma {:induction false} CountWithout(blocks: seq<QueuedBlock>, i: nat)
    requires i < |blocks|
    ensures CountValidated(Without(blocks, i)) == CountValidated(blocks) - Bit(blocks[i].validated)
  {
    var n := |blocks| - 1;
    if i == n {
      assert Without(blocks, i) == blocks[..n];
    } else {
      var w := Without(blocks, i);
      assert w[..n - 1] == Without(blocks[..n], i) && w[n - 1] == blocks[n];
      CountWithout(blocks[..n], i);
    }
  }

  lemma WithoutHas(blocks: seq<QueuedBlock>, i: nat, h: Hash)
    requires i < |blocks| && NoRepeats(blocks)
    ensures NoRepeats(Without(blocks, i))
    ensures Has(Without(blocks, i), h) <==> Has(blocks, h) && h != blocks[i].hash
  {
    var w := Without(blocks, i);
    assert forall j | 0 <= j < |w| :: w[j] == blocks[if j < i then j else j + 1];
    if Has(blocks, h) && h != blocks[i].hash {
      var j :| 0 <= j < |blocks| && blocks[j].hash == h;
      assert w[if j < i then j else j - 1].hash == h;
    }
  }

  lemma AppendHas(blocks: seq<QueuedBlock>, b: QueuedBlock, h: Hash)
    ensures Has(blocks + [b], h) <==> Has(blocks, h) || h == b.hash
  {
    var w := blocks + [b];
    assert w[|blocks|] == b;
    if Has(blocks, h) {
      var j :| 0 <= j < |blocks| && blocks[j].hash == h;
      assert w[j].hash == h;
    }
  }

  // ---- Counting peers ----

  datatype Flag = Preferred | Validated | Protected | Syncing

  predicate Holds(flag: Flag, s: NodeState)
  {
    match flag
    case Preferred => s.preferred
    case Validated => s.nValidHeaders != 0
    case Protected => s.protect
    case Syncing => s.syncStarted
  }

  function Such(nodes: map<NodeId, NodeState>, flag: Flag): set<NodeId>
  {
    set p | p in nodes && Holds(flag, nodes[p])
  }

  lemma LessOne(a: set<NodeId>, p: NodeId)
    ensures |a - {p}| == |a| - Bit(p in a)
  {
    if p !in a {
      assert a - {p} == a;
    }
  }

  lemma SuchUpdate(nodes: map<NodeId, NodeState>, p: NodeId, s: NodeState, flag: Flag)
    requires p in nodes
    ensures |Such(nodes[p := s], flag)| == |Such(nodes, flag)| - Bit(Holds(flag, nodes[p])) + Bit(Holds(flag, s))
  {
    var a, b := Such(nodes, flag), Such(nodes[p := s], flag);
    assert a - {p} == b - {p};
    LessOne(a, p);
    LessOne(b, p);
  }

  lemma SuchInsert(nodes: map<NodeId, NodeState>, p: NodeId, s: NodeState, flag: Flag)
    requires p !in nodes
    ensures |Such(nodes[p := s], flag)| == |Such(nodes, flag)| + Bit(Holds(flag, s))
  {
    var a, b := Such(nodes, flag), Such(nodes[p := s], flag);
    assert a == b - {p};
    LessOne(b, p);
  }

  lemma SuchRemove(nodes: map<NodeId, NodeState>, p: NodeId, flag: Flag)
    requires p in nodes
    ensures |Such(nodes - {p}, flag)| == |Such(nodes, flag)| - Bit(Holds(flag, nodes[p]))
  {
    var a, b := Such(nodes, flag), Such(nodes - {p}, flag);
    assert b == a - {p};
    LessOne(a, p);
  }

  // ---- Consistent books ----

  /** A peer's own books: its counts match its list, which lists only blocks in flight from it. */
  ghost predicate NodeOk(inFlight: map<Hash, NodeId>, p: NodeId, s: NodeState)
  {
    && s.nBlocksInFlight == |s.blocks| <= MAX_BLOCKS_IN_TRANSIT_PER_PEER
    && s.nValidHeaders == CountValidated(s.blocks) && NoRepeats(s.blocks)
    && forall h :: Has(s.blocks, h) ==> h in inFlight && inFlight[h] == p
  }

  ghost predicate FlightOk(nodes: map<NodeId, NodeState>, h: Hash, p: NodeId)
  {
    p in nodes && Has(nodes[p].blocks, h)
  }

  ghost predicate CountersOk(bk: Books)
  {
    && bk.nPreferredDownload == |Such(bk.nodes, Preferred)|
    && bk.nPeersWithValidatedDownloads == |Such(bk.nodes, Validated)|
    && bk.nProtected == |Such(bk.nodes, Protected)| <= MAX_OUTBOUND_PEERS_TO_PROTECT_FROM_DISCONNECT
    && bk.nSyncStarted == |Such(bk.nodes, Syncing)|
  }

  ghost predicate NodesOk(bk: Books)
  {
    forall p | p in bk.nodes :: NodeOk(bk.inFlight, p, bk.nodes[p])
  }

  ghost predicate FlightsOk(bk: Books)
  {
    forall h | h in bk.inFlight :: FlightOk(bk.nodes, h, bk.inFlight[h])
  }

  /** mapBlocksInFlight is exactly the disjoint union of the peers' lists, and every counter is the
      sum it stands for. */
  ghost predicate Consistent(bk: Books)
  {
    NodesOk(bk) && FlightsOk(bk) && CountersOk(bk)
  }

  // ---- Operations ----

  /** The peer's state once its i-th block is gone. */
  function Dropped(s: NodeState, i: nat): NodeState
    requires i < |s.blocks|
  {
    s.(blocks := Without(s.blocks, i), nBlocksInFlight := s.nBlocksInFlight - 1,
       nValidHeaders := s.nValidHeaders - Bit(s.blocks[i].validated))
  }

  /** MarkBlockAsReceived. */
  function Received(bk: Books, h: Hash): Books
    requires h in bk.inFlight ==> FlightOk(bk.nodes, h, bk.inFlight[h])
  {
    if h !in bk.inFlight then bk
    else
      var p := bk.inFlight[h];
      var i := IndexOf(bk.nodes[p].blocks, h);
      var s := Dropped(bk.nodes[p], i);
      bk.(nodes := bk.nodes[p := s], inFlight := bk.inFlight - {h},
          nPeersWithValidatedDownloads :=
            bk.nPeersWithValidatedDownloads - Bit(s.nValidHeaders == 0 && bk.nodes[p].blocks[i].validated))
  }

  /** The peer's state with one more block queued. */
  function Queued(s: NodeState, b: QueuedBlock): NodeState
  {
    s.(blocks := s.blocks + [b], nBlocksInFlight := s.nBlocksInFlight + 1,
       nValidHeaders := s.nValidHeaders + Bit(b.validated))
  }

  function Enqueued(bk: Books, p: NodeId, h: Hash, validated: bool): Books
    requires p in bk.nodes
  {
    var s := Queued(bk.nodes[p], QueuedBlock(h, validated));
    bk.(nodes := bk.nodes[p := s], inFlight := bk.inFlight[h := p],
        nPeersWithValidatedDownloads := bk.nPeersWithValidatedDownloads + Bit(s.nValidHeaders == 1 && validated))
  }

  /** MarkBlockAsInFlight: a block already in flight from this peer stays as it is; from another, it
      moves here. */
  function InFlight(bk: Books, p: NodeId, h: Hash, validated: bool): Books
    requires p in bk.nodes && (h in bk.inFlight ==> FlightOk(bk.nodes, h, bk.inFlight[h]))
  {
    if h in bk.inFlight && bk.inFlight[h] == p then bk
    else Enqueued(Received(bk, h), p, h, validated)
  }

  lemma ReceivedNodes(bk: Books, h: Hash)
    requires NodesOk(bk) && FlightsOk(bk) && h in bk.inFlight
    ensures NodesOk(Received(bk, h)) && FlightsOk(Received(bk, h))
  {
    hide Has, NodeOk, Dropped, IndexOf;
    var p := bk.inFlight[h];
    assert FlightOk(bk.nodes, h, p);
    var bk' := Received(bk, h);
    assert NodeOk(bk.inFlight, p, bk.nodes[p]);
    DroppedOk(bk.inFlight, p, bk.nodes[p], h);
    forall q | q in bk'.nodes ensures NodeOk(bk'.inFlight, q, bk'.nodes[q]) {
      assert NodeOk(bk.inFlight, q, bk.nodes[q]);
      if q != p {
        ElsewhereOk(bk.inFlight, q, bk.nodes[q], h);
      }
    }
    forall g | g in bk'.inFlight ensures FlightOk(bk'.nodes, g, bk'.inFlight[g]) {
      assert FlightOk(bk.nodes, g, bk.inFlight[g]);
    }
  }

  /** The peer that had the block in flight. */
  lemma DroppedOk(inFlight: map<Hash, NodeId>, p: NodeId, s: NodeState, h: Hash)
    requires NodeOk(inFlight, p, s) && Has(s.blocks, h)
    ensures var s' := Dropped(s, IndexOf(s.blocks, h));
      && NodeOk(inFlight - {h}, p, s')
      && forall g: Hash :: Has(s'.blocks, g) <==> Has(s.blocks, g) && g != h
  {
    hide CountValidated, NoRepeats, Has;
    var i := IndexOf(s.blocks, h);
    CountWithout(s.blocks, i);
    WithoutHas(s.blocks, i, h);
    forall g: Hash ensures Has(Without(s.blocks, i), g) <==> Has(s.blocks, g) && g != h {
      WithoutHas(s.blocks, i, g);
    }
  }

  /** Any other peer. */
  lemma ElsewhereOk(inFlight: map<Hash, NodeId>, q: NodeId, s: NodeState, h: Hash)
    requires NodeOk(inFlight, q, s) && (h in inFlight ==> inFlight[h] != q)
    ensures NodeOk(inFlight - {h}, q, s)
  {
    hide CountValidated, NoRepeats, Has;
  }

  lemma ReceivedKeeps(bk: Books, h: Hash)
    requires Consistent(bk)
    ensures h in bk.inFlight ==> FlightOk(bk.nodes, h, bk.inFlight[h])
    ensures Consistent(Received(bk, h)) && Received(bk, h).inFlight == bk.inFlight - {h}
    ensures Received(bk, h).nodes.Keys == bk.nodes.Keys
  {
    if h in bk.inFlight {
      assert FlightOk(bk.nodes, h, bk.inFlight[h]);
      ReceivedNodes(bk, h);
      ReceivedCounters(bk, h);
    } else {
      assert bk.inFlight - {h} == bk.inFlight;
    }
  }

  lemma ReceivedCounters(bk: Books, h: Hash)
    requires NodesOk(bk) && CountersOk(bk) && h in bk.inFlight && FlightOk(bk.nodes, h, bk.inFlight[h])
    ensures CountersOk(Received(bk, h))
  {
    hide Has, NoRepeats, Such;
    var p := bk.inFlight[h];
    var s := bk.nodes[p];
    assert NodeOk(bk.inFlight, p, s);
    var i := IndexOf(s.blocks, h);
    var s' := Dropped(s, i);
    CountWithout(s.blocks, i);
    hide CountValidated;
    SuchUpdate(bk.nodes, p, s', Preferred);
    SuchUpdate(bk.nodes, p, s', Validated);
    SuchUpdate(bk.nodes, p, s', Protected);
    SuchUpdate(bk.nodes, p, s', Syncing);
  }

  lemma QueuedNode(inFlight: map<Hash, NodeId>, p: NodeId, s: NodeState, b: QueuedBlock)
    requires NodeOk(inFlight, p, s) && b.hash !in inFlight && |s.blocks| < MAX_BLOCKS_IN_TRANSIT_PER_PEER
    ensures NodeOk(inFlight[b.hash := p], p, Queued(s, b))
    ensures forall g :: Has(Queued(s, b).blocks, g) <==> Has(s.blocks, g) || g == b.hash
  {
    var blocks := s.blocks + [b];
    assert !Has(s.blocks, b.hash);
    assert blocks[..|s.blocks|] == s.blocks;
    forall i, j | 0 <= i < j < |blocks| ensures blocks[i].hash != blocks[j].hash {
      assert blocks[i] == s.blocks[i] && Has(s.blocks, blocks[i].hash);
    }
    assert CountValidated(blocks) == CountValidated(s.blocks) + Bit(b.validated);
    hide CountValidated;
    forall g: Hash ensures Has(blocks, g) <==> Has(s.blocks, g) || g == b.hash {
      AppendHas(s.blocks, b, g);
    }
  }

  lemma EnqueuedNodes(bk: Books, p: NodeId, h: Hash, validated: bool)
    requires NodesOk(bk) && FlightsOk(bk) && p in bk.nodes && h !in bk.inFlight
    requires |bk.nodes[p].blocks| < MAX_BLOCKS_IN_TRANSIT_PER_PEER
    ensures NodesOk(Enqueued(bk, p, h, validated)) && FlightsOk(Enqueued(bk, p, h, validated))
  {
    hide Has, CountValidated, NoRepeats;
    var bk' := Enqueued(bk, p, h, validated);
    NodeBooks(bk, p);
    QueuedNode(bk.inFlight, p, bk.nodes[p], QueuedBlock(h, validated));
    forall q | q in bk'.nodes ensures NodeOk(bk'.inFlight, q, bk'.nodes[q]) {
      NodeBooks(bk, q);
    }
    forall g | g in bk'.inFlight ensures FlightOk(bk'.nodes, g, bk'.inFlight[g]) {
      assert g != h ==> FlightOk(bk.nodes, g, bk.inFlight[g]);
    }
  }

  lemma NodeBooks(bk: Books, p: NodeId)
    requires NodesOk(bk) && p in bk.nodes
    ensures NodeOk(bk.inFlight, p, bk.nodes[p])
  {
  }

  lemma EnqueuedKeeps(bk: Books, p: NodeId, h: Hash, validated: bool)
    requires Consistent(bk) && p in bk.nodes && h !in bk.inFlight
    requires |bk.nodes[p].blocks| < MAX_BLOCKS_IN_TRANSIT_PER_PEER
    ensures Consistent(Enqueued(bk, p, h, validated))
  {
    hide NodesOk, FlightsOk, Such;
    EnqueuedNodes(bk, p, h, validated);
    NodeBooks(bk, p);
    hide Has, CountValidated, NoRepeats;
    var s' := Queued(bk.nodes[p], QueuedBlock(h, validated));
    SuchUpdate(bk.nodes, p, s', Preferred);
    SuchUpdate(bk.nodes, p, s', Validated);
    SuchUpdate(bk.nodes, p, s', Protected);
    SuchUpdate(bk.nodes, p, s', Syncing);
  }

  /** A peer with room may be asked for any block. */
  lemma InFlightKeeps(bk: Books, p: NodeId, h: Hash, validated: bool)
    requires Consistent(bk) && p in bk.nodes
    requires (h in bk.inFlight && bk.inFlight[h] == p) || bk.nodes[p].nBlocksInFlight < MAX_BLOCKS_IN_TRANSIT_PER_PEER
    ensures h in bk.inFlight ==> FlightOk(bk.nodes, h, bk.inFlight[h])
    ensures Consistent(InFlight(bk, p, h, validated))
    ensures InFlight(bk, p, h, validated).inFlight == bk.inFlight[h := p]
    ensures InFlight(bk, p, h, validated).nodes.Keys == bk.nodes.Keys
    ensures InFlight(bk, p, h, validated).nodes[p].nBlocksInFlight <= bk.nodes[p].nBlocksInFlight + 1
  {
    hide NodesOk, FlightsOk, CountersOk;
    ReceivedKeeps(bk, h);
    if !(h in bk.inFlight && bk.inFlight[h] == p) {
      var mid := Received(bk, h);
      assert mid.nodes[p] == bk.nodes[p];
      NodeBooks(mid, p);
      EnqueuedKeeps(mid, p, h, validated);
    }
  }

  // ---- Peers come and go ----

  function Initialized(bk: Books, p: NodeId): Books
  {
    if p in bk.nodes then bk else bk.(nodes := bk.nodes[p := NEW_NODE])
  }

  function Hashes(blocks: seq<QueuedBlock>): set<Hash>
  {
    set i | 0 <= i < |blocks| :: blocks[i].hash
  }

  /** FinalizeNode: the peer's blocks are no longer in flight, and it counts nowhere any more. */
  function Finalized(bk: Books, p: NodeId): Books
    requires p in bk.nodes
  {
    var s := bk.nodes[p];
    Books(bk.nodes - {p}, bk.inFlight - Hashes(s.blocks), bk.nPreferredDownload - Bit(s.preferred),
          bk.nPeersWithValidatedDownloads - Bit(s.nValidHeaders != 0), bk.nProtected - Bit(s.protect),
          bk.nSyncStarted - Bit(s.syncStarted))
  }

  /** UpdatePreferredDownload. */
  function Preferring(bk: Books, p: NodeId, preferred: bool): Books
    requires p in bk.nodes
  {
    bk.(nodes := bk.nodes[p := bk.nodes[p].(preferred := preferred)],
        nPreferredDownload := bk.nPreferredDownload - Bit(bk.nodes[p].preferred) + Bit(preferred))
  }

  /** Protecting an outbound peer from eviction, while there is room and it is not yet protected. */
  function Protecting(bk: Books, p: NodeId): Books
    requires p in bk.nodes
  {
    if bk.nProtected < MAX_OUTBOUND_PEERS_TO_PROTECT_FROM_DISCONNECT && !bk.nodes[p].protect then
      bk.(nodes := bk.nodes[p := bk.nodes[p].(protect := true)], nProtected := bk.nProtected + 1)
    else bk
  }

  /** Header sync with a peer starts, or is given up. */
  function Synced(bk: Books, p: NodeId, started: bool): Books
    requires p in bk.nodes
  {
    bk.(nodes := bk.nodes[p := bk.nodes[p].(syncStarted := started)],
        nSyncStarted := bk.nSyncStarted - Bit(bk.nodes[p].syncStarted) + Bit(started))
  }

  lemma InitializedKeeps(bk: Books, p: NodeId)
    requires Consistent(bk)
    ensures Consistent(Initialized(bk, p))
  {
    if p !in bk.nodes {
      hide Has, CountValidated, Such;
      SuchInsert(bk.nodes, p, NEW_NODE, Preferred);
      SuchInsert(bk.nodes, p, NEW_NODE, Validated);
      SuchInsert(bk.nodes, p, NEW_NODE, Protected);
      SuchInsert(bk.nodes, p, NEW_NODE, Syncing);
      var bk' := Initialized(bk, p);
      NewNodeOk(bk.inFlight, p);
      assert NodesOk(bk');
      forall g | g in bk'.inFlight ensures FlightOk(bk'.nodes, g, bk'.inFlight[g]) {
        assert FlightOk(bk.nodes, g, bk.inFlight[g]);
      }
    }
  }

  lemma NewNodeOk(inFlight: map<Hash, NodeId>, p: NodeId)
    ensures NodeOk(inFlight, p, NEW_NODE)
  {
    assert forall h: Hash :: !Has(NEW_NODE.blocks, h);
  }

  lemma FinalizedKeeps(bk: Books, p: NodeId)
    requires Consistent(bk) && p in bk.nodes
    ensures Consistent(Finalized(bk, p))
  {
    hide CountValidated, Such, NoRepeats;
    SuchRemove(bk.nodes, p, Preferred);
    SuchRemove(bk.nodes, p, Validated);
    SuchRemove(bk.nodes, p, Protected);
    SuchRemove(bk.nodes, p, Syncing);
    NodeBooks(bk, p);
    var s, bk' := bk.nodes[p], Finalized(bk, p);
    assert forall h: Hash :: h in Hashes(s.blocks) <==> Has(s.blocks, h);
    hide Has, Hashes;
    forall q | q in bk'.nodes ensures NodeOk(bk'.inFlight, q, bk'.nodes[q]) {
      NodeBooks(bk, q);
    }
    forall g | g in bk'.inFlight ensures FlightOk(bk'.nodes, g, bk'.inFlight[g]) {
      assert FlightOk(bk.nodes, g, bk.inFlight[g]);
    }
  }

  /** Once the last peer is gone nothing is in flight and every counter is back at zero. */
  lemma AllGone(bk: Books)
    requires Consistent(bk) && bk.nodes == map[]
    ensures bk == EMPTY
  {
    assert Such(bk.nodes, Preferred) == {} && Such(bk.nodes, Validated) == {} && Such(bk.nodes, Protected) == {};
    assert Such(bk.nodes, Syncing) == {};
    assert forall h | h in bk.inFlight :: FlightOk(bk.nodes, h, bk.inFlight[h]);
    assert bk.inFlight == map[];
  }

  lemma SameQueue(inFlight: map<Hash, NodeId>, p: NodeId, s: NodeState, s': NodeState)
    requires s'.blocks == s.blocks && s'.nBlocksInFlight == s.nBlocksInFlight && s'.nValidHeaders == s.nValidHeaders
    ensures NodeOk(inFlight, p, s) ==> NodeOk(inFlight, p, s')
  {
    hide Has, CountValidated, NoRepeats;
  }

  lemma FlagKeeps(bk: Books, p: NodeId, bk': Books)
    requires Consistent(bk) && p in bk.nodes
    requires bk' == Protecting(bk, p) || exists v :: bk' == Preferring(bk, p, v) || bk' == Synced(bk, p, v)
    ensures Consistent(bk')
  {
    hide Has, NodeOk, Such;
    if bk' != bk {
      SameQueue(bk.inFlight, p, bk.nodes[p], bk'.nodes[p]);
      SuchUpdate(bk.nodes, p, bk'.nodes[p], Preferred);
      SuchUpdate(bk.nodes, p, bk'.nodes[p], Validated);
      SuchUpdate(bk.nodes, p, bk'.nodes[p], Protected);
      SuchUpdate(bk.nodes, p, bk'.nodes[p], Syncing);
      forall q | q in bk'.nodes ensures NodeOk(bk'.inFlight, q, bk'.nodes[q]) {
        NodeBooks(bk, q);
      }
      forall g | g in bk'.inFlight ensures FlightOk(bk'.nodes, g, bk'.inFlight[g]) {
        assert FlightOk(bk.nodes, g, bk.inFlight[g]);
      }
    }
  }

  // ---- Request loops ----

  /** Asking a peer for blocks one by one while it has room. */
  function Fetched(bk: Books, p: NodeId, hashes: seq<Hash>): (r: Books)
    requires Consistent(bk) && p in bk.nodes
    ensures Consistent(r) && p in r.nodes
    decreases |hashes|
  {
    if hashes == [] || bk.nodes[p].nBlocksInFlight >= MAX_BLOCKS_IN_TRANSIT_PER_PEER then bk
    else
      InFlightKeeps(bk, p, hashes[0], true);
      Fetched(InFlight(bk, p, hashes[0], true), p, hashes[1..])
  }

  /** With no more blocks than there is room for, the loop asks for every one of them. */
  lemma {:induction false} FetchesAll(bk: Books, p: NodeId, hashes: seq<Hash>)
    requires Consistent(bk) && p in bk.nodes
    requires bk.nodes[p].nBlocksInFlight + |hashes| <= MAX_BLOCKS_IN_TRANSIT_PER_PEER
    ensures forall i | 0 <= i < |hashes| ::
      hashes[i] in Fetched(bk, p, hashes).inFlight && Fetched(bk, p, hashes).inFlight[hashes[i]] == p
    ensures forall h | h in bk.inFlight && bk.inFlight[h] == p ::
      h in Fetched(bk, p, hashes).inFlight && Fetched(bk, p, hashes).inFlight[h] == p
    decreases |hashes|
  {
    hide Consistent;
    if hashes != [] {
      InFlightKeeps(bk, p, hashes[0], true);
      FetchesAll(InFlight(bk, p, hashes[0], true), p, hashes[1..]);
    }
  }

  // ---- Whole runs ----

  datatype Op =
    | Connect(node: NodeId)
    | Disconnect(node: NodeId)
    | Receive(hash: Hash)
    | Compact(node: NodeId, hash: Hash)
    | Fetch(node: NodeId, hashes: seq<Hash>)
    | Prefer(node: NodeId, preferred: bool)
    | Protect(node: NodeId)
    | Sync(node: NodeId, started: bool)

  /** Messages come only from peers that are connected. */
  predicate Allowed(bk: Books, op: Op)
  {
    op.Connect? || op.Receive? || op.node in bk.nodes
  }

  /** The compact block branch: ask for the block only if the peer has room, or is asked already. */
  predicate CompactAsks(bk: Books, p: NodeId, h: Hash)
    requires p in bk.nodes
  {
    if h in bk.inFlight then bk.inFlight[h] == p else bk.nodes[p].nBlocksInFlight < MAX_BLOCKS_IN_TRANSIT_PER_PEER
  }

  ghost function Apply(bk: Books, op: Op): (r: Books)
    requires Consistent(bk) && Allowed(bk, op)
    ensures Consistent(r)
  {
    match op
    case Connect(p) => InitializedKeeps(bk, p); Initialized(bk, p)
    case Disconnect(p) => FinalizedKeeps(bk, p); Finalized(bk, p)
    case Receive(h) => ReceivedKeeps(bk, h); Received(bk, h)
    case Compact(p, h) =>
      if CompactAsks(bk, p, h) then InFlightKeeps(bk, p, h, true); InFlight(bk, p, h, true) else bk
    case Fetch(p, hashes) => Fetched(bk, p, hashes)
    case Prefer(p, preferred) => FlagKeeps(bk, p, Preferring(bk, p, preferred)); Preferring(bk, p, preferred)
    case Protect(p) => FlagKeeps(bk, p, Protecting(bk, p)); Protecting(bk, p)
    case Sync(p, started) => FlagKeeps(bk, p, Synced(bk, p, started)); Synced(bk, p, started)
  }

  ghost predicate AllAllowed(bk: Books, ops: seq<Op>)
    requires Consistent(bk)
    decreases |ops|
  {
    ops == [] || (Allowed(bk, ops[0]) && AllAllowed(Apply(bk, ops[0]), ops[1..]))
  }

  ghost function Run(bk: Books, ops: seq<Op>): (r: Books)
    requires Consistent(bk) && AllAllowed(bk, ops)
    ensures Consistent(r)
    decreases |ops|
  {
    if ops == [] then bk else Run(Apply(bk, ops[0]), ops[1..])
  }

  lemma EmptyConsistent()
    ensures Consistent(EMPTY)
  {
    assert Such(EMPTY.nodes, Preferred) == {} && Such(EMPTY.nodes, Validated) == {}
      && Such(EMPTY.nodes, Protected) == {} && Such(EMPTY.nodes, Syncing) == {};
  }

  /** After any run from the start: a block is in flight from a peer exactly when that peer's list
      has it, once; every peer's counts match its list and stay within the limit; the counters over
      all peers are exact; and if all peers are gone everything is back at the start. */
  lemma RunsConsistent(ops: seq<Op>)
    requires Consistent(EMPTY) && AllAllowed(EMPTY, ops)
    ensures var bk := Run(EMPTY, ops);
      && (forall h, p :: p in bk.nodes && Has(bk.nodes[p].blocks, h) <==> h in bk.inFlight && bk.inFlight[h] == p)
      && (forall p | p in bk.nodes ::
            bk.nodes[p].nBlocksInFlight == |bk.nodes[p].blocks| <= MAX_BLOCKS_IN_TRANSIT_PER_PEER
            && NoRepeats(bk.nodes[p].blocks) && bk.nodes[p].nValidHeaders == CountValidated(bk.nodes[p].blocks))
      && CountersOk(bk) && (bk.nodes == map[] ==> bk == EMPTY)
  {
    hide Has, CountValidated, NoRepeats, CountersOk, Run;
    var bk := Run(EMPTY, ops);
    forall h, p ensures p in bk.nodes && Has(bk.nodes[p].blocks, h) <==> h in bk.inFlight && bk.inFlight[h] == p {
      if p in bk.nodes {
        NodeBooks(bk, p);
      }
      if h in bk.inFlight {
        assert FlightOk(bk.nodes, h, bk.inFlight[h]);
      }
    }
    forall p | p in bk.nodes ensures NodeOk(bk.inFlight, p, bk.nodes[p]) {
      NodeBooks(bk, p);
    }
    if bk.nodes == map[] {
      AllGone(bk);
    }
  }
}
