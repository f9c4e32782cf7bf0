/**
 The peer logic that keeps the block download books, in the form the node runs it: global maps and
 counters updated in place, with the loops that choose and request blocks.
 */
module PeerLogic {
  import opened Downloads

  // ---- Choosing blocks to fetch ----

  const BLOCK_DOWNLOAD_WINDOW := 1024

  /** A block on the path to a peer's best block.  `haveData` covers blocks stored or on the active
      chain; `chainTx` those whose ancestors are all stored. */
  datatype BlockInfo = BlockInfo(hash: Hash, validTree: bool, segwit: bool, haveData: bool, chainTx: bool)

  /** Who asks for what: the path by height, the blocks in flight, the peer and what it serves. */
  datatype Query = Query(path: seq<BlockInfo>, inFlight: map<Hash, NodeId>, peer: NodeId, haveWitness: bool,
    count: nat, windowEnd: nat)

  datatype Scan = Scan(found: seq<nat>, lastCommon: nat, waitingFor: NodeId, staller: NodeId, stopped: bool)

  predicate Wanted(q: Query, h: nat)
    requires h < |q.path|
  {
    !q.path[h].haveData && q.path[h].hash !in q.inFlight && h <= q.windowEnd
  }

  /** One block of the path. */
  function Look(q: Query, sc: Scan, h: nat): Scan
    requires h < |q.path|
  {
    var b := q.path[h];
    if !b.validTree || (!q.haveWitness && b.segwit) then sc.(stopped := true)
    else if b.haveData then (if b.chainTx then sc.(lastCommon := h) else sc)
    else if b.hash !in q.inFlight then
      if h > q.windowEnd then
        sc.(stopped := true, staller := if sc.found == [] && sc.waitingFor != q.peer then sc.waitingFor else sc.staller)
      else sc.(found := sc.found + [h], stopped := |sc.found| + 1 == q.count)
    else if sc.waitingFor == -1 then sc.(waitingFor := q.inFlight[b.hash])
    else sc
  }

  /** The path from lo up to and including hi, block by block until a reason to stop. */
  function ScanTo(q: Query, sc: Scan, lo: nat, hi: nat): Scan
    requires hi < |q.path|
    decreases hi + 1 - lo
  {
    if hi < lo || sc.stopped then sc else ScanTo(q, Look(q, sc, lo), lo + 1, hi)
  }

  lemma {:induction false} ScanSplit(q: Query, sc: Scan, lo: nat, mid: nat, hi: nat)
    requires lo <= mid + 1 && mid <= hi < |q.path|
    ensures ScanTo(q, ScanTo(q, sc, lo, mid), mid + 1, hi) == ScanTo(q, sc, lo, hi)
    decreases mid + 1 - lo
  {
    if lo <= mid && !sc.stopped {
      ScanSplit(q, Look(q, sc, lo), lo + 1, mid, hi);
    }
  }

  predicate Ascending(s: seq<nat>, lo: nat, hi: int)
  {
    (forall i | 0 <= i < |s| :: lo <= s[i] <= hi) && (forall i | 0 < i < |s| :: s[i - 1] < s[i])
  }

  predicate AllWanted(q: Query, s: seq<nat>)
  {
    forall i | 0 <= i < |s| :: s[i] < |q.path| && Wanted(q, s[i])
  }

  predicate Complete(q: Query, s: seq<nat>, lo0: nat, lo: nat)
    requires lo <= |q.path|
  {
    forall h: nat | lo0 <= h < lo && Wanted(q, h) :: h in s
  }

  /** What is found below lo is wanted, in order of height and never more than asked for; and a scan
      that has not stopped has found everything wanted. */
  predicate Finds(q: Query, sc: Scan, lo0: nat, lo: nat)
    requires lo <= |q.path|
  {
    && |sc.found| <= q.count && Ascending(sc.found, lo0, lo - 1) && AllWanted(q, sc.found)
    && (!sc.stopped ==> |sc.found| < q.count && Complete(q, sc.found, lo0, lo))
  }

  lemma LookFinds(q: Query, sc: Scan, lo0: nat, lo: nat)
    requires lo0 <= lo < |q.path| && !sc.stopped && Finds(q, sc, lo0, lo)
    ensures Finds(q, Look(q, sc, lo), lo0, lo + 1)
  {
    var next := Look(q, sc, lo);
    assert next.found == sc.found || (next.found == sc.found + [lo] && Wanted(q, lo));
    assert AllWanted(q, next.found) && Ascending(next.found, lo0, lo);
    if !next.stopped {
      forall h: nat | lo0 <= h <= lo && Wanted(q, h) ensures h in next.found {
        if h < lo {
          assert h in sc.found;
        } else {
          assert next.found[|sc.found|] == lo;
        }
      }
    }
  }

  lemma {:induction false} ScanFinds(q: Query, sc: Scan, lo0: nat, lo: nat, hi: nat)
    requires lo0 <= lo <= hi + 1 && hi < |q.path| && Finds(q, sc, lo0, lo)
    ensures Finds(q, ScanTo(q, sc, lo, hi), lo0, hi + 1)
    decreases hi + 1 - lo
  {
    if lo <= hi {
      if sc.stopped {
        assert Finds(q, sc, lo0, hi + 1);
      } else {
        LookFinds(q, sc, lo0, lo);
        hide Finds, Look;
        ScanFinds(q, Look(q, sc, lo), lo0, lo + 1, hi);
      }
    }
  }

  function Min(a: int, b: int): int { if a < b then a else b }

  function Max(a: int, b: int): int { if a > b then a else b }

  /** FindNextBlocksToDownload for a peer whose last common block with us is known.  `eligible` says
      that its best block is known and has enough work.  The path above the last common block is taken
      in batches, each laid out backwards from its top. */
  method FindNextBlocksToDownload(q: Query, lastCommon: nat, eligible: bool) returns (sc: Scan)
    requires lastCommon < |q.path| && q.windowEnd == lastCommon + BLOCK_DOWNLOAD_WINDOW
    ensures q.count == 0 || !eligible ==> sc == Scan([], lastCommon, -1, -1, false)
    ensures q.count > 0 && eligible ==>
      sc == ScanTo(q, Scan([], lastCommon, -1, -1, false), lastCommon + 1, Min(|q.path| - 1, q.windowEnd + 1))
    ensures q.count > 0 && eligible ==> Finds(q, sc, lastCommon + 1, Min(|q.path| - 1, q.windowEnd + 1) + 1)
  {
    hide Look, Finds;
    if q.count == 0 || !eligible {
      return Scan([], lastCommon, -1, -1, false);
    }
    var best := |q.path| - 1;
    var maxHeight := Min(best, q.windowEnd + 1);
    var start := Scan([], lastCommon, -1, -1, false);
    StartFinds(q, start, lastCommon + 1);
    ScanFinds(q, start, lastCommon + 1, lastCommon + 1, maxHeight);
    sc := start;
    var walk := lastCommon;
    while walk < maxHeight
      invariant lastCommon <= walk <= Max(maxHeight, lastCommon) && !sc.stopped
      invariant sc == ScanTo(q, start, lastCommon + 1, walk)
    {
      var n := Min(maxHeight - walk, Max(q.count - |sc.found|, 128));
      var toFetch := Batch(walk, n);
      ghost var before := sc;
      ScanSplit(q, start, lastCommon + 1, walk, maxHeight);
      var i := 0;
      while i < n
        invariant 0 <= i <= n && !sc.stopped && sc == ScanTo(q, before, walk + 1, walk + i)
      {
        ScanSplit(q, before, walk + 1, walk + i, maxHeight);
        ScanSplit(q, before, walk + 1, walk + i, walk + i + 1);
        sc := Look(q, sc, toFetch[i]);
        if sc.stopped {
          return;
        }
        i := i + 1;
      }
      ScanSplit(q, start, lastCommon + 1, walk, walk + n);
      walk := walk + n;
    }
  }

  lemma StartFinds(q: Query, sc: Scan, lo: nat)
    requires sc.found == [] && q.count > 0 && lo <= |q.path|
    ensures Finds(q, sc, lo, lo)
  {
  }

  /** The n heights above `walk`, filled in from the top down. */
  method Batch(walk: nat, n: nat) returns (r: seq<nat>)
    requires n > 0
    ensures |r| == n && forall i | 0 <= i < n :: r[i] == walk + 1 + i
  {
    r := seq(n, _ => 0);
    r := r[n - 1 := walk + n];
    var i := n - 1;
    while i > 0
      invariant 0 <= i < n && |r| == n && forall k | i <= k < n :: r[k] == walk + 1 + k
    {
      r := r[i - 1 := r[i] - 1];
      i := i - 1;
    }
  }

  // ---- The books ----

  class PeerLogicValidation {
    var mapNodeState: map<NodeId, NodeState>
    var mapBlocksInFlight: map<Hash, NodeId>
    var nPreferredDownload: int
    var nPeersWithValidatedDownloads: int
    var nProtected: int
    var nSyncStarted: int

    function Contents(): Books
      reads this
    {
      Books(mapNodeState, mapBlocksInFlight, nPreferredDownload, nPeersWithValidatedDownloads, nProtected, nSyncStarted)
    }

    ghost predicate Valid()
      reads this
    {
      Consistent(Contents())
    }

    constructor ()
      ensures Valid() && Contents() == EMPTY
    {
      mapNodeState, mapBlocksInFlight := map[], map[];
      nPreferredDownload, nPeersWithValidatedDownloads, nProtected, nSyncStarted := 0, 0, 0, 0;
      EmptyConsistent();
    }

    method InitializeNode(p: NodeId)
      requires Valid()
      modifies this
      ensures Valid() && Contents() == Initialized(old(Contents()), p)
    {
      InitializedKeeps(Contents(), p);
      if p !in mapNodeState {
        mapNodeState := mapNodeState[p := NEW_NODE];
      }
    }

    /** Forgets a peer: its blocks are fetched from nobody, and it is counted nowhere. */
    method FinalizeNode(p: NodeId)
      requires Valid() && p in mapNodeState
      modifies this
      ensures Valid() && Contents() == Finalized(old(Contents()), p)
      ensures nPeersWithValidatedDownloads >= 0 && nProtected >= 0
      ensures mapNodeState == map[] ==> Contents() == EMPTY
    {
      hide Consistent, Hashes;
      ghost var bk := Contents();
      FinalizedKeeps(bk, p);
      CountersNonNegative(Finalized(bk, p));
      var state := mapNodeState[p];
      if state.syncStarted {
        nSyncStarted := nSyncStarted - 1;
      }
      EraseInFlight(state.blocks);
      nPreferredDownload := nPreferredDownload - Bit(state.preferred);
      nPeersWithValidatedDownloads := nPeersWithValidatedDownloads - Bit(state.nValidHeaders != 0);
      nProtected := nProtected - Bit(state.protect);
      mapNodeState := mapNodeState - {p};
      if mapNodeState == map[] {
        AllGone(Contents());
      }
    }

    method EraseInFlight(blocks: seq<QueuedBlock>)
      modifies this`mapBlocksInFlight
      ensures mapBlocksInFlight == old(mapBlocksInFlight) - Hashes(blocks)
    {
      for i := 0 to |blocks|
        invariant mapBlocksInFlight == old(mapBlocksInFlight) - Hashes(blocks[..i])
      {
        assert Hashes(blocks[..i + 1]) == Hashes(blocks[..i]) + {blocks[i].hash};
        mapBlocksInFlight := mapBlocksInFlight - {blocks[i].hash};
      }
      assert blocks[..|blocks|] == blocks;
    }

    method UpdatePreferredDownload(p: NodeId, preferred: bool)
      requires Valid() && p in mapNodeState
      modifies this
      ensures Valid() && Contents() == Preferring(old(Contents()), p, preferred)
    {
      FlagKeeps(Contents(), p, Preferring(Contents(), p, preferred));
      nPreferredDownload := nPreferredDownload - Bit(mapNodeState[p].preferred);
      mapNodeState := mapNodeState[p := mapNodeState[p].(preferred := preferred)];
      nPreferredDownload := nPreferredDownload + Bit(preferred);
    }

    /** The part of SendMessages that starts header sync: with one peer at a time, unless our best header
        is recent.  `mayAsk` stands for the tests of the peer and of the node's state. */
    method StartSync(p: NodeId, mayAsk: bool, fetchFrom: bool, recent: bool) returns (started: bool)
      requires Valid() && p in mapNodeState
      modifies this
      ensures Valid() && Contents() == if started then Synced(old(Contents()), p, true) else old(Contents())
      ensures started <==>
        !old(mapNodeState)[p].syncStarted && mayAsk && ((fetchFrom && Such(old(mapNodeState), Syncing) == {}) || recent)
    {
      NoneSyncing(Contents());
      FlagKeeps(Contents(), p, Synced(Contents(), p, true));
      started := !mapNodeState[p].syncStarted && mayAsk && ((nSyncStarted == 0 && fetchFrom) || recent);
      if started {
        mapNodeState := mapNodeState[p := mapNodeState[p].(syncStarted := true)];
        nSyncStarted := nSyncStarted + 1;
      }
    }

    method ProtectPeer(p: NodeId)
      requires Valid() && p in mapNodeState
      modifies this
      ensures Valid() && Contents() == Protecting(old(Contents()), p)
    {
      FlagKeeps(Contents(), p, Protecting(Contents(), p));
      if nProtected < MAX_OUTBOUND_PEERS_TO_PROTECT_FROM_DISCONNECT && !mapNodeState[p].protect {
        mapNodeState := mapNodeState[p := mapNodeState[p].(protect := true)];
        nProtected := nProtected + 1;
      }
    }

    method MarkBlockAsReceived(h: Hash) returns (wasInFlight: bool)
      requires Valid()
      modifies this
      ensures h in old(mapBlocksInFlight) ==>
        FlightOk(old(mapNodeState), h, old(mapBlocksInFlight)[h])
      ensures Valid() && Contents() == Received(old(Contents()), h) && wasInFlight == (h in old(mapBlocksInFlight))
    {
      hide Has, CountValidated, NoRepeats, Such, Consistent;
      ReceivedKeeps(Contents(), h);
      wasInFlight := h in mapBlocksInFlight;
      if wasInFlight {
        var p := mapBlocksInFlight[h];
        var state := mapNodeState[p];
        var i := IndexOf(state.blocks, h);
        var validated := state.blocks[i].validated;
        state := state.(nValidHeaders := state.nValidHeaders - Bit(validated));
        if state.nValidHeaders == 0 && validated {
          nPeersWithValidatedDownloads := nPeersWithValidatedDownloads - 1;
        }
        state := state.(blocks := Without(state.blocks, i));
        state := state.(nBlocksInFlight := state.nBlocksInFlight - 1);
        mapNodeState := mapNodeState[p := state];
        mapBlocksInFlight := mapBlocksInFlight - {h};
      }
    }

    method MarkBlockAsInFlight(p: NodeId, h: Hash, validated: bool) returns (added: bool)
      requires Valid() && p in mapNodeState
      requires (h in mapBlocksInFlight && mapBlocksInFlight[h] == p)
               || mapNodeState[p].nBlocksInFlight < MAX_BLOCKS_IN_TRANSIT_PER_PEER
      modifies this
      ensures h in old(mapBlocksInFlight) ==>
        FlightOk(old(mapNodeState), h, old(mapBlocksInFlight)[h])
      ensures Valid() && Contents() == InFlight(old(Contents()), p, h, validated)
      ensures added == !(h in old(mapBlocksInFlight) && old(mapBlocksInFlight)[h] == p)
    {
      hide Consistent, Has, Received;
      InFlightKeeps(Contents(), p, h, validated);
      ReceivedKeeps(Contents(), h);
      if h in mapBlocksInFlight && mapBlocksInFlight[h] == p {
        return false;
      }
      var _ := MarkBlockAsReceived(h);
      var state := mapNodeState[p];
      state := state.(blocks := state.blocks + [QueuedBlock(h, validated)]);
      state := state.(nBlocksInFlight := state.nBlocksInFlight + 1);
      state := state.(nValidHeaders := state.nValidHeaders + Bit(validated));
      if state.nValidHeaders == 1 && validated {
        nPeersWithValidatedDownloads := nPeersWithValidatedDownloads + 1;
      }
      mapNodeState := mapNodeState[p := state];
      mapBlocksInFlight := mapBlocksInFlight[h := p];
      added := true;
    }

    /** The headers message's direct fetch: asks for blocks until the peer has no room. */
    method DirectFetch(p: NodeId, hashes: seq<Hash>)
      requires Valid() && p in mapNodeState
      modifies this
      ensures Valid() && Contents() == Fetched(old(Contents()), p, hashes)
    {
      hide Consistent, InFlight;
      ghost var bk := Contents();
      var i := 0;
      assert hashes[0..] == hashes;
      while i < |hashes|
        invariant i <= |hashes| && Valid() && p in mapNodeState
        invariant Fetched(Contents(), p, hashes[i..]) == Fetched(bk, p, hashes)
      {
        if mapNodeState[p].nBlocksInFlight >= MAX_BLOCKS_IN_TRANSIT_PER_PEER {
          break;
        }
        InFlightKeeps(Contents(), p, hashes[i], true);
        assert hashes[i..][0] == hashes[i] && hashes[i..][1..] == hashes[i + 1..];
        var _ := MarkBlockAsInFlight(p, hashes[i], true);
        i := i + 1;
      }
    }

    /** Asks for every block in turn, unchecked; the caller has counted them. */
    method RequestAll(p: NodeId, hashes: seq<Hash>)
      requires Valid() && p in mapNodeState
      requires mapNodeState[p].nBlocksInFlight + |hashes| <= MAX_BLOCKS_IN_TRANSIT_PER_PEER
      modifies this
      ensures Valid() && Contents() == Fetched(old(Contents()), p, hashes)
    {
      hide Consistent, InFlight;
      ghost var bk := Contents();
      var i := 0;
      assert hashes[0..] == hashes;
      while i < |hashes|
        invariant i <= |hashes| && Valid() && p in mapNodeState
        invariant mapNodeState[p].nBlocksInFlight + (|hashes| - i) <= MAX_BLOCKS_IN_TRANSIT_PER_PEER
        invariant Fetched(Contents(), p, hashes[i..]) == Fetched(bk, p, hashes)
      {
        InFlightKeeps(Contents(), p, hashes[i], true);
        assert hashes[i..][0] == hashes[i] && hashes[i..][1..] == hashes[i + 1..];
        var _ := MarkBlockAsInFlight(p, hashes[i], true);
        i := i + 1;
      }
    }

    /** The compact block message: asks for the block unless the peer is full or another has it. */
    method RequestCompact(p: NodeId, h: Hash) returns (asked: bool)
      requires Valid() && p in mapNodeState
      modifies this
      ensures Valid() && asked == CompactAsks(old(Contents()), p, h)
      ensures h in old(mapBlocksInFlight) ==> FlightOk(old(mapNodeState), h, old(mapBlocksInFlight)[h])
      ensures Contents() == if asked then InFlight(old(Contents()), p, h, true) else old(Contents())
    {
      hide Consistent, InFlight;
      ReceivedKeeps(Contents(), h);
      var already := h in mapBlocksInFlight;
      asked := (!already && mapNodeState[p].nBlocksInFlight < MAX_BLOCKS_IN_TRANSIT_PER_PEER)
               || (already && mapBlocksInFlight[h] == p);
      if asked {
        var _ := MarkBlockAsInFlight(p, h, true);
      }
    }

    /** SendMessages: fills the peer's room with the blocks the scan finds.  All of them are asked
        for, and the peer stays within its limit. */
    method RequestBlocks(p: NodeId, path: seq<BlockInfo>, haveWitness: bool, lastCommon: nat, eligible: bool)
      returns (sc: Scan)
      requires Valid() && p in mapNodeState && lastCommon < |path|
      modifies this
      ensures Valid() && forall i | 0 <= i < |sc.found| :: sc.found[i] < |path|
      ensures Contents() == Fetched(old(Contents()), p, HashesAt(path, sc.found))
      ensures old(mapNodeState)[p].nBlocksInFlight + |sc.found| <= MAX_BLOCKS_IN_TRANSIT_PER_PEER
    {
      hide Consistent, InFlight, ScanTo;
      NodeLimit(Contents(), p);
      var room := MAX_BLOCKS_IN_TRANSIT_PER_PEER - mapNodeState[p].nBlocksInFlight;
      var q := Query(path, mapBlocksInFlight, p, haveWitness, room, lastCommon + BLOCK_DOWNLOAD_WINDOW);
      sc := FindNextBlocksToDownload(q, lastCommon, eligible);
      if room > 0 && eligible {
        FindsBounds(q, sc, lastCommon + 1, Min(|q.path| - 1, q.windowEnd + 1) + 1);
      }
      RequestAll(p, HashesAt(path, sc.found));
    }
  }

  function HashesAt(path: seq<BlockInfo>, heights: seq<nat>): (r: seq<Hash>)
    requires forall i | 0 <= i < |heights| :: heights[i] < |path|
    ensures |r| == |heights|
  {
    seq(|heights|, i requires 0 <= i < |heights| => path[heights[i]].hash)
  }

  lemma NoneSyncing(bk: Books)
    requires Consistent(bk)
    ensures bk.nSyncStarted == 0 <==> Such(bk.nodes, Syncing) == {}
  {
  }

  lemma CountersNonNegative(bk: Books)
    requires Consistent(bk)
    ensures bk.nPeersWithValidatedDownloads >= 0 && bk.nProtected >= 0
  {
  }

  lemma NodeLimit(bk: Books, p: NodeId)
    requires Consistent(bk) && p in bk.nodes
    ensures bk.nodes[p].nBlocksInFlight <= MAX_BLOCKS_IN_TRANSIT_PER_PEER
  {
    NodeBooks(bk, p);
  }

  lemma FindsBounds(q: Query, sc: Scan, lo0: nat, lo: nat)
    requires lo <= |q.path| && Finds(q, sc, lo0, lo)
    ensures |sc.found| <= q.count && forall i | 0 <= i < |sc.found| :: sc.found[i] < |q.path|
  {
  }
}
