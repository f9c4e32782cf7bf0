/**
 CPartialMerkleTree: building a partial Merkle tree, sending it, and extracting the matches.
 */
module PartialMerkleTree {
  import opened Arith
  import opened MerkleTree

  // ---- Bits on the wire ----

  function Bit(b: bool): nat { if b then 1 else 0 }

  /** The byte whose i-th bit, from the lowest, is bits[i]. */
  function ByteOf(bits: seq<bool>): nat
  {
    if bits == [] then 0 else Bit(bits[0]) + 2 * ByteOf(bits[1..])
  }

  function BitOf(byte: nat, i: nat): bool
  {
    (byte / Pow2(i)) % 2 == 1
  }

  lemma {:induction false} ByteBits(bits: seq<bool>, i: nat)
    ensures BitOf(ByteOf(bits), i) == (i < |bits| && bits[i])
  {
    var byte := ByteOf(bits);
    if bits == [] {
      assert 0 / Pow2(i) == 0 by { SmallQuotient(Pow2(i)); }
    } else if i > 0 {
      ByteBits(bits[1..], i - 1);
      HalfQuotient(byte, Bit(bits[0]), ByteOf(bits[1..]), Pow2(i - 1));
    }
  }

  lemma SmallQuotient(p: nat)
    requires p > 0
    ensures 0 / p == 0
  {
  }

  lemma HalfQuotient(byte: nat, low: nat, rest: nat, p: nat)
    requires byte == low + 2 * rest && low < 2 && p > 0
    ensures byte / (2 * p) == rest / p
  {
    var q, r := rest / p, rest % p;
    assert rest == q * p + r && r < p;
    assert byte == q * (2 * p) + (low + 2 * r) && low + 2 * r < 2 * p;
    Arith.QuotientOf(byte, 2 * p, q, low + 2 * r);
  }

  /** The bits padded to whole bytes. */
  function Padded(bits: seq<bool>): seq<bool>
  {
    bits + seq((8 - |bits| % 8) % 8, _ => false)
  }

  /** The bytes of SerializationOp: eight bits each, lowest first. */
  function Bytes(bits: seq<bool>): (r: seq<nat>)
    ensures |r| == (|bits| + 7) / 8
  {
    if bits == [] then []
    else if |bits| <= 8 then [ByteOf(bits)]
    else [ByteOf(bits[..8])] + Bytes(bits[8..])
  }

  /** Reading the bytes back. */
  function Bits(bytes: seq<nat>): (r: seq<bool>)
    ensures |r| == 8 * |bytes|
  {
    seq(8 * |bytes|, p requires 0 <= p < 8 * |bytes| => BitOf(bytes[p / 8], p % 8))
  }

  /** The bits of the k-th byte, among the first n. */
  function Chunk(bits: seq<bool>, k: nat): (r: seq<bool>)
    ensures |r| <= 8 && (8 * k < |bits| ==> |r| == if 8 * k + 8 < |bits| then 8 else |bits| - 8 * k)
    ensures forall i | 0 <= i < |r| :: 8 * k + i < |bits| && r[i] == bits[8 * k + i]
  {
    if |bits| <= 8 * k then []
    else bits[8 * k..if 8 * k + 8 < |bits| then 8 * k + 8 else |bits|]
  }

  lemma {:induction false} ByteAt(bits: seq<bool>, k: nat)
    requires k < (|bits| + 7) / 8
    ensures Bytes(bits)[k] == ByteOf(Chunk(bits, k))
  {
    if |bits| <= 8 {
      assert Chunk(bits, 0) == bits;
    } else if k == 0 {
      assert Chunk(bits, 0) == bits[..8];
    } else {
      ByteAt(bits[8..], k - 1);
      assert Chunk(bits[8..], k - 1) == Chunk(bits, k);
    }
  }

  lemma WireBit(bits: seq<bool>, k: nat, i: nat)
    requires k < (|bits| + 7) / 8 && i < 8
    ensures BitOf(Bytes(bits)[k], i) == (8 * k + i < |bits| && bits[8 * k + i])
  {
    hide ByteOf, BitOf, Bytes;
    ByteAt(bits, k);
    ByteBits(Chunk(bits, k), i);
  }

  /** Sending the bits only pads them. */
  lemma WireBits(bits: seq<bool>)
    ensures Bits(Bytes(bits)) == Padded(bits)
  {
    hide BitOf, Bytes;
    var r := Bits(Bytes(bits));
    forall p: nat | p < |r| ensures r[p] == Padded(bits)[p] {
      WireBit(bits, p / 8, p % 8);
    }
    assert |Padded(bits)| == |r|;
  }

  lemma {:induction false} ByteOfNext(bits: seq<bool>, b: bool)
    ensures ByteOf(bits + [b]) == ByteOf(bits) + Bit(b) * Pow2(|bits|)
  {
    if bits == [] {
      assert [b][1..] == [];
    } else {
      ByteOfNext(bits[1..], b);
      assert (bits + [b])[1..] == bits[1..] + [b];
    }
  }

  /** Writing the bits: each is set in its byte, which starts from zero. */
  method PackBits(bits: seq<bool>) returns (bytes: seq<nat>)
    ensures bytes == Bytes(bits)
  {
    hide ByteOf, Bytes, Pow2;
    bytes := seq((|bits| + 7) / 8, _ => 0);
    NoBits();
    for p := 0 to |bits|
      invariant |bytes| == (|bits| + 7) / 8
      invariant forall k: nat | k < |bytes| :: bytes[k] == ByteOf(Chunk(bits[..p], k))
    {
      var k := p / 8;
      ByteOfNext(Chunk(bits[..p], k), bits[p]);
      ChunkNext(bits, p);
      assert bytes[k] == ByteOf(Chunk(bits[..p], k));
      bytes := bytes[k := bytes[k] + Bit(bits[p]) * Pow2(p % 8)];
    }
    assert bits[..|bits|] == bits;
    forall k: nat | k < |bytes| ensures bytes[k] == Bytes(bits)[k] {
      ByteAt(bits, k);
    }
  }

  lemma NoBits()
    ensures ByteOf([]) == 0
  {
  }

  lemma ChunkNext(bits: seq<bool>, p: nat)
    requires p < |bits|
    ensures Chunk(bits[..p + 1], p / 8) == Chunk(bits[..p], p / 8) + [bits[p]]
    ensures |Chunk(bits[..p], p / 8)| == p % 8
    ensures forall k: nat | k != p / 8 :: Chunk(bits[..p + 1], k) == Chunk(bits[..p], k)
  {
  }

  /** Reading them back. */
  method UnpackBits(bytes: seq<nat>) returns (bits: seq<bool>)
    ensures bits == Bits(bytes)
  {
    bits := [];
    for p := 0 to 8 * |bytes|
      invariant bits == Bits(bytes)[..p]
    {
      bits := bits + [BitOf(bytes[p / 8], p % 8)];
    }
  }

  // ---- The tree ----

  /** A proof for n transactions as it travels. */
  datatype Wire = Wire(n: nat, hashes: seq<Hash>, bytes: seq<nat>)

  /** The proof for a whole block. */
  function WholeProof(h2: Hasher, txids: seq<Hash>, matches: seq<bool>): Proof
    requires txids != [] && |matches| == |txids|
  {
    RootPresent(|txids|);
    Built(h2, txids, matches, Height(|txids|), 0)
  }

  /** The checks ExtractMatches makes before reading and after. */
  predicate Plausible(n: nat, p: Proof)
  {
    0 < n <= MAX_TRANSACTIONS && |p.hashes| <= n && |p.bits| >= |p.hashes|
  }

  predicate Accepted(p: Proof, e: Found)
  {
    !e.bad && (e.bits + 7) / 8 == (|p.bits| + 7) / 8 && e.hashes == |p.hashes|
  }

  class CPartialMerkleTree {
    var nTransactions: nat
    var vBits: seq<bool>
    var vHash: seq<Hash>
    var fBad: bool

    function Contents(): Proof
      reads this
    {
      Proof(vBits, vHash)
    }

    constructor (h2: Hasher, txids: seq<Hash>, matches: seq<bool>)
      requires txids != [] && |matches| == |txids|
      ensures nTransactions == |txids| && !fBad && Contents() == WholeProof(h2, txids, matches)
    {
      nTransactions, fBad, vBits, vHash := |txids|, false, [], [];
      new;
      RootPresent(|txids|);
      var height := TreeHeight();
      TraverseAndBuild(h2, txids, matches, height, 0);
      assert Join(Proof([], []), WholeProof(h2, txids, matches)) == WholeProof(h2, txids, matches);
    }

    /** Reading a tree off the wire. */
    constructor Receive(w: Wire)
      ensures nTransactions == w.n && !fBad && vHash == w.hashes && vBits == Bits(w.bytes)
    {
      nTransactions, vHash, fBad := w.n, w.hashes, false;
      vBits := [];
      new;
      vBits := UnpackBits(w.bytes);
    }

    method Send() returns (w: Wire)
      ensures w == Wire(nTransactions, vHash, Bytes(vBits))
    {
      var bytes := PackBits(vBits);
      w := Wire(nTransactions, vHash, bytes);
    }

    method TreeHeight() returns (height: nat)
      ensures height == Height(nTransactions)
    {
      height := 0;
      while Width(nTransactions, height) > 1
        invariant HeightFrom(nTransactions, height) == Height(nTransactions)
        decreases Width(nTransactions, height)
      {
        WidthShrinks(nTransactions, height);
        height := height + 1;
      }
    }

    method TraverseAndBuild(h2: Hasher, txids: seq<Hash>, matches: seq<bool>, height: nat, pos: nat)
      requires |matches| == |txids| == nTransactions && pos < Width(nTransactions, height)
      modifies this`vBits, this`vHash
      ensures Contents() == Join(old(Contents()), Built(h2, txids, matches, height, pos))
      decreases height
    {
      hide Width, CalcHash, AnyMatch, First, Last, Built;
      var parent := ParentOfMatch(matches, height, pos);
      vBits := vBits + [parent];
      if height == 0 || !parent {
        vHash := vHash + [CalcHash(h2, txids, height, pos)];
        LeafBuilt(h2, txids, matches, height, pos);
      } else {
        BuiltInner(h2, txids, matches, height, pos);
        TraverseAndBuild(h2, txids, matches, height - 1, pos * 2);
        if pos * 2 + 1 < Width(nTransactions, height - 1) {
          TraverseAndBuild(h2, txids, matches, height - 1, pos * 2 + 1);
        }
      }
    }

    /** Whether any leaf under the node matched. */
    method ParentOfMatch(matches: seq<bool>, height: nat, pos: nat) returns (parent: bool)
      requires |matches| == nTransactions
      ensures parent == AnyMatch(matches, First(height, pos), Last(nTransactions, height, pos))
    {
      hide First;
      parent := false;
      var p := First(height, pos);
      ParentSpans(nTransactions, height, pos);
      while p < First(height, pos + 1) && p < nTransactions
        invariant First(height, pos) <= p && (p <= Last(nTransactions, height, pos) || p == First(height, pos))
        invariant parent <==> exists q :: First(height, pos) <= q < p && q < nTransactions && matches[q]
      {
        parent := parent || matches[p];
        p := p + 1;
      }
    }

    /** Reads below one node.  The cursors are passed along and handed back; the matches found are
        appended. */
    method TraverseAndExtract(h2: Hasher, height: nat, pos: nat, bits: nat, hashes: nat, ids0: seq<Hash>,
      positions0: seq<nat>)
      returns (hash: Hash, bits': nat, hashes': nat, ids: seq<Hash>, positions: seq<nat>)
      modifies this`fBad
      ensures var e := Extract(h2, nTransactions, Contents(), height, pos, bits, hashes);
        && hash == e.hash && bits' == e.bits && hashes' == e.hashes && fBad == (old(fBad) || e.bad)
        && ids == ids0 + e.ids && positions == positions0 + e.positions
      decreases height
    {
      hide Width, Extract, Paired;
      ghost var p := Contents();
      bits', hashes', ids, positions := bits, hashes, ids0, positions0;
      if bits >= |vBits| || height == 0 || !vBits[bits] {
        hash, bits', hashes', ids, positions := StopExtract(height, pos, bits, hashes, ids, positions);
        ExtractStop(h2, nTransactions, p, height, pos, bits, hashes);
      } else {
        ExtractInner(h2, nTransactions, p, height, pos, bits, hashes);
        var left, right;
        left, bits', hashes', ids, positions := TraverseAndExtract(h2, height - 1, pos * 2, bits + 1, hashes', ids,
          positions);
        if pos * 2 + 1 < Width(nTransactions, height - 1) {
          right, bits', hashes', ids, positions :=
            TraverseAndExtract(h2, height - 1, pos * 2 + 1, bits', hashes', ids, positions);
          if right == left {
            fBad := true;
          }
          PairedIs(h2, Extract(h2, nTransactions, p, height - 1, 2 * pos, bits + 1, hashes),
            Extract(h2, nTransactions, p, height - 1, 2 * pos + 1,
              Extract(h2, nTransactions, p, height - 1, 2 * pos, bits + 1, hashes).bits,
              Extract(h2, nTransactions, p, height - 1, 2 * pos, bits + 1, hashes).hashes), ids0, positions0);
        } else {
          right := left;
        }
        hash := h2(left, right);
      }
    }

    /** The part of TraverseAndExtract that goes no deeper. */
    method StopExtract(height: nat, pos: nat, bits: nat, hashes: nat, ids0: seq<Hash>, positions0: seq<nat>)
      returns (hash: Hash, bits': nat, hashes': nat, ids: seq<Hash>, positions: seq<nat>)
      requires Stops(Contents(), height, bits)
      modifies this`fBad
      ensures var e := Stop(Contents(), height, pos, bits, hashes);
        && hash == e.hash && bits' == e.bits && hashes' == e.hashes && fBad == (old(fBad) || e.bad)
        && ids == ids0 + e.ids && positions == positions0 + e.positions
    {
      bits', hashes', ids, positions := bits, hashes, ids0, positions0;
      if bits >= |vBits| {
        fBad := true;
        return NULL_HASH, bits, hashes, ids, positions;
      }
      bits' := bits' + 1;
      if hashes >= |vHash| {
        fBad := true;
        return NULL_HASH, bits', hashes, ids, positions;
      }
      hash := vHash[hashes];
      hashes' := hashes' + 1;
      if height == 0 && vBits[bits] {
        ids, positions := ids + [hash], positions + [pos];
      }
    }

    /** The root the proof commits to, or the null hash, with the matches it proves; the positions
        are appended to the caller's. */
    method ExtractMatches(h2: Hasher, positions0: seq<nat>) returns (root: Hash, ids: seq<Hash>, positions: seq<nat>)
      modifies this`fBad
      ensures var e := Extract(h2, nTransactions, Contents(), Height(nTransactions), 0, 0, 0);
        if Plausible(nTransactions, Contents()) then
          && root == (if !old(fBad) && Accepted(Contents(), e) then e.hash else NULL_HASH)
          && ids == e.ids && positions == positions0 + e.positions
        else root == NULL_HASH && ids == [] && positions == positions0
    {
      hide Extract, Height;
      ids, positions := [], positions0;
      if nTransactions == 0 || nTransactions > MAX_TRANSACTIONS || |vHash| > nTransactions || |vBits| < |vHash| {
        return NULL_HASH, ids, positions;
      }
      var height := TreeHeight();
      var bits, hashes;
      root, bits, hashes, ids, positions := TraverseAndExtract(h2, height, 0, 0, 0, ids, positions);
      if fBad || (bits + 7) / 8 != (|vBits| + 7) / 8 || hashes != |vHash| {
        root := NULL_HASH;
      }
    }
  }

  lemma PairedIs(h2: Hasher, l: Found, r: Found, ids: seq<Hash>, positions: seq<nat>)
    ensures var e := Paired(h2, l, r);
      && e.hash == h2(l.hash, r.hash) && e.bits == r.bits && e.hashes == r.hashes
      && e.bad == (l.bad || r.bad || r.hash == l.hash)
      && ids + l.ids + r.ids == ids + e.ids && positions + l.positions + r.positions == positions + e.positions
  {
  }

  lemma LeafBuilt(h2: Hasher, txids: seq<Hash>, matches: seq<bool>, height: nat, pos: nat)
    requires |matches| == |txids| && pos < Width(|txids|, height)
    requires height == 0 || !AnyMatch(matches, First(height, pos), Last(|txids|, height, pos))
    ensures Built(h2, txids, matches, height, pos) ==
      Proof([AnyMatch(matches, First(height, pos), Last(|txids|, height, pos))], [CalcHash(h2, txids, height, pos)])
  {
  }

  // ---- What a proof proves ----

  /** An honest proof, sent or not, extracts to the block's root and exactly the matches. */
  lemma HonestProofAccepted(h2: Hasher, txids: seq<Hash>, matches: seq<bool>, q: Proof)
    requires Injective(h2) && Distinct(txids) && 0 < |txids| <= MAX_TRANSACTIONS && |matches| == |txids|
    requires var p := WholeProof(h2, txids, matches); q == p || q == Proof(Bits(Bytes(p.bits)), p.hashes)
    ensures Plausible(|txids|, q)
    ensures var e := Extract(h2, |txids|, q, Height(|txids|), 0, 0, 0);
      && Accepted(q, e) && e.hash == Root(h2, txids)
      && e.positions == Matched(matches, 0, |txids|) && e.ids == At(txids, e.positions)
  {
    var n, height := |txids|, Height(|txids|);
    var p := WholeProof(h2, txids, matches);
    hide Height, Width, First, Built, Extract, Injective, Bits, Bytes, CalcHash, Matched, At;
    RootPresent(n);
    WireBits(p.bits);
    assert q.bits[..|p.bits|] == p.bits && q.bits[0..0 + |p.bits|] == q.bits[..|p.bits|];
    assert q.hashes[0..0 + |p.hashes|] == p.hashes;
    assert Carries(q, 0, 0, p);
    BuiltExtracts(h2, txids, matches, q, height, 0, 0, 0);
    BuiltSize(h2, txids, matches, height, 0);
  }

  /** Whoever made it: an accepted proof that comes out at a block's root reports only transactions
      of that block, each at its own position, in ascending order. */
  lemma AcceptedProofTrue(h2: Hasher, txids: seq<Hash>, p: Proof)
    requires Injective(h2) && txids != []
    requires Accepted(p, Extract(h2, |txids|, p, Height(|txids|), 0, 0, 0))
    requires Extract(h2, |txids|, p, Height(|txids|), 0, 0, 0).hash == Root(h2, txids)
    ensures var e := Extract(h2, |txids|, p, Height(|txids|), 0, 0, 0);
      TrueMatches(txids, e.ids, e.positions) && Ascending(e.positions, 0, |txids|)
  {
    var n, height := |txids|, Height(|txids|);
    hide Height, Width, First, Extract, CalcHash, Injective;
    RootPresent(n);
    ExtractSound(h2, txids, p, height, 0, 0, 0);
  }

  /** The number of transactions must be known from elsewhere: announced as a single transaction, the
      root of any block proves itself. */
  lemma CountMatters(h2: Hasher, txids: seq<Hash>)
    requires txids != []
    ensures var root := Root(h2, txids);
      var p := Proof([true], [root]);
      var e := Extract(h2, 1, p, Height(1), 0, 0, 0);
      && Plausible(1, p) && Accepted(p, e) && e.hash == root && e.ids == [root] && e.positions == [0]
  {
    hide Root;
    assert Width(1, 0) == 1 && Height(1) == 0;
  }

  /** Building, sending, receiving and extracting. */
  method ProveAndVerify(h2: Hasher, txids: seq<Hash>, matches: seq<bool>)
    returns (root: Hash, ids: seq<Hash>, positions: seq<nat>)
    requires Injective(h2) && Distinct(txids) && 0 < |txids| <= MAX_TRANSACTIONS && |matches| == |txids|
    ensures root == Root(h2, txids)
    ensures positions == Matched(matches, 0, |txids|) && ids == At(txids, positions)
  {
    hide Injective, Height, Extract, Root, WholeProof, Matched, At, Bits, Bytes;
    var tree := new CPartialMerkleTree(h2, txids, matches);
    var wire := tree.Send();
    var received := new CPartialMerkleTree.Receive(wire);
    HonestProofAccepted(h2, txids, matches, received.Contents());
    root, ids, positions := received.ExtractMatches(h2, []);
  }
}
