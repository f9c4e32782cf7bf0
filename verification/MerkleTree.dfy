/**
 Partial Merkle trees (BIP 37, "Partial Merkle branch format"): the bits and hashes that prove which
 transactions of a block matched, what a depth-first reader makes of them, and the laws between the
 two.  The pair hash is a parameter; where it must be collision free that is said.
 */
module MerkleTree {
  import opened Arith

  type Hash = nat
  type Hasher = (Hash, Hash) -> Hash

  const NULL_HASH: Hash := 0
  const MAX_TRANSACTIONS := 4_000_000 / (4 * 60)

  ghost predicate Injective(h2: Hasher)
  {
    forall a, b, c, d :: h2(a, b) == h2(c, d) ==> a == c && b == d
  }

  // ---- Shape ----

  /** CalcTreeWidth. */
  function Width(n: nat, height: nat): nat
  {
    (n + Pow2(height) - 1) / Pow2(height)
  }

  /** The first leaf under a node. */
  function First(height: nat, pos: nat): nat { pos * Pow2(height) }

  /** One past the last leaf under a node of a tree of n leaves. */
  function Last(n: nat, height: nat, pos: nat): nat
  {
    if First(height, pos + 1) < n then First(height, pos + 1) else n
  }

  lemma DivMeans(a: nat, p: nat, x: nat)
    requires p > 0
    ensures x < (a + p - 1) / p <==> x * p < a
  {
    var q := (a + p - 1) / p;
    assert q * p <= a + p - 1 < q * p + p;
    if x < q {
      assert (x + 1) * p <= q * p;
    } else {
      assert q * p <= x * p;
    }
  }

  /** A node is in the tree exactly when a leaf is under it. */
  lemma WidthMeans(n: nat, height: nat, pos: nat)
    ensures pos < Width(n, height) <==> First(height, pos) < n
  {
    DivMeans(n, Pow2(height), pos);
  }

  lemma ChildLeaves(height: nat, pos: nat)
    requires height > 0
    ensures First(height, pos) == First(height - 1, 2 * pos)
    ensures First(height, pos + 1) == First(height - 1, 2 * pos + 2)
    ensures First(height - 1, 2 * pos) < First(height - 1, 2 * pos + 1) < First(height - 1, 2 * pos + 2)
  {
    var p := Pow2(height - 1);
    assert pos * (2 * p) == (2 * pos) * p;
    assert (2 * pos + 1) * p == (2 * pos) * p + p;
    assert (2 * pos + 2) * p == (2 * pos) * p + 2 * p;
    assert (pos + 1) * (2 * p) == (2 * pos + 2) * p;
  }

  /** The children of a node of the tree: the left one is always there. */
  lemma ChildrenPresent(n: nat, height: nat, pos: nat)
    requires height > 0 && pos < Width(n, height)
    ensures 2 * pos < Width(n, height - 1)
    ensures 2 * pos + 1 < Width(n, height - 1) <==> First(height - 1, 2 * pos + 1) < n
  {
    hide Width, First;
    WidthMeans(n, height, pos);
    ChildLeaves(height, pos);
    WidthMeans(n, height - 1, 2 * pos);
    WidthMeans(n, height - 1, 2 * pos + 1);
  }

  lemma WidthShrinks(n: nat, height: nat)
    requires Width(n, height) > 1
    ensures Width(n, height + 1) < Width(n, height)
  {
    var w := Width(n, height);
    hide Width, First;
    if w <= Width(n, height + 1) {
      WidthMeans(n, height + 1, w - 1);
      ChildLeaves(height + 1, w - 1);
      WidthMeans(n, height, 2 * (w - 1));
    }
  }

  /** The height at which the tree narrows to its root. */
  function HeightFrom(n: nat, height: nat): (r: nat)
    ensures Width(n, r) <= 1 && r >= height
    decreases Width(n, height)
  {
    if Width(n, height) <= 1 then height
    else
      WidthShrinks(n, height);
      HeightFrom(n, height + 1)
  }

  function Height(n: nat): nat { HeightFrom(n, 0) }

  lemma RootPresent(n: nat)
    requires n > 0
    ensures 0 < Width(n, Height(n)) && First(Height(n), 0) == 0 && Last(n, Height(n), 0) == n
  {
    var h := Height(n);
    hide Width, HeightFrom;
    WidthMeans(n, h, 0);
    WidthMeans(n, h, 1);
  }

  // ---- Hashes and matches ----

  /** CalcHash: the hash of a node, an odd one out being paired with itself. */
  function CalcHash(h2: Hasher, txids: seq<Hash>, height: nat, pos: nat): Hash
    requires pos < Width(|txids|, height)
  {
    if height == 0 then
      WidthMeans(|txids|, 0, pos);
      txids[pos]
    else
      ChildrenPresent(|txids|, height, pos);
      var left := CalcHash(h2, txids, height - 1, 2 * pos);
      var right :=
        if 2 * pos + 1 < Width(|txids|, height - 1) then CalcHash(h2, txids, height - 1, 2 * pos + 1) else left;
      h2(left, right)
  }

  function Root(h2: Hasher, txids: seq<Hash>): Hash
    requires txids != []
  {
    RootPresent(|txids|);
    CalcHash(h2, txids, Height(|txids|), 0)
  }

  /** The positions from lo up to hi whose transactions matched. */
  function Matched(matches: seq<bool>, lo: nat, hi: nat): (r: seq<nat>)
    requires hi <= |matches|
  {
    if hi <= lo then []
    else Matched(matches, lo, hi - 1) + (if matches[hi - 1] then [hi - 1] else [])
  }

  /** They are exactly those positions, in order. */
  lemma {:induction false} MatchedMeans(matches: seq<bool>, lo: nat, hi: nat)
    requires hi <= |matches|
    ensures forall k | 0 <= k < |Matched(matches, lo, hi)| ::
      lo <= Matched(matches, lo, hi)[k] < hi && matches[Matched(matches, lo, hi)[k]]
    ensures forall k | 0 < k < |Matched(matches, lo, hi)| ::
      Matched(matches, lo, hi)[k - 1] < Matched(matches, lo, hi)[k]
    ensures forall p | lo <= p < hi && matches[p] :: p in Matched(matches, lo, hi)
  {
    if lo < hi {
      MatchedMeans(matches, lo, hi - 1);
    }
  }

  lemma {:induction false} MatchedSplit(matches: seq<bool>, lo: nat, mid: nat, hi: nat)
    requires lo <= mid <= hi <= |matches|
    ensures Matched(matches, lo, hi) == Matched(matches, lo, mid) + Matched(matches, mid, hi)
  {
    if mid < hi {
      MatchedSplit(matches, lo, mid, hi - 1);
    }
  }

  lemma {:induction false} MatchedNone(matches: seq<bool>, lo: nat, hi: nat)
    requires hi <= |matches| && !AnyMatch(matches, lo, hi)
    ensures Matched(matches, lo, hi) == []
  {
    if lo < hi {
      MatchedNone(matches, lo, hi - 1);
    }
  }

  predicate AnyMatch(matches: seq<bool>, lo: nat, hi: nat)
    requires hi <= |matches|
  {
    exists p :: lo <= p < hi && matches[p]
  }

  /** The ids at some positions. */
  function At(txids: seq<Hash>, positions: seq<nat>): (r: seq<Hash>)
    ensures |r| == |positions|
  {
    seq(|positions|, k requires 0 <= k < |positions| =>
      if positions[k] < |txids| then txids[positions[k]] else NULL_HASH)
  }

  lemma AtSplit(txids: seq<Hash>, p: seq<nat>, q: seq<nat>)
    ensures At(txids, p + q) == At(txids, p) + At(txids, q)
  {
  }

  // ---- Building ----

  datatype Proof = Proof(bits: seq<bool>, hashes: seq<Hash>)

  function Join(p: Proof, q: Proof): Proof { Proof(p.bits + q.bits, p.hashes + q.hashes) }

  /** TraverseAndBuild below one node: a bit for every node visited, a hash where it stops. */
  function Built(h2: Hasher, txids: seq<Hash>, matches: seq<bool>, height: nat, pos: nat): Proof
    requires |matches| == |txids| && pos < Width(|txids|, height)
  {
    var n := |txids|;
    var parent := AnyMatch(matches, First(height, pos), Last(n, height, pos));
    if height == 0 || !parent then Proof([parent], [CalcHash(h2, txids, height, pos)])
    else
      ChildrenPresent(n, height, pos);
      var left := Join(Proof([true], []), Built(h2, txids, matches, height - 1, 2 * pos));
      if 2 * pos + 1 < Width(n, height - 1) then Join(left, Built(h2, txids, matches, height - 1, 2 * pos + 1))
      else left
  }

  /** A proof never holds more hashes than leaves, nor more hashes than bits. */
  lemma {:induction false} BuiltSize(h2: Hasher, txids: seq<Hash>, matches: seq<bool>, height: nat, pos: nat)
    requires |matches| == |txids| && pos < Width(|txids|, height)
    ensures var b := Built(h2, txids, matches, height, pos);
      && |b.hashes| <= Last(|txids|, height, pos) - First(height, pos) && |b.hashes| <= |b.bits|
  {
    hide Width, First, AnyMatch, Built, CalcHash, Pow2;
    var n := |txids|;
    WidthMeans(n, height, pos);
    ParentSpans(n, height, pos);
    BuiltLengths(h2, txids, matches, height, pos);
    if height > 0 {
      ChildrenPresent(n, height, pos);
      ChildLeaves(height, pos);
      BuiltSize(h2, txids, matches, height - 1, 2 * pos);
      if 2 * pos + 1 < Width(n, height - 1) {
        BuiltSize(h2, txids, matches, height - 1, 2 * pos + 1);
      }
    }
  }

  lemma BuiltLengths(h2: Hasher, txids: seq<Hash>, matches: seq<bool>, height: nat, pos: nat)
    requires |matches| == |txids| && pos < Width(|txids|, height)
    ensures var b := Built(h2, txids, matches, height, pos);
      || (|b.bits| == 1 && |b.hashes| == 1)
      || (height > 0 && 2 * pos < Width(|txids|, height - 1)
          && var l := Built(h2, txids, matches, height - 1, 2 * pos);
             if 2 * pos + 1 < Width(|txids|, height - 1) then
               var r := Built(h2, txids, matches, height - 1, 2 * pos + 1);
               |b.bits| == 1 + |l.bits| + |r.bits| && |b.hashes| == |l.hashes| + |r.hashes|
             else |b.bits| == 1 + |l.bits| && |b.hashes| == |l.hashes|)
  {
    hide Width, First, AnyMatch, CalcHash, Last;
    if height > 0 {
      ChildrenPresent(|txids|, height, pos);
    }
  }

  lemma ParentSpans(n: nat, height: nat, pos: nat)
    ensures First(height, pos) < First(height, pos + 1)
  {
    assert (pos + 1) * Pow2(height) == pos * Pow2(height) + Pow2(height);
  }

  // ---- Extracting ----

  /** What reading below one node yields: its hash, how many bits and hashes are used up by then,
      the matches found, and whether anything was wrong. */
  datatype Found = Found(hash: Hash, bits: nat, hashes: nat, ids: seq<Hash>, positions: seq<nat>, bad: bool)

  /** The reader goes no deeper: it is out of bits, at a leaf, or below it nothing matched. */
  predicate Stops(p: Proof, height: nat, bits: nat)
  {
    bits >= |p.bits| || height == 0 || !p.bits[bits]
  }

  function Stop(p: Proof, height: nat, pos: nat, bits: nat, hashes: nat): Found
    requires Stops(p, height, bits)
  {
    if bits >= |p.bits| then Found(NULL_HASH, bits, hashes, [], [], true)
    else if hashes >= |p.hashes| then Found(NULL_HASH, bits + 1, hashes, [], [], true)
    else if height == 0 && p.bits[bits] then
      Found(p.hashes[hashes], bits + 1, hashes + 1, [p.hashes[hashes]], [pos], false)
    else Found(p.hashes[hashes], bits + 1, hashes + 1, [], [], false)
  }

  /** TraverseAndExtract below one node, from the given cursors. */
  function Extract(h2: Hasher, n: nat, p: Proof, height: nat, pos: nat, bits: nat, hashes: nat): Found
  {
    if Stops(p, height, bits) then Stop(p, height, pos, bits, hashes)
    else
      var left := Extract(h2, n, p, height - 1, 2 * pos, bits + 1, hashes);
      if 2 * pos + 1 < Width(n, height - 1) then
        var right := Extract(h2, n, p, height - 1, 2 * pos + 1, left.bits, left.hashes);
        Paired(h2, left, right)
      else left.(hash := h2(left.hash, left.hash))
  }

  function Paired(h2: Hasher, left: Found, right: Found): Found
  {
    Found(h2(left.hash, right.hash), right.bits, right.hashes, left.ids + right.ids, left.positions + right.positions,
          left.bad || right.bad || right.hash == left.hash)
  }

  lemma ExtractStop(h2: Hasher, n: nat, p: Proof, height: nat, pos: nat, bits: nat, hashes: nat)
    requires Stops(p, height, bits)
    ensures Extract(h2, n, p, height, pos, bits, hashes) == Stop(p, height, pos, bits, hashes)
  {
  }

  lemma ExtractInner(h2: Hasher, n: nat, p: Proof, height: nat, pos: nat, bits: nat, hashes: nat)
    requires height > 0 && bits < |p.bits| && p.bits[bits]
    ensures var left := Extract(h2, n, p, height - 1, 2 * pos, bits + 1, hashes);
      Extract(h2, n, p, height, pos, bits, hashes) ==
        if 2 * pos + 1 < Width(n, height - 1) then
          Paired(h2, left, Extract(h2, n, p, height - 1, 2 * pos + 1, left.bits, left.hashes))
        else left.(hash := h2(left.hash, left.hash))
  {
  }

  predicate Distinct(txids: seq<Hash>)
  {
    forall i, j | 0 <= i < j < |txids| :: txids[i] != txids[j]
  }

  /** With distinct transactions no two nodes of a level share a hash. */
  lemma {:induction false} NodesDiffer(h2: Hasher, txids: seq<Hash>, height: nat, p: nat, q: nat)
    requires Injective(h2) && Distinct(txids)
    requires p < Width(|txids|, height) && q < Width(|txids|, height) && p != q
    ensures CalcHash(h2, txids, height, p) != CalcHash(h2, txids, height, q)
  {
    hide Width;
    if height == 0 {
      WidthMeans(|txids|, 0, p);
      WidthMeans(|txids|, 0, q);
    } else {
      ChildrenPresent(|txids|, height, p);
      ChildrenPresent(|txids|, height, q);
      NodesDiffer(h2, txids, height - 1, 2 * p, 2 * q);
    }
  }

  /** A proof p carries the proof b from these cursors on. */
  predicate Carries(p: Proof, bits: nat, hashes: nat, b: Proof)
  {
    && bits + |b.bits| <= |p.bits| && p.bits[bits..bits + |b.bits|] == b.bits
    && hashes + |b.hashes| <= |p.hashes| && p.hashes[hashes..hashes + |b.hashes|] == b.hashes
  }

  lemma CarriesJoin(p: Proof, bits: nat, hashes: nat, b: Proof, c: Proof)
    requires Carries(p, bits, hashes, Join(b, c))
    ensures Carries(p, bits, hashes, b) && Carries(p, bits + |b.bits|, hashes + |b.hashes|, c)
  {
    var x, y := p.bits[bits..bits + |b.bits| + |c.bits|], p.hashes[hashes..hashes + |b.hashes| + |c.hashes|];
    assert x == b.bits + c.bits && y == b.hashes + c.hashes;
    assert x[..|b.bits|] == p.bits[bits..bits + |b.bits|];
    assert x[|b.bits|..] == p.bits[bits + |b.bits|..bits + |b.bits| + |c.bits|];
    assert y[..|b.hashes|] == p.hashes[hashes..hashes + |b.hashes|];
    assert y[|b.hashes|..] == p.hashes[hashes + |b.hashes|..hashes + |b.hashes| + |c.hashes|];
  }

  /** What an honest node yields. */
  function Honest(h2: Hasher, txids: seq<Hash>, matches: seq<bool>, height: nat, pos: nat, bits: nat,
    hashes: nat): Found
    requires |matches| == |txids| && pos < Width(|txids|, height)
  {
    var b := Built(h2, txids, matches, height, pos);
    var m := Matched(matches, First(height, pos), Last(|txids|, height, pos));
    Found(CalcHash(h2, txids, height, pos), bits + |b.bits|, hashes + |b.hashes|, At(txids, m), m, false)
  }

  lemma LeafMatches(txids: seq<Hash>, matches: seq<bool>, pos: nat)
    requires |matches| == |txids| && pos < |txids|
    ensures First(0, pos) == pos && Last(|txids|, 0, pos) == pos + 1
    ensures AnyMatch(matches, pos, pos + 1) == matches[pos]
    ensures Matched(matches, pos, pos + 1) == if matches[pos] then [pos] else []
    ensures At(txids, Matched(matches, pos, pos + 1)) == if matches[pos] then [txids[pos]] else []
  {
    assert Matched(matches, pos, pos) == [];
  }

  /** The matches below a node are those below its children. */
  lemma ChildMatches(txids: seq<Hash>, matches: seq<bool>, height: nat, pos: nat)
    requires |matches| == |txids| && height > 0 && pos < Width(|txids|, height)
    ensures var n := |txids|;
      var m := Matched(matches, First(height, pos), Last(n, height, pos));
      var l := Matched(matches, First(height - 1, 2 * pos), Last(n, height - 1, 2 * pos));
      var r := Matched(matches, First(height - 1, 2 * pos + 1), Last(n, height - 1, 2 * pos + 1));
      if 2 * pos + 1 < Width(n, height - 1) then m == l + r && At(txids, m) == At(txids, l) + At(txids, r) else m == l
  {
    var n := |txids|;
    hide Width, Matched, First, At;
    ChildrenPresent(n, height, pos);
    ChildLeaves(height, pos);
    WidthMeans(n, height, pos);
    var lo, mid, hi := First(height, pos), First(height - 1, 2 * pos + 1), Last(n, height, pos);
    if mid < n {
      MatchedSplit(matches, lo, mid, hi);
      AtSplit(txids, Matched(matches, lo, mid), Matched(matches, mid, hi));
    }
  }

  /** Reading back what was built below a node finds its hash and exactly its matches, and uses up
      exactly what was written. */
  lemma {:induction false} BuiltExtracts(
    h2: Hasher, txids: seq<Hash>, matches: seq<bool>, p: Proof, height: nat, pos: nat, bits: nat, hashes: nat)
    requires Injective(h2) && Distinct(txids) && |matches| == |txids| && pos < Width(|txids|, height)
    requires Carries(p, bits, hashes, Built(h2, txids, matches, height, pos))
    ensures Extract(h2, |txids|, p, height, pos, bits, hashes) == Honest(h2, txids, matches, height, pos, bits, hashes)
    decreases height, 1
  {
    var n := |txids|;
    var lo, hi := First(height, pos), Last(n, height, pos);
    hide Width, Injective, AnyMatch, Distinct, At, Matched, First;
    WidthMeans(n, height, pos);
    if height == 0 || !AnyMatch(matches, lo, hi) {
      assert p.bits[bits] == p.bits[bits..bits + 1][0] && p.hashes[hashes] == p.hashes[hashes..hashes + 1][0];
      if height == 0 {
        LeafMatches(txids, matches, pos);
      } else {
        MatchedNone(matches, lo, hi);
      }
    } else {
      InnerExtracts(h2, txids, matches, p, height, pos, bits, hashes);
    }
  }

  lemma {:induction false} InnerExtracts(
    h2: Hasher, txids: seq<Hash>, matches: seq<bool>, p: Proof, height: nat, pos: nat, bits: nat, hashes: nat)
    requires Injective(h2) && Distinct(txids) && |matches| == |txids| && height > 0 && pos < Width(|txids|, height)
    requires AnyMatch(matches, First(height, pos), Last(|txids|, height, pos))
    requires Carries(p, bits, hashes, Built(h2, txids, matches, height, pos))
    ensures Extract(h2, |txids|, p, height, pos, bits, hashes) == Honest(h2, txids, matches, height, pos, bits, hashes)
    decreases height, 0
  {
    var n := |txids|;
    hide Width, Injective, AnyMatch, Distinct, At, Matched, First, Last, Carries, Extract, Honest, CalcHash, Paired,
      Built;
    ChildrenPresent(n, height, pos);
    HonestInner(h2, txids, matches, height, pos, bits, hashes);
    BuiltInner(h2, txids, matches, height, pos);
    var one, bl := Proof([true], []), Built(h2, txids, matches, height - 1, 2 * pos);
    if 2 * pos + 1 < Width(n, height - 1) {
      var br := Built(h2, txids, matches, height - 1, 2 * pos + 1);
      CarriesJoin(p, bits, hashes, Join(one, bl), br);
      HonestCursors(h2, txids, matches, height - 1, 2 * pos, bits + 1, hashes);
      BuiltExtracts(h2, txids, matches, p, height - 1, 2 * pos + 1, bits + 1 + |bl.bits|, hashes + |bl.hashes|);
    }
    CarriesJoin(p, bits, hashes, one, bl);
    CarriesOne(p, bits, hashes);
    BuiltExtracts(h2, txids, matches, p, height - 1, 2 * pos, bits + 1, hashes);
    ExtractInner(h2, n, p, height, pos, bits, hashes);
  }

  lemma BuiltInner(h2: Hasher, txids: seq<Hash>, matches: seq<bool>, height: nat, pos: nat)
    requires |matches| == |txids| && height > 0 && pos < Width(|txids|, height)
    requires AnyMatch(matches, First(height, pos), Last(|txids|, height, pos))
    ensures 2 * pos < Width(|txids|, height - 1)
    ensures var left := Join(Proof([true], []), Built(h2, txids, matches, height - 1, 2 * pos));
      Built(h2, txids, matches, height, pos) ==
        if 2 * pos + 1 < Width(|txids|, height - 1) then Join(left, Built(h2, txids, matches, height - 1, 2 * pos + 1))
        else left
  {
    ChildrenPresent(|txids|, height, pos);
  }

  lemma HonestCursors(h2: Hasher, txids: seq<Hash>, matches: seq<bool>, height: nat, pos: nat, bits: nat, hashes: nat)
    requires |matches| == |txids| && pos < Width(|txids|, height)
    ensures var b := Built(h2, txids, matches, height, pos);
      var e := Honest(h2, txids, matches, height, pos, bits, hashes);
      e.bits == bits + |b.bits| && e.hashes == hashes + |b.hashes|
  {
  }

  /** An honest node is made of honest children. */
  lemma HonestInner(h2: Hasher, txids: seq<Hash>, matches: seq<bool>, height: nat, pos: nat, bits: nat, hashes: nat)
    requires Injective(h2) && Distinct(txids) && |matches| == |txids| && height > 0 && pos < Width(|txids|, height)
    requires AnyMatch(matches, First(height, pos), Last(|txids|, height, pos))
    ensures 2 * pos < Width(|txids|, height - 1)
    ensures var left := Honest(h2, txids, matches, height - 1, 2 * pos, bits + 1, hashes);
      Honest(h2, txids, matches, height, pos, bits, hashes) ==
        if 2 * pos + 1 < Width(|txids|, height - 1) then
          Paired(h2, left, Honest(h2, txids, matches, height - 1, 2 * pos + 1, left.bits, left.hashes))
        else left.(hash := h2(left.hash, left.hash))
  {
    var n := |txids|;
    hide Width, Injective, AnyMatch, Distinct, At, Matched, First, Last;
    ChildrenPresent(n, height, pos);
    ChildMatches(txids, matches, height, pos);
    if 2 * pos + 1 < Width(n, height - 1) {
      NodesDiffer(h2, txids, height - 1, 2 * pos, 2 * pos + 1);
    }
  }

  lemma CarriesOne(p: Proof, bits: nat, hashes: nat)
    requires Carries(p, bits, hashes, Proof([true], []))
    ensures bits < |p.bits| && p.bits[bits]
  {
    assert p.bits[bits] == p.bits[bits..bits + 1][0];
  }

  /** A reported match is a transaction of the list, at its position. */
  predicate TrueMatches(txids: seq<Hash>, ids: seq<Hash>, positions: seq<nat>)
  {
    |ids| == |positions| && forall k | 0 <= k < |ids| :: positions[k] < |txids| && ids[k] == txids[positions[k]]
  }

  predicate Ascending(positions: seq<nat>, lo: nat, hi: nat)
  {
    && (forall k | 0 <= k < |positions| :: lo <= positions[k] < hi)
    && (forall k | 0 < k < |positions| :: positions[k - 1] < positions[k])
  }

  /** Whatever proof is read: a node that comes out with the hash it has in the list reports only
      true matches, in ascending order. */
  lemma {:induction false} ExtractSound(
    h2: Hasher, txids: seq<Hash>, p: Proof, height: nat, pos: nat, bits: nat, hashes: nat)
    requires Injective(h2) && pos < Width(|txids|, height)
    requires !Extract(h2, |txids|, p, height, pos, bits, hashes).bad
    requires Extract(h2, |txids|, p, height, pos, bits, hashes).hash == CalcHash(h2, txids, height, pos)
    ensures var e := Extract(h2, |txids|, p, height, pos, bits, hashes);
      TrueMatches(txids, e.ids, e.positions) && Ascending(e.positions, First(height, pos), First(height, pos + 1))
    decreases height, 1
  {
    var n := |txids|;
    hide Width, First, TrueMatches, Ascending;
    if height == 0 {
      WidthMeans(n, 0, pos);
      ZeroHeight(pos);
      LeafSound(h2, txids, p, pos, bits, hashes);
    } else if p.bits[bits] {
      InnerSound(h2, txids, p, height, pos, bits, hashes);
    } else {
      NoMatchesTrue(txids, First(height, pos), First(height, pos + 1));
    }
  }

  lemma ZeroHeight(pos: nat)
    ensures First(0, pos) == pos && First(0, pos + 1) == pos + 1
  {
  }

  lemma NoMatchesTrue(txids: seq<Hash>, lo: nat, hi: nat)
    ensures TrueMatches(txids, [], []) && Ascending([], lo, hi)
  {
  }

  lemma LeafSound(h2: Hasher, txids: seq<Hash>, p: Proof, pos: nat, bits: nat, hashes: nat)
    requires pos < |txids| && !Extract(h2, |txids|, p, 0, pos, bits, hashes).bad
    requires Extract(h2, |txids|, p, 0, pos, bits, hashes).hash == txids[pos]
    ensures var e := Extract(h2, |txids|, p, 0, pos, bits, hashes);
      TrueMatches(txids, e.ids, e.positions) && Ascending(e.positions, First(0, pos), First(0, pos + 1))
  {
  }

  lemma {:induction false} InnerSound(h2: Hasher, txids: seq<Hash>, p: Proof, height: nat, pos: nat, bits: nat,
    hashes: nat)
    requires Injective(h2) && height > 0 && pos < Width(|txids|, height) && bits < |p.bits| && p.bits[bits]
    requires !Extract(h2, |txids|, p, height, pos, bits, hashes).bad
    requires Extract(h2, |txids|, p, height, pos, bits, hashes).hash == CalcHash(h2, txids, height, pos)
    ensures var e := Extract(h2, |txids|, p, height, pos, bits, hashes);
      TrueMatches(txids, e.ids, e.positions) && Ascending(e.positions, First(height, pos), First(height, pos + 1))
    decreases height, 0
  {
    var n := |txids|;
    hide Width, First, Extract, TrueMatches, Ascending;
    ExtractInner(h2, n, p, height, pos, bits, hashes);
    ChildrenPresent(n, height, pos);
    ChildLeaves(height, pos);
    var left := Extract(h2, n, p, height - 1, 2 * pos, bits + 1, hashes);
    var mid := First(height - 1, 2 * pos + 1);
    ExtractSound(h2, txids, p, height - 1, 2 * pos, bits + 1, hashes);
    if 2 * pos + 1 < Width(n, height - 1) {
      var right := Extract(h2, n, p, height - 1, 2 * pos + 1, left.bits, left.hashes);
      ExtractSound(h2, txids, p, height - 1, 2 * pos + 1, left.bits, left.hashes);
      MatchesJoin(txids, left, right, First(height, pos), mid, First(height, pos + 1));
    } else {
      MatchesWiden(left.positions, First(height, pos), mid, First(height, pos + 1));
    }
  }

  lemma MatchesJoin(txids: seq<Hash>, l: Found, r: Found, lo: nat, mid: nat, hi: nat)
    requires TrueMatches(txids, l.ids, l.positions) && TrueMatches(txids, r.ids, r.positions)
    requires Ascending(l.positions, lo, mid) && Ascending(r.positions, mid, hi) && lo <= mid <= hi
    ensures TrueMatches(txids, l.ids + r.ids, l.positions + r.positions) && Ascending(l.positions + r.positions, lo, hi)
  {
  }

  lemma MatchesWiden(positions: seq<nat>, lo: nat, mid: nat, hi: nat)
    requires Ascending(positions, lo, mid) && mid <= hi
    ensures Ascending(positions, lo, hi)
  {
  }
}
