/**
 Compact block relay (BIP 152): the compact form of a block, what it means for it to describe a
 block, the request for missing transactions with its differential index coding, and the laws that
 make the relay lossless.
 */
module CompactBlock {
  import opened Wrappers

  type Hash = nat

  /** A transaction with its two hashes; `isNull` marks the empty transaction. */
  datatype Tx = Tx(txid: Hash, wtxid: Hash, isNull: bool, body: nat)

  /** CBlockHeader: null until set. */
  datatype Header = NullHeader | Header(hash: Hash)

  /** A transaction sent in full, its index coded as the gap after the one before. */
  datatype Prefilled = Prefilled(index: nat, tx: Tx)

  datatype Compact = Compact(header: Header, shortTxIds: seq<nat>, prefilled: seq<Prefilled>)
  {
    function TxCount(): nat { |shortTxIds| + |prefilled| }
  }

  /** A transaction on hand, from the memory pool or the extra pool, under the hash it is listed by. */
  datatype Entry = Entry(hash: Hash, tx: Tx)

  const MAX_INDEX := 65535
  const MAX_WIRE := 0x1_0000_0000_0000_0000
  const MAX_TX_COUNT := 4_000_000 / (4 * 10)

  function HashOf(useWtxid: bool, tx: Tx): Hash
  {
    if useWtxid then tx.wtxid else tx.txid
  }

  // ---- Absolute positions of prefilled transactions ----

  function Position(c: Compact, j: nat): nat
    requires j < |c.prefilled|
  {
    (if j == 0 then 0 else Position(c, j - 1) + 1) + c.prefilled[j].index
  }

  predicate PrefilledOk(c: Compact, j: nat)
    requires j < |c.prefilled|
  {
    !c.prefilled[j].tx.isNull && Position(c, j) <= MAX_INDEX && Position(c, j) <= |c.shortTxIds| + j
  }

  predicate WellFormed(c: Compact)
  {
    && !c.header.NullHeader? && (c.shortTxIds != [] || c.prefilled != []) && c.TxCount() <= MAX_TX_COUNT
    && forall j: nat | j < |c.prefilled| :: PrefilledOk(c, j)
  }

  lemma {:induction false} PositionsAscend(c: Compact, i: nat, j: nat)
    requires i < j < |c.prefilled|
    ensures Position(c, i) < Position(c, j)
  {
    if i < j - 1 {
      PositionsAscend(c, i, j - 1);
    }
  }

  /** The block with its first k prefilled transactions in place. */
  function Placed(c: Compact, k: nat): (r: seq<Option<Tx>>)
    requires k <= |c.prefilled| && forall j: nat | j < k :: PrefilledOk(c, j)
    ensures |r| == c.TxCount()
  {
    if k == 0 then seq(c.TxCount(), _ => None)
    else
      assert PrefilledOk(c, k - 1);
      Placed(c, k - 1)[Position(c, k - 1) := Some(c.prefilled[k - 1].tx)]
  }

  lemma {:induction false} PlacedAt(c: Compact, k: nat, p: nat)
    requires k <= |c.prefilled| && p < c.TxCount() && forall j: nat | j < k :: PrefilledOk(c, j)
    ensures (exists j: nat :: j < k && Position(c, j) == p && Placed(c, k)[p] == Some(c.prefilled[j].tx))
            || (Placed(c, k)[p] == None && forall j: nat | j < k :: Position(c, j) != p)
  {
    if k > 0 {
      PlacedAt(c, k - 1, p);
      if Position(c, k - 1) == p {
        assert Placed(c, k)[p] == Some(c.prefilled[k - 1].tx);
      } else if Placed(c, k - 1)[p] != None {
        var j: nat :| j < k - 1 && Position(c, j) == p && Placed(c, k - 1)[p] == Some(c.prefilled[j].tx);
        assert Placed(c, k)[p] == Some(c.prefilled[j].tx);
      }
    }
  }

  // ---- Counting holes ----

  function Holes(a: seq<Option<Tx>>): (n: nat)
    ensures n <= |a|
  {
    if a == [] then 0 else Holes(a[..|a| - 1]) + (if a[|a| - 1].None? then 1 else 0)
  }

  lemma {:induction false} HolesUpdate(a: seq<Option<Tx>>, p: nat, v: Option<Tx>)
    requires p < |a|
    ensures Holes(a[p := v]) + (if a[p].None? then 1 else 0) == Holes(a) + (if v.None? then 1 else 0)
  {
    var n := |a| - 1;
    if p == n {
      assert a[p := v][..n] == a[..n];
    } else {
      assert a[p := v][..n] == a[..n][p := v];
      HolesUpdate(a[..n], p, v);
    }
  }

  lemma {:induction false} HolesExtend(a: seq<Option<Tx>>, p: nat, q: nat)
    requires p <= q <= |a|
    ensures Holes(a[..p]) <= Holes(a[..q]) <= Holes(a[..p]) + (q - p)
  {
    if p < q {
      HolesExtend(a, p, q - 1);
      assert a[..q][..q - 1] == a[..q - 1];
    }
  }

  lemma {:induction false} HolesSubset(a: seq<Option<Tx>>, b: seq<Option<Tx>>)
    requires |a| == |b| && forall p | 0 <= p < |a| :: a[p].None? ==> b[p].None?
    ensures Holes(a) <= Holes(b)
  {
    if a != [] {
      HolesSubset(a[..|a| - 1], b[..|a| - 1]);
    }
  }

  lemma HolesNext(a: seq<Option<Tx>>, p: nat)
    requires p < |a|
    ensures Holes(a[..p + 1]) == Holes(a[..p]) + (if a[p].None? then 1 else 0)
  {
    assert a[..p + 1][..p] == a[..p];
  }

  lemma HoleCounts(a: seq<Option<Tx>>, p: nat)
    requires p < |a| && a[p].None?
    ensures Holes(a[..p]) < Holes(a)
  {
    HolesNext(a, p);
    HolesExtend(a, p + 1, |a|);
    assert a[..|a|] == a;
  }

  lemma {:induction false} AllHoles(n: nat)
    ensures Holes(seq(n, _ => None)) == n
  {
    if n > 0 {
      var s: seq<Option<Tx>> := seq(n, _ => None);
      assert s[..n - 1] == seq(n - 1, _ => None);
      AllHoles(n - 1);
    }
  }

  /** Prefilling leaves exactly one hole for each short id. */
  lemma {:induction false} PlacedHoles(c: Compact, k: nat)
    requires k <= |c.prefilled| && forall j: nat | j < k :: PrefilledOk(c, j)
    ensures Holes(Placed(c, k)) == c.TxCount() - k
  {
    hide Holes, Position;
    if k == 0 {
      AllHoles(c.TxCount());
    } else {
      PlacedHoles(c, k - 1);
      assert PrefilledOk(c, k - 1);
      PlacedAt(c, k - 1, Position(c, k - 1));
      forall j: nat | j < k - 1 ensures Position(c, j) != Position(c, k - 1) {
        PositionsAscend(c, j, k - 1);
      }
      HolesUpdate(Placed(c, k - 1), Position(c, k - 1), Some(c.prefilled[k - 1].tx));
    }
  }

  /** p is the hole that the i-th short id fills. */
  predicate IsSlot(a: seq<Option<Tx>>, i: nat, p: nat)
  {
    p < |a| && a[p].None? && Holes(a[..p]) == i
  }

  lemma SlotsAscend(a: seq<Option<Tx>>, i: nat, p: nat, j: nat, q: nat)
    requires IsSlot(a, i, p) && IsSlot(a, j, q) && i < j
    ensures p < q
  {
    if q <= p {
      HolesExtend(a, q, p);
    }
  }

  // ---- What a compact block describes ----

  ghost predicate DescribesSlot(c: Compact, vtx: seq<Tx>, id: Hash -> nat, useWtxid: bool, i: nat, p: nat)
    requires |vtx| == c.TxCount() && i < |c.shortTxIds| && p < |vtx|
  {
    c.shortTxIds[i] == id(HashOf(useWtxid, vtx[p]))
  }

  /** The compact block lists the block's transactions: each prefilled one at its position, and for
      the rest their short ids in order. */
  ghost predicate Describes(c: Compact, vtx: seq<Tx>, id: Hash -> nat, useWtxid: bool)
  {
    && WellFormed(c) && |vtx| == c.TxCount()
    && (forall j: nat | j < |c.prefilled| :: PrefilledOk(c, j) && c.prefilled[j].tx == vtx[Position(c, j)])
    && (forall i: nat, p: nat | i < |c.shortTxIds| && p < |vtx| && IsSlot(Placed(c, |c.prefilled|), i, p) ::
          DescribesSlot(c, vtx, id, useWtxid, i, p))
  }

  /** CBlockHeaderAndShortTxIDs(block, useWtxid): the first transaction in full, the rest by id. */
  function CompactOf(header: Header, vtx: seq<Tx>, id: Hash -> nat, useWtxid: bool): Compact
    requires vtx != []
  {
    Compact(header, seq<nat>(|vtx| - 1, i requires 0 <= i < |vtx| - 1 => id(HashOf(useWtxid, vtx[i + 1]))),
      [Prefilled(0, vtx[0])])
  }

  lemma CompactDescribes(header: Header, vtx: seq<Tx>, id: Hash -> nat, useWtxid: bool)
    requires vtx != [] && !header.NullHeader? && |vtx| <= MAX_TX_COUNT && !vtx[0].isNull
    ensures Describes(CompactOf(header, vtx, id, useWtxid), vtx, id, useWtxid)
  {
    var c := CompactOf(header, vtx, id, useWtxid);
    assert PrefilledOk(c, 0);
    var a := Placed(c, 1);
    assert a == Placed(c, 0)[0 := Some(vtx[0])];
    forall i: nat, p: nat | i < |c.shortTxIds| && p < |vtx| && IsSlot(a, i, p)
      ensures DescribesSlot(c, vtx, id, useWtxid, i, p)
    {
      assert a[..1][..0] == [];
      HolesTail(a, p);
    }
  }

  lemma {:induction false} HolesTail(a: seq<Option<Tx>>, p: nat)
    requires 0 < p <= |a| && !a[0].None? && forall q | 1 <= q < |a| :: a[q].None?
    ensures Holes(a[..p]) == p - 1
  {
    if p > 1 {
      HolesTail(a, p - 1);
      HolesNext(a, p - 1);
    } else {
      assert a[..1][..0] == [];
    }
  }

  // ---- Differential index coding (BlockTransactionsRequest) ----

  /** The gap written for index x after index `prev`, as the unsigned 64-bit number on the wire. */
  function Gap(first: bool, prev: nat, x: nat): nat
  {
    (if first then x else x - (prev + 1)) % MAX_WIRE
  }

  function Gaps(indexes: seq<nat>): (r: seq<nat>)
    ensures |r| == |indexes|
  {
    if indexes == [] then []
    else
      var n := |indexes| - 1;
      Gaps(indexes[..n]) + [Gap(n == 0, if n == 0 then 0 else indexes[n - 1], indexes[n])]
  }

  /** Reading back with a running 16-bit offset: None where the reader throws. */
  function Absolute(gaps: seq<nat>, offset: nat): Option<seq<nat>>
  {
    if gaps == [] then Some([])
    else if gaps[0] > MAX_INDEX || gaps[0] + offset > MAX_INDEX then None
    else
      var x := gaps[0] + offset;
      match Absolute(gaps[1..], (x + 1) % (MAX_INDEX + 1))
      case None => None
      case Some(rest) => Some([x] + rest)
  }

  predicate AscendingFrom(indexes: seq<nat>, k: nat)
  {
    forall i | k <= i < |indexes| && 0 < i :: indexes[i - 1] < indexes[i]
  }

  predicate Ascending(indexes: seq<nat>) { AscendingFrom(indexes, 0) }

  predicate Fits(indexes: seq<nat>)
  {
    forall i | 0 <= i < |indexes| :: indexes[i] <= MAX_INDEX
  }

  /** What the reader makes of the gaps of indexes[k..]. */
  lemma {:induction false} AbsoluteFrom(indexes: seq<nat>, k: nat, offset: nat)
    requires k <= |indexes| && Fits(indexes)
    requires offset == if k == 0 then 0 else (indexes[k - 1] + 1) % (MAX_INDEX + 1)
    ensures |Gaps(indexes)| == |indexes|
    ensures Absolute(Gaps(indexes)[k..], offset) == if AscendingFrom(indexes, k) then Some(indexes[k..]) else None
    decreases |indexes| - k
  {
    hide Gaps, Gap;
    var gaps := Gaps(indexes);
    if k < |indexes| {
      GapAt(indexes, k);
      GapMeans(k == 0, if k == 0 then 0 else indexes[k - 1], indexes[k]);
      assert gaps[k..][0] == gaps[k] && gaps[k..][1..] == gaps[k + 1..];
      if k == 0 || indexes[k - 1] < indexes[k] {
        assert indexes[k..] == [indexes[k]] + indexes[k + 1..];
        AbsoluteFrom(indexes, k + 1, (indexes[k] + 1) % (MAX_INDEX + 1));
        assert AscendingFrom(indexes, k) == AscendingFrom(indexes, k + 1);
      }
    } else {
      assert gaps[k..] == [] && indexes[k..] == [];
    }
  }

  lemma GapMeans(first: bool, prev: nat, x: nat)
    requires prev <= MAX_INDEX && x <= MAX_INDEX
    ensures first || prev < x ==> Gap(first, prev, x) + (if first then 0 else (prev + 1) % (MAX_INDEX + 1)) == x
    ensures !first && x <= prev ==> Gap(first, prev, x) > MAX_INDEX
  {
  }

  lemma {:induction false} GapAt(indexes: seq<nat>, k: nat)
    requires k < |indexes|
    ensures Gaps(indexes)[k] == Gap(k == 0, if k == 0 then 0 else indexes[k - 1], indexes[k])
  {
    if k < |indexes| - 1 {
      GapAt(indexes[..|indexes| - 1], k);
    }
  }

  /** The reader recovers a request exactly when its 16-bit indexes ascend; otherwise it throws. */
  lemma IndexCoding(indexes: seq<nat>)
    requires Fits(indexes)
    ensures Absolute(Gaps(indexes), 0) == (if Ascending(indexes) then Some(indexes) else None)
  {
    AbsoluteFrom(indexes, 0, 0);
    assert Gaps(indexes)[0..] == Gaps(indexes) && indexes[0..] == indexes;
  }

  // ---- Requesting, answering and filling in ----

  /** The positions still missing. */
  function Missing(a: seq<Option<Tx>>): (r: seq<nat>)
    ensures |r| == Holes(a)
  {
    if a == [] then []
    else
      var n := |a| - 1;
      Missing(a[..n]) + (if a[n].None? then [n] else [])
  }

  lemma {:induction false} MissingAscends(a: seq<Option<Tx>>)
    ensures Ascending(Missing(a)) && forall i | 0 <= i < |Missing(a)| :: Missing(a)[i] < |a| && a[Missing(a)[i]].None?
  {
    if a != [] {
      MissingAscends(a[..|a| - 1]);
    }
  }

  lemma {:induction false} MissingAt(a: seq<Option<Tx>>, p: nat)
    requires p < |a| && a[p].None?
    ensures Holes(a[..p]) < Holes(a) && Missing(a)[Holes(a[..p])] == p
  {
    HoleCounts(a, p);
    var n := |a| - 1;
    if p < n {
      assert a[..n][..p] == a[..p];
      MissingAt(a[..n], p);
    }
  }

  /** SendBlockTransactions: None when an index is out of bounds. */
  function Answer(vtx: seq<Tx>, indexes: seq<nat>): Option<seq<Tx>>
  {
    if exists i :: 0 <= i < |indexes| && indexes[i] >= |vtx| then None
    else Some(seq(|indexes|, i requires 0 <= i < |indexes| => vtx[indexes[i]]))
  }

  /** The transactions of a filled block: what was available, and the rest in order. */
  function Rebuilt(a: seq<Option<Tx>>, missing: seq<Tx>): (r: seq<Tx>)
    requires |missing| == Holes(a)
    ensures |r| == |a|
  {
    seq(|a|, p requires 0 <= p < |a| =>
      if a[p].Some? then a[p].value else HoleCounts(a, p); missing[Holes(a[..p])])
  }

  /** Whatever is in place is the block's own transaction. */
  predicate Genuine(a: seq<Option<Tx>>, vtx: seq<Tx>)
  {
    |a| == |vtx| && forall p | 0 <= p < |a| :: a[p] == None || a[p] == Some(vtx[p])
  }

  lemma AnswerOfMissing(a: seq<Option<Tx>>, vtx: seq<Tx>)
    requires |a| == |vtx|
    ensures Answer(vtx, Missing(a)).Some? && |Answer(vtx, Missing(a)).value| == Holes(a)
    ensures forall p: nat | p < |a| && a[p].None? ::
      Holes(a[..p]) < Holes(a) && Answer(vtx, Missing(a)).value[Holes(a[..p])] == vtx[p]
  {
    hide Missing, Holes;
    MissingAscends(a);
    forall p: nat | p < |a| && a[p].None?
      ensures Holes(a[..p]) < Holes(a) && Answer(vtx, Missing(a)).value[Holes(a[..p])] == vtx[p]
    {
      MissingAt(a, p);
    }
  }

  /** The request as the code stores it, each position cut to 16 bits. */
  function Pushed(positions: seq<nat>): (r: seq<nat>)
    ensures |r| == |positions| && Fits(r)
  {
    seq(|positions|, i requires 0 <= i < |positions| => positions[i] % (MAX_INDEX + 1))
  }

  /** The peer reads back the request that is meant if and only if no position missing is beyond 16
      bits; the answer to that request restores the block, transaction for transaction. */
  lemma RequestRestores(a: seq<Option<Tx>>, vtx: seq<Tx>)
    requires Genuine(a, vtx)
    ensures Absolute(Gaps(Pushed(Missing(a))), 0) == Some(Missing(a)) <==> Fits(Missing(a))
    ensures Answer(vtx, Missing(a)).Some? && |Answer(vtx, Missing(a)).value| == Holes(a)
    ensures Rebuilt(a, Answer(vtx, Missing(a)).value) == vtx
  {
    hide Missing, Holes, Answer, Gaps, Absolute, Pushed, Rebuilt, Fits;
    MissingAscends(a);
    PushedReads(Missing(a));
    AnswerOfMissing(a, vtx);
    AnswerRebuilds(a, vtx, Answer(vtx, Missing(a)).value);
  }

  lemma PushedReads(positions: seq<nat>)
    requires Ascending(positions)
    ensures Absolute(Gaps(Pushed(positions)), 0) == Some(positions) <==> Fits(positions)
  {
    hide Gaps, Absolute;
    IndexCoding(Pushed(positions));
    if Fits(positions) {
      assert Pushed(positions) == positions;
    }
  }

  lemma AnswerRebuilds(a: seq<Option<Tx>>, vtx: seq<Tx>, answer: seq<Tx>)
    requires Genuine(a, vtx) && |answer| == Holes(a)
    requires forall p: nat | p < |a| && a[p].None? :: Holes(a[..p]) < Holes(a) && answer[Holes(a[..p])] == vtx[p]
    ensures Rebuilt(a, answer) == vtx
  {
    hide Holes;
    var rebuilt := Rebuilt(a, answer);
    forall p: nat | p < |a| ensures rebuilt[p] == vtx[p] {
      assert a[p].None? ==> rebuilt[p] == answer[Holes(a[..p])];
    }
  }

  /** 0, 1, 2, … */
  function UpTo(n: nat): (r: seq<nat>)
    ensures |r| == n && forall i | 0 <= i < n :: r[i] == i
  {
    seq(n, i => i)
  }

  /** Positions at which 16 bits do not reach. */
  predicate NoneBeyond(a: seq<Option<Tx>>)
  {
    forall p | MAX_INDEX < p < |a| :: a[p].None?
  }

  lemma {:induction false} MissingBeyond(a: seq<Option<Tx>>, low: seq<Option<Tx>>)
    requires |a| > MAX_INDEX && NoneBeyond(a) && low == a[..MAX_INDEX + 1]
    ensures Holes(a) == Holes(low) + |a| - (MAX_INDEX + 1)
    ensures forall i | 0 <= i < |Missing(low)| :: Missing(a)[i] == Missing(low)[i]
    ensures forall i | Holes(low) <= i < |Missing(a)| :: Missing(a)[i] == MAX_INDEX + 1 + (i - Holes(low))
  {
    var n := |a| - 1;
    if n == MAX_INDEX {
      assert low == a;
    } else {
      assert a[..n][..MAX_INDEX + 1] == low;
      MissingBeyond(a[..n], low);
    }
  }

  /** In a block of more than 65536 transactions the last ones are always asked for.  If any position
      within 16 bits is missing too, the cut positions do not ascend and the peer throws; otherwise
      it reads a request for the first transactions of the block. */
  lemma RequestBeyond(a: seq<Option<Tx>>)
    requires MAX_INDEX + 1 < |a| <= 2 * (MAX_INDEX + 1) && NoneBeyond(a)
    ensures Absolute(Gaps(Pushed(Missing(a))), 0) ==
      if Holes(a[..MAX_INDEX + 1]) > 0 then None else Some(UpTo(|a| - (MAX_INDEX + 1)))
  {
    hide Missing, Holes, Gaps, Absolute, Pushed, UpTo;
    var pushed := Pushed(Missing(a));
    IndexCoding(pushed);
    PushedBeyond(a, a[..MAX_INDEX + 1]);
    if Holes(a[..MAX_INDEX + 1]) == 0 {
      assert pushed == UpTo(|a| - (MAX_INDEX + 1));
    }
  }

  lemma PushedBeyond(a: seq<Option<Tx>>, low: seq<Option<Tx>>)
    requires MAX_INDEX + 1 < |a| <= 2 * (MAX_INDEX + 1) && NoneBeyond(a) && low == a[..MAX_INDEX + 1]
    ensures |Pushed(Missing(a))| == Holes(low) + |a| - (MAX_INDEX + 1)
    ensures Holes(low) > 0 ==> !Ascending(Pushed(Missing(a)))
    ensures Holes(low) == 0 ==> forall i | 0 <= i < |Pushed(Missing(a))| :: Pushed(Missing(a))[i] == i
  {
    hide Missing, Holes, Pushed;
    MissingBeyond(a, low);
    var pushed, h := Pushed(Missing(a)), Holes(low);
    PushedAt(Missing(a), h, 0);
    assert pushed[h] == 0;
    if h > 0 {
      assert pushed[h - 1] >= pushed[h];
    } else {
      forall i | 0 <= i < |pushed| ensures pushed[i] == i {
        PushedAt(Missing(a), i, i);
      }
    }
  }

  lemma PushedAt(positions: seq<nat>, i: nat, over: nat)
    requires i < |positions| && positions[i] == MAX_INDEX + 1 + over && over <= MAX_INDEX
    ensures Pushed(positions)[i] == over
  {
  }

  /** The answer to such a request puts the first transaction where another belongs. */
  lemma BeyondIsWrong(a: seq<Option<Tx>>, vtx: seq<Tx>)
    requires |a| == |vtx| > MAX_INDEX + 1 && NoneBeyond(a) && Holes(a[..MAX_INDEX + 1]) == 0
    ensures var answer := Answer(vtx, UpTo(|a| - (MAX_INDEX + 1)));
      && answer.Some? && |answer.value| == Holes(a) && Rebuilt(a, answer.value)[MAX_INDEX + 1] == vtx[0]
  {
    hide Missing, Holes;
    MissingBeyond(a, a[..MAX_INDEX + 1]);
  }
}
