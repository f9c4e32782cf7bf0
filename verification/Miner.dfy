/**
 Block template assembly: the greedy package selection of BlockAssembler.

 Totals of packages are tracked beside the mempool in a map of modified entries.  An entry
 that failed once is dropped from the map and may later be re-created from its full totals,
 so the tracked totals are upper bounds, and exact for entries that never failed.
 */
module Miner {
  import opened Mempool

  const MAX_BLOCK_WEIGHT := 4000000
  const MAX_BLOCK_SIGOPS_COST := 80000
  const MAX_CONSECUTIVE_FAILURES := 1000
  const RESERVED_WEIGHT := 4000
  const RESERVED_SIGOPS := 400

  /** CTxMemPoolModifiedEntry.  The size is unsigned in the source: `nat` makes every
      subtraction from it prove that it does not wrap. */
  datatype ModifiedEntry = ModifiedEntry(
    sizeWithAncestors: nat, modFeesWithAncestors: int, sigOpCostWithAncestors: int)

  type Modified = map<TxId, ModifiedEntry>

  function FullEntry(e: TxEntry): ModifiedEntry
  {
    ModifiedEntry(e.sizeWithAncestors, e.modFeesWithAncestors, e.sigOpCostWithAncestors)
  }

  /** The entry of `d` once its ancestor `it` is in the block: created from the full totals
      less the modified fee of `it`, or updated in place with the plain fee of `it`. */
  function AfterInclusion(pool: Pool, modified: Modified, d: TxId, it: TxId): ModifiedEntry
    requires d in pool && it in pool
    requires pool[it].size <= TrackedEntry(pool, modified, d).sizeWithAncestors
  {
    var e := TrackedEntry(pool, modified, d);
    ModifiedEntry(e.sizeWithAncestors - pool[it].size,
                  e.modFeesWithAncestors - (if d in modified then pool[it].fee else pool[it].modFee),
                  e.sigOpCostWithAncestors - pool[it].sigOpCost)
  }

  /** The figures the assembler would test for the package of `d`. */
  function TrackedEntry(pool: Pool, modified: Modified, d: TxId): ModifiedEntry
    requires d in pool
  {
    if d in modified then modified[d] else FullEntry(pool[d])
  }

  ghost predicate PlainFees(pool: Pool)
  {
    forall t | t in pool :: pool[t].fee == pool[t].modFee
  }

  /** How far the tracked fee of `d` is from the modified fees still to be paid for it. */
  ghost function FeeError(pool: Pool, modified: Modified, d: TxId, done: set<TxId>): int
    requires d in pool
  {
    TrackedEntry(pool, modified, d).modFeesWithAncestors - Total(pool, ModFeeOf, Ancestry(pool, d) - done)
  }

  /** By how much the fee of an entry was adjusted by hand. */
  function AdjustedBy(e: TxEntry): int { e.modFee - e.fee }

  /** How an entry of the map of modified entries came about: the ancestor for which it was created, and
      the ancestors taken off it since, that one included.  An entry that failed is dropped and may be
      created again from its full totals, and then starts a new history. */
  datatype History = History(creator: TxId, since: set<TxId>)

  type Histories = map<TxId, History>

  ghost function Since(hist: Histories, d: TxId): set<TxId>
  {
    if d in hist then hist[d].since else {}
  }

  /** The ancestors taken off with their plain fees: all but the one for which the entry was created. */
  ghost function Updates(hist: Histories, d: TxId): set<TxId>
  {
    if d in hist then hist[d].since - {hist[d].creator} else {}
  }

  ghost function Recorded(hist: Histories, d: TxId, it: TxId): Histories
  {
    hist[d := if d in hist then History(hist[d].creator, hist[d].since + {it}) else History(it, {it})]
  }

  /** What the map of modified entries knows about `d` when `done` has been accounted for: its full
      totals less the ancestors taken off since its entry was created, and those are all that are done
      if `d` never failed.  The fee was taken off as it was counted for the first of them only. */
  ghost predicate Tracks(pool: Pool, modified: Modified, failed: set<TxId>, hist: Histories, d: TxId, done: set<TxId>)
    requires d in pool
  {
    var e, since := TrackedEntry(pool, modified, d), Since(hist, d);
    && (d in modified <==> d in hist) && since <= Ancestry(pool, d) * done && (d in hist ==> hist[d].creator in since)
    && e.sizeWithAncestors == pool[d].sizeWithAncestors - Total(pool, SizeOf, since)
    && e.sigOpCostWithAncestors == pool[d].sigOpCostWithAncestors - Total(pool, SigOpsOf, since)
    && e.modFeesWithAncestors ==
         pool[d].modFeesWithAncestors - Total(pool, ModFeeOf, since) + Total(pool, AdjustedBy, Updates(hist, d))
    && (d !in failed ==> since == Ancestry(pool, d) * done)
  }

  ghost predicate TracksPart(pool: Pool, modified: Modified, failed: set<TxId>, hist: Histories, part: set<TxId>,
    done: set<TxId>)
  {
    forall d {:trigger Tracks(pool, modified, failed, hist, d, done)} | d in part && d in pool ::
      Tracks(pool, modified, failed, hist, d, done)
  }

  ghost predicate TracksAll(pool: Pool, modified: Modified, failed: set<TxId>, hist: Histories, block: set<TxId>,
    done: set<TxId>)
  {
    && modified.Keys <= pool.Keys - block
    && TracksPart(pool, modified, failed, hist, pool.Keys - block, done)
  }

  /** A total over an ancestry, in the three parts: still to come, done before the entry was created, and
      taken off since. */
  lemma ThreeParts(pool: Pool, f: TxEntry -> int, d: TxId, done: set<TxId>, since: set<TxId>)
    requires d in pool && since <= Ancestry(pool, d) * done
    ensures Total(pool, f, Ancestry(pool, d)) ==
      Total(pool, f, Ancestry(pool, d) - done)
      + Total(pool, f, Ancestry(pool, d) * done - since)
      + Total(pool, f, since)
  {
    hide Ancestry, Total;
    var all := Ancestry(pool, d);
    var rest, paid := all - done, all * done;
    TotalUnion(pool, f, rest, paid);
    TotalUnion(pool, f, paid - since, since);
    assert rest + paid == all && (paid - since) + since == paid;
  }

  /** How far every tracked total is from the true remainder: by what was done before the entry was
      created, and the fee also by the adjustments of the ancestors taken off as updates. */
  lemma TrackingErrors(pool: Pool, modified: Modified, failed: set<TxId>, hist: Histories, d: TxId, done: set<TxId>)
    requires TotalsCached(pool) && d in pool && Tracks(pool, modified, failed, hist, d, done)
    ensures var e, rest := TrackedEntry(pool, modified, d), Ancestry(pool, d) - done;
      var before := Ancestry(pool, d) * done - Since(hist, d);
      && e.sizeWithAncestors == Total(pool, SizeOf, rest) + Total(pool, SizeOf, before)
      && e.sigOpCostWithAncestors == Total(pool, SigOpsOf, rest) + Total(pool, SigOpsOf, before)
      && FeeError(pool, modified, d, done) ==
           Total(pool, ModFeeOf, before) + Total(pool, AdjustedBy, Updates(hist, d))
  {
    hide Ancestry, Total;
    assert CachedFor(pool, d);
    ThreeParts(pool, SizeOf, d, done, Since(hist, d));
    ThreeParts(pool, SigOpsOf, d, done, Since(hist, d));
    ThreeParts(pool, ModFeeOf, d, done, Since(hist, d));
  }

  /** The tracked size and sigops lie between the true remainder and the full totals. */
  lemma TracksBounds(pool: Pool, modified: Modified, failed: set<TxId>, hist: Histories, d: TxId, done: set<TxId>)
    requires TotalsCached(pool) && d in pool && Tracks(pool, modified, failed, hist, d, done)
    ensures var e, rest := TrackedEntry(pool, modified, d), Ancestry(pool, d) - done;
      && 0 <= Total(pool, SizeOf, rest) <= e.sizeWithAncestors <= pool[d].sizeWithAncestors
      && 0 <= Total(pool, SigOpsOf, rest) <= e.sigOpCostWithAncestors <= pool[d].sigOpCostWithAncestors
  {
    TrackingErrors(pool, modified, failed, hist, d, done);
    hide Ancestry, Total;
    var rest, before := Ancestry(pool, d) - done, Ancestry(pool, d) * done - Since(hist, d);
    NotNegative(pool, rest);
    NotNegative(pool, before);
    NotNegative(pool, Since(hist, d));
  }

  lemma NotNegative(pool: Pool, s: set<TxId>)
    requires s <= pool.Keys
    ensures Total(pool, SizeOf, s) >= 0 && Total(pool, SigOpsOf, s) >= 0
  {
    TotalMonotone(pool, SizeOf, s, s);
    TotalMonotone(pool, SigOpsOf, s, s);
  }

  lemma {:induction false} PositiveTotal(pool: Pool, f: TxEntry -> int, s: set<TxId>)
    requires s <= pool.Keys && forall t | t in pool :: f(pool[t]) > 0
    ensures Total(pool, f, s) >= 0 && (Total(pool, f, s) == 0 <==> s == {})
    decreases |s|
  {
    if s != {} {
      var x :| x in s;
      TotalRemove(pool, f, s, x);
      PositiveTotal(pool, f, s - {x});
    }
  }

  /** The tracked size is exact if and only if nothing was done before the entry was created, which is
      so for every entry that never failed; and so is the fee, if none was adjusted and all are paid. */
  lemma TrackingExact(pool: Pool, modified: Modified, failed: set<TxId>, hist: Histories, d: TxId, done: set<TxId>)
    requires TotalsCached(pool) && d in pool && Tracks(pool, modified, failed, hist, d, done)
    requires forall t | t in pool :: pool[t].size > 0
    ensures TrackedEntry(pool, modified, d).sizeWithAncestors == Total(pool, SizeOf, Ancestry(pool, d) - done) <==>
            Since(hist, d) == Ancestry(pool, d) * done
    ensures d !in failed ==> Since(hist, d) == Ancestry(pool, d) * done
    ensures PlainFees(pool) && (forall t | t in pool :: pool[t].modFee > 0) ==>
      (FeeError(pool, modified, d, done) == 0 <==> Since(hist, d) == Ancestry(pool, d) * done)
  {
    TrackingErrors(pool, modified, failed, hist, d, done);
    hide Ancestry, Total, FeeError;
    var paid, since := Ancestry(pool, d) * done, Since(hist, d);
    PositiveTotal(pool, SizeOf, paid - since);
    assert paid - since == {} <==> since == paid;
    if PlainFees(pool) && forall t | t in pool :: pool[t].modFee > 0 {
      PositiveTotal(pool, ModFeeOf, paid - since);
      NothingAdjusted(pool, Updates(hist, d));
    }
  }

  /** Where no fee was adjusted the tracked fee of an entry that never failed is exact, and that of any
      other is too large by the fees done before it was created. */
  lemma PlainFeesExact(pool: Pool, modified: Modified, failed: set<TxId>, hist: Histories, d: TxId, done: set<TxId>)
    requires TotalsCached(pool) && d in pool && Tracks(pool, modified, failed, hist, d, done) && PlainFees(pool)
    ensures FeeError(pool, modified, d, done) == Total(pool, ModFeeOf, Ancestry(pool, d) * done - Since(hist, d))
    ensures d !in failed ==> FeeError(pool, modified, d, done) == 0
  {
    TrackingErrors(pool, modified, failed, hist, d, done);
    hide Ancestry, FeeError;
    NothingAdjusted(pool, Updates(hist, d));
    var paid := Ancestry(pool, d) * done;
    assert d !in failed ==> paid - Since(hist, d) == {};
  }

  lemma {:induction false} NothingAdjusted(pool: Pool, s: set<TxId>)
    requires PlainFees(pool) && s <= pool.Keys
    ensures Total(pool, AdjustedBy, s) == 0
    decreases |s|
  {
    if s != {} {
      var x :| x in s;
      TotalRemove(pool, AdjustedBy, s, x);
      NothingAdjusted(pool, s - {x});
    }
  }

  lemma TracksNothingDone(pool: Pool, block: set<TxId>)
    ensures TracksAll(pool, map[], {}, map[], block, {})
  {
  }

  /** A rejected entry leaves the map and is remembered as failed. */
  lemma TracksAfterFailure(pool: Pool, modified: Modified, failed: set<TxId>, hist: Histories, block: set<TxId>,
    done: set<TxId>, t: TxId)
    requires TracksAll(pool, modified, failed, hist, block, done)
    ensures TracksAll(pool, modified - {t}, failed + {t}, hist - {t}, block, done)
  {
    hide Ancestry;
    forall d | d in pool && d !in block ensures Tracks(pool, modified - {t}, failed + {t}, hist - {t}, d, done) {
      assert Tracks(pool, modified, failed, hist, d, done);
    }
  }

  /** Entries that went into the block leave the map; nothing else changes. */
  lemma TracksAfterErase(pool: Pool, modified: Modified, failed: set<TxId>, hist: Histories, block: set<TxId>,
    package: set<TxId>)
    requires TracksAll(pool, modified, failed, hist, block, block)
    ensures TracksAll(pool, modified - package, failed, hist - package, block + package, block)
  {
    hide Tracks;
    forall d | d in pool && d !in block + package
      ensures Tracks(pool, modified - package, failed, hist - package, d, block)
    {
      assert Tracks(pool, modified, failed, hist, d, block);
      TracksUnaffected(pool, modified, modified - package, failed, hist, hist - package, d, block, block);
    }
  }

  /** Accounting for one more ancestor `it` of `d`. */
  lemma TracksAfterInclusion(pool: Pool, modified: Modified, failed: set<TxId>, hist: Histories, d: TxId,
    done: set<TxId>, it: TxId)
    requires TotalsCached(pool) && d in pool && Tracks(pool, modified, failed, hist, d, done)
    requires it in Ancestry(pool, d) && it !in done
    ensures pool[it].size <= TrackedEntry(pool, modified, d).sizeWithAncestors
    ensures Tracks(pool, modified[d := AfterInclusion(pool, modified, d, it)], failed, Recorded(hist, d, it), d,
      done + {it})
  {
    hide Ancestry, Total;
    var since := Since(hist, d);
    TracksBounds(pool, modified, failed, hist, d, done);
    SizeWithin(pool, Ancestry(pool, d) - done, it);
    TotalInsert(pool, SizeOf, since, it);
    TotalInsert(pool, SigOpsOf, since, it);
    TotalInsert(pool, ModFeeOf, since, it);
    var hist' := Recorded(hist, d, it);
    assert Since(hist', d) == since + {it};
    assert Ancestry(pool, d) * (done + {it}) == Ancestry(pool, d) * done + {it};
    if d in hist {
      assert Updates(hist', d) == Updates(hist, d) + {it};
      TotalInsert(pool, AdjustedBy, Updates(hist, d), it);
    } else {
      assert Updates(hist', d) == {};
    }
  }

  lemma SizeWithin(pool: Pool, rest: set<TxId>, it: TxId)
    requires rest <= pool.Keys && it in rest
    ensures pool[it].size <= Total(pool, SizeOf, rest)
  {
    TotalRemove(pool, SizeOf, rest, it);
    NotNegative(pool, rest - {it});
  }

  /** Creating an entry subtracts the modified fee, updating one subtracts the plain fee: so an
      exact fee stays exact if and only if the entry is new or the fee of `it` was never
      adjusted. */
  lemma FeeTrackingStep(pool: Pool, modified: Modified, d: TxId, done: set<TxId>, it: TxId)
    requires d in pool && it in Ancestry(pool, d) && it !in done
    requires pool[it].size <= TrackedEntry(pool, modified, d).sizeWithAncestors
    ensures var modified' := modified[d := AfterInclusion(pool, modified, d, it)];
      && FeeError(pool, modified', d, done + {it})
         == FeeError(pool, modified, d, done) + (if d in modified then pool[it].modFee - pool[it].fee else 0)
      && (FeeError(pool, modified, d, done) == 0 ==>
            (FeeError(pool, modified', d, done + {it}) == 0 <==> d !in modified || pool[it].fee == pool[it].modFee))
  {
    var rest := Ancestry(pool, d) - done;
    assert Ancestry(pool, d) - (done + {it}) == rest - {it};
    TotalRemove(pool, ModFeeOf, rest, it);
  }

  // ---- A chain of three ----

  /** Transactions 0, 1 and 2, each the parent of the next, of size 100 each and with the given fees,
      before and after adjustment.  The weight of 1 is a little below four times its size. */
  function Link(fee: seq<int>, mod: seq<int>, n: nat): TxEntry
    requires |fee| == |mod| == 3 && n < 3
  {
    TxEntry(100, if n == 1 then 397 else 400, 0, fee[n], mod[n], if n == 0 then {} else {n - 1}, n + 1, 100 * (n + 1),
            mod[0] + (if n >= 1 then mod[1] else 0) + (if n >= 2 then mod[2] else 0), 0, 3 - n, 100 * (3 - n),
            true, false, false)
  }

  function Chain(fee: seq<int>, mod: seq<int>): Pool
    requires |fee| == |mod| == 3
  {
    map[0 := Link(fee, mod, 0), 1 := Link(fee, mod, 1), 2 := Link(fee, mod, 2)]
  }

  lemma ChainKeys(fee: seq<int>, mod: seq<int>)
    requires |fee| == |mod| == 3
    ensures Chain(fee, mod).Keys == {0, 1, 2} && forall t: nat | t < 3 :: Chain(fee, mod)[t] == Link(fee, mod, t)
  {
  }

  ghost predicate IsChain(pool: Pool)
  {
    && pool.Keys == {0, 1, 2} && pool[0].parents == {} && pool[1].parents == {0} && pool[2].parents == {1}
    && forall t | t in pool :: pool[t].weight <= WITNESS_SCALE_FACTOR * pool[t].size
  }

  lemma ChainClosed(pool: Pool, c: set<TxId>, n: nat)
    requires IsChain(pool) && forall t: nat :: t in c <==> t < n
    ensures ParentClosed(pool, c)
  {
    forall t | t in c && t in pool ensures pool[t].parents <= c {
      assert t == 0 || t == 1 || t == 2;
    }
  }

  lemma ChainRanks(pool: Pool)
    requires IsChain(pool)
    ensures ValidPool(pool)
  {
    var rank: map<TxId, nat> := map t | t in pool :: t;
    assert Ranks(pool, rank);
  }

  lemma ParentIsAncestor(pool: Pool, p: TxId, t: TxId)
    requires ValidPool(pool) && t in pool && p in pool[t].parents
    ensures p in pool && Ancestry(pool, p) <= Ancestry(pool, t)
  {
    hide Ancestry;
    AncestryClosed(pool, t);
    AncestryTransitive(pool, p, t);
  }

  lemma ChainAncestry(pool: Pool)
    requires IsChain(pool)
    ensures ValidPool(pool)
    ensures Ancestry(pool, 0) == {0} && Ancestry(pool, 1) == {0, 1} && Ancestry(pool, 2) == {0, 1, 2}
  {
    hide Ancestry, ValidPool, ParentClosed;
    ChainRanks(pool);
    ParentIsAncestor(pool, 0, 1);
    ParentIsAncestor(pool, 1, 2);
    ChainClosed(pool, {0}, 1);
    ChainClosed(pool, {0, 1}, 2);
    ChainClosed(pool, {0, 1, 2}, 3);
    AncestryIsLeast(pool, 0, {0});
    AncestryIsLeast(pool, 1, {0, 1});
    AncestryIsLeast(pool, 2, {0, 1, 2});
  }

  lemma ChainTotal(pool: Pool, f: TxEntry -> int)
    requires pool.Keys == {0, 1, 2}
    ensures Total(pool, f, {0}) == f(pool[0]) && Total(pool, f, {0, 1}) == f(pool[0]) + f(pool[1])
    ensures Total(pool, f, {0, 1, 2}) == f(pool[0]) + f(pool[1]) + f(pool[2])
    ensures Total(pool, f, {2}) == f(pool[2])
  {
    TotalInsert(pool, f, {}, 0);
    TotalInsert(pool, f, {}, 2);
    TotalInsert(pool, f, {0}, 1);
    TotalInsert(pool, f, {0, 1}, 2);
    assert {} + {0} == {0} && {} + {2} == {2} && {0} + {1} == {0, 1} && {0, 1} + {2} == {0, 1, 2};
  }

  /** Whatever the fees, the chain is a valid pool with its totals cached. */
  lemma ChainValid(fee: seq<int>, mod: seq<int>)
    requires |fee| == |mod| == 3
    ensures IsChain(Chain(fee, mod)) && ValidPool(Chain(fee, mod)) && TotalsCached(Chain(fee, mod))
    ensures Ancestry(Chain(fee, mod), 2) == {0, 1, 2}
  {
    hide Total, Ancestry, ValidPool, Chain;
    var pool := Chain(fee, mod);
    ChainKeys(fee, mod);
    assert pool[0] == Link(fee, mod, 0) && pool[1] == Link(fee, mod, 1) && pool[2] == Link(fee, mod, 2);
    ChainAncestry(pool);
    ChainTotal(pool, SizeOf);
    ChainTotal(pool, SigOpsOf);
    ChainTotal(pool, ModFeeOf);
    assert CachedFor(pool, 0) && CachedFor(pool, 1) && CachedFor(pool, 2);
  }

  /** The fee of 1 was raised by 5.  When 0 and 1 go in, in that order, 2 is left with a tracked fee of 5
      although nothing is still to be paid for it. */
  lemma FeeErrorExample()
    ensures var pool := Chain([0, 0, 0], [0, 5, 0]);
      && ValidPool(pool) && TotalsCached(pool)
      && var created := map[2 := AfterInclusion(pool, map[], 2, 0)];
         var updated := created[2 := AfterInclusion(pool, created, 2, 1)];
         && FeeError(pool, created, 2, {0}) == 0 && FeeError(pool, updated, 2, {0, 1}) == 5
         && Total(pool, ModFeeOf, Ancestry(pool, 2) - {0, 1}) == 0
  {
    hide Total, Ancestry, ValidPool;
    var fee, mod := [0, 0, 0], [0, 5, 0];
    var pool := Chain(fee, mod);
    ChainValid(fee, mod);
    ChainTotal(pool, ModFeeOf);
    assert Ancestry(pool, 2) - {} == {0, 1, 2} && Ancestry(pool, 2) - {0, 1} == {2};
    FeeTrackingStep(pool, map[], 2, {}, 0);
    assert {} + {0} == {0} && {0} + {1} == {0, 1};
    var created := map[2 := AfterInclusion(pool, map[], 2, 0)];
    FeeTrackingStep(pool, created, 2, {0}, 1);
  }

  /** No fee was adjusted, and only 0 pays.  0 goes in, 2 fails and is dropped, 1 goes in: the entry of 2
      is created again, with the size and the fee of 0 still counted. */
  lemma RecreatedExample()
    ensures var pool := Chain([5, 0, 0], [5, 0, 0]);
      && ValidPool(pool) && TotalsCached(pool) && PlainFees(pool)
      && var again := map[2 := AfterInclusion(pool, map[], 2, 1)];
         && Tracks(pool, again, {2}, map[2 := History(1, {1})], 2, {0, 1})
         && again[2].sizeWithAncestors == Total(pool, SizeOf, Ancestry(pool, 2) - {0, 1}) + pool[0].size
         && FeeError(pool, again, 2, {0, 1}) == 5
  {
    hide Total, Ancestry, ValidPool;
    var fee := [5, 0, 0];
    var pool := Chain(fee, fee);
    ChainValid(fee, fee);
    ChainTotal(pool, SizeOf);
    ChainTotal(pool, ModFeeOf);
    TotalEmpty(pool);
    var all := Ancestry(pool, 2);
    assert all - {0, 1} == {2} && all * {0} == {0} && {0} + {1} == {0, 1};
    assert Tracks(pool, map[], {2}, map[], 2, {0});
    TracksAfterInclusion(pool, map[], {2}, map[], 2, {0}, 1);
    assert map[][2 := History(1, {1})] == map[2 := History(1, {1})];
  }

  lemma TotalEmpty(pool: Pool)
    ensures forall f: TxEntry -> int :: Total(pool, f, {}) == 0
  {
  }

  /** Room for a package in a block of a given weight and sigop cost. */
  predicate Room(maxWeight: nat, weight: nat, sigOps: nat, packageSize: nat, packageSigOpsCost: int)
  {
    && weight + WITNESS_SCALE_FACTOR * packageSize < maxWeight
    && sigOps + packageSigOpsCost < MAX_BLOCK_SIGOPS_COST
  }

  /** A package that fits and is left out all the same.  The limit is 5200.  0 goes in; then 2, with 1, does
      not fit and is dropped; 1 alone goes in; and 2, whose entry counts 0 again, is rejected although
      what it still needs would fit. */
  lemma LeftOutExample(fee: seq<int>)
    requires |fee| == 3
    ensures var pool := Chain(fee, fee);
      && ValidPool(pool) && TotalsCached(pool)
      && var first := map[1 := AfterInclusion(pool, map[], 1, 0), 2 := AfterInclusion(pool, map[], 2, 0)];
         var again := map[2 := AfterInclusion(pool, map[], 2, 1)];
         var w0 := RESERVED_WEIGHT + pool[0].weight;
         var w1 := w0 + pool[1].weight;
         && Room(5200, RESERVED_WEIGHT, RESERVED_SIGOPS, pool[0].sizeWithAncestors, 0)
         && !Room(5200, w0, RESERVED_SIGOPS, first[2].sizeWithAncestors, 0)
         && Room(5200, w0, RESERVED_SIGOPS, first[1].sizeWithAncestors, 0)
         && !Room(5200, w1, RESERVED_SIGOPS, again[2].sizeWithAncestors, 0)
         && Room(5200, w1, RESERVED_SIGOPS, pool[2].size, 0)
  {
    hide ValidPool, TotalsCached, IsChain, Ancestry;
    ChainValid(fee, fee);
  }

  /** Entries whose ancestry is disjoint from what changed keep their tracking. */
  lemma TracksUnaffected(pool: Pool, modified: Modified, modified': Modified, failed: set<TxId>, hist: Histories,
    hist': Histories, d: TxId, done: set<TxId>, done': set<TxId>)
    requires d in pool && Tracks(pool, modified, failed, hist, d, done)
    requires Ancestry(pool, d) * done == Ancestry(pool, d) * done'
    requires d in modified <==> d in modified'
    requires d in modified ==> modified[d] == modified'[d]
    requires d in hist <==> d in hist'
    requires d in hist ==> hist[d] == hist'[d]
    ensures Tracks(pool, modified', failed, hist', d, done')
  {
    hide Ancestry, Total;
  }

  /** The inner loop of UpdatePackagesForAdded: `it` is taken off every descendant outside
      the block. */
  method UpdateDescendants(pool: Pool, block: set<TxId>, it: TxId, outside: set<TxId>, modified: Modified,
    ghost failed: set<TxId>, ghost hist: Histories, ghost done: set<TxId>)
    returns (modified': Modified, ghost hist': Histories, n: nat)
    requires ValidPool(pool) && TotalsCached(pool) && block <= pool.Keys
    requires it in block && it !in done && outside <= pool.Keys - block
    requires forall d | d in pool && d !in block :: d in outside <==> it in Ancestry(pool, d)
    requires TracksAll(pool, modified, failed, hist, block, done)
    ensures TracksAll(pool, modified', failed, hist', block, done + {it})
    ensures modified.Keys <= modified'.Keys
  {
    modified', hist', n := modified, hist, 0;
    var todo := outside;
    ghost var scope := pool.Keys - block;
    ghost var pending := scope;
    while todo != {}
      invariant todo <= pending && pending <= scope
      invariant forall d | d in todo :: it in Ancestry(pool, d)
      invariant forall d | d in pending && d !in todo :: it !in Ancestry(pool, d)
      invariant modified.Keys <= modified'.Keys
      invariant TracksSplit(pool, modified', failed, hist', scope, pending, done, it)
    {
      var desc :| desc in todo;
      UpdateOne(pool, modified', failed, hist', desc, scope, pending, done, it);
      modified' := modified'[desc := AfterInclusion(pool, modified', desc, it)];
      hist' := Recorded(hist', desc, it);
      n := n + 1;
      todo, pending := todo - {desc}, pending - {desc};
    }
    UpdateRest(pool, modified', failed, hist', scope, pending, done, it);
  }

  /** Half way through the inner loop: `it` is accounted for outside `pending` only. */
  ghost predicate TracksSplit(pool: Pool, modified: Modified, failed: set<TxId>, hist: Histories, scope: set<TxId>,
    pending: set<TxId>, done: set<TxId>, it: TxId)
  {
    && modified.Keys <= scope
    && TracksPart(pool, modified, failed, hist, scope - pending, done + {it})
    && TracksPart(pool, modified, failed, hist, pending, done)
  }

  lemma UpdateOne(pool: Pool, modified: Modified, failed: set<TxId>, hist: Histories, desc: TxId, scope: set<TxId>,
    pending: set<TxId>, done: set<TxId>, it: TxId)
    requires TotalsCached(pool)
    requires desc in pending && pending <= scope && scope <= pool.Keys
    requires it in Ancestry(pool, desc) && it !in done
    requires TracksSplit(pool, modified, failed, hist, scope, pending, done, it)
    ensures it in pool && pool[it].size <= TrackedEntry(pool, modified, desc).sizeWithAncestors
    ensures TracksSplit(pool, modified[desc := AfterInclusion(pool, modified, desc, it)], failed,
      Recorded(hist, desc, it), scope, pending - {desc}, done, it)
  {
    hide Tracks, Ancestry;
    assert Tracks(pool, modified, failed, hist, desc, done);
    TracksAfterInclusion(pool, modified, failed, hist, desc, done, it);
    var modified', hist' := modified[desc := AfterInclusion(pool, modified, desc, it)], Recorded(hist, desc, it);
    TracksElsewhere(pool, modified, modified', failed, hist, hist', desc, scope - pending, done + {it});
    TracksElsewhere(pool, modified, modified', failed, hist, hist', desc, pending - {desc}, done);
  }

  lemma UpdateRest(pool: Pool, modified: Modified, failed: set<TxId>, hist: Histories, scope: set<TxId>,
    pending: set<TxId>, done: set<TxId>, it: TxId)
    requires TracksSplit(pool, modified, failed, hist, scope, pending, done, it)
    requires forall d | d in pending && d in pool :: it !in Ancestry(pool, d)
    ensures TracksPart(pool, modified, failed, hist, scope, done + {it})
  {
    hide Tracks, Ancestry;
    forall d | d in pending && d in pool ensures Tracks(pool, modified, failed, hist, d, done + {it}) {
      TracksUnaffected(pool, modified, modified, failed, hist, hist, d, done, done + {it});
    }
  }

  lemma TracksElsewhere(pool: Pool, modified: Modified, modified': Modified, failed: set<TxId>, hist: Histories,
    hist': Histories, desc: TxId, part: set<TxId>, done: set<TxId>)
    requires desc !in part && TracksPart(pool, modified, failed, hist, part, done)
    requires desc in modified' && modified' == modified[desc := modified'[desc]]
    requires desc in hist' && hist' == hist[desc := hist'[desc]]
    ensures TracksPart(pool, modified', failed, hist', part, done)
  {
    hide Tracks;
    forall d | d in part && d in pool ensures Tracks(pool, modified', failed, hist', d, done) {
      TracksUnaffected(pool, modified, modified', failed, hist, hist', d, done, done);
    }
  }

  /** Every transaction stands after all its ancestors. */
  ghost predicate ParentsFirst(pool: Pool, vtx: seq<TxId>)
  {
    forall j {:trigger AncestorsBefore(pool, vtx, j)} | 0 <= j < |vtx| :: AncestorsBefore(pool, vtx, j)
  }

  ghost predicate AncestorsBefore(pool: Pool, vtx: seq<TxId>, j: nat)
    requires j < |vtx|
  {
    vtx[j] in pool && Ancestry(pool, vtx[j]) <= Elements(vtx[..j + 1])
  }

  ghost function Elements(s: seq<TxId>): set<TxId>
  {
    set x | x in s
  }

  lemma ElementsExtend(s: seq<TxId>, i: nat)
    requires i < |s|
    ensures Elements(s[..i + 1]) == Elements(s[..i]) + {s[i]}
  {
    assert s[..i + 1] == s[..i] + [s[i]];
  }

  ghost predicate Distinct(s: seq<TxId>)
  {
    forall i, j | 0 <= i < j < |s| :: s[i] != s[j]
  }

  lemma ParentsFirstExtend(pool: Pool, vtx: seq<TxId>, t: TxId)
    requires ParentsFirst(pool, vtx) && t in pool
    requires Ancestry(pool, t) <= Elements(vtx) + {t}
    ensures ParentsFirst(pool, vtx + [t])
    ensures Elements(vtx + [t]) == Elements(vtx) + {t}
  {
    var s := vtx + [t];
    forall j | 0 <= j < |s| ensures AncestorsBefore(pool, s, j) {
      if j < |vtx| {
        assert AncestorsBefore(pool, vtx, j);
        assert s[..j + 1] == vtx[..j + 1];
      } else {
        assert s[..j + 1] == s;
      }
    }
  }

  /** In such a list without repetition every parent has an earlier place than its child. */
  lemma ParentStandsEarlier(pool: Pool, vtx: seq<TxId>, j: nat, p: TxId)
    requires ValidPool(pool) && ParentsFirst(pool, vtx) && j < |vtx|
    requires vtx[j] in pool && p in pool[vtx[j]].parents
    ensures exists i :: 0 <= i < j && vtx[i] == p
  {
    assert AncestorsBefore(pool, vtx, j);
    AncestryClosed(pool, vtx[j]);
    NotItsOwnAncestor(pool, vtx[j]);
    assert p in vtx[..j + 1];
  }

  lemma ParentsFirstClosed(pool: Pool, vtx: seq<TxId>, t: TxId)
    requires ParentsFirst(pool, vtx) && t in Elements(vtx)
    ensures t in pool && Ancestry(pool, t) <= Elements(vtx)
  {
    var j :| 0 <= j < |vtx| && vtx[j] == t;
    assert AncestorsBefore(pool, vtx, j);
    assert Elements(vtx[..j + 1]) <= Elements(vtx);
  }

  /** Strictly ordered by ancestor count, hash breaking ties (CompareTxIterByAncestorCount). */
  predicate CountBefore(pool: Pool, a: TxId, b: TxId)
    requires a in pool && b in pool
  {
    if pool[a].countWithAncestors != pool[b].countWithAncestors
    then pool[a].countWithAncestors < pool[b].countWithAncestors
    else a < b
  }

  ghost predicate SortedByCount(pool: Pool, s: seq<TxId>)
  {
    && Elements(s) <= pool.Keys
    && forall i, j | 0 <= i < j < |s| :: CountBefore(pool, s[i], s[j])
  }

  /** In a list sorted by ancestor count, every ancestor that is listed stands earlier. */
  lemma SortedPutsAncestorsFirst(pool: Pool, s: seq<TxId>, i: nat)
    requires ValidPool(pool) && TotalsCached(pool) && SortedByCount(pool, s) && i < |s|
    ensures s[i] in pool && Ancestry(pool, s[i]) * Elements(s) <= Elements(s[..i]) + {s[i]}
  {
    hide Ancestry, ValidPool;
    assert s[i] in Elements(s);
    forall a | a in Ancestry(pool, s[i]) * Elements(s) && a != s[i] ensures a in Elements(s[..i]) {
      var k :| 0 <= k < |s| && s[k] == a;
      AncestorCountDecreases(pool, a, s[i]);
      assert CachedFor(pool, a) && CachedFor(pool, s[i]);
      assert s[..i][k] == a;
    }
  }

  /** C++ division truncates toward zero. */
  function TruncDiv(a: int, b: int): int
    requires b > 0
  {
    if a >= 0 then a / b else -((-a) / b)
  }

  /** CFeeRate::GetFee. */
  function FeeForSize(satoshisPerK: int, size: nat): int
  {
    var fee := TruncDiv(satoshisPerK * size, 1000);
    if fee == 0 && size != 0 then
      (if satoshisPerK > 0 then 1 else if satoshisPerK < 0 then -1 else 0)
    else fee
  }

  /** How package selection ended. */
  datatype Exit = Exhausted | FeeBelowMinimum | NearlyFull

  /** What became of one candidate. */
  datatype Outcome = BelowMinimum | DoesNotFit | NotMineable | Added

  lemma ErasedMore(modified: Modified, added: set<TxId>, t: TxId)
    ensures modified - added - {t} == modified - (added + {t})
  {
  }

  lemma MoreInBlock(block: set<TxId>, added: set<TxId>, t: TxId)
    ensures block + added + {t} == block + (added + {t})
  {
  }

  class BlockAssembler {
    const pool: Pool
    const nBlockMaxWeight: nat
    const blockMinFeeRate: int
    const fIncludeWitness: bool
    const fIncludeBCTs: bool

    var vtx: seq<TxId>
    var vTxFees: seq<int>
    var vTxSigOpsCost: seq<int>
    var inBlock: set<TxId>
    var nBlockWeight: nat
    var nBlockTx: nat
    var nBlockSigOpsCost: nat
    var nFees: int

    predicate Acceptable(t: TxId)
      requires t in pool
    {
      && pool[t].isFinal
      && (fIncludeWitness || !pool[t].hasWitness)
      && (fIncludeBCTs || !pool[t].isBct)
    }

    /** The template agrees with the set of included entries: same transactions, each once and
        after its ancestors, all acceptable, all counters exact. */
    ghost predicate Consistent()
      reads this
    {
      && ValidPool(pool) && TotalsCached(pool)
      && inBlock == Elements(vtx) && inBlock <= pool.Keys
      && Distinct(vtx) && ParentsFirst(pool, vtx)
      && (forall t | t in inBlock :: Acceptable(t))
      && |vTxFees| == |vTxSigOpsCost| == |vtx| == nBlockTx
      && (forall i | 0 <= i < |vtx| :: vTxFees[i] == pool[vtx[i]].fee && vTxSigOpsCost[i] == pool[vtx[i]].sigOpCost)
      && nBlockWeight == RESERVED_WEIGHT + Total(pool, WeightOf, inBlock)
      && nBlockSigOpsCost == RESERVED_SIGOPS + Total(pool, SigOpsOf, inBlock)
      && nFees == Total(pool, FeeOf, inBlock)
    }

    ghost predicate WithinLimits()
      reads this
    {
      nBlockWeight <= nBlockMaxWeight <= MAX_BLOCK_WEIGHT && nBlockSigOpsCost < MAX_BLOCK_SIGOPS_COST
    }

    /** A block has no room for `t`: part of the missing ancestry of `t` may not be mined, or
        the full totals of `t` do not fit. */
    ghost predicate NoRoomFor(t: TxId, block: set<TxId>, weight: nat, sigOps: nat)
    {
      && t in pool
      && (|| (exists x :: x in Ancestry(pool, t) - block && !Acceptable(x))
          || weight + WITNESS_SCALE_FACTOR * pool[t].sizeWithAncestors >= nBlockMaxWeight
          || sigOps + pool[t].sigOpCostWithAncestors >= MAX_BLOCK_SIGOPS_COST)
    }

    /** What `t` still needs has no room. */
    ghost predicate NoRoomNow(t: TxId, block: set<TxId>, weight: nat, sigOps: nat)
    {
      && t in pool && Total(pool, SizeOf, Ancestry(pool, t) - block) >= 0
      && !Room(nBlockMaxWeight, weight, sigOps,
               Total(pool, SizeOf, Ancestry(pool, t) - block), Total(pool, SigOpsOf, Ancestry(pool, t) - block))
    }

    /** Every entry outside the block that will not be looked at again has no room. */
    ghost predicate Settled(modified: Modified, failed: set<TxId>, ahead: seq<TxId>, block: set<TxId>, weight: nat,
      sigOps: nat)
    {
      forall t {:trigger NoRoomFor(t, block, weight, sigOps)}
        | t in pool && t !in block && t !in modified && (t in failed || t !in ahead) ::
        NoRoomFor(t, block, weight, sigOps)
    }

    constructor (pool: Pool, maxWeightOption: nat, minFeeRate: int, includeWitness: bool, includeBCTs: bool)
      requires ValidPool(pool) && TotalsCached(pool)
      ensures Consistent() && WithinLimits() && inBlock == {} && vtx == []
      ensures this.pool == pool && fIncludeWitness == includeWitness && fIncludeBCTs == includeBCTs
      ensures blockMinFeeRate == minFeeRate
      ensures 4000 <= nBlockMaxWeight <= MAX_BLOCK_WEIGHT - 4000
      ensures 4000 <= maxWeightOption <= MAX_BLOCK_WEIGHT - 4000 ==> nBlockMaxWeight == maxWeightOption
    {
      this.pool := pool;
      blockMinFeeRate := minFeeRate;
      fIncludeWitness := includeWitness;
      fIncludeBCTs := includeBCTs;
      var capped := if maxWeightOption < MAX_BLOCK_WEIGHT - 4000 then maxWeightOption else MAX_BLOCK_WEIGHT - 4000;
      nBlockMaxWeight := if capped > 4000 then capped else 4000;
      vtx, vTxFees, vTxSigOpsCost, inBlock := [], [], [], {};
      nBlockWeight, nBlockTx, nBlockSigOpsCost, nFees := RESERVED_WEIGHT, 0, RESERVED_SIGOPS, 0;
    }

    method OnlyUnconfirmed(testSet: set<TxId>) returns (kept: set<TxId>)
      ensures kept == testSet - inBlock
    {
      kept := testSet;
      var todo := testSet;
      while todo != {}
        invariant todo <= testSet
        invariant kept == testSet - (inBlock - todo)
      {
        var x :| x in todo;
        todo := todo - {x};
        if x in inBlock {
          kept := kept - {x};
        }
      }
    }

    /** The package of an entry: itself and its ancestors that are not in the block. */
    method MissingAncestors(iter: TxId) returns (package: set<TxId>)
      requires ValidPool(pool) && iter in pool && iter !in inBlock
      ensures package == Ancestry(pool, iter) - inBlock
    {
      hide Ancestry, ValidPool, AncestorsOf, Allowed;
      AncestorsOfEntry(pool, iter);
      AlwaysAllowed(pool, pool[iter].size, AncestorsOf(pool, pool[iter].parents));
      var _, ancestors := CalculateMemPoolAncestors(pool, pool[iter].size, pool[iter].parents, NO_LIMITS);
      package := OnlyUnconfirmed(ancestors);
      package := package + {iter};
    }

    predicate TestPackage(packageSize: nat, packageSigOpsCost: int)
      reads this
    {
      Room(nBlockMaxWeight, nBlockWeight, nBlockSigOpsCost, packageSize, packageSigOpsCost)
    }

    method TestPackageTransactions(package: set<TxId>) returns (ok: bool)
      requires package <= pool.Keys
      ensures ok <==> forall t | t in package :: Acceptable(t)
    {
      var todo := package;
      while todo != {}
        invariant todo <= package
        invariant forall t | t in package - todo :: Acceptable(t)
      {
        var t :| t in todo;
        if !Acceptable(t) {
          return false;
        }
        todo := todo - {t};
      }
      return true;
    }

    method AddToBlock(t: TxId)
      requires Consistent() && t in pool && t !in inBlock && Acceptable(t)
      requires Ancestry(pool, t) <= inBlock + {t}
      modifies this
      ensures Consistent()
      ensures inBlock == old(inBlock) + {t} && vtx == old(vtx) + [t]
      ensures nBlockWeight == old(nBlockWeight) + pool[t].weight
      ensures nBlockSigOpsCost == old(nBlockSigOpsCost) + pool[t].sigOpCost
    {
      ParentsFirstExtend(pool, vtx, t);
      TotalInsert(pool, WeightOf, inBlock, t);
      TotalInsert(pool, SigOpsOf, inBlock, t);
      TotalInsert(pool, FeeOf, inBlock, t);
      vtx := vtx + [t];
      vTxFees := vTxFees + [pool[t].fee];
      vTxSigOpsCost := vTxSigOpsCost + [pool[t].sigOpCost];
      nBlockWeight := nBlockWeight + pool[t].weight;
      nBlockTx := nBlockTx + 1;
      nBlockSigOpsCost := nBlockSigOpsCost + pool[t].sigOpCost;
      nFees := nFees + pool[t].fee;
      inBlock := inBlock + {t};
    }

    method UpdatePackagesForAdded(alreadyAdded: set<TxId>, modified: Modified, ghost failed: set<TxId>,
      ghost hist: Histories)
      returns (modified': Modified, ghost hist': Histories, nDescendantsUpdated: nat)
      requires Consistent() && alreadyAdded <= inBlock
      requires ParentClosed(pool, inBlock - alreadyAdded)
      requires TracksAll(pool, modified, failed, hist, inBlock, inBlock - alreadyAdded)
      ensures TracksAll(pool, modified', failed, hist', inBlock, inBlock)
      ensures modified.Keys <= modified'.Keys
    {
      modified', hist', nDescendantsUpdated := modified, hist, 0;
      ghost var before := inBlock - alreadyAdded;
      var todo := alreadyAdded;
      while todo != {}
        invariant todo <= alreadyAdded
        invariant TracksAll(pool, modified', failed, hist', inBlock, inBlock - todo)
        invariant modified.Keys <= modified'.Keys
      {
        var it :| it in todo;
        var descendants := CalculateDescendants(pool, it);
        var outside := descendants - alreadyAdded;
        DescendantsOutside(it, alreadyAdded, outside);
        var n;
        modified', hist', n := UpdateDescendants(pool, inBlock, it, outside, modified', failed, hist', inBlock - todo);
        nDescendantsUpdated := nDescendantsUpdated + n;
        assert inBlock - (todo - {it}) == (inBlock - todo) + {it};
        todo := todo - {it};
      }
      assert inBlock - {} == inBlock;
    }

    /** A descendant of an added entry that was not added with it is not in the block at all. */
    lemma DescendantsOutside(it: TxId, alreadyAdded: set<TxId>, outside: set<TxId>)
      requires ValidPool(pool) && inBlock <= pool.Keys && it in alreadyAdded && alreadyAdded <= inBlock
      requires ParentClosed(pool, inBlock - alreadyAdded)
      requires outside == Descent(pool, it) - alreadyAdded
      ensures outside == Descent(pool, it) - inBlock
    {
      forall d | d in Descent(pool, it) - alreadyAdded ensures d !in inBlock {
        if d in inBlock {
          AncestryIsLeast(pool, d, inBlock - alreadyAdded);
        }
      }
    }

    method SortForBlock(package: set<TxId>) returns (sorted: seq<TxId>)
      requires package <= pool.Keys
      ensures SortedByCount(pool, sorted) && Elements(sorted) == package
    {
      sorted := [];
      var todo := package;
      while todo != {}
        invariant todo <= package && Elements(sorted) == package - todo
        invariant todo <= pool.Keys
        invariant SortedByCount(pool, sorted)
        invariant forall a, b | a in sorted && b in todo :: CountBefore(pool, a, b)
      {
        var least := LeastByCount(todo);
        assert Elements(sorted + [least]) == Elements(sorted) + {least};
        sorted := sorted + [least];
        todo := todo - {least};
      }
    }

    method LeastByCount(s: set<TxId>) returns (least: TxId)
      requires s != {} && s <= pool.Keys
      ensures least in s && forall b | b in s && b != least :: CountBefore(pool, least, b)
    {
      least :| least in s;
      var seen, todo := {least}, s - {least};
      while todo != {}
        invariant seen + todo == s && least in seen
        invariant forall b | b in seen && b != least :: CountBefore(pool, least, b)
      {
        var x :| x in todo;
        if CountBefore(pool, x, least) {
          least := x;
        }
        seen, todo := seen + {x}, todo - {x};
      }
    }

    predicate SkipMapTxEntry(t: TxId, modified: Modified, failedTx: set<TxId>)
      reads this
    {
      t in modified || t in inBlock || t in failedTx
    }

    /** Adds a whole package, ancestors first, and brings the map of modified entries up to date. */
    method AddPackage(iter: TxId, package: set<TxId>, modified: Modified, ghost failed: set<TxId>,
      ghost hist: Histories)
      returns (modified': Modified, ghost hist': Histories, nUpdated: nat)
      requires Consistent() && iter in pool && package == Ancestry(pool, iter) - inBlock
      requires forall t | t in package :: Acceptable(t)
      requires TracksAll(pool, modified, failed, hist, inBlock, inBlock)
      modifies this
      ensures Consistent() && inBlock == old(inBlock) + package && old(vtx) <= vtx
      ensures nBlockWeight == old(nBlockWeight) + Total(pool, WeightOf, package)
      ensures nBlockSigOpsCost == old(nBlockSigOpsCost) + Total(pool, SigOpsOf, package)
      ensures nBlockWeight >= old(nBlockWeight) && nBlockSigOpsCost >= old(nBlockSigOpsCost)
      ensures TracksAll(pool, modified', failed, hist', inBlock, inBlock)
      ensures modified.Keys - package <= modified'.Keys
    {
      ghost var before := inBlock;
      BlockIsParentClosed();
      var sorted := SortForBlock(package);
      modified' := AddSorted(iter, package, sorted, modified);
      PackageTotals(before, package);
      TracksAfterErase(pool, modified, failed, hist, before, package);
      assert inBlock - package == before;
      modified', hist', nUpdated := UpdatePackagesForAdded(package, modified', failed, hist - package);
    }

    lemma PackageTotals(before: set<TxId>, package: set<TxId>)
      requires before + package <= pool.Keys && before !! package
      ensures Total(pool, WeightOf, before + package) == Total(pool, WeightOf, before) + Total(pool, WeightOf, package)
      ensures Total(pool, SigOpsOf, before + package) == Total(pool, SigOpsOf, before) + Total(pool, SigOpsOf, package)
      ensures Total(pool, WeightOf, package) >= 0 && Total(pool, SigOpsOf, package) >= 0
    {
      TotalMonotone(pool, WeightOf, {}, package);
      TotalMonotone(pool, SigOpsOf, {}, package);
      TotalUnion(pool, WeightOf, before, package);
      TotalUnion(pool, SigOpsOf, before, package);
    }

    method AddSorted(ghost iter: TxId, ghost package: set<TxId>, sorted: seq<TxId>, modified: Modified)
      returns (modified': Modified)
      requires Consistent() && iter in pool && package == Ancestry(pool, iter) - inBlock
      requires SortedByCount(pool, sorted) && Elements(sorted) == package
      requires forall t | t in package :: Acceptable(t)
      modifies this
      ensures Consistent() && inBlock == old(inBlock) + package && old(vtx) <= vtx
      ensures modified' == modified - package
    {
      hide ValidPool, TotalsCached, ParentsFirst, SortedByCount, Ancestry;
      modified' := modified;
      ghost var added := {};
      var i := 0;
      while i < |sorted|
        invariant i <= |sorted| && added == Elements(sorted[..i])
        invariant Consistent() && inBlock == old(inBlock) + added && old(vtx) <= vtx
        invariant modified' == modified - added
      {
        PackageStep(iter, old(inBlock), package, sorted, i);
        ElementsExtend(sorted, i);
        ErasedMore(modified, added, sorted[i]);
        MoreInBlock(old(inBlock), added, sorted[i]);
        AddToBlock(sorted[i]);
        modified' := modified' - {sorted[i]};
        added := added + {sorted[i]};
        i := i + 1;
      }
      assert sorted[..i] == sorted;
    }

    lemma BlockIsParentClosed()
      requires Consistent()
      ensures ParentClosed(pool, inBlock)
    {
      forall t | t in inBlock ensures pool[t].parents <= inBlock {
        ParentsFirstClosed(pool, vtx, t);
        AncestryClosed(pool, t);
      }
    }

    /** When the sorted package is added up to `i`, all ancestors of the next entry are in. */
    lemma PackageStep(iter: TxId, before: set<TxId>, package: set<TxId>, sorted: seq<TxId>, i: nat)
      requires ValidPool(pool) && TotalsCached(pool) && iter in pool
      requires package == Ancestry(pool, iter) - before
      requires SortedByCount(pool, sorted) && Elements(sorted) == package && i < |sorted|
      ensures sorted[i] in package && sorted[i] !in before + Elements(sorted[..i])
      ensures Ancestry(pool, sorted[i]) <= before + Elements(sorted[..i]) + {sorted[i]}
    {
      assert sorted[i] in Elements(sorted);
      AncestryTransitive(pool, sorted[i], iter);
      SortedPutsAncestorsFirst(pool, sorted, i);
      forall k | 0 <= k < i ensures sorted[k] != sorted[i] {
        assert CountBefore(pool, sorted[k], sorted[i]);
      }
    }

    /** The next candidate: a modified entry, or the next mempool entry in ancestor score order
        unless the comparison prefers the modified one.  Whatever is chosen is not in the block. */
    method SelectCandidate(order: seq<TxId>, mi: nat, modified: Modified, ghost failedTx: set<TxId>,
      ghost hist: Histories, better: (TxId, ModifiedEntry, TxId, ModifiedEntry) -> bool)
      returns (iter: TxId, usingModified: bool, mi': nat)
      requires mi <= |order| && (mi < |order| || modified != map[]) && Elements(order) == pool.Keys
      requires TracksAll(pool, modified, failedTx, hist, inBlock, inBlock)
      requires mi < |order| ==> order[mi] !in modified && order[mi] !in inBlock && order[mi] !in failedTx
      ensures iter in pool && iter !in inBlock && (usingModified <==> iter in modified)
      ensures usingModified ==> mi' == mi
      ensures !usingModified ==> mi < |order| && iter == order[mi] && mi' == mi + 1
    {
      mi' := mi;
      if mi == |order| {
        iter :| iter in modified;
        usingModified := true;
      } else {
        iter, usingModified := order[mi], false;
        assert iter in Elements(order);
        if modified != map[] {
          var first :| first in modified;
          if better(first, modified[first], iter, FullEntry(pool[iter])) {
            iter, usingModified := first, true;
          }
        }
        if !usingModified {
          mi' := mi + 1;
        }
      }
    }

    /** A package that passed TestPackage on tracked totals fits by its true totals. */
    lemma PackageFits(iter: TxId, modified: Modified, failed: set<TxId>, hist: Histories)
      requires Consistent() && WithinLimits() && iter in pool && iter !in inBlock
      requires TracksAll(pool, modified, failed, hist, inBlock, inBlock)
      requires TestPackage(TrackedEntry(pool, modified, iter).sizeWithAncestors,
                           TrackedEntry(pool, modified, iter).sigOpCostWithAncestors)
      ensures nBlockWeight + Total(pool, WeightOf, Ancestry(pool, iter) - inBlock) < nBlockMaxWeight
      ensures nBlockSigOpsCost + Total(pool, SigOpsOf, Ancestry(pool, iter) - inBlock) < MAX_BLOCK_SIGOPS_COST
    {
      hide Ancestry, Total, ValidPool;
      assert Tracks(pool, modified, failed, hist, iter, inBlock);
      TracksBounds(pool, modified, failed, hist, iter, inBlock);
      TotalWeight(pool, Ancestry(pool, iter) - inBlock);
    }

    /** A package that failed TestPackage on tracked totals does not fit by its full totals; and if the
        totals are exact, as they are when it never failed before, what it still needs has no room. */
    lemma FailureIsNoRoom(iter: TxId, modified: Modified, failed: set<TxId>, hist: Histories)
      requires Consistent() && iter in pool && iter !in inBlock
      requires TracksAll(pool, modified, failed, hist, inBlock, inBlock)
      requires !TestPackage(TrackedEntry(pool, modified, iter).sizeWithAncestors,
                            TrackedEntry(pool, modified, iter).sigOpCostWithAncestors)
      ensures NoRoomFor(iter, inBlock, nBlockWeight, nBlockSigOpsCost)
      ensures iter !in failed || Since(hist, iter) == Ancestry(pool, iter) * inBlock ==>
        NoRoomNow(iter, inBlock, nBlockWeight, nBlockSigOpsCost)
    {
      hide Ancestry, Total, ValidPool, ParentsFirst, Distinct;
      assert Tracks(pool, modified, failed, hist, iter, inBlock);
      TracksBounds(pool, modified, failed, hist, iter, inBlock);
      if iter !in failed || Since(hist, iter) == Ancestry(pool, iter) * inBlock {
        TrackingErrors(pool, modified, failed, hist, iter, inBlock);
        TotalEmpty(pool);
        assert Ancestry(pool, iter) * inBlock - Since(hist, iter) == {};
      }
    }

    /** Entries without room stay without room while the block grows. */
    lemma NoRoomPersists(t: TxId, block: set<TxId>, weight: nat, sigOps: nat, block': set<TxId>, weight': nat,
      sigOps': nat)
      requires NoRoomFor(t, block, weight, sigOps)
      requires block <= block' && block' <= pool.Keys && weight <= weight' && sigOps <= sigOps'
      requires forall x | x in block' :: Acceptable(x)
      ensures NoRoomFor(t, block', weight', sigOps')
    {
      if x :| x in Ancestry(pool, t) - block && !Acceptable(x) {
        assert x in Ancestry(pool, t) - block';
      }
    }

    /** addPackageTxs.  `order` is the mempool in ancestor score order, `better` the comparison
        of scores. */
    method AddPackageTxs(order: seq<TxId>, better: (TxId, ModifiedEntry, TxId, ModifiedEntry) -> bool)
      returns (exit: Exit, nPackagesSelected: nat, nDescendantsUpdated: nat)
      requires Consistent() && WithinLimits() && Elements(order) == pool.Keys
      modifies this
      ensures Consistent() && WithinLimits() && old(vtx) <= vtx
      ensures exit.Exhausted? ==>
        forall t {:trigger NoRoomFor(t, inBlock, nBlockWeight, nBlockSigOpsCost)} | t in pool && t !in inBlock ::
          NoRoomFor(t, inBlock, nBlockWeight, nBlockSigOpsCost)
    {
      hide Ancestry, Total, ValidPool, TotalsCached, Tracks, TracksPart, NoRoomFor, NoRoomNow, Settled, ParentsFirst,
        Distinct;
      nPackagesSelected, nDescendantsUpdated := 0, 0;
      var failedTx := {};
      TracksNothingDone(pool, inBlock);
      assert inBlock - inBlock == {};
      ghost var hist: Histories := map[];
      var modified, hist0, _ := UpdatePackagesForAdded(inBlock, map[], failedTx, hist);
      hist := hist0;
      var mi := 0;
      assert order[mi..] == order;
      SettledAtStart(modified, order, inBlock, nBlockWeight, nBlockSigOpsCost);
      var nConsecutiveFailed := 0;
      while mi < |order| || modified != map[]
        invariant mi <= |order|
        invariant Consistent() && WithinLimits() && old(vtx) <= vtx
        invariant TracksAll(pool, modified, failedTx, hist, inBlock, inBlock)
        invariant Settled(modified, failedTx, order[mi..], inBlock, nBlockWeight, nBlockSigOpsCost)
        decreases pool.Keys - inBlock, |order| - mi + |modified|
      {
        if mi < |order| {
          if SkipMapTxEntry(order[mi], modified, failedTx) {
            SettledAfterSkip(modified, failedTx, order, mi, inBlock, nBlockWeight, nBlockSigOpsCost);
            mi := mi + 1;
            continue;
          }
        }
        ghost var mi0 := mi;
        var iter, usingModified;
        iter, usingModified, mi := SelectCandidate(order, mi, modified, failedTx, hist, better);
        AheadShrinks(order, mi0, mi, iter);
        var outcome, updated;
        outcome, modified, failedTx, hist, updated :=
          TryPackage(iter, usingModified, modified, failedTx, hist, order[mi0..], order[mi..]);
        match outcome
        case BelowMinimum =>
          return FeeBelowMinimum, nPackagesSelected, nDescendantsUpdated;
        case DoesNotFit =>
          nConsecutiveFailed := nConsecutiveFailed + 1;
          if nConsecutiveFailed > MAX_CONSECUTIVE_FAILURES && nBlockWeight > nBlockMaxWeight - 4000 {
            return NearlyFull, nPackagesSelected, nDescendantsUpdated;
          }
        case NotMineable =>
        case Added =>
          nConsecutiveFailed := 0;
          nPackagesSelected := nPackagesSelected + 1;
          nDescendantsUpdated := nDescendantsUpdated + updated;
      }
      SettledAtEnd(failedTx, order[mi..], inBlock, nBlockWeight, nBlockSigOpsCost);
      return Exhausted, nPackagesSelected, nDescendantsUpdated;
    }

    lemma AheadShrinks(order: seq<TxId>, mi: nat, mi': nat, iter: TxId)
      requires mi <= mi' <= |order|
      requires mi' == mi || (mi' == mi + 1 && iter == order[mi])
      ensures forall t | t in order[mi..] && t != iter :: t in order[mi'..]
    {
      if mi' == mi + 1 {
        assert order[mi..] == [iter] + order[mi'..];
      }
    }

    lemma SettledAtStart(modified: Modified, order: seq<TxId>, block: set<TxId>, weight: nat, sigOps: nat)
      requires Elements(order) == pool.Keys
      ensures Settled(modified, {}, order, block, weight, sigOps)
    {
      assert forall t | t in pool :: t in Elements(order);
    }

    lemma SettledAfterSkip(modified: Modified, failed: set<TxId>, order: seq<TxId>, mi: nat, block: set<TxId>,
      weight: nat, sigOps: nat)
      requires mi < |order| && Settled(modified, failed, order[mi..], block, weight, sigOps)
      requires order[mi] in modified || order[mi] in block || order[mi] in failed
      ensures Settled(modified, failed, order[mi + 1..], block, weight, sigOps)
    {
      AheadShrinks(order, mi, mi + 1, order[mi]);
    }

    lemma SettledAtEnd(failed: set<TxId>, ahead: seq<TxId>, block: set<TxId>, weight: nat, sigOps: nat)
      requires ahead == [] && Settled(map[], failed, ahead, block, weight, sigOps)
      ensures forall t {:trigger NoRoomFor(t, block, weight, sigOps)} | t in pool && t !in block ::
        NoRoomFor(t, block, weight, sigOps)
    {
    }

    /** One candidate: tested, then either added with its missing ancestors or dropped. */
    method TryPackage(iter: TxId, usingModified: bool, modified: Modified, failedTx: set<TxId>, ghost hist: Histories,
      ghost ahead: seq<TxId>, ghost ahead': seq<TxId>)
      returns (outcome: Outcome, modified': Modified, failedTx': set<TxId>, ghost hist': Histories, updated: nat)
      requires Consistent() && WithinLimits() && iter in pool && iter !in inBlock
      requires usingModified <==> iter in modified
      requires TracksAll(pool, modified, failedTx, hist, inBlock, inBlock)
      requires Settled(modified, failedTx, ahead, inBlock, nBlockWeight, nBlockSigOpsCost)
      requires forall t | t in ahead && t != iter :: t in ahead'
      requires usingModified ==> ahead' == ahead
      modifies this
      ensures Consistent() && WithinLimits() && old(vtx) <= vtx
      ensures TracksAll(pool, modified', failedTx', hist', inBlock, inBlock)
      ensures outcome.DoesNotFit? && iter !in failedTx ==> NoRoomNow(iter, inBlock, nBlockWeight, nBlockSigOpsCost)
      ensures !outcome.BelowMinimum? ==> Settled(modified', failedTx', ahead', inBlock, nBlockWeight, nBlockSigOpsCost)
      ensures outcome.Added? ==>
        inBlock == old(inBlock) + (Ancestry(pool, iter) - old(inBlock)) && inBlock > old(inBlock)
      ensures !outcome.Added? ==> inBlock == old(inBlock)
      ensures outcome.DoesNotFit? || outcome.NotMineable? ==> modified' == modified - {iter}
      ensures outcome.BelowMinimum? ==> modified' == modified
    {
      hide Ancestry, Total, ValidPool, TotalsCached, Tracks, TracksPart, NoRoomFor, NoRoomNow, Settled, ParentsFirst,
        Distinct;
      modified', failedTx', hist', updated := modified, failedTx, hist, 0;
      var e := TrackedEntry(pool, modified, iter);
      if e.modFeesWithAncestors < FeeForSize(blockMinFeeRate, e.sizeWithAncestors) {
        return BelowMinimum, modified, failedTx, hist, 0;
      }
      if !TestPackage(e.sizeWithAncestors, e.sigOpCostWithAncestors) {
        FailureIsNoRoom(iter, modified, failedTx, hist);
        SettledAfterDrop(iter, modified, failedTx, ahead, ahead', inBlock, nBlockWeight, nBlockSigOpsCost);
        modified', failedTx', hist' := Drop(iter, usingModified, modified, failedTx, hist);
        return DoesNotFit, modified', failedTx', hist', 0;
      }
      var ancestors := MissingAncestors(iter);
      var mineable := TestPackageTransactions(ancestors);
      if !mineable {
        SettledAfterDrop(iter, modified, failedTx, ahead, ahead', inBlock, nBlockWeight, nBlockSigOpsCost);
        modified', failedTx', hist' := Drop(iter, usingModified, modified, failedTx, hist);
        return NotMineable, modified', failedTx', hist', 0;
      }
      PackageFits(iter, modified, failedTx, hist);
      ghost var block, weight, sigOps := inBlock, nBlockWeight, nBlockSigOpsCost;
      modified', hist', updated := AddPackage(iter, ancestors, modified, failedTx, hist);
      outcome := Added;
      SettledAfterAdd(iter, modified, modified', failedTx, ahead, ahead', block, weight, sigOps, inBlock,
        nBlockWeight, nBlockSigOpsCost);
    }

    lemma SettledAfterDrop(iter: TxId, modified: Modified, failed: set<TxId>, ahead: seq<TxId>, ahead': seq<TxId>,
      block: set<TxId>, weight: nat, sigOps: nat)
      requires Settled(modified, failed, ahead, block, weight, sigOps)
      requires NoRoomFor(iter, block, weight, sigOps)
      requires forall t | t in ahead && t != iter :: t in ahead'
      ensures Settled(modified - {iter}, failed, ahead', block, weight, sigOps)
      ensures Settled(modified - {iter}, failed + {iter}, ahead', block, weight, sigOps)
    {
    }

    lemma SettledAfterAdd(iter: TxId, modified: Modified, modified': Modified, failed: set<TxId>, ahead: seq<TxId>,
      ahead': seq<TxId>, block: set<TxId>, weight: nat, sigOps: nat, block': set<TxId>, weight': nat, sigOps': nat)
      requires Settled(modified, failed, ahead, block, weight, sigOps)
      requires iter in block' && modified.Keys - block' <= modified'.Keys
      requires forall t | t in ahead && t != iter :: t in ahead'
      requires block <= block' && block' <= pool.Keys && weight <= weight' && sigOps <= sigOps'
      requires forall x | x in block' :: Acceptable(x)
      ensures Settled(modified', failed, ahead', block', weight', sigOps')
    {
      forall t | t in pool && t !in block' && t !in modified' && (t in failed || t !in ahead')
        ensures NoRoomFor(t, block', weight', sigOps')
      {
        assert NoRoomFor(t, block, weight, sigOps);
        NoRoomPersists(t, block, weight, sigOps, block', weight', sigOps');
      }
    }

    method Drop(iter: TxId, usingModified: bool, modified: Modified, failedTx: set<TxId>, ghost hist: Histories)
      returns (modified': Modified, failedTx': set<TxId>, ghost hist': Histories)
      requires Consistent() && iter in pool && (usingModified <==> iter in modified)
      requires TracksAll(pool, modified, failedTx, hist, inBlock, inBlock)
      ensures modified' == modified - {iter}
      ensures failedTx' == if usingModified then failedTx + {iter} else failedTx
      ensures TracksAll(pool, modified', failedTx', hist', inBlock, inBlock)
    {
      modified', failedTx', hist' := modified, failedTx, hist;
      if usingModified {
        TracksAfterFailure(pool, modified, failedTx, hist, inBlock, inBlock, iter);
        modified', failedTx', hist' := modified - {iter}, failedTx + {iter}, hist - {iter};
      } else {
        assert modified - {iter} == modified;
      }
    }
  }
}
