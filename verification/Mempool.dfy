/**
 The mempool as a finite acyclic graph of transactions: ancestor and descendant
 closure, and totals over sets of entries.
 */
module Mempool {

  /** Transactions are identified by their hash, taken as a number. */
  type TxId = nat

  /** A mempool entry: its own figures, its in-mempool parents, the totals it caches over
      itself and its ancestors and descendants, and the three facts the block assembler tests about the
      transaction itself. */
  datatype TxEntry = TxEntry(
    size: nat, weight: nat, sigOpCost: nat, fee: int, modFee: int,
    parents: set<TxId>,
    countWithAncestors: nat, sizeWithAncestors: nat,
    modFeesWithAncestors: int, sigOpCostWithAncestors: nat,
    countWithDescendants: nat, sizeWithDescendants: nat,
    isFinal: bool, hasWitness: bool, isBct: bool)

  type Pool = map<TxId, TxEntry>

  const WITNESS_SCALE_FACTOR := 4

  /** Parents are entries, some ranking puts every parent below its child, and the virtual
      size covers the weight. */
  ghost predicate ValidPool(pool: Pool)
  {
    && (forall t | t in pool :: pool[t].parents <= pool.Keys)
    && (forall t | t in pool :: pool[t].weight <= WITNESS_SCALE_FACTOR * pool[t].size)
    && exists rank: map<TxId, nat> :: Ranks(pool, rank)
  }

  ghost predicate Ranks(pool: Pool, rank: map<TxId, nat>)
  {
    && rank.Keys == pool.Keys
    && forall t, p | t in pool && p in pool[t].parents :: p in rank && rank[p] < rank[t]
  }

  /** `c` holds the parents of everything it holds. */
  ghost predicate ParentClosed(pool: Pool, c: set<TxId>)
  {
    forall t | t in c && t in pool :: pool[t].parents <= c
  }

  /** An entry and everything it descends from: the intersection of all parent-closed sets
      that hold it. */
  ghost function Ancestry(pool: Pool, t: TxId): (s: set<TxId>)
    requires t in pool
    ensures s <= pool.Keys && t in s
  {
    set a | a in pool && forall c | ParentClosed(pool, c) && t in c :: a in c
  }

  ghost function Descent(pool: Pool, t: TxId): set<TxId>
  {
    set d | d in pool && t in Ancestry(pool, d)
  }

  lemma AncestryIsLeast(pool: Pool, t: TxId, c: set<TxId>)
    requires t in pool && ParentClosed(pool, c) && t in c
    ensures Ancestry(pool, t) <= c
  {
  }

  lemma AncestryClosed(pool: Pool, t: TxId)
    requires t in pool && ValidPool(pool)
    ensures ParentClosed(pool, Ancestry(pool, t))
  {
    var s := Ancestry(pool, t);
    forall x, p | x in s && x in pool && p in pool[x].parents
      ensures p in s
    {
      forall c | ParentClosed(pool, c) && t in c ensures p in c {
        assert x in c;
      }
    }
  }

  lemma AncestryTransitive(pool: Pool, a: TxId, t: TxId)
    requires t in pool && ValidPool(pool) && a in Ancestry(pool, t)
    ensures Ancestry(pool, a) <= Ancestry(pool, t)
  {
    AncestryClosed(pool, t);
    AncestryIsLeast(pool, a, Ancestry(pool, t));
  }

  lemma AncestryRank(pool: Pool, rank: map<TxId, nat>, a: TxId, t: TxId)
    requires t in pool && Ranks(pool, rank) && a in Ancestry(pool, t) && a != t
    ensures rank[a] < rank[t]
  {
    var c := set x | x in pool && (x == t || rank[x] < rank[t]);
    assert ParentClosed(pool, c);
  }

  /** A proper ancestor has strictly fewer ancestors, so ordering by ancestor count puts
      parents first. */
  lemma AncestorCountDecreases(pool: Pool, a: TxId, t: TxId)
    requires t in pool && ValidPool(pool) && a in Ancestry(pool, t) && a != t
    ensures t !in Ancestry(pool, a)
    ensures |Ancestry(pool, a)| < |Ancestry(pool, t)|
  {
    var rank: map<TxId, nat> :| Ranks(pool, rank);
    AncestryRank(pool, rank, a, t);
    if t in Ancestry(pool, a) {
      AncestryRank(pool, rank, t, a);
      assert false;
    }
    AncestryTransitive(pool, a, t);
    SubsetCardinality(Ancestry(pool, a), Ancestry(pool, t), t);
  }

  lemma SubsetCardinality(s: set<TxId>, u: set<TxId>, x: TxId)
    requires s <= u && x in u && x !in s
    ensures |s| < |u|
  {
    SubsetCardinalityLeq(s, u - {x});
  }

  lemma SubsetCardinalityLeq(s: set<TxId>, u: set<TxId>)
    requires s <= u
    ensures |s| <= |u|
  {
    assert s + (u - s) == u;
  }

  /** A limit, or the largest 64-bit number, which nothing exceeds. */
  datatype Limit = NoLimit | AtMost(n: nat)
  datatype Limits = Limits(ancestorCount: Limit, ancestorSize: Limit, descendantCount: Limit, descendantSize: Limit)

  const NO_LIMITS := Limits(NoLimit, NoLimit, NoLimit, NoLimit)

  predicate Exceeds(x: nat, limit: Limit)
  {
    limit.AtMost? && x > limit.n
  }

  /** Everything that a transaction with these parents descends from. */
  ghost function AncestorsOf(pool: Pool, parents: set<TxId>): (s: set<TxId>)
    requires parents <= pool.Keys
    ensures s <= pool.Keys
  {
    set a | a in pool && exists p :: p in parents && a in Ancestry(pool, p)
  }

  predicate DescendantsAllowed(e: TxEntry, size: nat, limits: Limits)
  {
    && !Exceeds(e.sizeWithDescendants + size, limits.descendantSize)
    && !Exceeds(e.countWithDescendants + 1, limits.descendantCount)
  }

  /** What the limits mean for a transaction of this size with these ancestors.  The ancestor limits
      do not count the transaction itself, and its own size matters only if it has ancestors. */
  ghost predicate Allowed(pool: Pool, size: nat, ancestors: set<TxId>, limits: Limits)
    requires ancestors <= pool.Keys
  {
    && !Exceeds(|ancestors|, limits.ancestorCount)
    && (ancestors != {} ==>
          Total(pool, SizeOf, ancestors) >= 0 && !Exceeds(size + Total(pool, SizeOf, ancestors), limits.ancestorSize))
    && forall a | a in ancestors :: DescendantsAllowed(pool[a], size, limits)
  }

  /** The worklist of CalculateMemPoolAncestors: true exactly when the ancestors are within the
      limits, and then the result is the set of all of them. */
  method CalculateMemPoolAncestors(pool: Pool, size: nat, parents: set<TxId>, limits: Limits)
    returns (ok: bool, ancestors: set<TxId>)
    requires ValidPool(pool) && parents <= pool.Keys
    ensures ok <==> Allowed(pool, size, AncestorsOf(pool, parents), limits)
    ensures ok ==> ancestors == AncestorsOf(pool, parents)
  {
    hide AncestorsOf, ValidPool, Allowed, Searching;
    ghost var all := AncestorsOf(pool, parents);
    SearchStarts(pool, size, parents, all, limits);
    var toProcess := parents;
    ancestors := {};
    var totalSize: int := size;
    while toProcess != {}
      invariant Searching(pool, size, parents, all, limits, ancestors, toProcess, totalSize)
      decreases all - ancestors, toProcess
    {
      var x :| x in toProcess;
      ok, ancestors, toProcess, totalSize := Stage(pool, size, parents, all, limits, ancestors, toProcess, totalSize,
        x);
      if !ok {
        return;
      }
    }
    SearchEnds(pool, size, parents, all, limits, ancestors, totalSize);
    ok := true;
  }

  /** Half way through the work list, nothing has gone over a limit. */
  ghost predicate Searching(pool: Pool, size: nat, parents: set<TxId>, all: set<TxId>, limits: Limits,
    ancestors: set<TxId>, toProcess: set<TxId>, totalSize: int)
  {
    && all <= pool.Keys && ParentClosed(pool, all) && Worklist(pool, parents, all, ancestors, toProcess)
    && ancestors <= all && Allowed(pool, size, ancestors, limits)
    && totalSize == size + Total(pool, SizeOf, ancestors)
  }

  lemma SearchStarts(pool: Pool, size: nat, parents: set<TxId>, all: set<TxId>, limits: Limits)
    requires ValidPool(pool) && parents <= pool.Keys && all == AncestorsOf(pool, parents)
    ensures Searching(pool, size, parents, all, limits, {}, parents, size)
  {
    hide AncestorsOf, ValidPool, ParentClosed;
    AncestorsOfClosed(pool, parents);
    AllowedNone(pool, size, limits);
  }

  lemma SearchEnds(pool: Pool, size: nat, parents: set<TxId>, all: set<TxId>, limits: Limits,
    ancestors: set<TxId>, totalSize: int)
    requires Searching(pool, size, parents, all, limits, ancestors, {}, totalSize)
    requires parents <= pool.Keys && all == AncestorsOf(pool, parents)
    ensures ancestors == all && Allowed(pool, size, all, limits)
  {
    hide AncestorsOf, Allowed, Total, ParentClosed;
    WorklistEnds(pool, parents, all, ancestors);
  }

  /** One entry of the work list. */
  method Stage(pool: Pool, size: nat, ghost parents: set<TxId>, ghost all: set<TxId>, limits: Limits,
    ancestors: set<TxId>, toProcess: set<TxId>, totalSize: int, x: TxId)
    returns (ok: bool, ancestors': set<TxId>, toProcess': set<TxId>, totalSize': int)
    requires Searching(pool, size, parents, all, limits, ancestors, toProcess, totalSize) && x in toProcess
    ensures all <= pool.Keys && (ok || !Allowed(pool, size, all, limits))
    ensures ok ==> Searching(pool, size, parents, all, limits, ancestors', toProcess', totalSize') && ancestors' <= all
    ensures ok ==> ancestors < ancestors' || (ancestors' == ancestors && toProcess' < toProcess)
  {
    hide Allowed, Total, ParentClosed, Worklist;
    WorklistNext(pool, parents, all, ancestors, toProcess, x);
    ok, ancestors', toProcess', totalSize' := true, ancestors, toProcess - {x}, totalSize;
    if x in ancestors {
      return;
    }
    AllowedShrinks(pool, size, ancestors + {x}, all, limits);
    ok, totalSize' := CheckOne(pool, size, ancestors, x, limits, totalSize);
    ancestors' := ancestors + {x};
    toProcess' := toProcess' + pool[x].parents;
  }

  /** The tests on one more ancestor. */
  method CheckOne(pool: Pool, size: nat, ancestors: set<TxId>, x: TxId, limits: Limits, totalSize: int)
    returns (ok: bool, total: int)
    requires ancestors <= pool.Keys && x in pool && x !in ancestors && Allowed(pool, size, ancestors, limits)
    requires totalSize == size + Total(pool, SizeOf, ancestors)
    ensures ok <==> Allowed(pool, size, ancestors + {x}, limits)
    ensures ok ==> total == size + Total(pool, SizeOf, ancestors + {x})
  {
    hide Total, Allowed, Exceeds;
    AllowedNext(pool, size, ancestors, x, limits);
    total := totalSize;
    if Exceeds(|ancestors| + 1, limits.ancestorCount) {
      return false, total;
    }
    total := total + pool[x].size;
    if Exceeds(total, limits.ancestorSize) {
      return false, total;
    }
    if Exceeds(pool[x].sizeWithDescendants + size, limits.descendantSize) {
      return false, total;
    }
    if Exceeds(pool[x].countWithDescendants + 1, limits.descendantCount) {
      return false, total;
    }
    ok := true;
  }

  /** Half way: what was found, and what is to be looked at, holds the parents and is closed. */
  ghost predicate Worklist(pool: Pool, parents: set<TxId>, all: set<TxId>, found: set<TxId>, toProcess: set<TxId>)
  {
    && found + toProcess <= all <= pool.Keys && parents <= found + toProcess
    && forall x | x in found :: pool[x].parents <= found + toProcess
  }

  lemma WorklistStarts(pool: Pool, parents: set<TxId>, all: set<TxId>)
    requires parents <= all <= pool.Keys
    ensures Worklist(pool, parents, all, {}, parents)
  {
  }

  lemma WorklistNext(pool: Pool, parents: set<TxId>, all: set<TxId>, found: set<TxId>, toProcess: set<TxId>, x: TxId)
    requires Worklist(pool, parents, all, found, toProcess) && x in toProcess && ParentClosed(pool, all)
    ensures x in all && found + {x} <= all <= pool.Keys
    ensures x in found ==> Worklist(pool, parents, all, found, toProcess - {x})
    ensures Worklist(pool, parents, all, found + {x}, toProcess - {x} + pool[x].parents)
  {
    assert x in all && pool[x].parents <= all;
    assert found + toProcess == found + {x} + (toProcess - {x});
  }

  lemma WorklistEnds(pool: Pool, parents: set<TxId>, all: set<TxId>, found: set<TxId>)
    requires Worklist(pool, parents, all, found, {}) && parents <= pool.Keys && all == AncestorsOf(pool, parents)
    ensures found == all
  {
    hide AncestorsOf;
    assert found + {} == found;
    AncestorsOfLeast(pool, parents, found);
  }

  lemma AllowedNone(pool: Pool, size: nat, limits: Limits)
    ensures Allowed(pool, size, {}, limits) && Total(pool, SizeOf, {}) == 0
  {
  }

  lemma AllowedNext(pool: Pool, size: nat, ancestors: set<TxId>, x: TxId, limits: Limits)
    requires ancestors <= pool.Keys && x in pool && x !in ancestors && Allowed(pool, size, ancestors, limits)
    ensures Total(pool, SizeOf, ancestors + {x}) == Total(pool, SizeOf, ancestors) + pool[x].size
    ensures Total(pool, SizeOf, ancestors) >= 0
    ensures Allowed(pool, size, ancestors + {x}, limits) <==>
      && !Exceeds(|ancestors| + 1, limits.ancestorCount)
      && !Exceeds(size + Total(pool, SizeOf, ancestors) + pool[x].size, limits.ancestorSize)
      && DescendantsAllowed(pool[x], size, limits)
  {
    hide DescendantsAllowed;
    TotalInsert(pool, SizeOf, ancestors, x);
    TotalMonotone(pool, SizeOf, {}, ancestors);
  }

  /** What is allowed for all ancestors is allowed for some of them. */
  lemma AllowedShrinks(pool: Pool, size: nat, some: set<TxId>, all: set<TxId>, limits: Limits)
    requires some <= all <= pool.Keys
    ensures Allowed(pool, size, all, limits) ==> Allowed(pool, size, some, limits)
  {
    SubsetCardinalityLeq(some, all);
    TotalMonotone(pool, SizeOf, some, all);
  }

  lemma AncestorsOfClosed(pool: Pool, parents: set<TxId>)
    requires ValidPool(pool) && parents <= pool.Keys
    ensures parents <= AncestorsOf(pool, parents) && ParentClosed(pool, AncestorsOf(pool, parents))
  {
    var all := AncestorsOf(pool, parents);
    forall x, q | x in all && q in pool[x].parents ensures q in all {
      var p :| p in parents && x in Ancestry(pool, p);
      AncestryClosed(pool, p);
    }
  }

  lemma AncestorsOfLeast(pool: Pool, parents: set<TxId>, c: set<TxId>)
    requires parents <= c && parents <= pool.Keys && ParentClosed(pool, c)
    ensures AncestorsOf(pool, parents) <= c
  {
  }

  /** For a transaction in the pool these are its ancestors without itself. */
  lemma AncestorsOfEntry(pool: Pool, t: TxId)
    requires ValidPool(pool) && t in pool
    ensures pool[t].parents <= pool.Keys
    ensures AncestorsOf(pool, pool[t].parents) == Ancestry(pool, t) - {t}
  {
    hide Ancestry, AncestorsOf;
    AncestorsCover(pool, t);
    var all := AncestorsOf(pool, pool[t].parents);
    forall a ensures a in all <==> a in Ancestry(pool, t) - {t} {
      ParentsAncestor(pool, t, a);
    }
  }

  lemma AncestorsCover(pool: Pool, t: TxId)
    requires ValidPool(pool) && t in pool
    ensures pool[t].parents <= pool.Keys
    ensures Ancestry(pool, t) <= AncestorsOf(pool, pool[t].parents) + {t}
  {
    assert pool[t].parents <= pool.Keys;
    hide ValidPool, Ancestry, AncestorsOf, ParentClosed;
    var all := AncestorsOf(pool, pool[t].parents);
    AncestorsOfClosed(pool, pool[t].parents);
    ClosedWith(pool, t, all);
    AncestryIsLeast(pool, t, all + {t});
  }

  lemma ClosedWith(pool: Pool, t: TxId, c: set<TxId>)
    requires t in pool && pool[t].parents <= c && ParentClosed(pool, c)
    ensures ParentClosed(pool, c + {t})
  {
    forall x | x in c + {t} && x in pool ensures pool[x].parents <= c + {t} {
      assert x == t || x in c;
      assert pool[x].parents <= c;
    }
  }

  lemma ParentsAncestor(pool: Pool, t: TxId, a: TxId)
    requires ValidPool(pool) && t in pool && pool[t].parents <= pool.Keys
    ensures a in AncestorsOf(pool, pool[t].parents) ==> a in Ancestry(pool, t) && a != t
  {
    AncestryClosed(pool, t);
    NotItsOwnAncestor(pool, t);
    hide ValidPool, Ancestry;
    if a in AncestorsOf(pool, pool[t].parents) {
      var p :| p in pool[t].parents && a in Ancestry(pool, p);
      AncestryTransitive(pool, p, t);
      AncestorCountDecreases(pool, p, t);
    }
  }

  lemma AlwaysAllowed(pool: Pool, size: nat, ancestors: set<TxId>)
    requires ancestors <= pool.Keys
    ensures Allowed(pool, size, ancestors, NO_LIMITS)
  {
    TotalMonotone(pool, SizeOf, {}, ancestors);
  }

  /** No ancestor of `t`, nor `t` itself, has `t` as a parent. */
  lemma NotItsOwnAncestor(pool: Pool, t: TxId)
    requires ValidPool(pool) && t in pool
    ensures forall x | x in Ancestry(pool, t) :: t !in pool[x].parents
  {
    forall x | x in Ancestry(pool, t) ensures t !in pool[x].parents {
      if x == t {
        var rank: map<TxId, nat> :| Ranks(pool, rank);
      } else {
        AncestorCountDecreases(pool, x, t);
        AncestryClosed(pool, x);
      }
    }
  }

  function Children(pool: Pool, t: TxId): set<TxId>
  {
    set c | c in pool && t in pool[c].parents
  }

  /** The worklist of CalculateDescendants: the result holds the entry itself. */
  method CalculateDescendants(pool: Pool, t: TxId) returns (descendants: set<TxId>)
    requires ValidPool(pool) && t in pool
    ensures descendants == Descent(pool, t)
  {
    descendants := {};
    var stage := {t};
    while stage != {}
      invariant descendants <= Descent(pool, t) && stage <= Descent(pool, t)
      invariant t in descendants + stage
      invariant forall x | x in descendants :: Children(pool, x) <= descendants + stage
      decreases Descent(pool, t) - descendants, stage
    {
      var x :| x in stage;
      ChildrenDescend(pool, t, x);
      descendants := descendants + {x};
      stage := stage - {x} + (Children(pool, x) - descendants);
    }
    DescentIsLeast(pool, t, descendants);
  }

  lemma ChildrenDescend(pool: Pool, t: TxId, x: TxId)
    requires ValidPool(pool) && x in Descent(pool, t)
    ensures Children(pool, x) <= Descent(pool, t)
  {
    forall c | c in Children(pool, x) ensures c in Descent(pool, t) {
      AncestryClosed(pool, c);
      AncestryTransitive(pool, x, c);
    }
  }

  /** A set closed under children that holds `t` holds every descendant of `t`: its
      complement is parent-closed. */
  lemma DescentIsLeast(pool: Pool, t: TxId, s: set<TxId>)
    requires ValidPool(pool) && t in s
    requires forall x | x in s :: Children(pool, x) <= s
    ensures Descent(pool, t) <= s
  {
    forall d | d in Descent(pool, t) ensures d in s {
      if d !in s {
        var rest := pool.Keys - s;
        forall x, p | x in rest && p in pool[x].parents ensures p in rest {
          assert p in s ==> x in Children(pool, p);
        }
        AncestryIsLeast(pool, d, rest);
      }
    }
  }

  // ---- Totals ----

  function SizeOf(e: TxEntry): int { e.size }
  function WeightOf(e: TxEntry): int { e.weight }
  function SigOpsOf(e: TxEntry): int { e.sigOpCost }
  function FeeOf(e: TxEntry): int { e.fee }
  function ModFeeOf(e: TxEntry): int { e.modFee }

  /** The sum of one figure over a set of entries. */
  ghost function Total(pool: Pool, f: TxEntry -> int, s: set<TxId>): int
    requires s <= pool.Keys
    decreases |s|
  {
    if s == {} then 0 else
      var x :| x in s;
      f(pool[x]) + Total(pool, f, s - {x})
  }

  lemma {:induction false} TotalRemove(pool: Pool, f: TxEntry -> int, s: set<TxId>, x: TxId)
    requires s <= pool.Keys && x in s
    ensures Total(pool, f, s) == f(pool[x]) + Total(pool, f, s - {x})
    decreases |s|
  {
    var y :| y in s && Total(pool, f, s) == f(pool[y]) + Total(pool, f, s - {y});
    if y != x {
      TotalRemove(pool, f, s - {y}, x);
      TotalRemove(pool, f, s - {x}, y);
      assert s - {y} - {x} == s - {x} - {y};
    }
  }

  lemma TotalInsert(pool: Pool, f: TxEntry -> int, s: set<TxId>, x: TxId)
    requires s <= pool.Keys && x in pool && x !in s
    ensures Total(pool, f, s + {x}) == Total(pool, f, s) + f(pool[x])
  {
    TotalRemove(pool, f, s + {x}, x);
    assert s + {x} - {x} == s;
  }

  lemma {:induction false} TotalUnion(pool: Pool, f: TxEntry -> int, s: set<TxId>, u: set<TxId>)
    requires s <= pool.Keys && u <= pool.Keys && s !! u
    ensures Total(pool, f, s + u) == Total(pool, f, s) + Total(pool, f, u)
    decreases |u|
  {
    if u == {} {
      assert s + u == s;
    } else {
      var x :| x in u;
      TotalUnion(pool, f, s, u - {x});
      TotalRemove(pool, f, u, x);
      TotalRemove(pool, f, s + u, x);
      assert s + u - {x} == s + (u - {x});
    }
  }

  /** A figure that is nowhere negative totals at least as much over a larger set. */
  lemma {:induction false} TotalMonotone(pool: Pool, f: TxEntry -> int, s: set<TxId>, u: set<TxId>)
    requires s <= u <= pool.Keys
    requires forall t | t in pool :: 0 <= f(pool[t])
    ensures 0 <= Total(pool, f, s) <= Total(pool, f, u)
    decreases |u|
  {
    if u != {} {
      var x :| x in u;
      TotalRemove(pool, f, u, x);
      if x in s {
        TotalRemove(pool, f, s, x);
        TotalMonotone(pool, f, s - {x}, u - {x});
      } else {
        TotalMonotone(pool, f, s, u - {x});
      }
    }
  }

  /** The figures every entry caches are the totals over its ancestry. */
  ghost predicate TotalsCached(pool: Pool)
  {
    forall t {:trigger CachedFor(pool, t)} | t in pool :: CachedFor(pool, t)
  }

  ghost predicate CachedFor(pool: Pool, t: TxId)
    requires t in pool
  {
    && pool[t].countWithAncestors == |Ancestry(pool, t)|
    && pool[t].sizeWithAncestors == Total(pool, SizeOf, Ancestry(pool, t))
    && pool[t].modFeesWithAncestors == Total(pool, ModFeeOf, Ancestry(pool, t))
    && pool[t].sigOpCostWithAncestors == Total(pool, SigOpsOf, Ancestry(pool, t))
  }

  /** The weight of a set of entries is covered by its virtual size. */
  lemma {:induction false} TotalWeight(pool: Pool, s: set<TxId>)
    requires ValidPool(pool) && s <= pool.Keys
    ensures Total(pool, WeightOf, s) <= WITNESS_SCALE_FACTOR * Total(pool, SizeOf, s)
    decreases |s|
  {
    if s != {} {
      var x :| x in s;
      TotalRemove(pool, WeightOf, s, x);
      TotalRemove(pool, SizeOf, s, x);
      TotalWeight(pool, s - {x});
    }
  }
}
