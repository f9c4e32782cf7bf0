/**
 One write-back layer of coins over a base: cache entries with their DIRTY and FRESH flags,
 the plain map of unspent outputs they stand for, and what each cache operation does to both.
 Layers stack: the plain map of one is the base of the next.
 */
module CoinsLayer {

  datatype OutPoint = OutPoint(hash: nat, n: nat)
  datatype TxOut = TxOut(value: nat, script: nat, unspendable: bool)
  datatype Coin = Spent | Unspent(out: TxOut, height: nat, coinBase: bool)
  datatype Entry = Entry(coin: Coin, dirty: bool, fresh_: bool)

  /** The plain view: unspent coins by outpoint. */
  type Utxo = map<OutPoint, Coin>
  type Cache = map<OutPoint, Entry>

  ghost predicate AllUnspent(v: Utxo)
  {
    forall op | op in v :: v[op].Unspent?
  }

  /** Writing one coin into a plain view. */
  function Write(v: Utxo, op: OutPoint, coin: Coin): Utxo
  {
    if coin.Spent? then v - {op} else v[op := coin]
  }

  /** What a cache shows on top of a base. */
  ghost function Overlay(base: Utxo, cache: Cache): Utxo
  {
    map op | op in base.Keys + cache.Keys && (op in cache ==> cache[op].coin.Unspent?) ::
      if op in cache then cache[op].coin else base[op]
  }

  /** A clean entry repeats the base; a FRESH one is about an output the base does not have. */
  ghost predicate EntryOk(base: Utxo, op: OutPoint, e: Entry)
  {
    && (!e.dirty ==> e.coin.Unspent? && op in base && base[op] == e.coin)
    && (e.fresh_ ==> op !in base)
  }

  ghost predicate LayerOk(base: Utxo, cache: Cache)
  {
    forall op | op in cache :: EntryOk(base, op, cache[op])
  }

  lemma OverlayUnspent(base: Utxo, cache: Cache)
    requires AllUnspent(base)
    ensures AllUnspent(Overlay(base, cache))
  {
  }

  lemma OverlayEmpty(base: Utxo)
    ensures Overlay(base, map[]) == base && LayerOk(base, map[])
  {
  }

  /** Setting an entry writes its coin. */
  lemma SetEntry(base: Utxo, cache: Cache, op: OutPoint, e: Entry)
    requires LayerOk(base, cache) && EntryOk(base, op, e)
    ensures LayerOk(base, cache[op := e])
    ensures Overlay(base, cache[op := e]) == Write(Overlay(base, cache), op, e.coin)
  {
    var cache' := cache[op := e];
    forall p | p in cache' ensures EntryOk(base, p, cache'[p]) {
      assert p != op ==> EntryOk(base, p, cache[p]);
    }
  }

  /** Dropping an entry shows the base again. */
  lemma DropEntry(base: Utxo, cache: Cache, op: OutPoint)
    requires LayerOk(base, cache)
    ensures LayerOk(base, cache - {op})
    ensures op !in base ==> Overlay(base, cache - {op}) == Overlay(base, cache) - {op}
    ensures op in cache && op in base && cache[op].coin == base[op] && base[op].Unspent? ==>
              Overlay(base, cache - {op}) == Overlay(base, cache)
  {
    var cache' := cache - {op};
    forall p | p in cache' ensures EntryOk(base, p, cache'[p]) {
      assert EntryOk(base, p, cache[p]);
    }
  }

  lemma WriteUnspent(v: Utxo, op: OutPoint, coin: Coin)
    requires AllUnspent(v)
    ensures AllUnspent(Write(v, op, coin))
  {
  }

  // ---- Reading ----

  /** FetchCoin: a miss copies the coin of the base into a clean entry. */
  function Fetched(base: Utxo, cache: Cache, op: OutPoint): Cache
  {
    if op !in cache && op in base then cache[op := Entry(base[op], false, false)] else cache
  }

  lemma FetchedView(base: Utxo, cache: Cache, op: OutPoint)
    requires AllUnspent(base)
    ensures Overlay(base, Fetched(base, cache, op)) == Overlay(base, cache)
  {
  }

  lemma FetchedKeeps(base: Utxo, cache: Cache, op: OutPoint)
    requires AllUnspent(base) && LayerOk(base, cache)
    ensures LayerOk(base, Fetched(base, cache, op))
    ensures Overlay(base, Fetched(base, cache, op)) == Overlay(base, cache)
  {
    if op !in cache && op in base {
      SetEntry(base, cache, op, Entry(base[op], false, false));
    }
  }

  // ---- Writing ----

  /** AddCoin: `Threw` stands for the exception. */
  datatype AddResult = Threw | Done(cache: Cache)

  function Added(cache: Cache, op: OutPoint, coin: Coin, possibleOverwrite: bool): AddResult
    requires coin.Unspent?
  {
    if coin.out.unspendable then Done(cache)
    else
      var was := if op in cache then cache[op] else Entry(Spent, false, false);
      if !possibleOverwrite && was.coin.Unspent? then Threw
      else Done(cache[op := Entry(coin, true, was.fresh_ || (!possibleOverwrite && !was.dirty))])
  }

  /** The contract of AddCoin: without `possibleOverwrite` there is no such coin yet. */
  ghost predicate MayAdd(base: Utxo, cache: Cache, op: OutPoint, possibleOverwrite: bool)
  {
    possibleOverwrite || op !in Overlay(base, cache)
  }

  /** Whether or not the contract is kept, an add that goes through shows the coin. */
  lemma AddedView(base: Utxo, cache: Cache, op: OutPoint, coin: Coin, possibleOverwrite: bool)
    requires coin.Unspent? && !coin.out.unspendable
    ensures var r := Added(cache, op, coin, possibleOverwrite);
      r.Done? ==> Overlay(base, r.cache) == Write(Overlay(base, cache), op, coin)
  {
  }

  lemma AddedKeeps(base: Utxo, cache: Cache, op: OutPoint, coin: Coin, possibleOverwrite: bool)
    requires LayerOk(base, cache) && coin.Unspent? && !coin.out.unspendable
    requires MayAdd(base, cache, op, possibleOverwrite)
    ensures var r := Added(cache, op, coin, possibleOverwrite);
      && r.Done? && LayerOk(base, r.cache)
      && Overlay(base, r.cache) == Write(Overlay(base, cache), op, coin)
  {
    assert op in cache ==> EntryOk(base, op, cache[op]);
    SetEntry(base, cache, op, Added(cache, op, coin, possibleOverwrite).cache[op]);
  }

  /** SpendCoin after the fetch: a FRESH entry is dropped, any other is marked spent. */
  function SpentIn(cache: Cache, op: OutPoint): Cache
    requires op in cache
  {
    if cache[op].fresh_ then cache - {op} else cache[op := cache[op].(coin := Spent, dirty := true)]
  }

  /** Breaking the contract is noticed only when the coin is cached; otherwise AddCoin goes through,
      shows the new coin, and marks FRESH what the base still has.  The damage shows when the new coin
      is spent: it is then gone if and only if the contract was kept, and otherwise the coin of the
      base comes back. */
  lemma AddContractIsNeeded(base: Utxo, cache: Cache, op: OutPoint, coin: Coin)
    requires LayerOk(base, cache) && coin.Unspent? && !coin.out.unspendable
    ensures var r := Added(cache, op, coin, false);
      && (r.Threw? <==> op in cache && cache[op].coin.Unspent?)
      && (r.Done? ==> Overlay(base, r.cache) == Write(Overlay(base, cache), op, coin))
      && (r.Done? ==> (LayerOk(base, r.cache) <==> MayAdd(base, cache, op, false)))
      && (r.Done? ==> (op !in Overlay(base, SpentIn(r.cache, op)) <==> MayAdd(base, cache, op, false)))
      && (r.Done? && !MayAdd(base, cache, op, false) ==>
            op in base && op in Overlay(base, SpentIn(r.cache, op))
              && Overlay(base, SpentIn(r.cache, op))[op] == base[op])
  {
    var r := Added(cache, op, coin, false);
    if r.Done? {
      assert op in cache ==> EntryOk(base, op, cache[op]);
      if !MayAdd(base, cache, op, false) {
        assert op in base && op !in cache;
        assert !EntryOk(base, op, r.cache[op]);
      } else {
        AddedKeeps(base, cache, op, coin, false);
      }
    }
  }

  lemma SpentKeeps(base: Utxo, cache: Cache, op: OutPoint)
    requires LayerOk(base, cache) && op in cache
    ensures LayerOk(base, SpentIn(cache, op))
    ensures Overlay(base, SpentIn(cache, op)) == Overlay(base, cache) - {op}
  {
    assert EntryOk(base, op, cache[op]);
    if cache[op].fresh_ {
      DropEntry(base, cache, op);
    } else {
      SetEntry(base, cache, op, SpentIn(cache, op)[op]);
    }
  }

  /** Uncache drops an entry without flags. */
  function Uncached(cache: Cache, op: OutPoint): Cache
  {
    if op in cache && !cache[op].dirty && !cache[op].fresh_ then cache - {op} else cache
  }

  lemma UncachedKeeps(base: Utxo, cache: Cache, op: OutPoint)
    requires LayerOk(base, cache)
    ensures LayerOk(base, Uncached(cache, op))
    ensures Overlay(base, Uncached(cache, op)) == Overlay(base, cache)
  {
    if op in cache {
      assert EntryOk(base, op, cache[op]);
      DropEntry(base, cache, op);
    }
  }

  // ---- Writing back ----

  /** The entries that a database takes. */
  function DirtyOf(cache: Cache): Cache
  {
    map op | op in cache && cache[op].dirty :: cache[op]
  }

  /** Over a consistent layer they are all that matters. */
  lemma DirtyShows(base: Utxo, cache: Cache)
    requires LayerOk(base, cache)
    ensures Overlay(base, DirtyOf(cache)) == Overlay(base, cache)
  {
    forall op | op in cache ensures EntryOk(base, op, cache[op]) {
    }
  }

  /** Writing one of them into the database does not change what is to come of all. */
  lemma DirtyNext(base: Utxo, rest: Cache, op: OutPoint)
    requires op in rest
    ensures var base' := if rest[op].dirty then Write(base, op, rest[op].coin) else base;
      Overlay(base', DirtyOf(rest - {op})) == Overlay(base, DirtyOf(rest))
  {
    var base' := if rest[op].dirty then Write(base, op, rest[op].coin) else base;
    assert DirtyOf(rest - {op}) == DirtyOf(rest) - {op};
  }

  /** One entry of a child written into the cache below it (BatchWrite). */
  function Merged(cache: Cache, op: OutPoint, e: Entry): AddResult
  {
    if !e.dirty then Done(cache)
    else if op !in cache then
      (if e.fresh_ && e.coin.Spent? then Done(cache) else Done(cache[op := Entry(e.coin, true, e.fresh_)]))
    else if e.fresh_ && cache[op].coin.Unspent? then Threw
    else if cache[op].fresh_ && e.coin.Spent? then Done(cache - {op})
    else Done(cache[op := cache[op].(coin := e.coin, dirty := true)])
  }

  lemma MergedKeeps(base: Utxo, cache: Cache, op: OutPoint, e: Entry)
    requires LayerOk(base, cache) && EntryOk(Overlay(base, cache), op, e)
    ensures var r := Merged(cache, op, e);
      && r.Done? && LayerOk(base, r.cache)
      && Overlay(base, r.cache) == Write(Overlay(base, cache), op, e.coin)
  {
    hide Overlay, LayerOk;
    OverlayAt(base, cache, op);
    var r := Merged(cache, op, e);
    if !e.dirty || (op !in cache && e.fresh_ && e.coin.Spent?) {
      assert Write(Overlay(base, cache), op, e.coin) == Overlay(base, cache);
    } else if op in cache && cache[op].fresh_ && e.coin.Spent? {
      DropEntry(base, cache, op);
    } else {
      SetEntry(base, cache, op, r.cache[op]);
    }
  }

  /** What a layer shows at one outpoint, and what its entry there says. */
  lemma OverlayShows(base: Utxo, cache: Cache, op: OutPoint)
    ensures op in Overlay(base, cache) <==> if op in cache then cache[op].coin.Unspent? else op in base
    ensures op in Overlay(base, cache) ==> Overlay(base, cache)[op] == if op in cache then cache[op].coin else base[op]
  {
  }

  lemma OverlayAt(base: Utxo, cache: Cache, op: OutPoint)
    requires LayerOk(base, cache)
    ensures op in Overlay(base, cache) <==> if op in cache then cache[op].coin.Unspent? else op in base
    ensures op in Overlay(base, cache) ==> Overlay(base, cache)[op] == if op in cache then cache[op].coin else base[op]
    ensures op in cache ==> EntryOk(base, op, cache[op])
  {
    hide Overlay;
    OverlayShows(base, cache, op);
  }

  /** Writing one child entry down does not change what the remaining entries show, and the
      remaining entries stay consistent with the changed base. */
  lemma RestUnaffected(base: Utxo, rest: Cache, op: OutPoint)
    requires LayerOk(base, rest) && op in rest
    ensures var base' := Write(base, op, rest[op].coin);
      && LayerOk(base', rest - {op})
      && Overlay(base', rest - {op}) == Overlay(base, rest)
  {
    var base' := Write(base, op, rest[op].coin);
    var rest' := rest - {op};
    forall p | p in rest' ensures EntryOk(base', p, rest'[p]) {
      assert EntryOk(base, p, rest[p]);
    }
  }

  /** All entries of a child, written down in the order the iteration happens to visit them. */
  function MergedAll(cache: Cache, child: Cache, order: seq<OutPoint>): AddResult
    requires forall i | 0 <= i < |order| :: order[i] in child
    decreases |order|
  {
    if order == [] then Done(cache)
    else
      match Merged(cache, order[0], child[order[0]])
      case Threw => Threw
      case Done(cache') => MergedAll(cache', child, order[1..])
  }

  /** `order` visits every entry exactly once. */
  ghost predicate Visits(order: seq<OutPoint>, child: Cache)
  {
    && (forall i | 0 <= i < |order| :: order[i] in child)
    && (forall op | op in child :: op in order)
    && (forall i, j | 0 <= i < j < |order| :: order[i] != order[j])
  }

  lemma VisitsTail(order: seq<OutPoint>, child: Cache)
    requires Visits(order, child) && order != []
    ensures Visits(order[1..], child - {order[0]})
  {
    var rest := child - {order[0]};
    forall op | op in rest ensures op in order[1..] {
      assert op in order && op != order[0];
    }
  }

  /** Whatever the order, writing a consistent child down throws nothing and makes the layer show
      what the child showed. */
  lemma {:induction false} MergedAllKeeps(base: Utxo, cache: Cache, child: Cache, order: seq<OutPoint>)
    requires LayerOk(base, cache) && LayerOk(Overlay(base, cache), child) && Visits(order, child)
    ensures var r := MergedAll(cache, child, order);
      && r.Done? && LayerOk(base, r.cache)
      && Overlay(base, r.cache) == Overlay(Overlay(base, cache), child)
    decreases |order|
  {
    hide Overlay, LayerOk;
    if order == [] {
      assert child == map[] by {
        forall op ensures op !in child {}
      }
      OverlayEmpty(Overlay(base, cache));
    } else {
      var op := order[0];
      var view := Overlay(base, cache);
      OverlayAt(view, child, op);
      RestUnaffected(view, child, op);
      MergedKeeps(base, cache, op, child[op]);
      VisitsTail(order, child);
      var cache' := Merged(cache, op, child[op]).cache;
      MergedAllKeeps(base, cache', child - {op}, order[1..]);
      MergedAllDepends(cache', child, child - {op}, order[1..]);
    }
  }

  lemma {:induction false} MergedAllDepends(cache: Cache, child: Cache, child': Cache, order: seq<OutPoint>)
    requires forall i | 0 <= i < |order| ::
      order[i] in child && order[i] in child' && child[order[i]] == child'[order[i]]
    ensures MergedAll(cache, child, order) == MergedAll(cache, child', order)
    decreases |order|
  {
    if order != [] {
      match Merged(cache, order[0], child[order[0]])
      case Threw =>
      case Done(cache') => MergedAllDepends(cache', child, child', order[1..]);
    }
  }

  /** A child's entry says FRESH of an output that the layer itself holds unspent. */
  ghost predicate Misflagged(cache: Cache, op: OutPoint, e: Entry)
  {
    e.dirty && e.fresh_ && op in cache && cache[op].coin.Unspent?
  }

  ghost predicate AnyMisflagged(cache: Cache, child: Cache)
  {
    exists op :: op in child && Misflagged(cache, op, child[op])
  }

  /** Writing one entry down says nothing about another output. */
  lemma MergedElsewhere(cache: Cache, op: OutPoint, e: Entry, op': OutPoint, e': Entry)
    requires op != op' && Merged(cache, op, e).Done?
    ensures Misflagged(Merged(cache, op, e).cache, op', e') <==> Misflagged(cache, op', e')
  {
  }

  /** Writing a child down throws if and only if some entry of it was misflagged, whatever the order
      and whatever else the child holds. */
  lemma {:induction false} MergeThrows(cache: Cache, child: Cache, order: seq<OutPoint>)
    requires Visits(order, child)
    ensures MergedAll(cache, child, order).Threw? <==> AnyMisflagged(cache, child)
    decreases |order|
  {
    hide Misflagged;
    if order == [] {
      assert child == map[] by {
        forall op ensures op !in child {}
      }
    } else {
      var op0 := order[0];
      var r := Merged(cache, op0, child[op0]);
      ThrowsHere(cache, op0, child[op0]);
      if r.Done? {
        VisitsTail(order, child);
        MergeThrows(r.cache, child - {op0}, order[1..]);
        MergedAllDepends(r.cache, child, child - {op0}, order[1..]);
        forall op | op in child && op != op0
          ensures Misflagged(r.cache, op, child[op]) <==> Misflagged(cache, op, child[op])
        {
          MergedElsewhere(cache, op0, child[op0], op, child[op]);
        }
      }
    }
  }

  lemma ThrowsHere(cache: Cache, op: OutPoint, e: Entry)
    ensures Merged(cache, op, e).Threw? <==> Misflagged(cache, op, e)
  {
  }

  /** After an add on top of a consistent layer, an entry is misflagged if and only if the contract was
      broken and the layer below holds the coin in its own cache. */
  lemma BrokenAddMisflags(base: Utxo, cache: Cache, child: Cache, op: OutPoint, coin: Coin)
    requires LayerOk(base, cache) && LayerOk(Overlay(base, cache), child) && coin.Unspent? && !coin.out.unspendable
    requires Added(child, op, coin, false).Done?
    ensures AnyMisflagged(cache, Added(child, op, coin, false).cache) <==>
      !MayAdd(Overlay(base, cache), child, op, false) && op in cache
  {
    hide LayerOk, Overlay;
    var r := Added(child, op, coin, false);
    forall p | p in child ensures !Misflagged(cache, p, child[p]) {
      OverlayAt(Overlay(base, cache), child, p);
      OverlayAt(base, cache, p);
    }
    OverlayAt(base, cache, op);
    OverlayAt(Overlay(base, cache), child, op);
    assert Misflagged(cache, op, r.cache[op]) <==> !MayAdd(Overlay(base, cache), child, op, false) && op in cache;
    assert forall p | p in r.cache && p != op :: r.cache[p] == child[p];
  }

  /** So the next flush throws exactly then. */
  lemma BrokenAddThrows(base: Utxo, cache: Cache, child: Cache, op: OutPoint, coin: Coin, order: seq<OutPoint>)
    requires LayerOk(base, cache) && LayerOk(Overlay(base, cache), child) && coin.Unspent? && !coin.out.unspendable
    requires Added(child, op, coin, false).Done? && Visits(order, Added(child, op, coin, false).cache)
    ensures MergedAll(cache, Added(child, op, coin, false).cache, order).Threw? <==>
      !MayAdd(Overlay(base, cache), child, op, false) && op in cache
  {
    hide Visits, MergedAll, LayerOk, Overlay, Added, Misflagged;
    MergeThrows(cache, Added(child, op, coin, false).cache, order);
    BrokenAddMisflags(base, cache, child, op, coin);
  }

  /** Such a run: the lower cache has read a coin, the upper cache adds it again unasked. */
  lemma BrokenAddExample(op: OutPoint, coin: Coin)
    requires coin.Unspent? && !coin.out.unspendable
    ensures var base: Utxo, lower := map[op := coin], Fetched(map[op := coin], map[], op);
      var r := Added(map[], op, coin, false);
      && LayerOk(base, lower) && LayerOk(Overlay(base, lower), map[])
      && r.Done? && Visits([op], r.cache) && MergedAll(lower, r.cache, [op]).Threw?
      && op in Overlay(Overlay(base, lower), SpentIn(r.cache, op))
  {
    var base: Utxo, lower := map[op := coin], Fetched(map[op := coin], map[], op);
    var r := Added(map[], op, coin, false);
    assert r.cache == map[op := Entry(coin, true, true)];
    assert Visits([op], r.cache);
    assert Merged(lower, op, r.cache[op]).Threw?;
  }
}
