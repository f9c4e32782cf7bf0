/**
 CCoinsViewCache: caches linked to the view below them, down to a database.  Each operation is
 proved to act on the plain map of unspent outputs that the cache stands for.
 */
module Coins {
  import opened CoinsLayer

  /** The best-block marker that means "ask the view below". */
  const NULL_HASH: nat := 0

  /** The coin database at the bottom of a stack: it holds unspent coins only. */
  class CoinsViewDB {
    var coins: Utxo
    var hashBlock: nat

    constructor (coins: Utxo, hashBlock: nat)
      ensures this.coins == coins && this.hashBlock == hashBlock
    {
      this.coins, this.hashBlock := coins, hashBlock;
    }

    method GetCoin(op: OutPoint) returns (found: bool, coin: Coin)
      ensures found <==> op in coins
      ensures coin == if found then coins[op] else Spent
    {
      found, coin := op in coins, Spent;
      if found {
        coin := coins[op];
      }
    }

    /** Takes the dirty entries, whatever they are. */
    method BatchWrite(mapCoins: Cache, hashBlock: nat)
      requires AllUnspent(coins) && hashBlock != NULL_HASH
      modifies this
      ensures coins == Overlay(old(coins), DirtyOf(mapCoins)) && AllUnspent(coins) && this.hashBlock == hashBlock
      ensures LayerOk(old(coins), mapCoins) ==> coins == Overlay(old(coins), mapCoins)
    {
      hide Overlay, LayerOk, AllUnspent, DirtyOf;
      var rest := mapCoins;
      while rest != map[]
        invariant AllUnspent(coins)
        invariant Overlay(coins, DirtyOf(rest)) == Overlay(old(coins), DirtyOf(mapCoins))
        decreases |rest|
      {
        var op :| op in rest;
        var e := rest[op];
        DirtyNext(coins, rest, op);
        WriteUnspent(coins, op, e.coin);
        if e.dirty {
          coins := if e.coin.Spent? then coins - {op} else coins[op := e.coin];
        }
        rest := rest - {op};
      }
      NothingDirty();
      OverlayEmpty(coins);
      if LayerOk(old(coins), mapCoins) {
        DirtyShows(old(coins), mapCoins);
      }
      this.hashBlock := hashBlock;
    }
  }

  lemma NothingDirty()
    ensures DirtyOf(map[]) == map[]
  {
  }

  class CoinsViewCache {
    /** The view below is another cache, or the database when there is none. */
    const below: CoinsViewCache?
    const db: CoinsViewDB
    ghost const depth: nat
    var cacheCoins: Cache
    var hashBlock: nat

    ghost predicate Linked()
      decreases depth
    {
      && (below == null ==> depth == 0)
      && (below != null ==> depth == below.depth + 1 && below.db == db && below.Linked())
    }

    /** The objects of the stack from here down. */
    ghost function Footprint(): (s: set<object>)
      requires Linked()
      decreases depth
      ensures this in s && db in s
      ensures forall c: CoinsViewCache | c in s :: c.depth <= depth
    {
      {this, db} + (if below == null then {} else below.Footprint())
    }

    /** The plain views of the whole stack: the database first, this cache last. */
    ghost function Views(): (vs: seq<Utxo>)
      requires Linked()
      reads Footprint()
      decreases depth
      ensures |vs| == depth + 2
    {
      var lower := if below == null then [db.coins] else below.Views();
      lower + [Overlay(lower[depth], cacheCoins)]
    }

    /** The plain view this cache stands for, and the one it was put on. */
    ghost function View(): Utxo
      requires Linked()
      reads Footprint()
    {
      Views()[depth + 1]
    }

    ghost function Base(): Utxo
      requires Linked()
      reads Footprint()
    {
      Views()[depth]
    }

    /** The best block this cache stands for, and the one it was put on. */
    ghost function Best(): nat
      requires Linked()
      reads Footprint()
      decreases depth, 1
    {
      if hashBlock != NULL_HASH then hashBlock else BestBelow()
    }

    ghost function BestBelow(): nat
      requires Linked()
      reads Footprint()
      decreases depth, 0
    {
      if below == null then db.hashBlock else below.Best()
    }

    /** Everything below this cache is consistent. */
    ghost predicate Rests()
      requires Linked()
      reads Footprint()
      decreases depth, 0
    {
      AllUnspent(Base()) && (below != null ==> below.Valid())
    }

    ghost predicate Valid()
      requires Linked()
      reads Footprint()
      decreases depth, 1
    {
      Rests() && LayerOk(Base(), cacheCoins)
    }

    constructor (below: CoinsViewCache?, db: CoinsViewDB)
      requires below != null ==> below.Linked() && below.Valid() && below.db == db
      requires below == null ==> AllUnspent(db.coins)
      ensures Linked() && Valid() && cacheCoins == map[] && this.below == below && this.db == db
      ensures Views() == (if below == null then [db.coins, db.coins] else below.Views() + [below.View()])
      ensures Best() == BestBelow()
    {
      if below != null {
        below.ViewUnspent();
      }
      this.below := below;
      this.db := db;
      depth := if below == null then 0 else below.depth + 1;
      cacheCoins, hashBlock := map[], NULL_HASH;
      new;
      assert below != null ==> this !in below.Footprint();
      OverlayEmpty(Base());
    }

    lemma ViewIs()
      requires Linked()
      ensures View() == Overlay(Base(), cacheCoins)
      ensures Valid() <==> Rests() && LayerOk(Base(), cacheCoins)
    {
    }

    /** The top two layers. */
    lemma LayersBelow()
      requires Linked() && Valid() && below != null
      ensures below.Linked() && below.Valid() && LayerOk(below.Base(), below.cacheCoins)
      ensures Base() == Overlay(below.Base(), below.cacheCoins) && LayerOk(Base(), cacheCoins)
      ensures View() == Overlay(Base(), cacheCoins)
    {
    }

    lemma ViewUnspent()
      requires Linked() && Valid()
      ensures AllUnspent(View())
    {
      OverlayUnspent(Base(), cacheCoins);
    }

    /** Every change of the cache map goes through here: the views below do not depend on it. */
    method SetCache(cache: Cache)
      requires Linked() && Rests()
      modifies this`cacheCoins
      ensures Rests()
      ensures Valid() <==> LayerOk(old(Base()), cache)
      ensures cacheCoins == cache && Base() == old(Base()) && Best() == old(Best()) && BestBelow() == old(BestBelow())
      ensures Views() == old(Views())[depth + 1 := Overlay(old(Base()), cache)]
    {
      cacheCoins := cache;
      assert below != null ==> this !in below.Footprint();
    }

    method SetBestBlock(hash: nat)
      requires Linked()
      modifies this`hashBlock
      ensures Valid() == old(Valid()) && Rests() == old(Rests()) && Views() == old(Views()) && hashBlock == hash
      ensures BestBelow() == old(BestBelow()) && Best() == if hash != NULL_HASH then hash else old(BestBelow())
    {
      hashBlock := hash;
      assert below != null ==> this !in below.Footprint();
    }

    method GetBestBlock() returns (hash: nat)
      requires Linked() && Valid()
      modifies Footprint()
      decreases depth
      ensures Valid() && Views() == old(Views()) && hash == old(Best()) == Best() == hashBlock
    {
      hash := hashBlock;
      if hash == NULL_HASH {
        if below == null {
          hash := db.hashBlock;
        } else {
          hash := below.GetBestBlock();
        }
        hashBlock := hash;
        assert below != null ==> this !in below.Footprint();
      }
    }

    method FetchCoin(op: OutPoint) returns (found: bool)
      requires Linked() && Rests()
      modifies Footprint()
      decreases depth, 0
      ensures Rests() && (old(Valid()) ==> Valid()) && Views() == old(Views())
      ensures found <==> op in cacheCoins
      ensures cacheCoins == Fetched(old(Base()), old(cacheCoins), op)
    {
      hide Overlay, LayerOk, AllUnspent;
      if op in cacheCoins {
        return true;
      }
      UnspentAt(Base(), op);
      FetchedView(Base(), cacheCoins, op);
      if Valid() {
        FetchedKeeps(Base(), cacheCoins, op);
      }
      var ok, tmp;
      if below == null {
        ok, tmp := db.GetCoin(op);
      } else {
        ok, tmp := below.GetCoin(op);
      }
      if !ok {
        return false;
      }
      var e := Entry(tmp, false, false);
      if tmp.Spent? {
        e := e.(fresh_ := true);
      }
      SetCache(cacheCoins[op := e]);
      return true;
    }

    method GetCoin(op: OutPoint) returns (ok: bool, coin: Coin)
      requires Linked() && Rests()
      modifies Footprint()
      decreases depth, 1
      ensures Rests() && (old(Valid()) ==> Valid()) && Views() == old(Views())
      ensures ok <==> op in View()
      ensures ok ==> coin == View()[op]
    {
      coin := Spent;
      var found := FetchCoin(op);
      OverlayShows(Base(), cacheCoins, op);
      if found {
        coin := cacheCoins[op].coin;
        return coin.Unspent?, coin;
      }
      return false, coin;
    }

    method HaveCoin(op: OutPoint) returns (have: bool)
      requires Linked() && Rests()
      modifies Footprint()
      ensures Rests() && (old(Valid()) ==> Valid()) && Views() == old(Views())
      ensures have <==> op in View()
    {
      var found := FetchCoin(op);
      OverlayShows(Base(), cacheCoins, op);
      return found && cacheCoins[op].coin.Unspent?;
    }

    /** AddCoin: `threw` stands for the exception "Adding new coin that replaces non-pruned entry".
        The cache stays consistent if and only if nothing was added or the caller kept the overwrite
        contract. */
    method AddCoin(op: OutPoint, coin: Coin, possibleOverwrite: bool) returns (threw: bool)
      requires Linked() && Rests() && coin.Unspent?
      modifies this
      ensures threw <==>
        !coin.out.unspendable && !possibleOverwrite && op in old(cacheCoins) && old(cacheCoins)[op].coin.Unspent?
      ensures threw ==> op in old(View())
      ensures cacheCoins == if threw then old(cacheCoins) else Added(old(cacheCoins), op, coin, possibleOverwrite).cache
      ensures Rests() && Best() == old(Best())
      ensures old(Valid()) ==>
        (Valid() <==> threw || coin.out.unspendable || possibleOverwrite || op !in old(View()))
      ensures Views() == old(Views())[depth + 1 :=
        if threw || coin.out.unspendable then old(View()) else Write(old(View()), op, coin)]
    {
      hide Overlay, LayerOk, MayAdd, AllUnspent;
      threw := false;
      ViewIs();
      OverlayShows(Base(), cacheCoins, op);
      if coin.out.unspendable {
        return;
      }
      AddedView(Base(), cacheCoins, op, coin, possibleOverwrite);
      if Valid() {
        AddedConsistent(Base(), cacheCoins, op, coin, possibleOverwrite);
      }
      var e := if op in cacheCoins then cacheCoins[op] else Entry(Spent, false, false);
      var isFresh := false;
      if !possibleOverwrite {
        if e.coin.Unspent? {
          return true;
        }
        isFresh := !e.dirty;
      }
      SetCache(cacheCoins[op := Entry(coin, true, e.fresh_ || isFresh)]);
    }

    /** SpendCoin: also true for a coin that is cached as spent already. */
    method SpendCoin(op: OutPoint) returns (ok: bool, moveout: Coin)
      requires Linked() && Valid()
      modifies Footprint()
      ensures Valid() && Views() == old(Views())[depth + 1 := old(View()) - {op}]
      ensures ok <==> old(op in cacheCoins || op in Base())
      ensures moveout == if op in old(View()) then old(View())[op] else Spent
    {
      hide Overlay, LayerOk;
      moveout := Spent;
      ok := FetchCoin(op);
      OverlayAt(Base(), cacheCoins, op);
      if !ok {
        assert View() - {op} == View();
        return;
      }
      SpentKeeps(Base(), cacheCoins, op);
      moveout := cacheCoins[op].coin;
      if cacheCoins[op].fresh_ {
        SetCache(cacheCoins - {op});
      } else {
        SetCache(cacheCoins[op := cacheCoins[op].(coin := Spent, dirty := true)]);
      }
    }

    method Uncache(op: OutPoint)
      requires Linked() && Valid()
      modifies this
      ensures Valid() && Views() == old(Views())
      ensures cacheCoins == Uncached(old(cacheCoins), op)
    {
      hide Overlay, LayerOk;
      UncachedKeeps(Base(), cacheCoins, op);
      if op in cacheCoins && !cacheCoins[op].dirty && !cacheCoins[op].fresh_ {
        SetCache(cacheCoins - {op});
      }
    }

    /** BatchWrite: the entries of a child come in in any order.  `threw` stands for the exception
        "FRESH flag misapplied"; a consistent child never causes it. */
    method BatchWrite(mapCoins: Cache, hashBlockIn: nat) returns (threw: bool)
      requires Linked() && Valid()
      modifies this
      ensures Linked() && Rests()
      ensures threw <==> AnyMisflagged(old(cacheCoins), mapCoins)
      ensures LayerOk(old(View()), mapCoins) ==> !threw && Valid() && Base() == old(Base())
      ensures LayerOk(old(View()), mapCoins) ==> Views() == old(Views())[depth + 1 := Overlay(old(View()), mapCoins)]
      ensures !threw ==> hashBlock == hashBlockIn && BestBelow() == old(BestBelow())
    {
      hide Overlay, LayerOk, AllUnspent, Misflagged, Merges, Merging, Merged;
      hide CoinsViewCache.Valid, CoinsViewCache.Rests, CoinsViewCache.Views;
      ViewIs();
      ghost var base, view := Base(), View();
      ghost var consistent := LayerOk(view, mapCoins);
      var before := cacheCoins;
      var cache, rest := before, mapCoins;
      threw := false;
      MergesStarts(base, mapCoins, before);
      while rest != map[] && !threw
        invariant Valid() && Rests() && cacheCoins == before
        invariant Views() == old(Views()) && BestBelow() == old(BestBelow())
        invariant if threw then AnyMisflagged(before, mapCoins) else Merging(before, mapCoins, cache, rest)
        invariant consistent ==> !threw && Merges(base, view, mapCoins, cache, rest)
        decreases !threw, |rest|
      {
        var op :| op in rest;
        MergingNext(before, mapCoins, cache, rest, op);
        if consistent {
          MergesNext(base, view, mapCoins, cache, rest, op);
        }
        match Merged(cache, op, rest[op])
        case Threw => threw := true;
        case Done(cache') => cache := cache';
        rest := rest - {op};
      }
      MergingEnds(base, view, before, mapCoins, cache);
      SetCache(cache);
      if !threw {
        SetBestBlock(hashBlockIn);
      }
    }

    /** Flush: throws if and only if an entry is misflagged, and then leaves this cache as it was.
        Otherwise the view below becomes what this cache showed, if the cache was consistent, and this
        cache goes on showing it.  The best block is carried down only if this cache has its own: without
        one, the mark below is lost. */
    method Flush() returns (threw: bool)
      requires Linked() && Rests() && (below == null ==> hashBlock != NULL_HASH)
      modifies Footprint()
      ensures threw <==> below != null && AnyMisflagged(old(below.cacheCoins), old(cacheCoins))
      ensures old(Valid()) ==> !threw && Valid() && Views() == old(Views())[depth := old(View())]
      ensures below == null ==> db.coins == Overlay(old(db.coins), DirtyOf(old(cacheCoins)))
      ensures cacheCoins == if threw then old(cacheCoins) else map[]
      ensures !threw ==> Best() == if old(hashBlock) != NULL_HASH then old(Best()) else old(below.BestBelow())
    {
      hide Overlay, LayerOk, AllUnspent, AnyMisflagged, DirtyOf;
      ViewIs();
      OverlayUnspent(Base(), cacheCoins);
      if below == null {
        threw := FlushToDb();
      } else {
        threw := FlushToCache();
      }
    }

    method FlushToDb() returns (threw: bool)
      requires Linked() && Rests() && below == null && hashBlock != NULL_HASH
      modifies Footprint()
      ensures !threw && cacheCoins == map[] && db.coins == Overlay(old(db.coins), DirtyOf(old(cacheCoins)))
      ensures old(Valid()) ==> Valid() && Views() == old(Views())[depth := old(View())]
      ensures Best() == old(Best())
    {
      hide Overlay, LayerOk, AllUnspent, DirtyOf;
      db.BatchWrite(cacheCoins, hashBlock);
      cacheCoins := map[];
      OverlayEmpty(db.coins);
      threw := false;
    }

    method FlushToCache() returns (threw: bool)
      requires Linked() && Rests() && below != null
      modifies Footprint()
      ensures threw <==> AnyMisflagged(old(below.cacheCoins), old(cacheCoins))
      ensures old(Valid()) ==> !threw && Valid() && Views() == old(Views())[depth := old(View())]
      ensures cacheCoins == if threw then old(cacheCoins) else map[]
      ensures !threw ==> Best() == if old(hashBlock) != NULL_HASH then old(Best()) else old(below.BestBelow())
    {
      hide Overlay, LayerOk, AllUnspent, AnyMisflagged;
      ghost var view, consistent := View(), Valid();
      OverlayUnspent(Base(), cacheCoins);
      threw := below.BatchWrite(cacheCoins, hashBlock);
      if threw {
        return;
      }
      ghost var lower := below.BestBelow();
      cacheCoins := map[];
      assert this !in below.Footprint();
      assert below.BestBelow() == lower && below.hashBlock == hashBlock;
      assert hashBlock == NULL_HASH ==> below.Best() == lower;
      OverlayEmpty(view);
    }
  }

  lemma UnspentAt(v: Utxo, op: OutPoint)
    requires AllUnspent(v)
    ensures op in v ==> v[op].Unspent?
  {
  }

  lemma AddedConsistent(base: Utxo, cache: Cache, op: OutPoint, coin: Coin, possibleOverwrite: bool)
    requires LayerOk(base, cache) && coin.Unspent? && !coin.out.unspendable
    ensures var r := Added(cache, op, coin, possibleOverwrite);
      r.Done? ==> (LayerOk(base, r.cache) <==> possibleOverwrite || op !in Overlay(base, cache))
  {
    hide Overlay, LayerOk;
    if MayAdd(base, cache, op, possibleOverwrite) {
      AddedKeeps(base, cache, op, coin, possibleOverwrite);
    } else {
      AddContractIsNeeded(base, cache, op, coin);
    }
  }

  /** Adding a coin unasked and flushing: the flush throws if and only if the coin was there already, this
      cache did not notice, and the cache below has it. */
  method AddThenFlush(cache: CoinsViewCache, op: OutPoint, coin: Coin) returns (addThrew: bool, flushThrew: bool)
    requires cache.Linked() && cache.Valid() && cache.below != null && coin.Unspent? && !coin.out.unspendable
    modifies cache.Footprint()
    ensures addThrew <==> op in old(cache.cacheCoins) && old(cache.cacheCoins)[op].coin.Unspent?
    ensures flushThrew <==> !addThrew && op in old(cache.View()) && op in old(cache.below.cacheCoins)
  {
    hide Overlay, LayerOk, AllUnspent, AnyMisflagged, Added;
    ghost var lower, child := cache.below.cacheCoins, cache.cacheCoins;
    cache.LayersBelow();
    ghost var base := cache.below.Base();
    AddedIs(child, op, coin);
    addThrew := cache.AddCoin(op, coin, false);
    if !addThrew {
      BrokenAddMisflags(base, lower, child, op, coin);
    } else {
      ConsistentFlags(base, lower, child);
    }
    flushThrew := cache.Flush();
  }

  lemma AddedIs(cache: Cache, op: OutPoint, coin: Coin)
    requires coin.Unspent? && !coin.out.unspendable
    ensures Added(cache, op, coin, false).Threw? <==> op in cache && cache[op].coin.Unspent?
  {
  }

  lemma ConsistentFlags(base: Utxo, cache: Cache, child: Cache)
    requires LayerOk(base, cache) && LayerOk(Overlay(base, cache), child)
    ensures !AnyMisflagged(cache, child)
  {
    hide LayerOk, Overlay;
    forall p | p in child ensures !Misflagged(cache, p, child[p]) {
      OverlayAt(Overlay(base, cache), child, p);
      OverlayAt(base, cache, p);
    }
  }

  /** A flush by a cache that has no best block of its own changes the best block it stands for if and
      only if the cache below has one that differs from what lies below it: a cache at block 7 over a
      database at block 3, say. */
  method FlushForgets(cache: CoinsViewCache) returns (best: nat)
    requires cache.Linked() && cache.Valid() && cache.below != null && cache.hashBlock == NULL_HASH
    modifies cache.Footprint()
    ensures best == cache.Best() == old(cache.below.BestBelow())
    ensures best != old(cache.Best()) <==>
      old(cache.below.hashBlock) != NULL_HASH && old(cache.below.hashBlock) != old(cache.below.BestBelow())
  {
    hide CoinsViewCache.Valid, CoinsViewCache.Rests, CoinsViewCache.Views;
    cache.ViewIs();
    assert cache.Best() == cache.BestBelow() == cache.below.Best();
    var _ := cache.Flush();
    best := cache.GetBestBlock();
  }

  /** `rest` of a child is still to be written down, and nothing before it threw. */
  ghost predicate Merging(before: Cache, child: Cache, cache: Cache, rest: Cache)
  {
    && (forall op | op in rest :: op in child && rest[op] == child[op])
    && (forall op | op in child && op !in rest :: !Misflagged(before, op, child[op]))
    && (forall op | op in rest :: Misflagged(cache, op, rest[op]) <==> Misflagged(before, op, rest[op]))
  }

  lemma MergingNext(before: Cache, child: Cache, cache: Cache, rest: Cache, op: OutPoint)
    requires Merging(before, child, cache, rest) && op in rest
    ensures op in child && rest[op] == child[op]
    ensures Merged(cache, op, rest[op]).Threw? <==> Misflagged(before, op, child[op])
    ensures Merged(cache, op, rest[op]).Done? ==>
      Merging(before, child, Merged(cache, op, rest[op]).cache, rest - {op})
  {
    hide Misflagged;
    ThrowsHere(cache, op, rest[op]);
    var r, rest' := Merged(cache, op, rest[op]), rest - {op};
    if r.Done? {
      forall p | p in rest' ensures Misflagged(r.cache, p, rest'[p]) <==> Misflagged(before, p, rest'[p]) {
        MergedElsewhere(cache, op, rest[op], p, rest[p]);
      }
    }
  }

  /** So far the layer and what is left of the child show together what they are to show. */
  ghost predicate Merges(base: Utxo, view: Utxo, child: Cache, cache: Cache, rest: Cache)
  {
    && LayerOk(base, cache) && LayerOk(Overlay(base, cache), rest)
    && Overlay(Overlay(base, cache), rest) == Overlay(view, child)
  }

  lemma MergesNext(base: Utxo, view: Utxo, child: Cache, cache: Cache, rest: Cache, op: OutPoint)
    requires Merges(base, view, child, cache, rest) && op in rest
    ensures var r := Merged(cache, op, rest[op]); r.Done? && Merges(base, view, child, r.cache, rest - {op})
  {
    hide Overlay, LayerOk, Merged;
    RestUnaffected(Overlay(base, cache), rest, op);
    OverlayAt(Overlay(base, cache), rest, op);
    MergedKeeps(base, cache, op, rest[op]);
  }

  lemma MergesStarts(base: Utxo, child: Cache, cache: Cache)
    ensures Merging(cache, child, cache, child)
    ensures LayerOk(base, cache) && LayerOk(Overlay(base, cache), child) ==>
      Merges(base, Overlay(base, cache), child, cache, child)
  {
  }

  lemma MergingEnds(base: Utxo, view: Utxo, before: Cache, child: Cache, cache: Cache)
    ensures Merging(before, child, cache, map[]) ==> !AnyMisflagged(before, child)
    ensures Merges(base, view, child, cache, map[]) ==>
      LayerOk(base, cache) && Overlay(base, cache) == Overlay(view, child)
  {
    hide Overlay, LayerOk;
    OverlayEmpty(Overlay(base, cache));
  }

  /** The outputs of a transaction written into a plain view; unspendable ones are skipped. */
  ghost function WriteOutputs(v: Utxo, txid: nat, vout: seq<TxOut>, height: nat, coinBase: bool): Utxo
  {
    if vout == [] then v
    else
      var i := |vout| - 1;
      var lower := WriteOutputs(v, txid, vout[..i], height, coinBase);
      if vout[i].unspendable then lower else Write(lower, OutPoint(txid, i), Unspent(vout[i], height, coinBase))
  }

  lemma {:induction false} WriteOutputsElsewhere(v: Utxo, txid: nat, vout: seq<TxOut>, height: nat, coinBase: bool,
    op: OutPoint)
    requires op.hash == txid && op.n >= |vout|
    ensures op in WriteOutputs(v, txid, vout, height, coinBase) <==> op in v
  {
    if vout != [] {
      WriteOutputsElsewhere(v, txid, vout[..|vout| - 1], height, coinBase, op);
    }
  }

  /** Without looking first, some output of a transaction is cached as unspent. */
  predicate Cached(cache: Cache, txid: nat, vout: seq<TxOut>)
  {
    exists i :: 0 <= i < |vout| && !vout[i].unspendable && OutPoint(txid, i) in cache
      && cache[OutPoint(txid, i)].coin.Unspent?
  }

  /** AddCoins: throws if and only if it does not look first (`check`), the transaction is no coinbase, and
      an output is cached as unspent.  Otherwise all outputs appear; and the cache stays consistent if it
      looked, or the transaction is a coinbase, or none of the outputs existed. */
  method AddCoins(cache: CoinsViewCache, txid: nat, vout: seq<TxOut>, coinBase: bool, nHeight: nat, check: bool)
    returns (threw: bool)
    requires cache.Linked() && cache.Rests()
    modifies cache.Footprint()
    ensures cache.Rests()
    ensures threw <==> !check && !coinBase && Cached(old(cache.cacheCoins), txid, vout)
    ensures !threw ==>
      cache.Views() ==
        old(cache.Views())[cache.depth + 1 := WriteOutputs(old(cache.View()), txid, vout, nHeight, coinBase)]
    ensures old(cache.Valid()) && (check || coinBase || NoneExists(old(cache.View()), txid, vout)) ==>
      !threw && cache.Valid()
  {
    hide CoinsViewCache.Valid, CoinsViewCache.Rests, CoinsViewCache.Views, Overlay, Cached, SameFrom, SameEntry, Added;
    ghost var view, start := cache.View(), cache.cacheCoins;
    ghost var kept := cache.Valid() && (check || coinBase || NoneExists(view, txid, vout));
    var i := 0;
    SameFromStart(start, txid);
    assert vout[..0] == [];
    while i < |vout|
      invariant 0 <= i <= |vout| && cache.Rests() && (kept ==> cache.Valid())
      invariant cache.Views() ==
        old(cache.Views())[cache.depth + 1 := WriteOutputs(view, txid, vout[..i], nHeight, coinBase)]
      invariant !check ==> SameFrom(start, cache.cacheCoins, txid, i)
      invariant !check && !coinBase ==> !Cached(start, txid, vout[..i])
    {
      var op := OutPoint(txid, i);
      WriteOutputsElsewhere(view, txid, vout[..i], nHeight, coinBase, op);
      CachedNext(start, txid, vout, i);
      if !check {
        SameFromNext(start, cache.cacheCoins, txid, i, Unspent(vout[i], nHeight, coinBase), coinBase);
      }
      var overwrite := coinBase;
      if check {
        overwrite := cache.HaveCoin(op);
      }
      threw := cache.AddCoin(op, Unspent(vout[i], nHeight, coinBase), overwrite);
      if threw {
        CachedSome(start, txid, vout, i);
        return;
      }
      assert vout[..i + 1][..i] == vout[..i];
      i := i + 1;
    }
    assert vout[..i] == vout;
    threw := false;
  }

  predicate NoneExists(v: Utxo, txid: nat, vout: seq<TxOut>)
  {
    forall i | 0 <= i < |vout| :: OutPoint(txid, i) !in v
  }

  predicate SameEntry(a: Cache, b: Cache, op: OutPoint)
  {
    (op in a <==> op in b) && (op in a ==> a[op] == b[op])
  }

  /** The outputs from the i-th on are as they were. */
  ghost predicate SameFrom(a: Cache, b: Cache, txid: nat, i: nat)
  {
    forall j: nat | j >= i :: SameEntry(a, b, OutPoint(txid, j))
  }

  lemma SameFromStart(a: Cache, txid: nat)
    ensures SameFrom(a, a, txid, 0) && !Cached(a, txid, [])
  {
  }

  lemma SameFromNext(a: Cache, b: Cache, txid: nat, i: nat, coin: Coin, possibleOverwrite: bool)
    requires SameFrom(a, b, txid, i) && coin.Unspent?
    ensures SameEntry(a, b, OutPoint(txid, i)) && SameFrom(a, b, txid, i + 1)
    ensures var r := Added(b, OutPoint(txid, i), coin, possibleOverwrite); r.Done? ==> SameFrom(a, r.cache, txid, i + 1)
    ensures Added(b, OutPoint(txid, i), coin, possibleOverwrite).Threw? <==>
      !coin.out.unspendable && !possibleOverwrite
      && OutPoint(txid, i) in a && a[OutPoint(txid, i)].coin.Unspent?
  {
    assert SameEntry(a, b, OutPoint(txid, i));
    var r := Added(b, OutPoint(txid, i), coin, possibleOverwrite);
    if r.Done? {
      forall j: nat | j >= i + 1 ensures SameEntry(a, r.cache, OutPoint(txid, j)) {
        assert SameEntry(a, b, OutPoint(txid, j));
      }
    }
  }

  lemma CachedNext(cache: Cache, txid: nat, vout: seq<TxOut>, i: nat)
    requires i < |vout|
    ensures Cached(cache, txid, vout[..i + 1]) <==>
      Cached(cache, txid, vout[..i])
      || (!vout[i].unspendable && OutPoint(txid, i) in cache && cache[OutPoint(txid, i)].coin.Unspent?)
  {
    var s, t := vout[..i], vout[..i + 1];
    assert forall j | 0 <= j < i :: s[j] == t[j];
    if Cached(cache, txid, s) {
      var j :| 0 <= j < |s| && !s[j].unspendable && OutPoint(txid, j) in cache
        && cache[OutPoint(txid, j)].coin.Unspent?;
      assert t[j] == s[j];
    }
    assert t[i] == vout[i];
  }

  lemma CachedSome(cache: Cache, txid: nat, vout: seq<TxOut>, i: nat)
    requires i < |vout|
    requires !vout[i].unspendable && OutPoint(txid, i) in cache && cache[OutPoint(txid, i)].coin.Unspent?
    ensures Cached(cache, txid, vout)
  {
  }
}
