/**
 Runs of a whole stack of coin caches.  The stack refines a stack of plain maps: reading and
 uncaching change nothing, adding and spending change the top map, a new cache repeats the top
 map, discarding a cache forgets it, and flushing copies it one level down.
 */
module CoinsStack {
  import opened CoinsLayer

  datatype Stack = Db(coins: Utxo) | On(cache: Cache, below: Stack)

  /** A stack of plain maps. */
  datatype Plain = Bottom(view: Utxo) | Above(view: Utxo, below: Plain)

  ghost function View(st: Stack): Utxo
  {
    match st
    case Db(coins) => coins
    case On(cache, below) => Overlay(View(below), cache)
  }

  ghost function Views(st: Stack): (p: Plain)
    ensures p.view == View(st) && (p.Above? <==> st.On?)
  {
    match st
    case Db(coins) => Bottom(coins)
    case On(cache, below) => Above(Overlay(View(below), cache), Views(below))
  }

  ghost predicate StackOk(st: Stack)
  {
    match st
    case Db(coins) => AllUnspent(coins)
    case On(cache, below) => StackOk(below) && LayerOk(View(below), cache)
  }

  datatype Op =
    | Fetch(depth: nat, op: OutPoint)
    | Add(op: OutPoint, coin: Coin, possibleOverwrite: bool)
    | Spend(op: OutPoint)
    | Uncache(depth: nat, op: OutPoint)
    | Push
    | Discard
    | Flush(order: seq<OutPoint>)

  /** A fetch that misses fetches from the cache below first, then keeps a copy. */
  ghost predicate FetchStep(st: Stack, op: OutPoint, st': Stack)
  {
    match st
    case Db(_) => st' == st
    case On(cache, below) =>
      && st'.On? && st'.cache == Fetched(View(below), cache, op)
      && if op in cache then st'.below == below else FetchStep(below, op, st'.below)
  }

  /** Writing a cache into the view below it; the entries may come in any order. */
  ghost predicate FlushStep(below: Stack, cache: Cache, order: seq<OutPoint>, below': Stack)
  {
    && Visits(order, cache)
    && match below
       case Db(coins) => below' == Db(Overlay(coins, cache))
       case On(cache0, below0) =>
         var r := MergedAll(cache0, cache, order);
         r.Done? && below' == On(r.cache, below0)
  }

  /** A fetch or an uncache by the cache that is `depth` caches below the top. */
  ghost predicate ReadStep(st: Stack, depth: nat, o: Op, st': Stack)
    requires o.Fetch? || o.Uncache?
    decreases st
  {
    && st.On?
    && if depth > 0 then st'.On? && st'.cache == st.cache && ReadStep(st.below, depth - 1, o, st'.below)
       else if o.Fetch? then FetchStep(st, o.op, st')
       else st' == On(Uncached(st.cache, o.op), st.below)
  }

  /** One operation: reading and uncaching by any cache of the stack, the others at its top. */
  ghost predicate Step(st: Stack, o: Op, st': Stack)
  {
    && st.On?
    && match o
       case Fetch(depth, op) => ReadStep(st, depth, o, st')
       case Add(op, coin, possibleOverwrite) =>
         && coin.Unspent? && !coin.out.unspendable
         && MayAdd(View(st.below), st.cache, op, possibleOverwrite)
         && Added(st.cache, op, coin, possibleOverwrite).Done?
         && st' == On(Added(st.cache, op, coin, possibleOverwrite).cache, st.below)
       case Spend(op) => op in st.cache && st' == On(SpentIn(st.cache, op), st.below)
       case Uncache(depth, op) => ReadStep(st, depth, o, st')
       case Push => st' == On(map[], st)
       case Discard => st.below.On? && st' == st.below
       case Flush(order) => exists below' :: FlushStep(st.below, st.cache, order, below') && st' == On(map[], below')
  }

  function SetView(p: Plain, v: Utxo): Plain
  {
    match p
    case Bottom(_) => Bottom(v)
    case Above(_, below) => Above(v, below)
  }

  /** The same operation on a stack of plain maps. */
  function PlainStep(p: Plain, o: Op): Plain
    requires p.Above?
  {
    match o
    case Fetch(depth, op) => p
    case Add(op, coin, possibleOverwrite) => SetView(p, Write(p.view, op, coin))
    case Spend(op) => SetView(p, p.view - {op})
    case Uncache(depth, op) => p
    case Push => Above(p.view, p)
    case Discard => p.below
    case Flush(order) => Above(p.view, SetView(p.below, p.view))
  }

  lemma {:induction false} ViewUnspent(st: Stack)
    requires StackOk(st)
    ensures AllUnspent(View(st))
  {
    if st.On? {
      ViewUnspent(st.below);
      OverlayUnspent(View(st.below), st.cache);
    }
  }

  lemma {:induction false} FetchRefines(st: Stack, op: OutPoint, st': Stack)
    requires StackOk(st) && FetchStep(st, op, st')
    ensures StackOk(st') && Views(st') == Views(st)
  {
    hide Overlay, LayerOk, AllUnspent, Fetched;
    if st.On? {
      ViewUnspent(st.below);
      FetchedKeeps(View(st.below), st.cache, op);
      if op !in st.cache {
        FetchRefines(st.below, op, st'.below);
      }
    }
  }

  lemma {:induction false} ReadRefines(st: Stack, depth: nat, o: Op, st': Stack)
    requires StackOk(st) && (o.Fetch? || o.Uncache?) && ReadStep(st, depth, o, st')
    ensures StackOk(st') && Views(st') == Views(st)
    decreases st
  {
    hide Overlay, LayerOk, AllUnspent, Uncached, FetchStep;
    if depth > 0 {
      ReadRefines(st.below, depth - 1, o, st'.below);
    } else if o.Fetch? {
      FetchRefines(st, o.op, st');
    } else {
      UncachedKeeps(View(st.below), st.cache, o.op);
    }
  }

  lemma FlushRefines(below: Stack, cache: Cache, order: seq<OutPoint>, below': Stack)
    requires StackOk(On(cache, below)) && FlushStep(below, cache, order, below')
    ensures StackOk(On(map[], below'))
    ensures Views(On(map[], below')) == PlainStep(Views(On(cache, below)), Flush(order))
  {
    hide Overlay, LayerOk, AllUnspent, MergedAll;
    ViewUnspent(On(cache, below));
    OverlayEmpty(View(below'));
    if below.On? {
      MergedAllKeeps(View(below.below), below.cache, cache, order);
    }
  }

  lemma WriteRefines(st: Stack, o: Op, st': Stack)
    requires StackOk(st) && Step(st, o, st') && (o.Add? || o.Spend?)
    ensures StackOk(st') && Views(st') == PlainStep(Views(st), o)
  {
    hide Overlay, LayerOk, AllUnspent, Added, SpentIn, MayAdd;
    match o
    case Add(op, coin, possibleOverwrite) => AddedKeeps(View(st.below), st.cache, op, coin, possibleOverwrite);
    case Spend(op) => SpentKeeps(View(st.below), st.cache, op);
  }

  /** Every operation keeps the stack consistent and does to the plain views what the plain
      operation does. */
  lemma StepRefines(st: Stack, o: Op, st': Stack)
    requires StackOk(st) && Step(st, o, st')
    ensures StackOk(st') && Views(st') == PlainStep(Views(st), o)
  {
    hide Overlay, LayerOk, AllUnspent, ReadStep, FlushStep;
    match o
    case Fetch(depth, op) => ReadRefines(st, depth, o, st');
    case Uncache(depth, op) => ReadRefines(st, depth, o, st');
    case Push => OverlayEmpty(View(st));
    case Discard =>
    case Flush(order) =>
      var below' :| FlushStep(st.below, st.cache, order, below') && st' == On(map[], below');
      FlushRefines(st.below, st.cache, order, below');
    case _ => WriteRefines(st, o, st');
  }

  ghost predicate IsRun(states: seq<Stack>, ops: seq<Op>)
  {
    |states| == |ops| + 1 && forall i | 0 <= i < |ops| :: Step(states[i], ops[i], states[i + 1])
  }

  /** The plain stack after the first `k` operations. */
  function PlainRun(p: Plain, ops: seq<Op>, k: nat): Plain
    requires k <= |ops|
  {
    if k == 0 then p
    else
      var before := PlainRun(p, ops, k - 1);
      if before.Above? then PlainStep(before, ops[k - 1]) else before
  }

  /** Any run of any stack shows, at every level and at every moment, what the plain maps show. */
  lemma {:induction false} RunRefines(states: seq<Stack>, ops: seq<Op>, k: nat)
    requires IsRun(states, ops) && StackOk(states[0]) && k < |states|
    ensures StackOk(states[k]) && Views(states[k]) == PlainRun(Views(states[0]), ops, k)
  {
    hide StackOk, PlainStep, View;
    if k > 0 {
      RunRefines(states, ops, k - 1);
      assert Step(states[k - 1], ops[k - 1], states[k - 1 + 1]);
      StepRefines(states[k - 1], ops[k - 1], states[k]);
    }
  }

  /** In a consistent stack no dirty FRESH entry of the top cache meets an unspent one below, so
      every flush goes through: the exception of BatchWrite is out of reach. */
  lemma FlushNeverThrows(st: Stack, order: seq<OutPoint>)
    requires StackOk(st) && st.On? && Visits(order, st.cache)
    ensures exists st' :: Step(st, Flush(order), st')
  {
    hide Overlay, LayerOk, MergedAll;
    var below';
    match st.below {
      case Db(coins) =>
        below' := Db(Overlay(coins, st.cache));
      case On(cache0, below0) =>
        MergedAllKeeps(View(below0), cache0, st.cache, order);
        below' := On(MergedAll(cache0, st.cache, order).cache, below0);
    }
    assert FlushStep(st.below, st.cache, order, below');
    assert Step(st, Flush(order), On(map[], below'));
  }
}
