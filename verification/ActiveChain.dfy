/**
 CChain: the active chain as an array of blocks by height.
 */
module ActiveChain {
  import opened Arith
  import opened BlockTree
  import opened Wrappers

  /** The chain holds exactly the ancestors of its tip, each at its own height. */
  ghost predicate IsPath(t: Tree, chain: seq<int>)
  {
    Shaped(t) && forall h: nat | h < |chain| :: OnPath(t, chain, h)
  }

  /** The entry at one height: a block of that height, whose parent is the entry below. */
  ghost predicate OnPath(t: Tree, chain: seq<int>, h: nat)
    requires Shaped(t) && h < |chain|
  {
    0 <= chain[h] < |t| && t[chain[h]].height == h && (h > 0 ==> t[chain[h]].prev == chain[h - 1])
  }

  lemma {:induction false} PathWalk(t: Tree, chain: seq<int>, h: nat, g: nat)
    requires IsPath(t, chain) && g <= h < |chain|
    ensures OnPath(t, chain, h) && OnPath(t, chain, g) && Walk(t, chain[h], g) == chain[g]
  {
    assert OnPath(t, chain, h) && OnPath(t, chain, g);
    if g < h {
      PathWalk(t, chain, h - 1, g);
    }
  }

  function BitLength(n: nat): (r: nat)
    ensures n < Pow2(r)
  {
    if n == 0 then 0 else BitLength(n / 2) + 1
  }

  class CChain {
    var vChain: seq<int>

    function Height(): int
      reads this
    {
      |vChain| - 1
    }

    /** The block at a height, or none outside the chain. */
    function At(h: int): int
      reads this
    {
      if 0 <= h < |vChain| then vChain[h] else NONE
    }

    predicate Contains(t: Tree, b: Id)
      requires b < |t|
      reads this
    {
      At(t[b].height) == b
    }

    constructor ()
      ensures vChain == []
    {
      vChain := [];
    }

    /** Makes a block the tip.  The walk down from it stops at the first block already in place. */
    method SetTip(t: Tree, tip: int)
      requires IsPath(t, vChain) && Valid(t) && (tip == NONE || 0 <= tip < |t|)
      modifies this
      ensures IsPath(t, vChain)
      ensures if tip == NONE then vChain == [] else |vChain| == t[tip].height + 1 && vChain[t[tip].height] == tip
    {
      if tip == NONE {
        vChain := [];
        return;
      }
      var n := t[tip].height + 1;
      ghost var before := vChain;
      vChain := if n <= |vChain| then vChain[..n] else vChain + seq(n - |vChain|, _ => NONE);
      var p := tip;
      while p != NONE && vChain[t[p].height] != p
        invariant p == NONE || (0 <= p < |t| && t[p].height < n)
        invariant |vChain| == n && (Level(t, p) < n - 1 ==> vChain[n - 1] == tip) && (Level(t, p) == n - 1 ==> p == tip)
        invariant forall h: nat | Level(t, p) < h < n :: Redone(t, vChain, h, p)
        invariant forall h: nat | h <= Level(t, p) :: vChain[h] == if h < |before| then before[h] else NONE
        decreases Level(t, p)
      {
        assert NodeShape(t, p);
        ghost var chain, q := vChain, p;
        vChain := vChain[t[p].height := p];
        p := t[p].prev;
        forall h: nat | Level(t, p) < h < n ensures Redone(t, vChain, h, p) {
          assert h > Level(t, q) ==> Redone(t, chain, h, q);
        }
      }
      forall h: nat | h < n ensures OnPath(t, vChain, h) {
        if h <= Level(t, p) {
          assert OnPath(t, before, Level(t, p)) && OnPath(t, before, h);
        } else {
          assert Redone(t, vChain, h, p);
        }
      }
    }

    /** Finds the last block of the chain from which a block descends. */
    method FindFork(t: Tree, b: int) returns (r: int)
      requires IsPath(t, vChain) && Valid(t) && (b == NONE || 0 <= b < |t|)
      ensures r == NONE <==> b == NONE || vChain == []
      ensures r != NONE ==>
        0 <= r < |t| && 0 <= vChain[|vChain| - 1] < |t| && IsLastCommon(t, b, vChain[|vChain| - 1], r)
    {
      if b == NONE {
        return NONE;
      }
      var p: int := b;
      WalkSelf(t, b);
      if t[b].height > Height() {
        var up, _ := GetAncestor(t, b, Height());
        if up == None {
          return NONE;
        }
        p := up.value;
      }
      while p != NONE && !Contains(t, p)
        invariant 0 <= p < |t| && t[p].height <= Height() && t[p].height <= t[b].height && Walk(t, b, t[p].height) == p
        invariant Apart(t, vChain, b, t[p].height)
        decreases p
      {
        NotRoot(t, vChain, p);
        WalkDown(t, b, p);
        p := t[p].prev;
      }
      ForkIsLast(t, vChain, b, p);
      r := p;
    }

    /** The hashes a peer is asked to locate us by: from the start back to the first block, one by one
        at first and then ever more sparsely.  Here as the blocks themselves.  A start off the chain is
        followed by blocks of the chain all the same. */
    method GetLocator(t: Tree, start: int) returns (have: seq<int>)
      requires IsPath(t, vChain) && Valid(t) && (start == NONE || 0 <= start < |t|)
      ensures start == NONE && vChain == [] ==> have == []
      ensures start == NONE && vChain != [] ==> Locates(vChain, vChain[|vChain| - 1], |vChain| - 1, have)
      ensures start != NONE ==> Locates(vChain, start, t[start].height, have)
    {
      hide LocatorHeight, LocatorStep, IsPath, OnPath, SoFar, Locates;
      PathAt(t, vChain, if vChain == [] then 0 else |vChain| - 1);
      var p := start;
      if p == NONE {
        p := At(Height());
      }
      have := [];
      if p == NONE {
        return;
      }
      ghost var first, top := p, t[p].height;
      var step := 1;
      LocatorStart(vChain, first, top);
      while p != NONE
        invariant p == NONE || 0 <= p < |t|
        invariant step == LocatorStep(|have|) > 0 && SoFar(vChain, first, top, have)
        invariant p != NONE ==> t[p].height == LocatorHeight(top, |have|) && p == Expected(vChain, first, top, |have|)
        invariant have != [] ==> LocatorHeight(top, |have| - 1) > 0
        invariant p == NONE ==> have == [first] && LocatorHeight(top, 1) >= |vChain|
        decreases if p == NONE then -1 else t[p].height
      {
        SoFarNext(vChain, first, top, have, p);
        have := have + [p];
        if t[p].height == 0 {
          break;
        }
        LocatorNext(top, |have| - 1);
        var height := if t[p].height - step > 0 then t[p].height - step else 0;
        PathAt(t, vChain, height);
        p := At(height);
        if |have| > 10 {
          step := step * 2;
        }
      }
      LocatorEnds(vChain, first, top, have);
    }
  }

  /** The height of the i-th block of a locator from a given top: one step at a time for eleven
      blocks, then twice as far each time. */
  function LocatorHeight(top: nat, i: nat): (r: nat)
    ensures r <= top
  {
    var back := if i <= 11 then i else 9 + Pow2(i - 10);
    if back < top then top - back else 0
  }

  function LocatorStep(i: nat): nat { if i <= 10 then 1 else Pow2(i - 10) }

  /** The i-th block of a locator: the start, then blocks of the chain. */
  ghost function Expected(chain: seq<int>, first: int, top: nat, i: nat): int
  {
    if i == 0 then first else if LocatorHeight(top, i) < |chain| then chain[LocatorHeight(top, i)] else NONE
  }

  lemma LocatorStart(chain: seq<int>, first: int, top: nat)
    ensures LocatorHeight(top, 0) == top && LocatorStep(0) == 1 && SoFar(chain, first, top, [])
  {
  }

  lemma LocatorNext(top: nat, i: nat)
    ensures var h := LocatorHeight(top, i) - LocatorStep(i);
      LocatorHeight(top, i) > 0 ==> LocatorHeight(top, i + 1) == if h > 0 then h else 0
    ensures LocatorStep(i + 1) == if i + 1 > 10 then 2 * LocatorStep(i) else LocatorStep(i)
  {
  }

  /** All but the last block of a locator: there is always further to go. */
  ghost predicate SoFar(chain: seq<int>, first: int, top: nat, have: seq<int>)
  {
    && (forall i: nat | i < |have| :: have[i] == Expected(chain, first, top, i) != NONE)
    && forall i: nat | i + 1 < |have| :: LocatorHeight(top, i) > 0
  }

  lemma SoFarNext(chain: seq<int>, first: int, top: nat, have: seq<int>, p: int)
    requires SoFar(chain, first, top, have) && p == Expected(chain, first, top, |have|) != NONE
    requires have != [] ==> LocatorHeight(top, |have| - 1) > 0
    ensures SoFar(chain, first, top, have + [p])
  {
    hide LocatorHeight;
  }

  /** A locator: the start and then the chain's blocks at the locator heights, strictly descending to
      height 0, and no longer than the bit length of the top height plus eleven.  Where the chain does
      not reach up to the block after the start, the start is all. */
  ghost predicate Locates(chain: seq<int>, first: int, top: nat, have: seq<int>)
  {
    && have != [] && (forall i: nat | i < |have| :: have[i] == Expected(chain, first, top, i) != NONE)
    && (forall i: nat | i + 1 < |have| :: LocatorHeight(top, i + 1) < LocatorHeight(top, i))
    && |have| <= 11 + BitLength(top)
    && (LocatorHeight(top, |have| - 1) == 0 || (|have| == 1 && LocatorHeight(top, 1) >= |chain|))
  }

  lemma LocatorEnds(chain: seq<int>, first: int, top: nat, have: seq<int>)
    requires have != [] && SoFar(chain, first, top, have)
    requires LocatorHeight(top, |have| - 1) == 0 || (|have| == 1 && LocatorHeight(top, 1) >= |chain|)
    ensures Locates(chain, first, top, have)
  {
    hide LocatorHeight;
    LocatorShort(top, |have| - 1);
  }

  lemma LocatorShort(top: nat, s: nat)
    requires s == 0 || LocatorHeight(top, s - 1) > 0
    ensures s <= 10 + BitLength(top)
    ensures forall i: nat | i < s && LocatorHeight(top, i) > 0 :: LocatorHeight(top, i + 1) < LocatorHeight(top, i)
  {
    hide BitLength;
    assert Pow2(0) == 1;
    if s > 11 {
      Pow2Grows(BitLength(top), s - 11);
    }
    forall i: nat | i < s && LocatorHeight(top, i) > 0 ensures LocatorHeight(top, i + 1) < LocatorHeight(top, i) {
      LocatorFalls(top, i);
    }
  }

  lemma LocatorFalls(top: nat, i: nat)
    requires LocatorHeight(top, i) > 0
    ensures LocatorHeight(top, i + 1) < LocatorHeight(top, i)
  {
  }

  lemma PathAt(t: Tree, chain: seq<int>, h: nat)
    requires IsPath(t, chain)
    ensures h < |chain| ==> 0 <= chain[h] < |t| && t[chain[h]].height == h
  {
    assert h < |chain| ==> OnPath(t, chain, h);
  }

  /** The height of a block, or below all heights for none. */
  function Level(t: Tree, p: int): int
    requires p == NONE || 0 <= p < |t|
  {
    if p == NONE then -1 else t[p].height
  }

  /** An entry already rewritten: it links to the entry below, or to the block now being looked at. */
  ghost predicate Redone(t: Tree, chain: seq<int>, h: nat, p: int)
    requires h < |chain| && (p == NONE || 0 <= p < |t|)
  {
    && 0 <= chain[h] < |t| && t[chain[h]].height == h
    && (h > 0 ==> t[chain[h]].prev == if h == Level(t, p) + 1 then p else chain[h - 1])
  }

  lemma NotRoot(t: Tree, chain: seq<int>, p: Id)
    requires IsPath(t, chain) && p < |t| && t[p].height < |chain| && chain[t[p].height] != p
    ensures t[p].height > 0 && 0 <= t[p].prev < p && t[t[p].prev].height == t[p].height - 1
  {
    assert NodeShape(t, p) && OnPath(t, chain, 0);
    AllMeetAtRoot(t, p);
    AllMeetAtRoot(t, chain[0]);
  }

  lemma WalkDown(t: Tree, b: Id, p: Id)
    requires Shaped(t) && b < |t| && p < |t| && 0 < t[p].height <= t[b].height && Walk(t, b, t[p].height) == p
    ensures Walk(t, b, t[p].height - 1) == Parent(t, p)
  {
    WalkWalk(t, b, t[p].height, t[p].height - 1);
    WalkStep(t, p, t[p].height - 1);
    WalkSelf(t, Parent(t, p));
  }

  /** The first block met on the way down that is on the chain is the last common one with its tip. */
  lemma ForkIsLast(t: Tree, chain: seq<int>, b: Id, r: Id)
    requires IsPath(t, chain) && b < |t| && r < |t| && t[r].height < |chain| && chain[t[r].height] == r
    requires t[r].height <= t[b].height && Walk(t, b, t[r].height) == r && Apart(t, chain, b, t[r].height)
    ensures OnPath(t, chain, |chain| - 1) && IsLastCommon(t, b, chain[|chain| - 1], r)
  {
    hide Walk, OnPath, NodeShape, Apart, IsAncestor;
    var tip := chain[|chain| - 1];
    assert OnPath(t, chain, |chain| - 1);
    PathAt(t, chain, |chain| - 1);
    PathWalk(t, chain, |chain| - 1, t[r].height);
    TipAndFork(t, chain, b, r);
    forall c: Id | c < |t| && IsAncestor(t, c, b) && IsAncestor(t, c, tip) ensures IsAncestor(t, c, r) {
      CommonBelow(t, chain, b, r, c);
    }
  }

  /** Above a height the ancestors of b are not on the chain. */
  ghost predicate Apart(t: Tree, chain: seq<int>, b: Id, above: nat)
    requires Shaped(t) && b < |t|
  {
    forall h: nat | above < h <= t[b].height && h < |chain| :: Walk(t, b, h) != chain[h]
  }

  lemma CommonBelow(t: Tree, chain: seq<int>, b: Id, r: Id, c: Id)
    requires IsPath(t, chain) && b < |t| && r < |t| && chain != [] && 0 <= chain[|chain| - 1] < |t|
    requires t[r].height <= t[b].height && Walk(t, b, t[r].height) == r
    requires Apart(t, chain, b, t[r].height)
    requires c < |t| && IsAncestor(t, c, b) && IsAncestor(t, c, chain[|chain| - 1])
    ensures IsAncestor(t, c, r)
  {
    hide Walk, OnPath, NodeShape, Apart;
    var h := t[c].height;
    PathAt(t, chain, |chain| - 1);
    PathWalk(t, chain, |chain| - 1, h);
    MeetsOnlyBelow(t, chain, b, t[r].height, h);
    WalkWalk(t, b, t[r].height, h);
  }

  lemma MeetsOnlyBelow(t: Tree, chain: seq<int>, b: Id, above: nat, h: nat)
    requires Shaped(t) && b < |t| && Apart(t, chain, b, above) && h <= t[b].height && h < |chain|
      && Walk(t, b, h) == chain[h]
    ensures h <= above
  {
    hide Walk, Shaped;
  }

  lemma TipAndFork(t: Tree, chain: seq<int>, b: Id, r: Id)
    requires IsPath(t, chain) && b < |t| && r < |t| && t[r].height < |chain| && chain[t[r].height] == r
    requires t[r].height <= t[b].height && Walk(t, b, t[r].height) == r
    requires 0 <= chain[|chain| - 1] < |t| && t[chain[|chain| - 1]].height == |chain| - 1
    requires Walk(t, chain[|chain| - 1], t[r].height) == r
    ensures IsAncestor(t, r, b) && IsAncestor(t, r, chain[|chain| - 1])
  {
    hide Walk, IsPath;
  }
}
