/**
 CuckooCache::cache: a fixed-size cache in which every element may sit at any of eight locations and
 an insertion may displace a chain of others.
 */
module CuckooCache {

  type Element = nat

  /** The default element, which fills a fresh table. */
  const DEFAULT: Element := 0

  /** The eight hash functions, each a 32-bit value. */
  type Hasher = (nat, Element) -> bv32

  /** compute_hashes: each hash scaled from 32 bits down to the size of the table. */
  function Location(hash: Hasher, size: nat, e: Element, k: nat): (l: nat)
    requires size > 0
    ensures l < size
  {
    ScaledInRange(hash(k, e) as nat, size);
    hash(k, e) as nat * size / 0x1_0000_0000
  }

  lemma ScaledInRange(h: nat, size: nat)
    requires size > 0 && h < 0x1_0000_0000
    ensures h * size / 0x1_0000_0000 < size
  {
    assert h * size <= 0xFFFF_FFFF * size;
    assert 0xFFFF_FFFF * size < 0x1_0000_0000 * size;
  }

  function Locations(hash: Hasher, size: nat, e: Element): (r: seq<nat>)
    requires size > 0
    ensures |r| == 8 && forall k | 0 <= k < 8 :: r[k] < size
  {
    seq(8, k requires 0 <= k < 8 => Location(hash, size, e, k))
  }

  /** Every stored element sits at one of its own locations. */
  ghost predicate Placed(hash: Hasher, table: seq<Element>)
  {
    forall i | 0 <= i < |table| && table[i] != DEFAULT :: i in Locations(hash, |table|, table[i])
  }

  /** The table after an insertion that took e in and put `out` out. */
  ghost predicate OneOut(before: seq<Element>, e: Element, after: seq<Element>, out: Element)
  {
    multiset(after) + multiset{out} == multiset(before) + multiset{e}
  }

  /** Exactly the stored elements and the new one are stored afterwards, less the one put out. */
  lemma OneOutMeans(before: seq<Element>, e: Element, after: seq<Element>, out: Element, x: Element)
    requires OneOut(before, e, after, out)
    ensures |after| == |before|
    ensures x != out && (x in before || x == e) ==> x in after
    ensures x in after ==> x in before || x == e
  {
    assert |multiset(after) + multiset{out}| == |multiset(before) + multiset{e}|;
    assert x in after <==> x in multiset(after);
    assert x in before <==> x in multiset(before);
    assert (multiset(after) + multiset{out})[x] == (multiset(before) + multiset{e})[x];
  }

  /** Nothing is stored that was not inserted. */
  ghost predicate OnlyFrom(table: seq<Element>, inserted: set<Element>)
  {
    forall i | 0 <= i < |table| :: table[i] == DEFAULT || table[i] in inserted
  }

  /** An insertion keeps it so. */
  lemma OnlyInserted(before: seq<Element>, e: Element, after: seq<Element>, out: Element, inserted: set<Element>)
    requires OnlyFrom(before, inserted) && OneOut(before, e, after, out)
    ensures OnlyFrom(after, inserted + {e})
  {
    hide OneOut;
    forall i | 0 <= i < |after| ensures after[i] == DEFAULT || after[i] in inserted + {e} {
      OneOutMeans(before, e, after, out, after[i]);
    }
  }

  lemma OnlyGrows(table: seq<Element>, inserted: set<Element>, e: Element)
    requires OnlyFrom(table, inserted)
    ensures OnlyFrom(table, inserted + {e})
  {
  }

  /** The elements with their epoch flags. */
  function Flagged(table: seq<Element>, flags: seq<bool>): (r: seq<(Element, bool)>)
    requires |table| == |flags|
    ensures |r| == |table|
  {
    seq(|table|, i requires 0 <= i < |table| => (table[i], flags[i]))
  }

  /** The same exchange with flags: each element keeps the flag it came with. */
  ghost predicate FlagsMove(before: seq<(Element, bool)>, e: Element, after: seq<(Element, bool)>, out: Element,
    flag: bool)
  {
    multiset(after) + multiset{(out, flag)} == multiset(before) + multiset{(e, true)}
  }

  lemma FlagsExchanged(start: seq<(Element, bool)>, e: Element, held: seq<(Element, bool)>, x: Element, f: bool, i: nat)
    requires FlagsMove(start, e, held, x, f) && i < |held|
    ensures FlagsMove(start, e, held[i := (x, f)], held[i].0, held[i].1)
  {
    assert multiset(held[i := (x, f)]) + multiset{held[i]} == multiset(held) + multiset{(x, f)};
  }

  /** Slots in use since the epoch began. */
  function Unused(epoch: seq<bool>, collectable: seq<bool>): nat
    requires |collectable| == |epoch|
  {
    if epoch == [] then 0
    else
      var n := |epoch| - 1;
      Unused(epoch[..n], collectable[..n]) + if epoch[n] && !collectable[n] then 1 else 0
  }

  /** Which slots may be overwritten once the epoch has been looked at. */
  function CollectableNow(epoch: seq<bool>, collectable: seq<bool>, counter: nat, epochSize: nat): (r: seq<bool>)
    requires |collectable| == |epoch|
    ensures |r| == |collectable|
  {
    if counter == 0 && Unused(epoch, collectable) >= epochSize then
      seq(|epoch|, i requires 0 <= i < |epoch| => collectable[i] || !epoch[i])
    else collectable
  }

  /** The epoch flags once the epoch has been looked at. */
  function FlagsNow(epoch: seq<bool>, collectable: seq<bool>, counter: nat, epochSize: nat): (r: seq<bool>)
    requires |collectable| == |epoch|
    ensures |r| == |epoch|
  {
    if counter == 0 && Unused(epoch, collectable) >= epochSize then seq(|epoch|, _ => false) else epoch
  }

  function Max(a: int, b: int): int { if a > b then a else b }

  class Cache {
    const hash: Hasher
    const depthLimit: nat
    const epochSize: nat
    const table: array<Element>
    const collectable: array<bool>
    const epochFlags: array<bool>
    var epochCounter: nat
    ghost var inserted: set<Element>

    /** Nothing is stored that was not inserted. */
    ghost predicate Remembers()
      reads this, table
    {
      OnlyFrom(table[..], inserted)
    }

    ghost predicate Valid()
      reads this, table, collectable, epochFlags
    {
      && table.Length > 0 && collectable.Length == table.Length == epochFlags.Length && collectable != epochFlags
      && Placed(hash, table[..])
    }

    constructor (hash: Hasher, newSize: nat, depthLimit: nat)
      ensures Valid() && fresh(table) && fresh(collectable) && fresh(epochFlags)
      ensures forall i | 0 <= i < table.Length :: table[i] == DEFAULT && collectable[i]
      ensures inserted == {} && Remembers()
    {
      var size := Max(2, newSize);
      this.hash, this.depthLimit := hash, depthLimit;
      epochSize := Max(1, 45 * size / 100);
      table := new Element[size](_ => DEFAULT);
      collectable := new bool[size](_ => true);
      epochFlags := new bool[size](_ => false);
      epochCounter := Max(1, 45 * size / 100);
      inserted := {};
    }

    /** Counts down to the next look at the epoch; when enough of the table is in use, everything not
        touched since the last epoch may be erased and a new epoch begins. */
    method EpochCheck()
      requires Valid()
      modifies this`epochCounter, collectable, epochFlags
      ensures Valid() && var c, f := old(collectable[..]), old(epochFlags[..]);
        if old(epochCounter) > 0 then
          epochCounter == old(epochCounter) - 1 && collectable[..] == c && epochFlags[..] == f
        else if Unused(f, c) >= epochSize then
          && epochCounter == epochSize
          && forall i | 0 <= i < table.Length :: !epochFlags[i] && collectable[i] == (c[i] || !f[i])
        else
          && epochCounter == Max(1, Max(epochSize / 16, epochSize - Unused(f, c)))
          && collectable[..] == c && epochFlags[..] == f
      ensures collectable[..] ==
        CollectableNow(old(epochFlags[..]), old(collectable[..]), old(epochCounter), epochSize)
      ensures epochFlags[..] == FlagsNow(old(epochFlags[..]), old(collectable[..]), old(epochCounter), epochSize)
    {
      if epochCounter != 0 {
        epochCounter := epochCounter - 1;
        return;
      }
      var unused := 0;
      for i := 0 to table.Length
        invariant unused == Unused(epochFlags[..i], collectable[..i])
      {
        assert epochFlags[..i + 1][..i] == epochFlags[..i] && collectable[..i + 1][..i] == collectable[..i];
        if epochFlags[i] && !collectable[i] {
          unused := unused + 1;
        }
      }
      assert epochFlags[..table.Length] == epochFlags[..] && collectable[..table.Length] == collectable[..];
      if unused >= epochSize {
        for i := 0 to table.Length
          modifies collectable, epochFlags
          invariant forall j | 0 <= j < i ::
            !epochFlags[j] && collectable[j] == (old(collectable[j]) || !old(epochFlags[j]))
          invariant forall j | i <= j < table.Length ::
            epochFlags[j] == old(epochFlags[j]) && collectable[j] == old(collectable[j])
        {
          if epochFlags[i] {
            epochFlags[i] := false;
          } else {
            collectable[i] := true;
          }
        }
        epochCounter := epochSize;
      } else {
        epochCounter := Max(1, Max(epochSize / 16, epochSize - unused));
      }
    }

    /** The location at which an element sits, or the table's size. */
    method Find(e: Element, locs: seq<nat>) returns (loc: nat)
      requires Valid() && locs == Locations(hash, table.Length, e)
      ensures loc <= table.Length && (loc < table.Length ==> loc in locs && table[loc] == e)
      ensures loc == table.Length ==> forall k | 0 <= k < 8 :: table[locs[k]] != e
    {
      for k := 0 to 8
        invariant forall j | 0 <= j < k :: table[locs[j]] != e
      {
        if table[locs[k]] == e {
          return locs[k];
        }
      }
      loc := table.Length;
    }

    /** Whether the element is stored; if so it may be marked for erasure.  What was never inserted is
        never found. */
    method Contains(e: Element, erase: bool) returns (r: bool)
      requires Valid() && Remembers()
      modifies collectable
      ensures Valid() && Remembers() && (e != DEFAULT ==> (r <==> e in table[..]))
      ensures r && e != DEFAULT ==> e in inserted
      ensures !erase || !r ==> collectable[..] == old(collectable[..])
      ensures erase && r ==>
        exists i :: 0 <= i < table.Length && table[i] == e && collectable[..] == old(collectable[..])[i := true]
    {
      var locs := Locations(hash, table.Length, e);
      var loc := Find(e, locs);
      r := loc < table.Length;
      if r {
        assert table[loc] == table[..][loc];
        if erase {
          collectable[loc] := true;
        }
      }
    }

    /** Where the next displacement goes: one past where the element came from, among its own
        locations. */
    method NextLocation(locs: seq<nat>, last: nat) returns (loc: nat)
      requires |locs| == 8
      ensures loc in locs
      ensures exists p :: 0 <= p <= 8 && last !in locs[..p] && (p < 8 ==> locs[p] == last) && loc == locs[(1 + p) % 8]
    {
      var pos := 0;
      while pos < 8 && locs[pos] != last
        invariant 0 <= pos <= 8 && last !in locs[..pos]
      {
        pos := pos + 1;
      }
      loc := locs[(1 + pos) % 8];
    }

    /** The first of an element's locations that may be overwritten, or the table's size. */
    method FirstCollectable(locs: seq<nat>) returns (loc: nat)
      requires Valid() && |locs| == 8 && forall k | 0 <= k < 8 :: locs[k] < table.Length
      ensures loc <= table.Length && (loc < table.Length ==> loc in locs && collectable[loc])
      ensures loc == table.Length ==> forall k | 0 <= k < 8 :: !collectable[locs[k]]
    {
      for k := 0 to 8
        invariant forall j | 0 <= j < k :: !collectable[locs[j]]
      {
        if collectable[locs[k]] {
          return locs[k];
        }
      }
      loc := table.Length;
    }

    /** Puts an element at one of its locations. */
    method Put(loc: nat, x: Element)
      requires Valid() && loc < table.Length && loc in Locations(hash, table.Length, x)
      modifies table
      ensures Valid() && table[..] == old(table[..])[loc := x]
      ensures OneOut(old(table[..]), x, table[..], old(table[loc]))
    {
      table[loc] := x;
      PutMultiset(old(table[..]), loc, x);
    }

    /** Puts an element and its epoch flag at one of its locations. */
    method PutFlagged(loc: nat, x: Element, f: bool, ghost start: seq<(Element, bool)>, ghost e: Element)
      returns (out: Element, flag: bool)
      requires Valid() && loc < table.Length && loc in Locations(hash, table.Length, x)
      requires FlagsMove(start, e, Flagged(table[..], epochFlags[..]), x, f)
      modifies table, epochFlags
      ensures Valid() && out == old(table[loc]) && flag == old(epochFlags[loc])
      ensures table[..] == old(table[..])[loc := x] && epochFlags[..] == old(epochFlags[..])[loc := f]
      ensures OneOut(old(table[..]), x, table[..], out)
      ensures FlagsMove(start, e, Flagged(table[..], epochFlags[..]), out, flag)
    {
      hide FlagsMove, Placed, Locations;
      ghost var held := Flagged(table[..], epochFlags[..]);
      FlagsExchanged(start, e, held, x, f, loc);
      out, flag := table[loc], epochFlags[loc];
      Put(loc, x);
      epochFlags[loc] := f;
      assert Flagged(table[..], epochFlags[..]) == held[loc := (x, f)];
    }

    /** Stores an element that is not there: over the first collectable of its locations, else by
        displacing others up to the depth limit.  `out` is the element put out, `flag` its epoch flag
        and `steps` the number of displacements. */
    method InsertNew(e: Element) returns (ghost out: Element, ghost flag: bool, ghost steps: nat)
      requires Valid()
      modifies table, collectable, epochFlags
      ensures Valid() && steps <= depthLimit && OneOut(old(table[..]), e, table[..], out)
      ensures FlagsMove(old(Flagged(table[..], epochFlags[..])), e, Flagged(table[..], epochFlags[..]), out, flag)
      ensures Displaces(Locations(hash, table.Length, e), e, old(table[..]), old(collectable[..]), depthLimit,
                        table[..], collectable[..], out, steps)
    {
      hide Placed, Location, Locations, FlagsMove, Flagged, OneOut, Displaces, NoneFree, Spared;
      ghost var now := collectable[..];
      ghost var start := Flagged(table[..], epochFlags[..]);
      var locs := Locations(hash, table.Length, e);
      var x, lastEpoch := e, true;
      var last: nat := table.Length;
      var depth := 0;
      steps := 0;
      NothingMoved(start, table[..], e, now);
      while depth < depthLimit
        invariant depth <= depthLimit && Valid() && locs == Locations(hash, table.Length, x) && collectable[..] == now
        invariant OneOut(old(table[..]), e, table[..], x) && steps == depth
          && (depth == 0 ==> x == e && table[..] == old(table[..]))
        invariant FlagsMove(start, e, Flagged(table[..], epochFlags[..]), x, lastEpoch)
        invariant Spared(now, old(table[..]), table[..])
        invariant depth > 0 ==> NoneFree(now, Locations(hash, table.Length, e))
      {
        var loc := FirstCollectable(locs);
        ghost var held := table[..];
        if loc < table.Length {
          out, flag := PutFlagged(loc, x, lastEpoch, start, e);
          Exchanged(old(table[..]), e, held, x, table[..], out);
          collectable[loc] := false;
          SparedAt(now, old(table[..]), held, loc);
          assert collectable[..] == now[loc := false];
          DisplacedAt(Locations(hash, table.Length, e), e, old(table[..]), now, depthLimit, table[..], loc, out, steps);
          return;
        }
        NoneFreeIs(now, locs);
        last := NextLocation(locs, last);
        var displaced, itsEpoch := PutFlagged(last, x, lastEpoch, start, e);
        Exchanged(old(table[..]), e, held, x, table[..], displaced);
        SparedNext(now, old(table[..]), held, locs, last, x);
        x, lastEpoch := displaced, itsEpoch;
        locs := Locations(hash, table.Length, x);
        depth := depth + 1;
        steps := depth;
      }
      out, flag := x, lastEpoch;
      NotDisplaced(Locations(hash, table.Length, e), e, old(table[..]), now, depthLimit, table[..], out);
    }

    /** Stores an element, in place if it is there already. */
    method Insert(e: Element) returns (ghost stored: bool, ghost out: Element, ghost flag: bool, ghost steps: nat)
      requires Valid() && Remembers()
      modifies this`epochCounter, this`inserted, table, collectable, epochFlags
      ensures Valid() && Remembers() && inserted == old(inserted) + {e}
      ensures stored <==> exists k :: 0 <= k < 8 && old(table[..])[Locations(hash, table.Length, e)[k]] == e
      ensures !stored ==> OneOut(old(table[..]), e, table[..], out) && steps <= depthLimit
      ensures var now := CollectableNow(old(epochFlags[..]), old(collectable[..]), old(epochCounter), epochSize);
        var flags := FlagsNow(old(epochFlags[..]), old(collectable[..]), old(epochCounter), epochSize);
        && (stored ==> table[..] == old(table[..]))
        && (stored ==>
              exists i ::
                0 <= i < table.Length && table[i] == e && collectable[..] == now[i := false]
                  && epochFlags[..] == flags[i := true])
        && (!stored ==> FlagsMove(Flagged(old(table[..]), flags), e, Flagged(table[..], epochFlags[..]), out, flag))
        && (!stored ==> Displaces(Locations(hash, table.Length, e), e, old(table[..]), now, depthLimit,
                                  table[..], collectable[..], out, steps))
    {
      hide Placed, Location, CollectableNow, Unused, FlagsMove, Flagged, FlagsNow, OnlyFrom, OneOut, Displaces;
      ghost var before := table[..];
      OnlyGrows(before, inserted, e);
      EpochCheck();
      var locs := Locations(hash, table.Length, e);
      var found := Find(e, locs);
      stored, out, flag, steps := found < table.Length, e, true, 0;
      if found < table.Length {
        collectable[found] := false;
        epochFlags[found] := true;
      } else {
        out, flag, steps := InsertNew(e);
        OnlyInserted(before, e, table[..], out, inserted);
      }
      inserted := inserted + {e};
    }
  }

  /** Slot i was collectable, its element went out, and it is to be kept from now on. */
  ghost predicate Overwrites(before: seq<Element>, now: seq<bool>, i: nat, out: Element, after: seq<bool>)
    requires i < |before| == |now|
  {
    now[i] && out == before[i] && after == now[i := false]
  }

  ghost predicate NoneFree(now: seq<bool>, locs: seq<nat>)
  {
    forall k | 0 <= k < |locs| && locs[k] < |now| :: !now[locs[k]]
  }

  /** What an insertion displaces: with a location free at once, the element there and nothing else;
      otherwise a chain that ends at some collectable slot, or at the depth limit with no slot freed. */
  ghost predicate Displaces(locs: seq<nat>, e: Element, before: seq<Element>, now: seq<bool>, depthLimit: nat,
    after: seq<Element>, kept: seq<bool>, out: Element, steps: nat)
  {
    && |before| == |now| && steps <= depthLimit
    && (steps == depthLimit ==> kept == now)
    && (steps < depthLimit ==> exists i :: 0 <= i < |before| && Overwrites(before, now, i, out, kept))
    && (depthLimit > 0 && !NoneFree(now, locs) ==>
          steps == 0 && exists i :: 0 <= i < |before| && now[i] && after == before[i := e])
  }

  /** Slots that may be overwritten hold what they held. */
  ghost predicate Spared(now: seq<bool>, before: seq<Element>, table: seq<Element>)
  {
    |now| == |before| == |table| && forall i | 0 <= i < |now| && now[i] :: table[i] == before[i]
  }

  lemma SparedAt(now: seq<bool>, before: seq<Element>, table: seq<Element>, loc: nat)
    requires Spared(now, before, table) && loc < |now| && now[loc]
    ensures table[loc] == before[loc]
  {
  }

  lemma SparedNext(now: seq<bool>, before: seq<Element>, table: seq<Element>, locs: seq<nat>, loc: nat, x: Element)
    requires Spared(now, before, table) && NoneFree(now, locs) && loc in locs && loc < |now|
    ensures Spared(now, before, table[loc := x])
  {
  }

  lemma NoneFreeIs(now: seq<bool>, locs: seq<nat>)
    requires forall k | 0 <= k < |locs| :: locs[k] < |now| && !now[locs[k]]
    ensures NoneFree(now, locs)
  {
  }

  lemma DisplacedAt(locs: seq<nat>, e: Element, before: seq<Element>, now: seq<bool>, depthLimit: nat,
    after: seq<Element>, loc: nat, out: Element, steps: nat)
    requires loc < |before| == |now| && now[loc] && out == before[loc] && steps < depthLimit
    requires if steps == 0 then after == before[loc := e] else NoneFree(now, locs)
    ensures Displaces(locs, e, before, now, depthLimit, after, now[loc := false], out, steps)
  {
    hide NoneFree;
    assert Overwrites(before, now, loc, out, now[loc := false]);
  }

  lemma NotDisplaced(locs: seq<nat>, e: Element, before: seq<Element>, now: seq<bool>, depthLimit: nat,
    after: seq<Element>, out: Element)
    requires |before| == |now| && (depthLimit > 0 ==> NoneFree(now, locs))
    ensures Displaces(locs, e, before, now, depthLimit, after, now, out, depthLimit)
  {
    hide NoneFree;
  }

  lemma NothingMoved(start: seq<(Element, bool)>, table: seq<Element>, e: Element, now: seq<bool>)
    requires |now| == |table|
    ensures FlagsMove(start, e, start, e, true) && OneOut(table, e, table, e) && Spared(now, table, table)
  {
  }

  lemma PutMultiset(table: seq<Element>, loc: nat, x: Element)
    requires loc < |table|
    ensures multiset(table[loc := x]) + multiset{table[loc]} == multiset(table) + multiset{x}
  {
  }

  lemma Exchanged(start: seq<Element>, e: Element, held: seq<Element>, x: Element, now: seq<Element>, out: Element)
    requires OneOut(start, e, held, x) && OneOut(held, x, now, out)
    ensures OneOut(start, e, now, out)
  {
  }
}
