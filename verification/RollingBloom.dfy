/**
 CRollingBloomFilter: a Bloom filter over three cyclic generations.  Each cell is two bits spread
 over a pair of 64-bit words and holds the generation that last set it, or zero.
 */
module RollingBloom {

  type Key = nat

  /** The hash functions: the n-th hash of a key, under the filter's tweak. */
  type Hasher = (nat, Key) -> bv32

  // ---- Words, bit by bit ----

  function BitAt(w: bv64, b: bv6): bool
  {
    (w >> b) & 1 == 1
  }

  function And(x: bv64, y: bv64): bv64 { x & y }

  function Or(x: bv64, y: bv64): bv64 { x | y }

  function Xor(x: bv64, y: bv64): bv64 { x ^ y }

  function Not(x: bv64): bv64 { !x }

  function Shifted(v: bool, b: bv6): bv64 { if v then 1 << b else 0 << b }

  /** Minus one or zero: a word of all ones or all zeros. */
  function Spread(v: bool): bv64 { 0 - (if v then 1 else 0) }

  lemma AndBit(x: bv64, y: bv64, b: bv6)
    ensures BitAt(And(x, y), b) == (BitAt(x, b) && BitAt(y, b))
  {
  }

  lemma OrBit(x: bv64, y: bv64, b: bv6)
    ensures BitAt(Or(x, y), b) == (BitAt(x, b) || BitAt(y, b))
  {
    DeMorgan(x, y);
    hide BitAt, And, Or, Not;
    NotBit(x, b);
    NotBit(y, b);
    AndBit(Not(x), Not(y), b);
    NotBit(And(Not(x), Not(y)), b);
  }

  lemma DeMorgan(x: bv64, y: bv64)
    ensures Or(x, y) == Not(And(Not(x), Not(y)))
  {
  }

  lemma XorOnes(x: bv64)
    ensures Xor(x, 0xffff_ffff_ffff_ffff) == Not(x)
  {
  }

  lemma XorNothing(x: bv64)
    ensures Xor(x, 0) == x
  {
  }

  lemma SpreadIs()
    ensures Spread(true) == 0xffff_ffff_ffff_ffff && Spread(false) == 0
  {
  }

  lemma XorSpread(x: bv64, v: bool)
    ensures Xor(x, Spread(v)) == if v then Not(x) else x
  {
    hide Xor, Not, Spread;
    SpreadIs();
    XorOnes(x);
    XorNothing(x);
  }

  lemma NotBit(x: bv64, b: bv6)
    ensures BitAt(Not(x), b) == !BitAt(x, b)
  {
  }

  lemma ShiftedBit(v: bool, b: bv6, c: bv6)
    ensures BitAt(Shifted(v, b), c) == (v && b == c)
  {
  }

  // ---- Cells ----

  function Bit(v: bool): int { if v then 1 else 0 }

  /** The label of a cell: its low bit from the first word of the pair, its high bit from the second. */
  function Label(low: bv64, high: bv64, b: bv6): int
  {
    Bit(BitAt(low, b)) + 2 * Bit(BitAt(high, b))
  }

  /** The two bits of a generation. */
  predicate LowBit(g: int) { g % 2 == 1 }

  predicate HighBit(g: int) { g >= 2 }

  /** A word with one bit replaced. */
  function SetBit(w: bv64, b: bv6, v: bool): bv64
  {
    Or(And(w, Not(Shifted(true, b))), Shifted(v, b))
  }

  lemma SetBitAt(w: bv64, b: bv6, v: bool, c: bv6)
    ensures BitAt(SetBit(w, b, v), c) == if c == b then v else BitAt(w, c)
  {
    hide BitAt, And, Or, Not, Shifted;
    ShiftedBit(true, b, c);
    ShiftedBit(v, b, c);
    NotBit(Shifted(true, b), c);
    AndBit(w, Not(Shifted(true, b)), c);
    OrBit(And(w, Not(Shifted(true, b))), Shifted(v, b), c);
  }

  /** Marking a cell gives it the generation's label and leaves the others alone. */
  lemma MarkLabel(low: bv64, high: bv64, g: int, b: bv6, c: bv6)
    requires 1 <= g <= 3
    ensures Label(SetBit(low, b, LowBit(g)), SetBit(high, b, HighBit(g)), c) == if c == b then g
      else Label(low, high, c)
  {
    hide BitAt, SetBit;
    SetBitAt(low, b, LowBit(g), c);
    SetBitAt(high, b, HighBit(g), c);
  }

  /** The bits that survive a wipe: those that differ from the generation in either word. */
  function WipeMask(low: bv64, high: bv64, g: int): bv64
  {
    Or(Xor(low, Spread(LowBit(g))), Xor(high, Spread(HighBit(g))))
  }

  /** Wiping a pair of words clears exactly the cells with the generation's label. */
  lemma WipeLabel(low: bv64, high: bv64, g: int, b: bv6)
    requires 1 <= g <= 3
    ensures var mask := WipeMask(low, high, g);
      Label(And(low, mask), And(high, mask), b) == if Label(low, high, b) == g then 0 else Label(low, high, b)
  {
    hide BitAt, And, Or, Xor, Not, Spread;
    XorSpread(low, LowBit(g));
    XorSpread(high, HighBit(g));
    NotBit(low, b);
    NotBit(high, b);
    OrBit(Xor(low, Spread(LowBit(g))), Xor(high, Spread(HighBit(g))), b);
    AndBit(low, WipeMask(low, high, g), b);
    AndBit(high, WipeMask(low, high, g), b);
  }

  // ---- The table ----

  /** A table of whole pairs of words. */
  predicate Paired(d: seq<bv64>) { |d| > 0 && |d| % 2 == 0 }

  function Cell(d: seq<bv64>, k: nat, b: bv6): int
    requires Paired(d) && 2 * k < |d|
  {
    Label(d[2 * k], d[2 * k + 1], b)
  }

  /** Where a hash points: a pair of words and a bit. */
  function PairOf(h: bv32, size: nat): (k: nat)
    requires size > 0 && size % 2 == 0
    ensures 2 * k < size && 2 * k + 1 < size
  {
    ((h >> 6) as nat % size) / 2
  }

  function BitOf(h: bv32): bv6
  {
    (h & 0x3F) as bv6
  }

  function CellOf(d: seq<bv64>, h: bv32): int
    requires Paired(d)
  {
    Cell(d, PairOf(h, |d|), BitOf(h))
  }

  function Wiped(d: seq<bv64>, g: int): (r: seq<bv64>)
    requires Paired(d)
    ensures |r| == |d|
  {
    seq(|d|, i requires 0 <= i < |d| => WipedWord(d, i, g))
  }

  function WipedWord(d: seq<bv64>, i: nat, g: int): bv64
    requires Paired(d) && i < |d|
  {
    And(d[i], if i % 2 == 0 then WipeMask(d[i], d[i + 1], g) else WipeMask(d[i - 1], d[i], g))
  }

  lemma WipedCell(d: seq<bv64>, g: int, h: bv32)
    requires Paired(d) && 1 <= g <= 3
    ensures CellOf(Wiped(d, g), h) == if CellOf(d, h) == g then 0 else CellOf(d, h)
  {
    hide Label, WipeMask, And, BitOf, PairOf;
    var k := PairOf(h, |d|);
    WipeLabel(d[2 * k], d[2 * k + 1], g, BitOf(h));
  }

  function Marked(d: seq<bv64>, g: int, h: bv32): (r: seq<bv64>)
    requires Paired(d)
    ensures |r| == |d|
  {
    MarkedAt(d, g, PairOf(h, |d|), BitOf(h))
  }

  function MarkedAt(d: seq<bv64>, g: int, k: nat, b: bv6): (r: seq<bv64>)
    requires 2 * k + 1 < |d|
    ensures |r| == |d|
  {
    d[2 * k := SetBit(d[2 * k], b, LowBit(g))][2 * k + 1 := SetBit(d[2 * k + 1], b, HighBit(g))]
  }

  lemma MarkedCell(d: seq<bv64>, g: int, h: bv32, other: bv32)
    requires Paired(d) && 1 <= g <= 3
    ensures CellOf(Marked(d, g, h), h) == g
    ensures CellOf(Marked(d, g, h), other) == g || CellOf(Marked(d, g, h), other) == CellOf(d, other)
  {
    hide Label, SetBit, BitOf, PairOf;
    var k := PairOf(h, |d|);
    MarkLabel(d[2 * k], d[2 * k + 1], g, BitOf(h), BitOf(h));
    MarkLabel(d[2 * k], d[2 * k + 1], g, BitOf(h), BitOf(other));
  }

  /** The table once the first n hashes of a key are marked. */
  function MarkedUpTo(d: seq<bv64>, hash: Hasher, g: int, key: Key, n: nat): (r: seq<bv64>)
    requires Paired(d)
    ensures |r| == |d|
  {
    if n == 0 then d else Marked(MarkedUpTo(d, hash, g, key, n - 1), g, hash(n - 1, key))
  }

  // ---- Which keys are held ----

  /** How many generations ago a label was current. */
  function Age(g: int, mark: int): int { (g - mark) % 3 }

  /** A cell set at most a generations ago. */
  predicate Recent(mark: int, g: int, a: nat)
  {
    1 <= mark <= 3 && Age(g, mark) <= a
  }

  /** All of a key's cells were set at most a generations ago. */
  ghost predicate Held(d: seq<bv64>, hash: Hasher, nHash: nat, g: int, key: Key, a: nat)
    requires Paired(d)
  {
    forall n: nat | n < nHash :: Recent(CellOf(d, hash(n, key)), g, a)
  }

  function NextGeneration(g: int): int { if g + 1 == 4 then 1 else g + 1 }

  /** Starting a generation wipes only what was set three generations ago. */
  lemma RollHeld(d: seq<bv64>, hash: Hasher, nHash: nat, g: int, key: Key, a: nat)
    requires Paired(d) && 1 <= g <= 3 && a <= 1 && Held(d, hash, nHash, g, key, a)
    ensures Held(Wiped(d, NextGeneration(g)), hash, nHash, NextGeneration(g), key, a + 1)
  {
    hide CellOf, Wiped;
    forall n: nat | n < nHash
      ensures Recent(CellOf(Wiped(d, NextGeneration(g)), hash(n, key)), NextGeneration(g), a + 1)
    {
      WipedCell(d, NextGeneration(g), hash(n, key));
    }
  }

  lemma {:induction false} MarkHeld(d: seq<bv64>, hash: Hasher, nHash: nat, g: int, key: Key, n: nat, other: Key,
    a: nat)
    requires Paired(d) && 1 <= g <= 3 && Held(d, hash, nHash, g, other, a)
    ensures Held(MarkedUpTo(d, hash, g, key, n), hash, nHash, g, other, a)
  {
    hide CellOf, Marked;
    if n > 0 {
      MarkHeld(d, hash, nHash, g, key, n - 1, other, a);
      forall m: nat | m < nHash ensures Recent(CellOf(MarkedUpTo(d, hash, g, key, n), hash(m, other)), g, a) {
        MarkedCell(MarkedUpTo(d, hash, g, key, n - 1), g, hash(n - 1, key), hash(m, other));
      }
    }
  }

  lemma {:induction false} MarkHolds(d: seq<bv64>, hash: Hasher, g: int, key: Key, n: nat)
    requires Paired(d) && 1 <= g <= 3
    ensures Held(MarkedUpTo(d, hash, g, key, n), hash, n, g, key, 0)
  {
    hide CellOf, Marked;
    if n > 0 {
      MarkHolds(d, hash, g, key, n - 1);
      forall m: nat | m < n ensures Recent(CellOf(MarkedUpTo(d, hash, g, key, n), hash(m, key)), g, 0) {
        MarkedCell(MarkedUpTo(d, hash, g, key, n - 1), g, hash(n - 1, key), hash(m, key));
      }
    }
  }

  /** The keys of the current generation and the two before it, all of them held. */
  datatype Keys = Keys(older: seq<Key>, prev2: seq<Key>, prev: seq<Key>, cur: seq<Key>)
  {
    function All(): seq<Key> { older + prev2 + prev + cur }
  }

  ghost predicate AllHeld(d: seq<bv64>, hash: Hasher, nHash: nat, g: int, keys: seq<Key>, a: nat)
    requires Paired(d)
  {
    forall i | 0 <= i < |keys| :: Held(d, hash, nHash, g, keys[i], a)
  }

  ghost predicate FilterOk(d: seq<bv64>, hash: Hasher, nHash: nat, g: int, keys: Keys)
  {
    && Paired(d) && 1 <= g <= 3
    && AllHeld(d, hash, nHash, g, keys.cur, 0) && AllHeld(d, hash, nHash, g, keys.prev, 1)
    && AllHeld(d, hash, nHash, g, keys.prev2, 2)
  }

  function Rolled(keys: Keys): Keys { Keys(keys.older + keys.prev2, keys.prev, keys.cur, []) }

  function Inserted(keys: Keys, key: Key): Keys { keys.(cur := keys.cur + [key]) }

  lemma RollKeeps(d: seq<bv64>, hash: Hasher, nHash: nat, g: int, keys: Keys)
    requires FilterOk(d, hash, nHash, g, keys)
    ensures FilterOk(Wiped(d, NextGeneration(g)), hash, nHash, NextGeneration(g), Rolled(keys))
  {
    hide Held, Wiped;
    forall i | 0 <= i < |keys.cur|
      ensures Held(Wiped(d, NextGeneration(g)), hash, nHash, NextGeneration(g), keys.cur[i], 1)
    {
      RollHeld(d, hash, nHash, g, keys.cur[i], 0);
    }
    forall i | 0 <= i < |keys.prev|
      ensures Held(Wiped(d, NextGeneration(g)), hash, nHash, NextGeneration(g), keys.prev[i], 2)
    {
      RollHeld(d, hash, nHash, g, keys.prev[i], 1);
    }
  }

  lemma InsertKeeps(d: seq<bv64>, hash: Hasher, nHash: nat, g: int, keys: Keys, key: Key)
    requires FilterOk(d, hash, nHash, g, keys)
    ensures FilterOk(MarkedUpTo(d, hash, g, key, nHash), hash, nHash, g, Inserted(keys, key))
  {
    hide Held, MarkedUpTo;
    MarkHolds(d, hash, g, key, nHash);
    MarkAll(d, hash, nHash, g, key, keys.cur, 0);
    MarkAll(d, hash, nHash, g, key, keys.prev, 1);
    MarkAll(d, hash, nHash, g, key, keys.prev2, 2);
  }

  lemma MarkAll(d: seq<bv64>, hash: Hasher, nHash: nat, g: int, key: Key, keys: seq<Key>, a: nat)
    requires Paired(d) && 1 <= g <= 3 && AllHeld(d, hash, nHash, g, keys, a)
    ensures AllHeld(MarkedUpTo(d, hash, g, key, nHash), hash, nHash, g, keys, a)
  {
    hide Held, MarkedUpTo;
    forall i | 0 <= i < |keys| ensures Held(MarkedUpTo(d, hash, g, key, nHash), hash, nHash, g, keys[i], a) {
      MarkHeld(d, hash, nHash, g, key, nHash, keys[i], a);
    }
  }

  /** Enough keys are kept: generations are full before they are left behind. */
  predicate Sized(keys: Keys, perGeneration: nat, entries: nat)
  {
    && |keys.cur| == entries
    && (entries <= perGeneration || perGeneration == 0)
    && (|keys.prev| == perGeneration || (keys.prev == [] && keys.prev2 == [] && keys.older == []))
    && (|keys.prev2| == perGeneration || (keys.prev2 == [] && keys.older == []))
  }

  /** The last 2 * perGeneration keys are among those kept. */
  lemma LastKept(keys: Keys, perGeneration: nat, entries: nat, i: nat)
    requires Sized(keys, perGeneration, entries) && |keys.All()| - 2 * perGeneration <= i < |keys.All()|
    ensures keys.All()[i] in keys.prev2 || keys.All()[i] in keys.prev || keys.All()[i] in keys.cur
  {
    var all := keys.All();
    var n1, n2, n3 := |keys.older|, |keys.older| + |keys.prev2|, |keys.older| + |keys.prev2| + |keys.prev|;
    assert n1 <= i;
    if i < n2 {
      assert all[i] == keys.prev2[i - n1];
    } else if i < n3 {
      assert all[i] == keys.prev[i - n2];
    } else {
      assert all[i] == keys.cur[i - n3];
    }
  }

  class CRollingBloomFilter {
    const nEntriesPerGeneration: nat
    const nHashFuncs: nat
    const data: array<bv64>
    var nEntriesThisGeneration: nat
    var nGeneration: int
    var hash: Hasher
    ghost var keys: Keys

    ghost predicate Valid()
      reads this, data
    {
      FilterOk(data[..], hash, nHashFuncs, nGeneration, keys)
        && Sized(keys, nEntriesPerGeneration, nEntriesThisGeneration)
    }

    /** The keys inserted since the last reset, in order. */
    ghost function Inserts(): seq<Key>
      reads this
    {
      keys.All()
    }

    /** The sizes come from floating-point formulas and are taken as given. */
    constructor (nElements: nat, nHashFuncs: nat, pairs: nat, hash: Hasher)
      requires pairs > 0
      ensures Valid() && Inserts() == [] && nEntriesPerGeneration == (nElements + 1) / 2 && fresh(data)
    {
      nEntriesPerGeneration := (nElements + 1) / 2;
      this.nHashFuncs := nHashFuncs;
      data := new bv64[2 * pairs];
      nEntriesThisGeneration, nGeneration := 0, 1;
      this.hash := hash;
      keys := Keys([], [], [], []);
      new;
      Reset(hash);
    }

    method Reset(hash: Hasher)
      requires Paired(data[..])
      modifies this, data
      ensures Valid() && Inserts() == [] && forall i | 0 <= i < data.Length :: data[i] == 0
    {
      this.hash := hash;
      nEntriesThisGeneration := 0;
      nGeneration := 1;
      for i := 0 to data.Length
        modifies data
        invariant forall j | 0 <= j < i :: data[j] == 0
      {
        data[i] := 0;
      }
      keys := Keys([], [], [], []);
    }

    /** Clears every cell that carries the generation's label. */
    method Wipe()
      requires Paired(data[..])
      modifies data
      ensures data[..] == Wiped(old(data[..]), nGeneration)
    {
      hide WipeMask, And;
      ghost var d := data[..];
      var p := 0;
      while p < data.Length
        invariant 0 <= p <= data.Length && p % 2 == 0
        invariant forall i | 0 <= i < p :: data[i] == WipedWord(d, i, nGeneration)
        invariant forall i | p <= i < data.Length :: data[i] == d[i]
      {
        var p1, p2 := data[p], data[p + 1];
        var mask := WipeMask(p1, p2, nGeneration);
        assert WipedWord(d, p, nGeneration) == And(p1, mask) && WipedWord(d, p + 1, nGeneration) == And(p2, mask);
        data[p] := And(p1, mask);
        data[p + 1] := And(p2, mask);
        p := p + 2;
      }
    }

    /** Labels all of a key's cells with the current generation. */
    method Mark(key: Key)
      requires Paired(data[..])
      modifies data
      ensures data[..] == MarkedUpTo(old(data[..]), hash, nGeneration, key, nHashFuncs)
    {
      hide SetBit, BitOf, PairOf;
      ghost var d := data[..];
      for n := 0 to nHashFuncs
        invariant data[..] == MarkedUpTo(d, hash, nGeneration, key, n)
      {
        var h := hash(n, key);
        var k, bit := PairOf(h, data.Length), BitOf(h);
        data[2 * k] := SetBit(data[2 * k], bit, LowBit(nGeneration));
        data[2 * k + 1] := SetBit(data[2 * k + 1], bit, HighBit(nGeneration));
      }
    }

    /** Starts the next generation, reusing the label of the one three back. */
    method Roll()
      requires FilterOk(data[..], hash, nHashFuncs, nGeneration, keys)
      modifies this`nEntriesThisGeneration, this`nGeneration, this`keys, data
      ensures FilterOk(data[..], hash, nHashFuncs, nGeneration, keys)
      ensures nEntriesThisGeneration == 0 && keys == Rolled(old(keys))
    {
      hide FilterOk, Wiped;
      FilterPaired(data[..], hash, nHashFuncs, nGeneration, keys);
      RollKeeps(data[..], hash, nHashFuncs, nGeneration, keys);
      nEntriesThisGeneration := 0;
      nGeneration := nGeneration + 1;
      if nGeneration == 4 {
        nGeneration := 1;
      }
      Wipe();
      keys := Rolled(keys);
    }

    method Insert(key: Key)
      requires Valid()
      modifies this`nEntriesThisGeneration, this`nGeneration, this`keys, data
      ensures Valid() && Inserts() == old(Inserts()) + [key]
    {
      hide FilterOk, MarkedUpTo;
      if nEntriesThisGeneration == nEntriesPerGeneration {
        Roll();
      }
      assert Inserts() == old(Inserts());
      nEntriesThisGeneration := nEntriesThisGeneration + 1;
      FilterPaired(data[..], hash, nHashFuncs, nGeneration, keys);
      InsertKeeps(data[..], hash, nHashFuncs, nGeneration, keys, key);
      Mark(key);
      keys := Inserted(keys, key);
    }

    /** Whether the key may have been inserted; certainly yes for each of the last
        2 * nEntriesPerGeneration inserts since the reset. */
    method Contains(key: Key) returns (r: bool)
      requires Valid()
      ensures r <==> forall n: nat | n < nHashFuncs :: CellOf(data[..], hash(n, key)) != 0
      ensures forall i: nat | |Inserts()| - 2 * nEntriesPerGeneration <= i < |Inserts()| && Inserts()[i] == key :: r
    {
      forall i: nat | |Inserts()| - 2 * nEntriesPerGeneration <= i < |Inserts()| && Inserts()[i] == key
        ensures forall n: nat | n < nHashFuncs :: CellOf(data[..], hash(n, key)) != 0
      {
        LastKept(keys, nEntriesPerGeneration, nEntriesThisGeneration, i);
        KeptFound(data[..], hash, nHashFuncs, nGeneration, keys, key);
      }
      hide CellOf, FilterOk;
      FilterPaired(data[..], hash, nHashFuncs, nGeneration, keys);
      for n := 0 to nHashFuncs
        invariant forall m: nat | m < n :: CellOf(data[..], hash(m, key)) != 0
      {
        var h := hash(n, key);
        var k, bit := PairOf(h, data.Length), BitOf(h);
        EmptyCell(data[..], h);
        if !BitAt(Or(data[2 * k], data[2 * k + 1]), bit) {
          return false;
        }
      }
      r := true;
    }
  }

  lemma FilterPaired(d: seq<bv64>, hash: Hasher, nHash: nat, g: int, keys: Keys)
    requires FilterOk(d, hash, nHash, g, keys)
    ensures Paired(d) && 1 <= g <= 3
  {
  }

  /** A key that is kept has no empty cell. */
  lemma KeptFound(d: seq<bv64>, hash: Hasher, nHash: nat, g: int, keys: Keys, key: Key)
    requires FilterOk(d, hash, nHash, g, keys) && (key in keys.prev2 || key in keys.prev || key in keys.cur)
    ensures forall n: nat | n < nHash :: CellOf(d, hash(n, key)) != 0
  {
    hide CellOf;
    if key in keys.cur {
      assert Held(d, hash, nHash, g, key, 0);
    } else if key in keys.prev {
      assert Held(d, hash, nHash, g, key, 1);
    } else {
      assert Held(d, hash, nHash, g, key, 2);
    }
  }

  lemma EmptyCell(d: seq<bv64>, h: bv32)
    requires Paired(d)
    ensures var k := PairOf(h, |d|); CellOf(d, h) == 0 <==> !BitAt(Or(d[2 * k], d[2 * k + 1]), BitOf(h))
  {
    hide BitAt, Or, PairOf, BitOf;
    var k := PairOf(h, |d|);
    OrBit(d[2 * k], d[2 * k + 1], BitOf(h));
  }
}
