/**
 PartiallyDownloadedBlock: the receiving side of compact block relay, from a compact block and the
 transactions on hand to the full block.
 */
module PartialBlock {
  import opened CompactBlock
  import opened Wrappers

  /** `NeverEnds` stands for a call that does not return. */
  datatype ReadStatus = Ok | Invalid | Failed | CheckBlockFailed | NeverEnds

  /** What CheckBlock says of the rebuilt block. */
  datatype Verdict = Accepted | Corrupt | Rejected

  // ---- Matching short ids against the transactions on hand ----

  ghost predicate Match(id: Hash -> nat, want: nat, all: seq<Entry>, m: nat)
  {
    m < |all| && id(all[m].hash) == want
  }

  /** A slot holds only a transaction that matches, and is empty only for want of a single match. */
  ghost predicate Resolved(id: Hash -> nat, want: nat, all: seq<Entry>, a: Option<Tx>)
  {
    && (a.Some? ==> exists m: nat :: Match(id, want, all, m) && all[m].tx == a.value)
    && (a.None? ==>
          || (forall m: nat :: !Match(id, want, all, m))
          || (exists m: nat, n: nat :: m < n && Match(id, want, all, m) && Match(id, want, all, n)))
  }

  ghost predicate Slots(a0: seq<Option<Tx>>, n: nat, slots: seq<nat>)
  {
    |slots| == n == Holes(a0) && forall i: nat | i < n :: IsSlot(a0, i, slots[i])
  }

  predicate Distinct(ids: seq<nat>)
  {
    forall i, j | 0 <= i < j < |ids| :: ids[i] != ids[j]
  }

  /** The short id map sends each id to its slot, cut to 16 bits. */
  ghost predicate Maps(m: map<nat, nat>, ids: seq<nat>, slots: seq<nat>)
  {
    && |slots| == |ids| && Distinct(ids)
    && (forall i | 0 <= i < |ids| :: ids[i] in m && m[ids[i]] == slots[i] % (MAX_INDEX + 1))
    && (forall s | s in m :: s in ids)
  }

  /** The map sends entry k to position p. */
  ghost predicate Hits(id: Hash -> nat, m: map<nat, nat>, all: seq<Entry>, k: nat, p: nat)
  {
    k < |all| && id(all[k].hash) in m && m[id(all[k].hash)] == p
  }

  /** One position after looking at the first k entries: whether it was hit, and what it holds.
      A position emptied again was hit twice. */
  ghost predicate PosState(id: Hash -> nat, m: map<nat, nat>, all: seq<Entry>, k: nat, p: nat, a0: Option<Tx>,
    have: bool, a: Option<Tx>)
  {
    && (have <==> exists j: nat :: j < k && Hits(id, m, all, j, p))
    && (!have ==> a == a0)
    && (have && a.Some? ==> exists j: nat :: j < k && Hits(id, m, all, j, p) && all[j].tx == a.value)
    && (have && a.None? ==> exists i: nat, j: nat :: i < j < k && Hits(id, m, all, i, p) && Hits(id, m, all, j, p))
  }

  /** The positions filled from the transactions on hand. */
  ghost function Found(have: seq<bool>, avail: seq<Option<Tx>>): set<nat>
    requires |have| == |avail|
  {
    set p: nat | p < |avail| && have[p] && avail[p].Some?
  }

  ghost predicate PassOk(id: Hash -> nat, m: map<nat, nat>, a0: seq<Option<Tx>>, all: seq<Entry>, k: nat,
    avail: seq<Option<Tx>>, have: seq<bool>, count: nat)
  {
    && k <= |all| && |avail| == |a0| == |have| && (forall s | s in m :: m[s] < |a0|)
    && (forall p: nat | p < |a0| :: PosState(id, m, all, k, p, a0[p], have[p], avail[p]))
    && count == |Found(have, avail)|
  }

  /** What an entry does to the position it hits.  From the memory pool a second match empties it;
      from the extra pool only if it is another transaction. */
  function Seen(extra: bool, have: bool, a: Option<Tx>, tx: Tx): Option<Tx>
  {
    if !have then Some(tx)
    else if extra && a.Some? && a.value.wtxid == tx.wtxid then a
    else None
  }

  lemma SeenKeeps(id: Hash -> nat, m: map<nat, nat>, all: seq<Entry>, k: nat, p: nat, a0: Option<Tx>,
    have: bool, a: Option<Tx>, extra: bool)
    requires PosState(id, m, all, k, p, a0, have, a) && Hits(id, m, all, k, p)
    ensures PosState(id, m, all, k + 1, p, a0, true, Seen(extra, have, a, all[k].tx))
  {
    if have {
      var j: nat :| j < k && Hits(id, m, all, j, p);
      assert j < k < k + 1;
    }
  }

  lemma UnseenKeeps(id: Hash -> nat, m: map<nat, nat>, all: seq<Entry>, k: nat, p: nat, a0: Option<Tx>,
    have: bool, a: Option<Tx>)
    requires PosState(id, m, all, k, p, a0, have, a) && !Hits(id, m, all, k, p)
    ensures PosState(id, m, all, k + 1, p, a0, have, a)
  {
  }

  lemma FoundUpdate(have: seq<bool>, avail: seq<Option<Tx>>, p: nat, v: Option<Tx>)
    requires |have| == |avail| && p < |avail|
    ensures |Found(have[p := true], avail[p := v])| ==
      |Found(have, avail)| - (if have[p] && avail[p].Some? then 1 else 0) + (if v.Some? then 1 else 0)
  {
    var f, f' := Found(have, avail), Found(have[p := true], avail[p := v]);
    forall q ensures q in f' - {p} <==> q in f - {p} {
    }
    assert f' - {p} == f - {p};
    assert f == if p in f then (f - {p}) + {p} else f - {p};
    assert f' == if p in f' then (f' - {p}) + {p} else f' - {p};
  }

  /** One entry that hits position p. */
  lemma HitKeeps(id: Hash -> nat, m: map<nat, nat>, a0: seq<Option<Tx>>, all: seq<Entry>, k: nat,
    avail: seq<Option<Tx>>, have: seq<bool>, count: nat, p: nat, extra: bool, count': nat)
    requires PassOk(id, m, a0, all, k, avail, have, count) && p < |a0| && Hits(id, m, all, k, p)
    requires var v := Seen(extra, have[p], avail[p], all[k].tx);
      count' == count - (if have[p] && avail[p].Some? then 1 else 0) + (if v.Some? then 1 else 0)
    ensures PassOk(id, m, a0, all, k + 1,
      avail[p := Seen(extra, have[p], avail[p], all[k].tx)], have[p := true], count')
  {
    hide PosState, Found;
    var v := Seen(extra, have[p], avail[p], all[k].tx);
    FoundUpdate(have, avail, p, v);
    forall q: nat | q < |a0| ensures PosState(id, m, all, k + 1, q, a0[q], have[p := true][q], avail[p := v][q]) {
      assert PosState(id, m, all, k, q, a0[q], have[q], avail[q]);
      if q == p {
        SeenKeeps(id, m, all, k, p, a0[p], have[p], avail[p], extra);
      } else {
        UnseenKeeps(id, m, all, k, q, a0[q], have[q], avail[q]);
      }
    }
  }

  /** One entry whose short id is not wanted. */
  lemma MissKeeps(id: Hash -> nat, m: map<nat, nat>, a0: seq<Option<Tx>>, all: seq<Entry>, k: nat,
    avail: seq<Option<Tx>>, have: seq<bool>, count: nat)
    requires PassOk(id, m, a0, all, k, avail, have, count) && k < |all| && id(all[k].hash) !in m
    ensures PassOk(id, m, a0, all, k + 1, avail, have, count)
  {
    hide PosState, Found;
    forall q: nat | q < |a0| ensures PosState(id, m, all, k + 1, q, a0[q], have[q], avail[q]) {
      assert PosState(id, m, all, k, q, a0[q], have[q], avail[q]);
      UnseenKeeps(id, m, all, k, q, a0[q], have[q], avail[q]);
    }
  }

  lemma {:induction false} FewValues(m: map<nat, nat>)
    ensures |m.Values| <= |m|
  {
    if m != map[] {
      var s :| s in m;
      var rest := map t | t in m && t != s :: m[t];
      FewValues(rest);
      assert rest.Keys == m.Keys - {s};
      forall v | v in m.Values ensures v in rest.Values + {m[s]} {
        var t :| t in m && m[t] == v;
        assert t != s ==> t in rest && rest[t] == v;
      }
      SubsetSize(m.Values, rest.Values + {m[s]});
    }
  }

  lemma {:induction false} SubsetSize(a: set<nat>, b: set<nat>)
    requires a <= b
    ensures |a| <= |b| && (|a| == |b| ==> a == b)
  {
    if a != {} {
      var x :| x in a;
      SubsetSize(a - {x}, b - {x});
    }
  }

  /** Once as many positions are filled as ids are wanted, every position wanted is filled and the
      remaining entries of the pass need not be looked at. */
  lemma FullKeeps(id: Hash -> nat, m: map<nat, nat>, a0: seq<Option<Tx>>, all: seq<Entry>, k: nat, k': nat,
    avail: seq<Option<Tx>>, have: seq<bool>)
    requires PassOk(id, m, a0, all, k, avail, have, |m|) && k <= k' <= |all|
    ensures PassOk(id, m, a0, all, k', avail, have, |m|)
  {
    var f := Found(have, avail);
    forall p | p in f ensures p in m.Values {
      assert PosState(id, m, all, k, p, a0[p], have[p], avail[p]);
      var j: nat :| j < k && Hits(id, m, all, j, p);
    }
    FewValues(m);
    SubsetSize(f, m.Values);
    forall p: nat | p < |a0| ensures PosState(id, m, all, k', p, a0[p], have[p], avail[p]) {
      assert PosState(id, m, all, k, p, a0[p], have[p], avail[p]);
      forall j: nat | j < k' && Hits(id, m, all, j, p) ensures have[p] {
        assert p in m.Values;
      }
    }
  }

  // ---- The loops of InitData ----

  /** Puts the prefilled transactions in place, or fails at the first that does not fit. */
  method PlacePrefilled(c: Compact) returns (ok: bool, avail: seq<Option<Tx>>)
    requires c.TxCount() <= MAX_TX_COUNT
    ensures ok <==> forall j: nat | j < |c.prefilled| :: PrefilledOk(c, j)
    ensures ok ==> avail == Placed(c, |c.prefilled|)
  {
    avail := seq(c.TxCount(), _ => None);
    var last := -1;
    var i := 0;
    while i < |c.prefilled|
      invariant i <= |c.prefilled| && forall j: nat | j < i :: PrefilledOk(c, j)
      invariant last == if i == 0 then -1 else Position(c, i - 1)
      invariant avail == Placed(c, i)
    {
      if c.prefilled[i].tx.isNull {
        assert !PrefilledOk(c, i);
        return false, avail;
      }
      last := last + c.prefilled[i].index + 1;
      assert last == Position(c, i);
      if last > MAX_INDEX || last > |c.shortTxIds| + i {
        assert !PrefilledOk(c, i);
        return false, avail;
      }
      avail := avail[last := Some(c.prefilled[i].tx)];
      i := i + 1;
    }
    ok := true;
  }

  /** Steps over filled positions to the hole of the i-th short id.  The offset has 16 bits: None
      means that the position is filled at every offset, so that the loop never ends. */
  method NextHole(avail: seq<Option<Tx>>, i: nat, start: nat) returns (r: Option<nat>)
    requires NoneBeyond(avail) && start <= MAX_INDEX
    requires i + start <= |avail| && Holes(avail[..i + start]) == i < Holes(avail)
    ensures r.None? ==> |avail| > MAX_INDEX && forall o: nat | o <= MAX_INDEX :: avail[o].Some?
    ensures r.None? ==> i == 0
    ensures r.Some? ==> r.value <= MAX_INDEX && IsSlot(avail, i, i + r.value)
  {
    hide Holes;
    var offset := start;
    NotPast(avail, i, offset);
    while avail[i + offset].Some?
      invariant offset <= MAX_INDEX && i + offset < |avail| && Holes(avail[..i + offset]) == i
      decreases MAX_INDEX - offset
    {
      HolesNext(avail, i + offset);
      if offset == MAX_INDEX {
        NoHoleBefore(avail, offset + 1);
        return None;
      }
      offset := offset + 1;
      NotPast(avail, i, offset);
    }
    r := Some(offset);
  }

  lemma {:induction false} NoHoleBefore(a: seq<Option<Tx>>, n: nat)
    requires n <= |a| && Holes(a[..n]) == 0
    ensures forall o: nat | o < n :: a[o].Some?
  {
    if n > 0 {
      HolesNext(a, n - 1);
      NoHoleBefore(a, n - 1);
    }
  }

  lemma NotPast(avail: seq<Option<Tx>>, i: nat, offset: nat)
    requires i + offset <= |avail| && Holes(avail[..i + offset]) == i < Holes(avail)
    ensures i + offset < |avail|
  {
    assert avail[..|avail|] == avail;
  }

  /** Inserting the first i ids overfills a bucket on the way. */
  predicate Crowds(crowded: seq<nat> -> bool, ids: seq<nat>, i: nat)
    requires i <= |ids|
  {
    exists n :: 0 < n <= i && crowded(ids[..n])
  }

  /** The map after inserting `ids`: as large as the list exactly when they are distinct. */
  ghost predicate MapState(m: map<nat, nat>, ids: seq<nat>, slots: seq<nat>)
  {
    && |slots| == |ids| && (forall s :: s in m <==> s in ids)
    && |m| <= |ids| && (|m| == |ids| <==> Distinct(ids))
    && (Distinct(ids) ==> forall j | 0 <= j < |ids| :: m[ids[j]] == slots[j] % (MAX_INDEX + 1))
  }

  lemma MapStateNext(m: map<nat, nat>, ids: seq<nat>, slots: seq<nat>, x: nat, p: nat)
    requires MapState(m, ids, slots)
    ensures MapState(m[x := p % (MAX_INDEX + 1)], ids + [x], slots + [p])
  {
    hide Distinct;
    DistinctNext(ids, x);
    MapSize(m, x, p % (MAX_INDEX + 1));
    var m', ids', slots' := m[x := p % (MAX_INDEX + 1)], ids + [x], slots + [p];
    forall s ensures s in m' <==> s in ids' {
      assert s in ids' <==> s in ids || s == x;
    }
    if Distinct(ids') {
      forall j | 0 <= j < |ids'| ensures m'[ids'[j]] == slots'[j] % (MAX_INDEX + 1) {
        assert j < |ids| ==> ids'[j] == ids[j] && ids[j] in ids && slots'[j] == slots[j];
      }
    }
  }

  /** Every position within 16 bits is filled and a hole remains. */
  predicate Endless(avail: seq<Option<Tx>>)
  {
    Holes(avail) > 0 && |avail| > MAX_INDEX && forall o: nat | o <= MAX_INDEX :: avail[o].Some?
  }

  datatype Mapped = Mapped(ids: map<nat, nat>) | Crowded | Circles

  /** Maps each short id to its position, cut to 16 bits.  `crowded` stands for the hash table's bucket
      limit, which the code checks after every insertion. */
  method MapShortIds(avail: seq<Option<Tx>>, ids: seq<nat>, crowded: seq<nat> -> bool)
    returns (r: Mapped, ghost slots: seq<nat>)
    requires Holes(avail) == |ids| && NoneBeyond(avail)
    ensures r == Circles <==> Endless(avail)
    ensures r == Crowded <==> !Endless(avail) && (Crowds(crowded, ids, |ids|) || !Distinct(ids))
    ensures r.Mapped? ==> Slots(avail, |ids|, slots) && Maps(r.ids, ids, slots) && |r.ids| == |ids|
  {
    hide Holes, MapState, Distinct;
    var m: map<nat, nat> := map[];
    slots := [];
    var offset: nat := 0;
    var i := 0;
    HolesEmpty();
    MapStateEmpty();
    assert avail[..0] == [] && ids[..0] == [];
    while i < |ids|
      invariant i <= |ids| && |slots| == i && i + offset <= |avail| && offset <= MAX_INDEX
      invariant Holes(avail[..i + offset]) == i
      invariant forall j: nat | j < i :: IsSlot(avail, j, slots[j])
      invariant !Crowds(crowded, ids, i) && (i > 0 ==> !Endless(avail))
      invariant MapState(m, ids[..i], slots)
    {
      var next := NextHole(avail, i, offset);
      if next.None? {
        return Circles, slots;
      }
      if i == 0 {
        SlotInReach(avail, next.value);
      }
      offset := next.value;
      HolesNext(avail, i + offset);
      MapStateNext(m, ids[..i], slots, ids[i], i + offset);
      assert ids[..i + 1] == ids[..i] + [ids[i]];
      m := m[ids[i] := (i + offset) % (MAX_INDEX + 1)];
      slots := slots + [i + offset];
      i := i + 1;
      if crowded(ids[..i]) {
        return Crowded, slots;
      }
    }
    assert ids[..|ids|] == ids;
    MapStateMaps(m, ids, slots);
    r := if |m| != |ids| then Crowded else Mapped(m);
  }

  lemma SlotInReach(avail: seq<Option<Tx>>, p: nat)
    requires IsSlot(avail, 0, p) && p <= MAX_INDEX
    ensures !Endless(avail)
  {
  }

  lemma MapStateEmpty()
    ensures MapState(map[], [], [])
  {
  }

  lemma MapStateMaps(m: map<nat, nat>, ids: seq<nat>, slots: seq<nat>)
    requires MapState(m, ids, slots)
    ensures |m| == |ids| <==> Distinct(ids)
    ensures Distinct(ids) ==> Maps(m, ids, slots)
  {
    hide Distinct;
    assert forall i | 0 <= i < |ids| :: ids[i] in ids;
  }

  lemma HolesEmpty()
    ensures Holes([]) == 0
  {
  }

  lemma DistinctNext(ids: seq<nat>, x: nat)
    ensures Distinct(ids + [x]) <==> Distinct(ids) && x !in ids
  {
    var ids' := ids + [x];
    assert forall i | 0 <= i < |ids| :: ids'[i] == ids[i];
    if Distinct(ids') {
      assert forall i | 0 <= i < |ids| :: ids'[i] != ids'[|ids|];
    }
  }

  lemma MapSize(m: map<nat, nat>, s: nat, p: nat)
    ensures |m[s := p]| == |m| + if s in m then 0 else 1
  {
    if s in m {
      assert m[s := p].Keys == m.Keys;
    } else {
      assert m[s := p].Keys == m.Keys + {s};
    }
    assert |m| == |m.Keys| && |m[s := p]| == |m[s := p].Keys|;
  }

  /** An entry whose short id is wanted: the first fills the position, a clash empties it. */
  method Take(id: Hash -> nat, m: map<nat, nat>, ghost a0: seq<Option<Tx>>, all: seq<Entry>, k: nat, extra: bool,
    avail0: seq<Option<Tx>>, have0: seq<bool>, count0: nat)
    returns (avail: seq<Option<Tx>>, have: seq<bool>, count: nat)
    requires k < |all| && PassOk(id, m, a0, all, k, avail0, have0, count0) && id(all[k].hash) in m
    ensures PassOk(id, m, a0, all, k + 1, avail, have, count)
  {
    avail, have, count := avail0, have0, count0;
    var p := m[id(all[k].hash)];
    assert avail0[p := avail0[p]] == avail0 && (have0[p] ==> have0[p := true] == have0);
    ghost var v := Seen(extra, have[p], avail[p], all[k].tx);
    FoundUpdate(have, avail, p, v);
    if !have[p] {
      avail, have, count := avail[p := Some(all[k].tx)], have[p := true], count + 1;
    } else if avail[p].Some? && (!extra || avail[p].value.wtxid != all[k].tx.wtxid) {
      avail, count := avail[p := None], count - 1;
    }
    HitKeeps(id, m, a0, all, k, avail0, have0, count0, p, extra, count);
  }

  /** One pass over the memory pool or the extra pool, stopping once every id has its transaction. */
  method MatchPass(id: Hash -> nat, m: map<nat, nat>, ghost a0: seq<Option<Tx>>, all: seq<Entry>, from: nat, to: nat,
    extra: bool, avail0: seq<Option<Tx>>, have0: seq<bool>, count0: nat)
    returns (avail: seq<Option<Tx>>, have: seq<bool>, count: nat)
    requires from <= to <= |all| && PassOk(id, m, a0, all, from, avail0, have0, count0)
    ensures PassOk(id, m, a0, all, to, avail, have, count)
  {
    hide PassOk;
    avail, have, count := avail0, have0, count0;
    var k := from;
    while k < to
      invariant from <= k <= to && PassOk(id, m, a0, all, k, avail, have, count)
    {
      if id(all[k].hash) in m {
        avail, have, count := Take(id, m, a0, all, k, extra, avail, have, count);
      } else {
        MissKeeps(id, m, a0, all, k, avail, have, count);
      }
      k := k + 1;
      if count == |m| {
        FullKeeps(id, m, a0, all, k, to, avail, have);
        return;
      }
    }
  }

  // ---- The class ----

  /** Entry m has the short id of some slot that is p once cut to 16 bits. */
  ghost predicate Reaches(c: Compact, id: Hash -> nat, all: seq<Entry>, m: nat, p: nat)
    requires WellFormed(c)
  {
    exists i: nat, q: nat :: i < |c.shortTxIds| && IsSlot(Placed(c, |c.prefilled|), i, q) && q % (MAX_INDEX + 1) == p
      && Match(id, c.shortTxIds[i], all, m)
  }

  /** A position no entry reaches is as prefilled; one reached holds an entry that reaches it, or
      nothing if two do. */
  ghost predicate Settled(c: Compact, id: Hash -> nat, all: seq<Entry>, p: nat, a: Option<Tx>)
    requires WellFormed(c) && p < c.TxCount()
  {
    || (a == Placed(c, |c.prefilled|)[p] && forall m: nat :: !Reaches(c, id, all, m, p))
    || (a.Some? && exists m: nat :: Reaches(c, id, all, m, p) && all[m].tx == a.value)
    || (a.None? && exists m: nat, n: nat :: m < n && Reaches(c, id, all, m, p) && Reaches(c, id, all, n, p))
  }

  /** What a successful InitData leaves. */
  ghost predicate Initialised(c: Compact, id: Hash -> nat, all: seq<Entry>, avail: seq<Option<Tx>>)
    requires WellFormed(c)
  {
    |avail| == c.TxCount() && forall p: nat | p < |avail| :: Settled(c, id, all, p, avail[p])
  }

  /** The positions filled from the transactions on hand. */
  ghost function Matched(c: Compact, id: Hash -> nat, all: seq<Entry>, avail: seq<Option<Tx>>): set<nat>
    requires WellFormed(c)
  {
    set p: nat | p < |avail| && avail[p].Some? && exists m: nat :: Reaches(c, id, all, m, p)
  }

  class PartiallyDownloadedBlock {
    var header: Header
    var txnAvailable: seq<Option<Tx>>
    var prefilledCount: nat
    var mempoolCount: nat

    constructor ()
      ensures header == NullHeader && txnAvailable == [] && prefilledCount == 0 && mempoolCount == 0
    {
      header := NullHeader;
      txnAvailable := [];
      prefilledCount, mempoolCount := 0, 0;
    }

    method InitData(c: Compact, id: Hash -> nat, pool: seq<Entry>, extra: seq<Entry>, crowded: seq<nat> -> bool)
      returns (status: ReadStatus)
      requires header == NullHeader && txnAvailable == [] && mempoolCount == 0
      modifies this
      ensures status == Invalid <==> !WellFormed(c)
      ensures status == NeverEnds <==> WellFormed(c) && AllPrefilled(c)
      ensures status == Failed <==>
        && WellFormed(c) && !AllPrefilled(c)
        && (Crowds(crowded, c.shortTxIds, |c.shortTxIds|) || !Distinct(c.shortTxIds))
      ensures status != CheckBlockFailed
      ensures status == Ok ==> header == c.header && Initialised(c, id, pool + extra, txnAvailable)
      ensures status == Ok ==> mempoolCount == |Matched(c, id, pool + extra, txnAvailable)|
    {
      hide PassOk, Crowds, Distinct, Initialised, Holes, Maps, Slots, Matched, Endless, Placed;
      if c.header.NullHeader? || (c.shortTxIds == [] && c.prefilled == []) {
        return Invalid;
      }
      if c.TxCount() > MAX_TX_COUNT {
        return Invalid;
      }
      header := c.header;
      var ok, avail := PlacePrefilled(c);
      txnAvailable := avail;
      if !ok {
        return Invalid;
      }
      prefilledCount := |c.prefilled|;
      PlacedHoles(c, |c.prefilled|);
      PlacedInReach(c);
      EndlessExactly(c);
      var mapped, slots := MapShortIds(avail, c.shortTxIds, crowded);
      if mapped.Circles? {
        return NeverEnds;
      }
      if mapped.Crowded? {
        return Failed;
      }
      var all := pool + extra;
      var have := seq(|avail|, _ => false);
      PassStarts(id, c.shortTxIds, mapped.ids, slots, avail, all, have);
      txnAvailable, have, mempoolCount :=
        MatchPass(id, mapped.ids, avail, all, 0, |pool|, false, txnAvailable, have, mempoolCount);
      txnAvailable, have, mempoolCount :=
        MatchPass(id, mapped.ids, avail, all, |pool|, |all|, true, txnAvailable, have, mempoolCount);
      PassEnds(c, id, mapped.ids, slots, avail, all, txnAvailable, have, mempoolCount);
      status := Ok;
    }

    /** The indexes to request from the peer, each cut to 16 bits. */
    method MissingIndexes() returns (indexes: seq<nat>)
      ensures indexes == Pushed(Missing(txnAvailable))
    {
      indexes := [];
      for i := 0 to |txnAvailable|
        invariant indexes == Pushed(Missing(txnAvailable[..i]))
      {
        assert txnAvailable[..i + 1][..i] == txnAvailable[..i];
        if !txnAvailable[i].Some? {
          indexes := indexes + [i % (MAX_INDEX + 1)];
        }
      }
      assert txnAvailable[..|txnAvailable|] == txnAvailable;
    }

    /** Fills the holes with the peer's answer.  `check` is what CheckBlock says of the result. */
    method FillBlock(missing: seq<Tx>, check: seq<Tx> -> Verdict) returns (status: ReadStatus, vtx: seq<Tx>)
      requires !header.NullHeader?
      modifies this
      ensures status == Invalid <==> |missing| != Holes(old(txnAvailable))
      ensures status != Invalid ==> vtx == Rebuilt(old(txnAvailable), missing)
      ensures status != Invalid ==>
        status == match check(vtx) case Accepted => Ok case Corrupt => Failed case Rejected => CheckBlockFailed
      ensures |missing| >= Holes(old(txnAvailable)) ==> header == NullHeader && txnAvailable == []
    {
      hide Holes;
      ghost var avail := txnAvailable;
      vtx := [];
      var used := 0;
      var i := 0;
      HolesEmpty();
      assert avail[..0] == [];
      while i < |txnAvailable|
        invariant i <= |txnAvailable| == |avail| && |vtx| == i && txnAvailable[i..] == avail[i..]
        invariant used == Holes(avail[..i]) <= |missing| && header == old(header)
        invariant forall p: nat | p < i :: FilledFrom(avail, missing, p, vtx[p])
      {
        HolesNext(avail, i);
        assert txnAvailable[i] == txnAvailable[i..][0] == avail[i];
        if txnAvailable[i].None? {
          if |missing| <= used {
            HoleCounts(avail, i);
            return Invalid, vtx;
          }
          vtx := vtx + [missing[used]];
          used := used + 1;
        } else {
          vtx := vtx + [txnAvailable[i].value];
          txnAvailable := txnAvailable[i := None];
        }
        i := i + 1;
      }
      assert avail[..|avail|] == avail;
      header := NullHeader;
      txnAvailable := [];
      if |missing| != used {
        return Invalid, vtx;
      }
      AllFilled(avail, missing, vtx);
      match check(vtx)
      case Accepted => status := Ok;
      case Corrupt => status := Failed;
      case Rejected => status := CheckBlockFailed;
    }
  }

  ghost predicate FilledFrom(avail: seq<Option<Tx>>, missing: seq<Tx>, p: nat, tx: Tx)
    requires p < |avail|
  {
    if avail[p].Some? then tx == avail[p].value
    else Holes(avail[..p]) < |missing| && tx == missing[Holes(avail[..p])]
  }

  lemma AllFilled(avail: seq<Option<Tx>>, missing: seq<Tx>, vtx: seq<Tx>)
    requires |vtx| == |avail| && |missing| == Holes(avail)
    requires forall p: nat | p < |avail| :: FilledFrom(avail, missing, p, vtx[p])
    ensures vtx == Rebuilt(avail, missing)
  {
    hide Holes;
    forall p: nat | p < |avail| ensures vtx[p] == Rebuilt(avail, missing)[p] {
      assert FilledFrom(avail, missing, p, vtx[p]);
    }
  }

  /** More transactions than 16 bits can number, the first 65536 of them prefilled. */
  predicate AllPrefilled(c: Compact)
  {
    |c.prefilled| == MAX_INDEX + 1 && c.shortTxIds != []
  }

  lemma PlacedInReach(c: Compact)
    requires WellFormed(c)
    ensures NoneBeyond(Placed(c, |c.prefilled|))
  {
    hide Placed, Position;
    var a0 := Placed(c, |c.prefilled|);
    forall j: nat | j < |c.prefilled| ensures Position(c, j) <= MAX_INDEX {
      assert PrefilledOk(c, j);
    }
    forall p: nat | MAX_INDEX < p < |a0| ensures a0[p].None? {
      PlacedAt(c, |c.prefilled|, p);
    }
  }

  lemma {:induction false} HolesBound(a: seq<Option<Tx>>)
    ensures Holes(a) == 0 <==> forall p | 0 <= p < |a| :: a[p].Some?
  {
    if a != [] {
      HolesBound(a[..|a| - 1]);
    }
  }

  /** The search for a hole goes round for ever exactly when 65536 transactions are prefilled and one
      more is announced. */
  lemma EndlessExactly(c: Compact)
    requires WellFormed(c)
    ensures Endless(Placed(c, |c.prefilled|)) <==> AllPrefilled(c)
  {
    hide Placed, Position, Holes, NoneBeyond;
    var a0 := Placed(c, |c.prefilled|);
    PlacedHoles(c, |c.prefilled|);
    PlacedInReach(c);
    if c.TxCount() > MAX_INDEX {
      var low := a0[..MAX_INDEX + 1];
      HolesBeyond(a0);
      HolesBound(low);
      assert Endless(a0) <==> Holes(low) == 0 && Holes(a0) > 0;
    }
  }

  lemma HolesBeyond(a: seq<Option<Tx>>)
    requires |a| > MAX_INDEX && NoneBeyond(a)
    ensures Holes(a) == Holes(a[..MAX_INDEX + 1]) + |a| - (MAX_INDEX + 1)
  {
    MissingBeyond(a, a[..MAX_INDEX + 1]);
  }

  /** Such a compact block: nothing in its form is wrong. */
  lemma EndlessExample(tx: Tx)
    requires !tx.isNull
    ensures var c := Compact(Header(0), [0], seq(MAX_INDEX + 1, _ => Prefilled(0, tx)));
      WellFormed(c) && AllPrefilled(c)
  {
    var c := Compact(Header(0), [0], seq(MAX_INDEX + 1, _ => Prefilled(0, tx)));
    forall j: nat | j < |c.prefilled| ensures PrefilledOk(c, j) {
      PositionsInRow(c, j);
    }
  }

  lemma {:induction false} PositionsInRow(c: Compact, j: nat)
    requires j < |c.prefilled| && forall i | 0 <= i < |c.prefilled| :: c.prefilled[i].index == 0
    ensures Position(c, j) == j
  {
    if j > 0 {
      PositionsInRow(c, j - 1);
    }
  }

  lemma PassStarts(id: Hash -> nat, ids: seq<nat>, m: map<nat, nat>, slots: seq<nat>, a0: seq<Option<Tx>>,
    all: seq<Entry>, have: seq<bool>)
    requires Slots(a0, |ids|, slots) && Maps(m, ids, slots)
    requires |have| == |a0| && forall p | 0 <= p < |have| :: !have[p]
    ensures PassOk(id, m, a0, all, 0, a0, have, 0)
  {
    hide Holes, Distinct;
    assert Found(have, a0) == {};
    forall s | s in m ensures m[s] < |a0| {
      var i :| 0 <= i < |ids| && ids[i] == s;
      assert IsSlot(a0, i, slots[i]);
    }
  }

  lemma HitsReach(c: Compact, id: Hash -> nat, m: map<nat, nat>, slots: seq<nat>, all: seq<Entry>, k: nat, p: nat)
    requires WellFormed(c) && Slots(Placed(c, |c.prefilled|), |c.shortTxIds|, slots) && Maps(m, c.shortTxIds, slots)
    ensures Hits(id, m, all, k, p) <==> Reaches(c, id, all, k, p)
  {
    hide Holes, Placed, Distinct;
    var a0 := Placed(c, |c.prefilled|);
    if Hits(id, m, all, k, p) {
      var i: nat :| i < |c.shortTxIds| && c.shortTxIds[i] == id(all[k].hash);
      assert IsSlot(a0, i, slots[i]) && Match(id, c.shortTxIds[i], all, k);
    }
    if Reaches(c, id, all, k, p) {
      var i: nat, q: nat :| i < |c.shortTxIds| && IsSlot(a0, i, q) && q % (MAX_INDEX + 1) == p
        && Match(id, c.shortTxIds[i], all, k);
      assert IsSlot(a0, i, slots[i]);
      SlotsSame(a0, i, q, slots[i]);
    }
  }

  lemma PassEnds(c: Compact, id: Hash -> nat, m: map<nat, nat>, slots: seq<nat>, a0: seq<Option<Tx>>,
    all: seq<Entry>, avail: seq<Option<Tx>>, have: seq<bool>, count: nat)
    requires WellFormed(c) && a0 == Placed(c, |c.prefilled|)
    requires Slots(a0, |c.shortTxIds|, slots) && Maps(m, c.shortTxIds, slots)
    requires PassOk(id, m, a0, all, |all|, avail, have, count)
    ensures Initialised(c, id, all, avail) && count == |Matched(c, id, all, avail)|
  {
    hide Holes, Placed, Slots, Maps, Reaches;
    forall k: nat, p: nat ensures Hits(id, m, all, k, p) <==> Reaches(c, id, all, k, p) {
      HitsReach(c, id, m, slots, all, k, p);
    }
    forall p: nat | p < |a0|
      ensures Settled(c, id, all, p, avail[p]) && (have[p] <==> exists k: nat :: Reaches(c, id, all, k, p))
    {
      assert PosState(id, m, all, |all|, p, a0[p], have[p], avail[p]);
    }
    assert Matched(c, id, all, avail) == Found(have, avail);
  }

  /** Within 16 bits every prefilled transaction is in place and every other position is resolved
      against the transactions on hand. */
  lemma SmallResolved(c: Compact, id: Hash -> nat, all: seq<Entry>, avail: seq<Option<Tx>>, p: nat)
    requires WellFormed(c) && Initialised(c, id, all, avail) && c.TxCount() <= MAX_INDEX + 1 && p < |avail|
    ensures Placed(c, |c.prefilled|)[p].Some? ==> avail[p] == Placed(c, |c.prefilled|)[p]
    ensures forall i: nat | i < |c.shortTxIds| && IsSlot(Placed(c, |c.prefilled|), i, p) ::
      Resolved(id, c.shortTxIds[i], all, avail[p])
  {
    hide Holes, Placed;
    var a0 := Placed(c, |c.prefilled|);
    assert Settled(c, id, all, p, avail[p]);
    forall i: nat | i < |c.shortTxIds| && IsSlot(a0, i, p)
      ensures Resolved(id, c.shortTxIds[i], all, avail[p])
    {
      forall m: nat ensures Reaches(c, id, all, m, p) <==> Match(id, c.shortTxIds[i], all, m) {
        ReachesSlot(c, id, all, m, i, p);
      }
    }
  }

  lemma ReachesSlot(c: Compact, id: Hash -> nat, all: seq<Entry>, m: nat, i: nat, p: nat)
    requires WellFormed(c) && c.TxCount() <= MAX_INDEX + 1
    requires i < |c.shortTxIds| && IsSlot(Placed(c, |c.prefilled|), i, p)
    ensures Reaches(c, id, all, m, p) <==> Match(id, c.shortTxIds[i], all, m)
  {
    hide Holes, Placed;
    if Reaches(c, id, all, m, p) {
      var j: nat, q: nat :| j < |c.shortTxIds| && IsSlot(Placed(c, |c.prefilled|), j, q) && q % (MAX_INDEX + 1) == p
        && Match(id, c.shortTxIds[j], all, m);
      assert q == p;
    }
    assert p % (MAX_INDEX + 1) == p;
  }

  /** Within 16 bits the count of transactions found is what no longer has to be requested. */
  lemma SmallCount(c: Compact, id: Hash -> nat, all: seq<Entry>, avail: seq<Option<Tx>>)
    requires WellFormed(c) && Initialised(c, id, all, avail) && c.TxCount() <= MAX_INDEX + 1
    ensures |Matched(c, id, all, avail)| == |c.shortTxIds| - Holes(avail)
  {
    hide Holes, Placed, Reaches, Settled, Resolved;
    var a0 := Placed(c, |c.prefilled|);
    PlacedHoles(c, |c.prefilled|);
    HoleSetSize(a0);
    HoleSetSize(avail);
    forall p: nat | p < |avail|
      ensures (a0[p].Some? ==> avail[p].Some?) && (p in Matched(c, id, all, avail) <==> a0[p].None? && avail[p].Some?)
    {
      SmallResolved(c, id, all, avail, p);
      SmallMatched(c, id, all, avail, p);
    }
    assert Matched(c, id, all, avail) == HoleSet(a0) - HoleSet(avail) && HoleSet(avail) <= HoleSet(a0);
  }

  lemma SmallMatched(c: Compact, id: Hash -> nat, all: seq<Entry>, avail: seq<Option<Tx>>, p: nat)
    requires WellFormed(c) && Initialised(c, id, all, avail) && c.TxCount() <= MAX_INDEX + 1 && p < |avail|
    ensures avail[p].Some? ==> ((exists m: nat :: Reaches(c, id, all, m, p)) <==> Placed(c, |c.prefilled|)[p].None?)
  {
    hide Holes, Placed;
    assert Settled(c, id, all, p, avail[p]);
  }

  ghost function HoleSet(a: seq<Option<Tx>>): set<nat>
  {
    set p: nat | p < |a| && a[p].None?
  }

  lemma {:induction false} HoleSetSize(a: seq<Option<Tx>>)
    ensures |HoleSet(a)| == Holes(a)
  {
    if a != [] {
      var n := |a| - 1;
      HoleSetSize(a[..n]);
      assert HoleSet(a) == HoleSet(a[..n]) + (if a[n].None? then {n} else {});
    }
  }

  lemma SlotsSame(a: seq<Option<Tx>>, i: nat, p: nat, q: nat)
    requires IsSlot(a, i, p) && IsSlot(a, i, q)
    ensures p == q
  {
    if p < q {
      HolesNext(a, p);
      HolesExtend(a, p + 1, q);
    } else if q < p {
      HolesNext(a, q);
      HolesExtend(a, q + 1, p);
    }
  }

  // ---- The exchange ----

  /** CBlockHeaderAndShortTxIDs from a block. */
  method MakeCompact(header: Header, vtx: seq<Tx>, id: Hash -> nat, useWtxid: bool) returns (c: Compact)
    requires vtx != []
    ensures c == CompactOf(header, vtx, id, useWtxid)
  {
    var ids: seq<nat> := [];
    for i := 1 to |vtx|
      invariant ids == CompactOf(header, vtx, id, useWtxid).shortTxIds[..i - 1]
    {
      ids := ids + [id(HashOf(useWtxid, vtx[i]))];
    }
    c := Compact(header, ids, [Prefilled(0, vtx[0])]);
  }

  /** Writing a request: each index as the gap after the one before. */
  method WriteIndexes(indexes: seq<nat>) returns (gaps: seq<nat>)
    ensures gaps == Gaps(indexes)
  {
    gaps := [];
    for i := 0 to |indexes|
      invariant gaps == Gaps(indexes[..i])
    {
      assert indexes[..i + 1][..i] == indexes[..i];
      gaps := gaps + [(indexes[i] - (if i == 0 then 0 else indexes[i - 1] + 1)) % MAX_WIRE];
    }
    assert indexes[..|indexes|] == indexes;
  }

  /** Reading a request: check every gap, then add them up with a 16-bit offset.  None is a throw. */
  method ReadIndexes(gaps: seq<nat>) returns (r: Option<seq<nat>>)
    ensures r == Absolute(gaps, 0)
  {
    var i := 0;
    while i < |gaps|
      invariant i <= |gaps| && forall k | 0 <= k < i :: gaps[k] <= MAX_INDEX
    {
      if gaps[i] > MAX_INDEX {
        AbsoluteThrows(gaps, i, 0);
        return None;
      }
      i := i + 1;
    }
    var indexes: seq<nat> := [];
    var offset: nat := 0;
    var j := 0;
    assert gaps[0..] == gaps;
    PrependNothing(Absolute(gaps, 0));
    while j < |gaps|
      invariant j <= |gaps| && |indexes| == j
      invariant Absolute(gaps, 0) == Prepend(indexes, Absolute(gaps[j..], offset))
    {
      assert gaps[j..][0] == gaps[j] && gaps[j..][1..] == gaps[j + 1..];
      if gaps[j] + offset > MAX_INDEX {
        return None;
      }
      var x := gaps[j] + offset;
      offset := (x + 1) % (MAX_INDEX + 1);
      PrependNext(indexes, x, Absolute(gaps[j + 1..], offset));
      indexes := indexes + [x];
      j := j + 1;
    }
    r := Some(indexes);
    assert gaps[j..] == [] && indexes + [] == indexes;
  }

  lemma PrependNothing(r: Option<seq<nat>>)
    ensures Prepend([], r) == r
  {
    assert r.Some? ==> [] + r.value == r.value;
  }

  function Prepend(s: seq<nat>, r: Option<seq<nat>>): Option<seq<nat>>
  {
    if r.None? then None else Some(s + r.value)
  }

  lemma PrependNext(s: seq<nat>, x: nat, r: Option<seq<nat>>)
    ensures Prepend(s, if r.None? then None else Some([x] + r.value)) == Prepend(s + [x], r)
  {
    if r.Some? {
      assert s + ([x] + r.value) == (s + [x]) + r.value;
    }
  }

  lemma {:induction false} AbsoluteThrows(gaps: seq<nat>, i: nat, offset: nat)
    requires i < |gaps| && gaps[i] > MAX_INDEX
    ensures Absolute(gaps, offset) == None
  {
    if i > 0 && gaps[0] <= MAX_INDEX && gaps[0] + offset <= MAX_INDEX {
      AbsoluteThrows(gaps[1..], i - 1, (gaps[0] + offset + 1) % (MAX_INDEX + 1));
    }
  }

  /** Answering a request from the block; None where the peer is found misbehaving. */
  method SendBlockTransactions(vtx: seq<Tx>, indexes: seq<nat>) returns (r: Option<seq<Tx>>)
    ensures r == Answer(vtx, indexes)
  {
    var txn: seq<Tx> := [];
    for i := 0 to |indexes|
      invariant |txn| == i && forall k | 0 <= k < i :: indexes[k] < |vtx| && txn[k] == vtx[indexes[k]]
    {
      if indexes[i] >= |vtx| {
        return None;
      }
      txn := txn + [vtx[indexes[i]]];
    }
    r := Some(txn);
    assert txn == Answer(vtx, indexes).value;
  }

  /** Any transaction on hand that matches the short id of a transaction not sent in full is that
      transaction. */
  ghost predicate TrueMatches(c: Compact, vtx: seq<Tx>, id: Hash -> nat, useWtxid: bool, all: seq<Entry>)
    requires WellFormed(c) && |vtx| == c.TxCount()
  {
    var a0 := Placed(c, |c.prefilled|);
    forall m: nat, p: nat | p < |vtx| && a0[p].None? && Match(id, id(HashOf(useWtxid, vtx[p])), all, m) ::
      all[m].tx == vtx[p]
  }

  /** Whatever InitData puts in place is the described block's own transaction. */
  lemma InitGenuine(c: Compact, vtx: seq<Tx>, id: Hash -> nat, useWtxid: bool, all: seq<Entry>, avail: seq<Option<Tx>>)
    requires Describes(c, vtx, id, useWtxid) && TrueMatches(c, vtx, id, useWtxid, all) && Initialised(c, id, all, avail)
    requires |vtx| <= MAX_INDEX + 1
    ensures Genuine(avail, vtx)
  {
    hide Holes, Placed, Initialised;
    var a0 := Placed(c, |c.prefilled|);
    assert |avail| == |vtx| by { InitLength(c, id, all, avail); }
    forall p: nat | p < |avail| ensures avail[p] == None || avail[p] == Some(vtx[p]) {
      PlacedAt(c, |c.prefilled|, p);
      SmallResolved(c, id, all, avail, p);
      if a0[p].None? {
        PlacedHoles(c, |c.prefilled|);
        HoleCounts(a0, p);
        var i := Holes(a0[..p]);
        assert IsSlot(a0, i, p);
        assert Resolved(id, c.shortTxIds[i], all, avail[p]);
        assert DescribesSlot(c, vtx, id, useWtxid, i, p);
        if avail[p].Some? {
          var m: nat :| Match(id, c.shortTxIds[i], all, m) && all[m].tx == avail[p].value;
          assert Match(id, id(HashOf(useWtxid, vtx[p])), all, m);
        }
      } else {
        var j: nat :| j < |c.prefilled| && Position(c, j) == p && a0[p] == Some(c.prefilled[j].tx);
        assert avail[p] == Some(vtx[p]);
      }
    }
  }

  lemma InitLength(c: Compact, id: Hash -> nat, all: seq<Entry>, avail: seq<Option<Tx>>)
    requires WellFormed(c) && Initialised(c, id, all, avail)
    ensures |avail| == c.TxCount()
  {
  }

  /** Beyond 16 bits nothing is ever put in place; with nothing on hand, some position within 16 bits
      is missing too. */
  lemma InitBeyond(c: Compact, id: Hash -> nat, all: seq<Entry>, avail: seq<Option<Tx>>)
    requires WellFormed(c) && Initialised(c, id, all, avail) && c.TxCount() > MAX_INDEX + 1
    ensures |avail| == c.TxCount() && NoneBeyond(avail)
    ensures all == [] && !AllPrefilled(c) ==> Holes(avail[..MAX_INDEX + 1]) > 0
  {
    hide Holes, Placed;
    var a0 := Placed(c, |c.prefilled|);
    PlacedInReach(c);
    forall p: nat | MAX_INDEX < p < |avail| ensures avail[p].None? {
      assert Settled(c, id, all, p, avail[p]);
    }
    if all == [] {
      forall p: nat | p < |avail| ensures avail[p] == a0[p] {
        assert Settled(c, id, all, p, avail[p]);
      }
      assert avail == a0;
      PlacedHoles(c, |c.prefilled|);
      HolesBeyond(a0);
      EndlessExactly(c);
      HolesBound(a0[..MAX_INDEX + 1]);
    }
  }

  /** How an exchange ends: InitData does not accept, the peer cannot read the request or finds it
      out of bounds, or a block is rebuilt and checked. */
  datatype Outcome = NotAccepted(init: ReadStatus) | Unreadable | OutOfBounds
    | Rebuilds(status: ReadStatus, vtx: seq<Tx>)

  function Checked(v: Verdict): ReadStatus
  {
    match v case Accepted => Ok case Corrupt => Failed case Rejected => CheckBlockFailed
  }

  /** The whole exchange for any compact block that describes the sender's block.  Once InitData
      accepts it, the block is rebuilt exactly if and only if it has at most 65536 transactions. */
  method Relay(c: Compact, vtx: seq<Tx>, id: Hash -> nat, useWtxid: bool, pool: seq<Entry>, extra: seq<Entry>,
    crowded: seq<nat> -> bool, check: seq<Tx> -> Verdict) returns (r: Outcome)
    requires Describes(c, vtx, id, useWtxid) && TrueMatches(c, vtx, id, useWtxid, pool + extra)
    ensures r == NotAccepted(NeverEnds) <==> AllPrefilled(c)
    ensures r == NotAccepted(Failed) <==>
      !AllPrefilled(c) && (Crowds(crowded, c.shortTxIds, |c.shortTxIds|) || !Distinct(c.shortTxIds))
    ensures r.NotAccepted? ==> r.init == NeverEnds || r.init == Failed
    ensures !r.NotAccepted? && |vtx| <= MAX_INDEX + 1 ==> r == Rebuilds(Checked(check(vtx)), vtx)
    ensures r.Rebuilds? && r.vtx == vtx ==> |vtx| <= MAX_INDEX + 1 || vtx[MAX_INDEX + 1] == vtx[0]
    ensures !r.NotAccepted? && |vtx| > MAX_INDEX + 1 && pool + extra == [] ==> r == Unreadable
  {
    hide Crowds, Distinct, Initialised, Holes, TrueMatches, Missing, Gaps, Absolute, Answer, Rebuilt, Placed, Matched;
    hide Describes, NoneBeyond, Pushed;
    DescribesForm(c, vtx, id, useWtxid);
    var block := new PartiallyDownloadedBlock();
    var init := block.InitData(c, id, pool, extra, crowded);
    if init != Ok {
      return NotAccepted(init);
    }
    ghost var avail := block.txnAvailable;
    if |vtx| <= MAX_INDEX + 1 {
      InitGenuine(c, vtx, id, useWtxid, pool + extra, avail);
      RequestRestores(avail, vtx);
      MissingFits(avail);
    } else {
      InitBeyond(c, id, pool + extra, avail);
      RequestBeyond(avail);
      if Holes(avail[..MAX_INDEX + 1]) == 0 {
        BeyondIsWrong(avail, vtx);
      }
    }
    var indexes := block.MissingIndexes();
    var gaps := WriteIndexes(indexes);
    var request := ReadIndexes(gaps);
    if request.None? {
      return Unreadable;
    }
    var answer := SendBlockTransactions(vtx, request.value);
    if answer.None? {
      return OutOfBounds;
    }
    var status, rebuilt := block.FillBlock(answer.value, check);
    r := Rebuilds(status, rebuilt);
  }

  lemma DescribesForm(c: Compact, vtx: seq<Tx>, id: Hash -> nat, useWtxid: bool)
    requires Describes(c, vtx, id, useWtxid)
    ensures WellFormed(c) && |vtx| == c.TxCount() <= MAX_TX_COUNT
  {
  }

  lemma MissingFits(a: seq<Option<Tx>>)
    requires |a| <= MAX_INDEX + 1
    ensures Fits(Missing(a))
  {
    MissingAscends(a);
  }

  /** A block announced in the form the node itself sends, whose first transaction no other equals. */
  method RelayBlock(header: Header, vtx: seq<Tx>, id: Hash -> nat, useWtxid: bool, pool: seq<Entry>, extra: seq<Entry>,
    crowded: seq<nat> -> bool, check: seq<Tx> -> Verdict) returns (c: Compact, r: Outcome)
    requires vtx != [] && !header.NullHeader? && |vtx| <= MAX_TX_COUNT && !vtx[0].isNull
    requires forall i | 0 < i < |vtx| :: vtx[i] != vtx[0]
    requires forall m: nat, p: nat | p < |vtx| && Match(id, id(HashOf(useWtxid, vtx[p])), pool + extra, m) ::
      (pool + extra)[m].tx == vtx[p]
    ensures c == CompactOf(header, vtx, id, useWtxid)
    ensures r == NotAccepted(Failed) <==> Crowds(crowded, c.shortTxIds, |c.shortTxIds|) || !Distinct(c.shortTxIds)
    ensures r == NotAccepted(Failed) || (r.Rebuilds? && r.vtx == vtx <==> |vtx| <= MAX_INDEX + 1)
  {
    hide Crowds, Distinct;
    c := MakeCompact(header, vtx, id, useWtxid);
    CompactDescribes(header, vtx, id, useWtxid);
    r := Relay(c, vtx, id, useWtxid, pool, extra, crowded, check);
  }
}
