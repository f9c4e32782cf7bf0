/**
 The contents of the peer address table as a value, the steps its operations are made of,
 and the consistency invariant that CAddrMan::Check_ spells out.
 */
module AddrBook {
  import opened Arith

  const NEW_BUCKETS_PER_ADDRESS := 8
  const NEW_BUCKET_COUNT := 1024
  const TRIED_BUCKET_COUNT := 256
  const BUCKET_SIZE := 64
  const HORIZON_DAYS := 30
  const RETRIES := 3
  const MAX_FAILURES := 10
  const MIN_FAIL_DAYS := 7

  type NetAddr = nat

  /** Service flags, a bit mask. */
  type Services = nat

  datatype Service = Service(ip: NetAddr, port: nat)
  datatype Address = Address(service: Service, time: int, services: Services)

  datatype AddrInfo = AddrInfo(
    service: Service, time: int, services: Services, source: NetAddr,
    lastTry: int, lastCountAttempt: int, lastSuccess: int, attempts: int,
    refCount: int, inTried: bool, randomPos: int)

  type Slot = (int, int)

  /** The keyed hashes, uninterpreted; reducing them puts buckets and positions in range. */
  datatype Hashes = Hashes(
    triedHash: Service -> nat, newHash: (Service, NetAddr) -> nat, positionHash: (bool, int, Service) -> nat)
  {
    function TriedBucket(s: Service): int { triedHash(s) % TRIED_BUCKET_COUNT }
    function NewBucket(s: Service, source: NetAddr): int { newHash(s, source) % NEW_BUCKET_COUNT }
    function Position(isNew: bool, bucket: int, s: Service): int { positionHash(isNew, bucket, s) % BUCKET_SIZE }
    function TriedSlot(s: Service): Slot { (TriedBucket(s), Position(false, TriedBucket(s), s)) }
    function NewSlot(s: Service, source: NetAddr): Slot
    {
      (NewBucket(s, source), Position(true, NewBucket(s, source), s))
    }
  }

  /** The tables hold only their occupied slots. */
  datatype Book = Book(
    idCount: int, infos: map<int, AddrInfo>, addrs: map<NetAddr, int>, random: seq<int>,
    nTried: int, triedSlots: map<Slot, int>, nNew: int, newSlots: map<Slot, int>, lastGood: int)

  predicate IsTerrible(info: AddrInfo, now: int)
  {
    if info.lastTry != 0 && info.lastTry >= now - 60 then false
    else if info.time > now + 10 * 60 then true
    else if info.time == 0 || now - info.time > HORIZON_DAYS * 24 * 60 * 60 then true
    else if info.lastSuccess == 0 && info.attempts >= RETRIES then true
    else now - info.lastSuccess > MIN_FAIL_DAYS * 24 * 60 * 60 && info.attempts >= MAX_FAILURES
  }

  // ---- The invariant ----

  /** The id map and the address map are inverse to each other. */
  ghost predicate AddrsOk(bk: Book)
  {
    && bk.idCount >= 0
    && (forall n | n in bk.infos :: Named(bk, n))
    && (forall a | a in bk.addrs :: Names(bk, a, bk.addrs[a]))
  }

  ghost predicate Named(bk: Book, n: int)
    requires n in bk.infos
  {
    0 <= n < bk.idCount && bk.infos[n].service.ip in bk.addrs && bk.addrs[bk.infos[n].service.ip] == n
  }

  ghost predicate Names(bk: Book, a: NetAddr, n: int)
  {
    n in bk.infos && bk.infos[n].service.ip == a
  }

  /** The random vector lists every id once, and every entry knows its place in it. */
  ghost predicate RandomOk(bk: Book)
  {
    && (forall n | n in bk.infos :: ListedAt(bk, n, bk.infos[n].randomPos))
    && (forall i | 0 <= i < |bk.random| :: KnowsPlace(bk, bk.random[i], i))
  }

  ghost predicate ListedAt(bk: Book, n: int, i: int)
  {
    0 <= i < |bk.random| && bk.random[i] == n
  }

  ghost predicate KnowsPlace(bk: Book, n: int, i: int)
  {
    n in bk.infos && bk.infos[n].randomPos == i
  }

  /** Tried entries sit once, at their own slot. */
  ghost predicate TriedOk(h: Hashes, bk: Book)
  {
    && (forall s | s in bk.triedSlots :: TriedHolds(h, bk, s, bk.triedSlots[s]))
    && (forall n | n in bk.infos && bk.infos[n].inTried :: HeldAt(bk, n, h.TriedSlot(bk.infos[n].service)))
  }

  ghost predicate TriedHolds(h: Hashes, bk: Book, s: Slot, n: int)
  {
    n in bk.infos && bk.infos[n].inTried && s == h.TriedSlot(bk.infos[n].service)
  }

  ghost predicate HeldAt(bk: Book, n: int, s: Slot)
  {
    s in bk.triedSlots && bk.triedSlots[s] == n
  }

  /** New slots hold entries that are not tried, at the position their bucket gives them. */
  ghost predicate NewOk(h: Hashes, bk: Book)
  {
    forall s | s in bk.newSlots :: NewHolds(h, bk, s, bk.newSlots[s])
  }

  ghost predicate NewHolds(h: Hashes, bk: Book, s: Slot, n: int)
  {
    && 0 <= s.0 < NEW_BUCKET_COUNT
    && n in bk.infos && !bk.infos[n].inTried
    && s.1 == h.Position(true, s.0, bk.infos[n].service)
  }

  /** The slots that hold `n`. */
  ghost function SlotsOf(slots: map<Slot, int>, n: int): set<Slot>
  {
    set s | s in slots && slots[s] == n
  }

  /** Reference counts are the numbers of new slots, between 1 and 8 for new entries.  Inside
      an operation, `loose` entries may have no slot yet. */
  ghost predicate RefsOk(bk: Book, loose: set<int>)
  {
    forall n | n in bk.infos :: RefOk(bk, loose, n)
  }

  ghost predicate RefOk(bk: Book, loose: set<int>, n: int)
    requires n in bk.infos
  {
    && bk.infos[n].refCount == |SlotsOf(bk.newSlots, n)| <= NEW_BUCKETS_PER_ADDRESS
    && (!bk.infos[n].inTried && n !in loose ==> bk.infos[n].refCount > 0)
  }

  ghost function TriedIds(bk: Book): set<int>
  {
    set n | n in bk.infos && bk.infos[n].inTried
  }

  ghost function NewIds(bk: Book): set<int>
  {
    set n | n in bk.infos && !bk.infos[n].inTried
  }

  /** Both counters are exact, except that `uncounted` entries are between the two tables. */
  ghost predicate CountsOk(bk: Book, uncounted: set<int>)
  {
    && bk.nTried == |TriedIds(bk)|
    && uncounted <= NewIds(bk)
    && bk.nNew == |NewIds(bk) - uncounted|
  }

  /** Times are sane: never negative, and a tried entry has had a success. */
  ghost predicate TimesOk(bk: Book)
  {
    forall n | n in bk.infos ::
      && bk.infos[n].lastTry >= 0 && bk.infos[n].lastSuccess >= 0
      && (bk.infos[n].inTried ==> bk.infos[n].lastSuccess != 0)
  }

  /** The invariant inside an operation. */
  ghost predicate Inside(h: Hashes, bk: Book, uncounted: set<int>, loose: set<int>)
  {
    AddrsOk(bk) && RandomOk(bk) && TriedOk(h, bk) && NewOk(h, bk) && RefsOk(bk, loose) && CountsOk(bk, uncounted)
  }

  /** What Check_ checks between operations, apart from the times. */
  ghost predicate Inv(h: Hashes, bk: Book)
  {
    Inside(h, bk, {}, {})
  }

  /** The first test of Check_: the random vector is as long as the two counters say, and it lists
      every known id exactly once. */
  lemma RandomLength(h: Hashes, bk: Book)
    requires Inv(h, bk)
    ensures |bk.random| == bk.nTried + bk.nNew
    ensures multiset(bk.random) == multiset(bk.infos.Keys)
  {
    hide AddrsOk, RandomOk, TriedOk, NewOk, RefsOk;
    RandomLists(bk);
    ListsEach(bk.random, bk.infos.Keys);
    assert TriedIds(bk) + NewIds(bk) == bk.infos.Keys;
    assert NewIds(bk) - {} == NewIds(bk);
    RandomCountsIds(bk.random, bk.infos.Keys);
  }

  lemma RandomLists(bk: Book)
    requires RandomOk(bk)
    ensures forall i, j | 0 <= i < j < |bk.random| :: bk.random[i] != bk.random[j]
    ensures forall n :: n in bk.infos.Keys <==> n in bk.random
  {
    forall i | 0 <= i < |bk.random| ensures KnowsPlace(bk, bk.random[i], i) {
    }
    forall n ensures n in bk.infos.Keys <==> n in bk.random {
      assert n in bk.infos ==> ListedAt(bk, n, bk.infos[n].randomPos);
    }
  }

  lemma {:induction false} ListsEach(random: seq<int>, ids: set<int>)
    requires forall i, j | 0 <= i < j < |random| :: random[i] != random[j]
    requires forall n :: n in ids <==> n in random
    ensures multiset(random) == multiset(ids)
  {
    if random != [] {
      var last := random[|random| - 1];
      var rest := random[..|random| - 1];
      assert random == rest + [last] && last !in rest;
      ListsEach(rest, ids - {last});
      assert multiset(ids) == multiset(ids - {last}) + multiset{last};
    } else {
      assert ids == {} by {
        forall n ensures n !in ids {}
      }
    }
  }

  /** A list of distinct ids that holds all of `ids` and nothing else is as long as `ids`. */
  lemma {:induction false} RandomCountsIds(random: seq<int>, ids: set<int>)
    requires forall i, j | 0 <= i < j < |random| :: random[i] != random[j]
    requires forall n :: n in ids <==> n in random
    ensures |random| == |ids|
  {
    if random != [] {
      var last := random[|random| - 1];
      var rest := random[..|random| - 1];
      assert forall n | n in random :: n == last || n in rest;
      RandomCountsIds(rest, ids - {last});
    } else {
      assert forall n :: n !in ids;
    }
  }

  // ---- Steps ----

  /** Create: a new id at the end of the random vector, in no table and not counted yet. */
  function Create(bk: Book, addr: Address, source: NetAddr): Book
  {
    var info := AddrInfo(addr.service, addr.time, addr.services, source, 0, 0, 0, 0, 0, false, |bk.random|);
    bk.(idCount := bk.idCount + 1,
        infos := bk.infos[bk.idCount := info],
        addrs := bk.addrs[addr.service.ip := bk.idCount],
        random := bk.random + [bk.idCount])
  }

  lemma CreateKeepsTables(h: Hashes, bk: Book, bk': Book, id: int)
    requires TriedOk(h, bk) && NewOk(h, bk) && RefsOk(bk, {}) && CountsOk(bk, {})
    requires id !in bk.infos && id in bk'.infos && bk'.infos == bk.infos[id := bk'.infos[id]]
    requires bk'.triedSlots == bk.triedSlots && bk'.newSlots == bk.newSlots
    requires bk'.nTried == bk.nTried && bk'.nNew == bk.nNew
    requires !bk'.infos[id].inTried && bk'.infos[id].refCount == 0
    ensures TriedOk(h, bk') && NewOk(h, bk') && RefsOk(bk', {id}) && CountsOk(bk', {id})
  {
    CreateKeepsCounts(bk, bk', id);
    hide CountsOk;
    assert SlotsOf(bk.newSlots, id) == {};
  }

  lemma CreateKeepsCounts(bk: Book, bk': Book, id: int)
    requires CountsOk(bk, {}) && id !in bk.infos && id in bk'.infos && bk'.infos == bk.infos[id := bk'.infos[id]]
    requires bk'.nTried == bk.nTried && bk'.nNew == bk.nNew && !bk'.infos[id].inTried
    ensures CountsOk(bk', {id})
  {
    assert TriedIds(bk') == TriedIds(bk);
    assert NewIds(bk') - {id} == NewIds(bk) - {};
  }

  lemma CreateKeeps(h: Hashes, bk: Book, addr: Address, source: NetAddr)
    requires Inv(h, bk) && addr.service.ip !in bk.addrs
    ensures Inside(h, Create(bk, addr, source), {bk.idCount}, {bk.idCount})
  {
    hide TriedOk, NewOk, RefsOk, CountsOk;
    CreateKeepsTables(h, bk, Create(bk, addr, source), bk.idCount);
  }

  function SwapRandom(bk: Book, i: int, j: int): Book
    requires 0 <= i < |bk.random| && 0 <= j < |bk.random|
    requires bk.random[i] in bk.infos && bk.random[j] in bk.infos
  {
    if i == j then bk else
      var id1, id2 := bk.random[i], bk.random[j];
      var infos1 := bk.infos[id1 := bk.infos[id1].(randomPos := j)];
      bk.(infos := infos1[id2 := infos1[id2].(randomPos := i)],
          random := bk.random[i := id2][j := id1])
  }

  /** Two books that agree on everything but the random vector and the figures of the entries
      that no table depends on. */
  ghost predicate SameShape(bk: Book, bk': Book)
  {
    && (forall n :: n in bk.infos <==> n in bk'.infos)
    && (forall n {:trigger bk.infos[n]} {:trigger bk'.infos[n]} | n in bk.infos && n in bk'.infos ::
          && bk'.infos[n].service == bk.infos[n].service
          && bk'.infos[n].refCount == bk.infos[n].refCount
          && bk'.infos[n].inTried == bk.infos[n].inTried)
    && bk'.idCount == bk.idCount && bk'.addrs == bk.addrs
    && bk'.triedSlots == bk.triedSlots && bk'.newSlots == bk.newSlots
    && bk'.nTried == bk.nTried && bk'.nNew == bk.nNew
  }

  lemma ShapeKeepsSlots(h: Hashes, bk: Book, bk': Book, loose: set<int>)
    requires SameShape(bk, bk') && TriedOk(h, bk) && NewOk(h, bk) && RefsOk(bk, loose)
    ensures TriedOk(h, bk') && NewOk(h, bk') && RefsOk(bk', loose)
  {
  }

  lemma ShapeKeepsIds(bk: Book, bk': Book, uncounted: set<int>)
    requires SameShape(bk, bk') && AddrsOk(bk) && CountsOk(bk, uncounted)
    ensures AddrsOk(bk') && CountsOk(bk', uncounted)
  {
    forall n ensures n in TriedIds(bk') <==> n in TriedIds(bk) {}
    forall n ensures n in NewIds(bk') <==> n in NewIds(bk) {}
    assert TriedIds(bk') == TriedIds(bk) && NewIds(bk') == NewIds(bk);
  }

  lemma ShapeKeeps(h: Hashes, bk: Book, bk': Book, uncounted: set<int>, loose: set<int>)
    requires SameShape(bk, bk')
    requires AddrsOk(bk) && TriedOk(h, bk) && NewOk(h, bk) && RefsOk(bk, loose) && CountsOk(bk, uncounted)
    ensures AddrsOk(bk') && TriedOk(h, bk') && NewOk(h, bk') && RefsOk(bk', loose) && CountsOk(bk', uncounted)
  {
    hide AddrsOk, RandomOk, TriedOk, NewOk, RefsOk, CountsOk;
    ShapeKeepsSlots(h, bk, bk', loose);
    ShapeKeepsIds(bk, bk', uncounted);
  }

  lemma SwapRandomPlaces(bk: Book, i: int, j: int)
    requires RandomOk(bk) && 0 <= i < |bk.random| && 0 <= j < |bk.random|
    ensures RandomOk(SwapRandom(bk, i, j))
  {
    if i == j {
      return;
    }
    var bk' := SwapRandom(bk, i, j);
    var id1, id2 := bk.random[i], bk.random[j];
    assert bk.infos[id1].randomPos == i && bk.infos[id2].randomPos == j;
    forall n | n in bk'.infos
      ensures 0 <= bk'.infos[n].randomPos < |bk'.random| && bk'.random[bk'.infos[n].randomPos] == n
    {
      if n != id1 && n != id2 {
        assert bk'.infos[n] == bk.infos[n];
      }
    }
    forall k | 0 <= k < |bk'.random|
      ensures bk'.random[k] in bk'.infos && bk'.infos[bk'.random[k]].randomPos == k
    {
      if k != i && k != j {
        assert bk'.random[k] == bk.random[k];
      }
    }
  }

  lemma SwapRandomKeeps(h: Hashes, bk: Book, i: int, j: int, uncounted: set<int>, loose: set<int>)
    requires Inside(h, bk, uncounted, loose) && 0 <= i < |bk.random| && 0 <= j < |bk.random|
    ensures Inside(h, SwapRandom(bk, i, j), uncounted, loose)
    ensures SameShape(bk, SwapRandom(bk, i, j))
  {
    hide AddrsOk, TriedOk, NewOk, RefsOk, CountsOk, SwapRandom, SameShape;
    SwapShape(bk, i, j);
    SwapRandomPlaces(bk, i, j);
    hide RandomOk;
    ShapeKeeps(h, bk, SwapRandom(bk, i, j), uncounted, loose);
  }

  lemma SwapShape(bk: Book, i: int, j: int)
    requires 0 <= i < |bk.random| && 0 <= j < |bk.random| && RandomOk(bk)
    ensures bk.random[i] in bk.infos && bk.random[j] in bk.infos && SameShape(bk, SwapRandom(bk, i, j))
  {
    assert KnowsPlace(bk, bk.random[i], i) && KnowsPlace(bk, bk.random[j], j);
  }

  // ---- Removing an entry ----

  /** The tail of Delete: `n` is at the end of the random vector. */
  function RemoveLast(bk: Book, n: int): Book
    requires n in bk.infos && bk.random != []
  {
    bk.(random := bk.random[..|bk.random| - 1], addrs := bk.addrs - {bk.infos[n].service.ip},
        infos := bk.infos - {n}, nNew := bk.nNew - 1)
  }

  lemma RemoveLastKeepsNames(bk: Book, n: int)
    requires AddrsOk(bk) && RandomOk(bk) && n in bk.infos && bk.infos[n].randomPos == |bk.random| - 1
    ensures AddrsOk(RemoveLast(bk, n)) && RandomOk(RemoveLast(bk, n))
  {
    var bk' := RemoveLast(bk, n);
    assert Named(bk, n) && ListedAt(bk, n, bk.infos[n].randomPos);
    forall m | m in bk'.infos ensures Named(bk', m) && ListedAt(bk', m, bk'.infos[m].randomPos) {
      assert Named(bk, m) && ListedAt(bk, m, bk.infos[m].randomPos);
    }
    forall a | a in bk'.addrs ensures Names(bk', a, bk'.addrs[a]) {
      assert Names(bk, a, bk.addrs[a]);
    }
    forall i | 0 <= i < |bk'.random| ensures KnowsPlace(bk', bk'.random[i], i) {
      assert KnowsPlace(bk, bk.random[i], i);
    }
  }

  lemma RemoveLastKeepsSlots(h: Hashes, bk: Book, n: int, loose: set<int>)
    requires TriedOk(h, bk) && NewOk(h, bk) && RefsOk(bk, loose) && bk.random != []
    requires n in bk.infos && !bk.infos[n].inTried && bk.infos[n].refCount == 0
    ensures var bk' := RemoveLast(bk, n); TriedOk(h, bk') && NewOk(h, bk') && RefsOk(bk', loose - {n})
  {
    var bk' := RemoveLast(bk, n);
    assert RefOk(bk, loose, n);
    forall s | s in bk'.triedSlots ensures TriedHolds(h, bk', s, bk'.triedSlots[s]) {
      assert TriedHolds(h, bk, s, bk.triedSlots[s]);
    }
    forall s | s in bk'.newSlots ensures NewHolds(h, bk', s, bk'.newSlots[s]) {
      assert NewHolds(h, bk, s, bk.newSlots[s]);
      assert bk.newSlots[s] == n ==> s in SlotsOf(bk.newSlots, n);
    }
    forall m | m in bk'.infos ensures RefOk(bk', loose - {n}, m) {
      assert RefOk(bk, loose, m);
    }
  }

  lemma RemoveLastKeepsCounts(bk: Book, n: int, uncounted: set<int>)
    requires CountsOk(bk, uncounted) && bk.random != []
    requires n in bk.infos && !bk.infos[n].inTried && n !in uncounted
    ensures CountsOk(RemoveLast(bk, n), uncounted)
  {
    var bk' := RemoveLast(bk, n);
    forall m ensures m in TriedIds(bk') <==> m in TriedIds(bk) {}
    forall m ensures m in NewIds(bk') <==> m in NewIds(bk) && m != n {}
    assert TriedIds(bk') == TriedIds(bk);
    assert NewIds(bk') - uncounted == (NewIds(bk) - uncounted) - {n};
  }

  function Delete(bk: Book, n: int): Book
    requires RandomOk(bk) && n in bk.infos
  {
    assert ListedAt(bk, n, bk.infos[n].randomPos);
    var last := |bk.random| - 1;
    assert KnowsPlace(bk, bk.random[last], last);
    RemoveLast(SwapRandom(bk, bk.infos[n].randomPos, last), n)
  }

  /** What Delete does first: the entry goes to the end of the random vector. */
  lemma SwappedToLast(bk: Book, n: int)
    requires RandomOk(bk) && n in bk.infos
    ensures var pos, last := bk.infos[n].randomPos, |bk.random| - 1;
      && 0 <= pos <= last && bk.random[pos] in bk.infos && bk.random[last] in bk.infos
      && var bk1 := SwapRandom(bk, pos, last);
         && bk1.random != [] && n in bk1.infos && bk1.infos[n].randomPos == |bk1.random| - 1
         && bk1.infos[n].inTried == bk.infos[n].inTried && bk1.infos[n].refCount == bk.infos[n].refCount
         && Delete(bk, n) == RemoveLast(bk1, n)
  {
    assert ListedAt(bk, n, bk.infos[n].randomPos);
    var last := |bk.random| - 1;
    assert KnowsPlace(bk, bk.random[last], last);
  }

  lemma DeleteKeeps(h: Hashes, bk: Book, n: int, uncounted: set<int>, loose: set<int>)
    requires Inside(h, bk, uncounted, loose) && n in bk.infos
    requires !bk.infos[n].inTried && bk.infos[n].refCount == 0 && n !in uncounted
    ensures Inside(h, Delete(bk, n), uncounted, loose - {n})
  {
    hide AddrsOk, RandomOk, TriedOk, NewOk, RefsOk, CountsOk, SwapRandom, SameShape, RemoveLast;
    var pos, last := bk.infos[n].randomPos, |bk.random| - 1;
    SwappedToLast(bk, n);
    var bk1 := SwapRandom(bk, pos, last);
    SwapRandomKeeps(h, bk, pos, last, uncounted, loose);
    RemoveLastKeepsNames(bk1, n);
    RemoveLastKeepsSlots(h, bk1, n, loose);
    RemoveLastKeepsCounts(bk1, n, uncounted);
  }

  // ---- Slots of the new table ----

  /** Entries keep their names and places. */
  ghost predicate SameNames(bk: Book, bk': Book)
  {
    && (forall n :: n in bk.infos <==> n in bk'.infos)
    && (forall n {:trigger bk.infos[n]} {:trigger bk'.infos[n]} | n in bk.infos && n in bk'.infos ::
          bk'.infos[n].service == bk.infos[n].service && bk'.infos[n].randomPos == bk.infos[n].randomPos)
    && bk'.idCount == bk.idCount && bk'.addrs == bk.addrs && bk'.random == bk.random
  }

  lemma NamesKeep(bk: Book, bk': Book)
    requires SameNames(bk, bk') && AddrsOk(bk) && RandomOk(bk)
    ensures AddrsOk(bk') && RandomOk(bk')
  {
  }

  /** `n` leaves slot `s`. */
  function Detach(bk: Book, s: Slot, n: int): Book
    requires n in bk.infos
  {
    bk.(infos := bk.infos[n := bk.infos[n].(refCount := bk.infos[n].refCount - 1)], newSlots := bk.newSlots - {s})
  }

  lemma DetachKeeps(h: Hashes, bk: Book, s: Slot, uncounted: set<int>, loose: set<int>)
    requires Inside(h, bk, uncounted, loose) && s in bk.newSlots
    ensures var n := bk.newSlots[s];
      && n in bk.infos && !bk.infos[n].inTried && bk.infos[n].refCount > 0
      && Inside(h, Detach(bk, s, n), uncounted, loose + {n})
      && (bk.infos[n].refCount > 1 ==> Inside(h, Detach(bk, s, n), uncounted, loose))
  {
    var n := bk.newSlots[s];
    assert NewHolds(h, bk, s, n);
    var bk' := Detach(bk, s, n);
    NamesKeep(bk, bk');
    DetachKeepsSlots(h, bk, s, loose);
    OneEntryKeepsCounts(bk, bk', n, uncounted);
  }

  lemma DetachKeepsSlots(h: Hashes, bk: Book, s: Slot, loose: set<int>)
    requires TriedOk(h, bk) && NewOk(h, bk) && RefsOk(bk, loose) && s in bk.newSlots
    ensures var n := bk.newSlots[s];
      && n in bk.infos && bk.infos[n].refCount > 0
      && TriedOk(h, Detach(bk, s, n)) && NewOk(h, Detach(bk, s, n)) && RefsOk(Detach(bk, s, n), loose + {n})
      && (bk.infos[n].refCount > 1 ==> RefsOk(Detach(bk, s, n), loose))
  {
    var n := bk.newSlots[s];
    assert NewHolds(h, bk, s, n) && RefOk(bk, loose, n);
    assert s in SlotsOf(bk.newSlots, n);
    var bk' := Detach(bk, s, n);
    assert SlotsOf(bk'.newSlots, n) == SlotsOf(bk.newSlots, n) - {s};
    forall m | m in bk'.infos && m != n ensures RefOk(bk', loose, m) {
      assert RefOk(bk, loose, m);
      assert SlotsOf(bk'.newSlots, m) == SlotsOf(bk.newSlots, m);
    }
  }

  /** Changing an entry without moving it between the tables leaves the counters exact. */
  lemma OneEntryKeepsCounts(bk: Book, bk': Book, n: int, uncounted: set<int>)
    requires CountsOk(bk, uncounted) && n in bk.infos && n in bk'.infos
    requires bk'.infos == bk.infos[n := bk'.infos[n]] && bk'.infos[n].inTried == bk.infos[n].inTried
    requires bk'.nTried == bk.nTried && bk'.nNew == bk.nNew
    ensures CountsOk(bk', uncounted)
  {
    forall m ensures m in TriedIds(bk') <==> m in TriedIds(bk) {}
    forall m ensures m in NewIds(bk') <==> m in NewIds(bk) {}
    assert TriedIds(bk') == TriedIds(bk) && NewIds(bk') == NewIds(bk);
  }

  /** ClearNew: the occupant of a slot leaves it, and is deleted when that was its last slot. */
  function ClearNew(bk: Book, s: Slot): Book
    requires RandomOk(bk) && (s in bk.newSlots ==> bk.newSlots[s] in bk.infos)
  {
    if s !in bk.newSlots then bk else
      var n := bk.newSlots[s];
      var bk1 := Detach(bk, s, n);
      NamesKeepRandom(bk, bk1);
      if bk1.infos[n].refCount == 0 then Delete(bk1, n) else bk1
  }

  lemma NamesKeepRandom(bk: Book, bk': Book)
    requires SameNames(bk, bk') && RandomOk(bk)
    ensures RandomOk(bk')
  {
  }
  /** The entry of `n` is the same but for its place in the random vector. */
  ghost predicate Untouched(bk: Book, bk': Book, n: int)
    requires n in bk.infos
  {
    n in bk'.infos && bk'.infos[n] == bk.infos[n].(randomPos := bk'.infos[n].randomPos)
  }

  lemma DeleteTouchesOne(bk: Book, n: int)
    requires RandomOk(bk) && n in bk.infos
    ensures var bk' := Delete(bk, n);
      && bk'.infos.Keys == bk.infos.Keys - {n}
      && (forall m | m in bk.infos && m != n :: Untouched(bk, bk', m))
      && bk'.newSlots == bk.newSlots && bk'.triedSlots == bk.triedSlots
  {
    assert ListedAt(bk, n, bk.infos[n].randomPos);
    var last := |bk.random| - 1;
    assert KnowsPlace(bk, bk.random[last], last);
  }

  lemma LooseGrows(bk: Book, loose: set<int>, loose': set<int>)
    requires RefsOk(bk, loose) && loose <= loose'
    ensures RefsOk(bk, loose')
  {
    forall n | n in bk.infos ensures RefOk(bk, loose', n) {
      assert RefOk(bk, loose, n);
    }
  }

  lemma ClearNewKeeps(h: Hashes, bk: Book, s: Slot, uncounted: set<int>, loose: set<int>)
    requires Inside(h, bk, uncounted, loose)
    requires forall n | n in uncounted && n in bk.infos :: bk.infos[n].refCount == 0
    ensures s in bk.newSlots ==> bk.newSlots[s] in bk.infos && !bk.infos[bk.newSlots[s]].inTried
    ensures Inside(h, ClearNew(bk, s), uncounted, loose)
  {
    hide AddrsOk, TriedOk, NewOk, RefsOk, CountsOk;
    if s in bk.newSlots {
      var n := bk.newSlots[s];
      DetachKeeps(h, bk, s, uncounted, loose);
      var bk1 := Detach(bk, s, n);
      if bk1.infos[n].refCount == 0 {
        DeleteKeeps(h, bk1, n, uncounted, loose + {n});
        LooseGrows(Delete(bk1, n), loose + {n} - {n}, loose);
      }
    }
  }

  lemma ClearNewTouchesOne(h: Hashes, bk: Book, s: Slot)
    requires RandomOk(bk) && NewOk(h, bk)
    ensures s in bk.newSlots ==> bk.newSlots[s] in bk.infos
    ensures var bk' := ClearNew(bk, s);
      && bk'.newSlots == bk.newSlots - {s} && bk'.triedSlots == bk.triedSlots
      && bk'.infos.Keys <= bk.infos.Keys
      && forall m | m in bk.infos && (s in bk.newSlots ==> m != bk.newSlots[s]) :: Untouched(bk, bk', m)
  {
    if s in bk.newSlots {
      var n := bk.newSlots[s];
      assert NewHolds(h, bk, s, n);
      var bk1 := Detach(bk, s, n);
      NamesKeepRandom(bk, bk1);
      if bk1.infos[n].refCount == 0 {
        DeleteTouchesOne(bk1, n);
      }
      forall m | m in bk.infos && m != n ensures Untouched(bk, ClearNew(bk, s), m) {
        if bk1.infos[n].refCount == 0 {
          assert Untouched(bk1, Delete(bk1, n), m);
        }
      }
    }
  }

  lemma ClearNewSpares(h: Hashes, bk: Book, s: Slot, n: int)
    requires RandomOk(bk) && NewOk(h, bk) && n in bk.infos && (s in bk.newSlots ==> bk.newSlots[s] != n)
    ensures s in bk.newSlots ==> bk.newSlots[s] in bk.infos
    ensures Untouched(bk, ClearNew(bk, s), n) && s !in ClearNew(bk, s).newSlots
  {
    ClearNewTouchesOne(h, bk, s);
  }

  /** `n` takes the free slot `s`. */
  function Attach(bk: Book, s: Slot, n: int): Book
    requires n in bk.infos
  {
    bk.(infos := bk.infos[n := bk.infos[n].(refCount := bk.infos[n].refCount + 1)], newSlots := bk.newSlots[s := n])
  }

  lemma AttachKeepsTables(h: Hashes, bk: Book, s: Slot, n: int)
    requires TriedOk(h, bk) && NewOk(h, bk) && n in bk.infos && !bk.infos[n].inTried
    requires 0 <= s.0 < NEW_BUCKET_COUNT && s.1 == h.Position(true, s.0, bk.infos[n].service)
    ensures TriedOk(h, Attach(bk, s, n)) && NewOk(h, Attach(bk, s, n))
  {
  }

  lemma AttachKeepsRefs(bk: Book, s: Slot, n: int, loose: set<int>)
    requires RefsOk(bk, loose) && s !in bk.newSlots
    requires n in bk.infos && bk.infos[n].refCount < NEW_BUCKETS_PER_ADDRESS
    ensures RefsOk(Attach(bk, s, n), loose - {n})
  {
    var bk' := Attach(bk, s, n);
    assert RefOk(bk, loose, n);
    assert SlotsOf(bk'.newSlots, n) == SlotsOf(bk.newSlots, n) + {s};
    forall m | m in bk'.infos && m != n ensures RefOk(bk', loose - {n}, m) {
      assert RefOk(bk, loose, m);
      assert SlotsOf(bk'.newSlots, m) == SlotsOf(bk.newSlots, m);
    }
  }

  lemma AttachKeeps(h: Hashes, bk: Book, s: Slot, n: int, uncounted: set<int>, loose: set<int>)
    requires Inside(h, bk, uncounted, loose) && s !in bk.newSlots
    requires n in bk.infos && !bk.infos[n].inTried && bk.infos[n].refCount < NEW_BUCKETS_PER_ADDRESS
    requires 0 <= s.0 < NEW_BUCKET_COUNT && s.1 == h.Position(true, s.0, bk.infos[n].service)
    ensures Inside(h, Attach(bk, s, n), uncounted, loose - {n})
  {
    hide TriedOk, NewOk, RefsOk, CountsOk;
    NamesKeep(bk, Attach(bk, s, n));
    AttachKeepsTables(h, bk, s, n);
    AttachKeepsRefs(bk, s, n, loose);
    OneEntryKeepsCounts(bk, Attach(bk, s, n), n, uncounted);
  }

  /** `n` takes slot `s`, whose occupant makes way. */
  function TakeSlot(h: Hashes, bk: Book, s: Slot, n: int): Book
    requires RandomOk(bk) && NewOk(h, bk) && n in bk.infos && (s in bk.newSlots ==> bk.newSlots[s] != n)
  {
    ClearNewSpares(h, bk, s, n);
    Attach(ClearNew(bk, s), s, n)
  }

  /** The slot logic at the end of Add_: `n` takes its slot for `source`, unless the occupant is
      worth keeping. */
  function Place(h: Hashes, bk: Book, n: int, source: NetAddr, now: int): Book
    requires RandomOk(bk) && NewOk(h, bk) && n in bk.infos
  {
    var s := h.NewSlot(bk.infos[n].service, source);
    if s in bk.newSlots && bk.newSlots[s] == n then bk
    else if Inserts(bk, s, n, now) then TakeSlot(h, bk, s, n)
    else if bk.infos[n].refCount == 0 then Delete(bk, n)
    else bk
  }

  predicate Inserts(bk: Book, s: Slot, n: int, now: int)
    requires n in bk.infos
  {
    s !in bk.newSlots || (bk.newSlots[s] in bk.infos && Replaceable(bk.infos[bk.newSlots[s]], bk.infos[n], now))
  }

  predicate Replaceable(occupant: AddrInfo, info: AddrInfo, now: int)
  {
    IsTerrible(occupant, now) || (occupant.refCount > 1 && info.refCount == 0)
  }

  lemma OccupantKnown(h: Hashes, bk: Book, s: Slot)
    requires NewOk(h, bk) && s in bk.newSlots
    ensures bk.newSlots[s] in bk.infos
  {
    assert NewHolds(h, bk, s, bk.newSlots[s]);
  }

  lemma PlaceKeeps(h: Hashes, bk: Book, n: int, source: NetAddr, now: int)
    requires Inside(h, bk, {}, {n}) && n in bk.infos
    requires !bk.infos[n].inTried && bk.infos[n].refCount < NEW_BUCKETS_PER_ADDRESS
    ensures Inv(h, Place(h, bk, n, source, now))
  {
    var s := h.NewSlot(bk.infos[n].service, source);
    if s in bk.newSlots && bk.newSlots[s] == n {
      HolderIsSettled(h, bk, s, n);
    } else {
      PlaceFresh(h, bk, s, n, source, now);
    }
  }

  lemma HolderIsSettled(h: Hashes, bk: Book, s: Slot, n: int)
    requires RefsOk(bk, {n}) && n in bk.infos && s in bk.newSlots && bk.newSlots[s] == n
    ensures RefsOk(bk, {}) && bk.infos[n].refCount > 0
  {
    assert s in SlotsOf(bk.newSlots, n);
    forall m | m in bk.infos ensures RefOk(bk, {}, m) {
      assert RefOk(bk, {n}, m);
    }
  }

  lemma PlaceFresh(h: Hashes, bk: Book, s: Slot, n: int, source: NetAddr, now: int)
    requires Inside(h, bk, {}, {n}) && n in bk.infos
    requires !bk.infos[n].inTried && bk.infos[n].refCount < NEW_BUCKETS_PER_ADDRESS
    requires s == h.NewSlot(bk.infos[n].service, source) && !(s in bk.newSlots && bk.newSlots[s] == n)
    ensures Inv(h, Place(h, bk, n, source, now))
  {
    hide AddrsOk, TriedOk, RefsOk, CountsOk, TakeSlot;
    TakeSlotKeeps(h, bk, s, n);
    if !Inserts(bk, s, n, now) {
      if bk.infos[n].refCount == 0 {
        DeleteKeeps(h, bk, n, {}, {n});
        assert {n} - {n} == {};
      } else {
        SettledByCount(bk, n);
      }
    }
  }

  lemma TakeSlotKeeps(h: Hashes, bk: Book, s: Slot, n: int)
    requires Inside(h, bk, {}, {n}) && n in bk.infos && (s in bk.newSlots ==> bk.newSlots[s] != n)
    requires !bk.infos[n].inTried && bk.infos[n].refCount < NEW_BUCKETS_PER_ADDRESS
    requires 0 <= s.0 < NEW_BUCKET_COUNT && s.1 == h.Position(true, s.0, bk.infos[n].service)
    ensures Inv(h, TakeSlot(h, bk, s, n))
  {
    hide AddrsOk, TriedOk, RefsOk, CountsOk;
    ClearNewSpares(h, bk, s, n);
    ClearNewKeeps(h, bk, s, {}, {n});
    AttachKeeps(h, ClearNew(bk, s), s, n, {}, {n});
    assert {n} - {n} == {};
  }

  lemma SettledByCount(bk: Book, n: int)
    requires RefsOk(bk, {n}) && n in bk.infos && bk.infos[n].refCount != 0
    ensures RefsOk(bk, {})
  {
    forall m | m in bk.infos ensures RefOk(bk, {}, m) {
      assert RefOk(bk, {n}, m);
    }
  }
  // ---- Moving an entry to the tried table ----

  /** `n` leaves all its new slots, and is no longer counted as new. */
  function DetachAll(bk: Book, n: int): Book
    requires n in bk.infos
  {
    bk.(infos := bk.infos[n := bk.infos[n].(refCount := 0)],
        newSlots := map s | s in bk.newSlots && bk.newSlots[s] != n :: bk.newSlots[s],
        nNew := bk.nNew - 1)
  }

  lemma DetachAllKeeps(h: Hashes, bk: Book, n: int)
    requires Inv(h, bk) && n in bk.infos && !bk.infos[n].inTried
    ensures Inside(h, DetachAll(bk, n), {n}, {n})
  {
    hide TriedOk, NewOk, RefsOk, CountsOk;
    NamesKeep(bk, DetachAll(bk, n));
    DetachAllKeepsTables(h, bk, n);
    DetachAllKeepsCounts(bk, n);
  }

  lemma DetachAllKeepsTables(h: Hashes, bk: Book, n: int)
    requires TriedOk(h, bk) && NewOk(h, bk) && RefsOk(bk, {}) && n in bk.infos && !bk.infos[n].inTried
    ensures var bk' := DetachAll(bk, n); TriedOk(h, bk') && NewOk(h, bk') && RefsOk(bk', {n})
  {
    var bk' := DetachAll(bk, n);
    assert SlotsOf(bk'.newSlots, n) == {};
    forall m | m in bk'.infos && m != n ensures RefOk(bk', {n}, m) {
      assert RefOk(bk, {}, m);
      assert SlotsOf(bk'.newSlots, m) == SlotsOf(bk.newSlots, m);
    }
  }

  lemma DetachAllKeepsCounts(bk: Book, n: int)
    requires CountsOk(bk, {}) && n in bk.infos && !bk.infos[n].inTried
    ensures CountsOk(DetachAll(bk, n), {n})
  {
    var bk' := DetachAll(bk, n);
    forall m ensures m in TriedIds(bk') <==> m in TriedIds(bk) {}
    forall m ensures m in NewIds(bk') <==> m in NewIds(bk) {}
    assert TriedIds(bk') == TriedIds(bk) && NewIds(bk') == NewIds(bk);
    assert NewIds(bk) - {n} == (NewIds(bk) - {}) - {n};
  }

  /** The occupant `e` of tried slot `k` leaves the tried table. */
  function Untry(bk: Book, k: Slot, e: int): Book
    requires e in bk.infos
  {
    bk.(infos := bk.infos[e := bk.infos[e].(inTried := false)], triedSlots := bk.triedSlots - {k},
      nTried := bk.nTried - 1)
  }

  lemma UntryKeeps(h: Hashes, bk: Book, k: Slot, uncounted: set<int>, loose: set<int>)
    requires Inside(h, bk, uncounted, loose) && k in bk.triedSlots
    ensures var e := bk.triedSlots[k];
      && e in bk.infos && bk.infos[e].inTried && bk.infos[e].refCount == 0
      && Inside(h, Untry(bk, k, e), uncounted + {e}, loose + {e})
  {
    var e := bk.triedSlots[k];
    assert TriedHolds(h, bk, k, e);
    NamesKeep(bk, Untry(bk, k, e));
    UntryKeepsTables(h, bk, k, loose);
    UntryKeepsCounts(bk, k, e, uncounted);
  }

  lemma UntryKeepsTables(h: Hashes, bk: Book, k: Slot, loose: set<int>)
    requires TriedOk(h, bk) && NewOk(h, bk) && RefsOk(bk, loose) && k in bk.triedSlots
    ensures var e := bk.triedSlots[k];
      && e in bk.infos && bk.infos[e].refCount == 0
      && TriedOk(h, Untry(bk, k, e)) && NewOk(h, Untry(bk, k, e)) && RefsOk(Untry(bk, k, e), loose + {e})
  {
    var e := bk.triedSlots[k];
    assert TriedHolds(h, bk, k, e);
    var bk' := Untry(bk, k, e);
    assert RefOk(bk, loose, e);
    forall s | s in bk.newSlots ensures bk.newSlots[s] != e {
      assert NewHolds(h, bk, s, bk.newSlots[s]);
    }
    assert SlotsOf(bk.newSlots, e) == {};
    forall s | s in bk'.triedSlots ensures TriedHolds(h, bk', s, bk'.triedSlots[s]) {
      assert TriedHolds(h, bk, s, bk.triedSlots[s]);
    }
    forall n | n in bk'.infos && bk'.infos[n].inTried ensures HeldAt(bk', n, h.TriedSlot(bk'.infos[n].service)) {
      assert HeldAt(bk, n, h.TriedSlot(bk.infos[n].service));
    }
    forall m | m in bk'.infos ensures RefOk(bk', loose + {e}, m) {
      assert RefOk(bk, loose, m);
    }
  }

  lemma UntryKeepsCounts(bk: Book, k: Slot, e: int, uncounted: set<int>)
    requires CountsOk(bk, uncounted) && e in bk.infos && bk.infos[e].inTried
    ensures CountsOk(Untry(bk, k, e), uncounted + {e})
  {
    var bk' := Untry(bk, k, e);
    forall m ensures m in TriedIds(bk') <==> m in TriedIds(bk) && m != e {}
    forall m ensures m in NewIds(bk') <==> m in NewIds(bk) || m == e {}
    assert TriedIds(bk') == TriedIds(bk) - {e};
    assert NewIds(bk') - (uncounted + {e}) == NewIds(bk) - uncounted;
  }

  /** An entry between the tables is counted as new again. */
  lemma CountAsNew(bk: Book, n: int, uncounted: set<int>)
    requires CountsOk(bk, uncounted) && n in uncounted
    ensures CountsOk(bk.(nNew := bk.nNew + 1), uncounted - {n})
  {
    var bk' := bk.(nNew := bk.nNew + 1);
    assert TriedIds(bk') == TriedIds(bk) && NewIds(bk') == NewIds(bk);
    assert NewIds(bk) - (uncounted - {n}) == (NewIds(bk) - uncounted) + {n};
  }

  /** `n`, which has no new slot, takes its free tried slot. */
  function SetTried(bk: Book, k: Slot, n: int): Book
    requires n in bk.infos
  {
    bk.(infos := bk.infos[n := bk.infos[n].(inTried := true)], triedSlots := bk.triedSlots[k := n],
      nTried := bk.nTried + 1)
  }

  lemma SetTriedKeeps(h: Hashes, bk: Book, k: Slot, n: int)
    requires Inside(h, bk, {n}, {n}) && n in bk.infos && bk.infos[n].refCount == 0
    requires k == h.TriedSlot(bk.infos[n].service) && k !in bk.triedSlots
    ensures Inv(h, SetTried(bk, k, n))
  {
    hide TriedOk, NewOk, RefsOk;
    NamesKeep(bk, SetTried(bk, k, n));
    SetTriedKeepsTables(h, bk, k, n);
    SetTriedKeepsCounts(bk, k, n);
  }

  lemma SetTriedKeepsTables(h: Hashes, bk: Book, k: Slot, n: int)
    requires TriedOk(h, bk) && NewOk(h, bk) && RefsOk(bk, {n})
    requires n in bk.infos && !bk.infos[n].inTried && bk.infos[n].refCount == 0
    requires k == h.TriedSlot(bk.infos[n].service) && k !in bk.triedSlots
    ensures var bk' := SetTried(bk, k, n); TriedOk(h, bk') && NewOk(h, bk') && RefsOk(bk', {})
  {
    var bk' := SetTried(bk, k, n);
    assert RefOk(bk, {n}, n);
    forall s | s in bk'.newSlots ensures NewHolds(h, bk', s, bk'.newSlots[s]) {
      assert NewHolds(h, bk, s, bk.newSlots[s]);
      assert bk.newSlots[s] == n ==> s in SlotsOf(bk.newSlots, n);
    }
    forall m | m in bk'.infos && bk'.infos[m].inTried ensures HeldAt(bk', m, h.TriedSlot(bk'.infos[m].service)) {
      if m != n {
        assert HeldAt(bk, m, h.TriedSlot(bk.infos[m].service));
      }
    }
    forall m | m in bk'.infos ensures RefOk(bk', {}, m) {
      assert RefOk(bk, {n}, m);
    }
  }

  lemma SetTriedKeepsCounts(bk: Book, k: Slot, n: int)
    requires CountsOk(bk, {n}) && n in bk.infos
    ensures CountsOk(SetTried(bk, k, n), {})
  {
    var bk' := SetTried(bk, k, n);
    assert n in NewIds(bk);
    forall m ensures m in TriedIds(bk') <==> m in TriedIds(bk) || m == n {}
    forall m ensures m in NewIds(bk') <==> m in NewIds(bk) && m != n {}
    assert TriedIds(bk') == TriedIds(bk) + {n};
    assert NewIds(bk') - {} == NewIds(bk) - {n};
  }
  /** The eviction inside MakeTried: the occupant of `k` goes back to the new table, at the slot
      of its own source, whose occupant makes way. */
  function Evict(h: Hashes, bk: Book, k: Slot): Book
    requires RandomOk(bk) && TriedOk(h, bk) && NewOk(h, bk) && k in bk.triedSlots
  {
    var e := bk.triedSlots[k];
    assert TriedHolds(h, bk, k, e);
    var bk1 := Untry(bk, k, e);
    NamesKeepRandom(bk, bk1);
    var u := h.NewSlot(bk.infos[e].service, bk.infos[e].source);
    EvictSlot(h, bk, k);
    ClearNewTouchesOne(h, bk1, u);
    var bk2 := ClearNew(bk1, u);
    assert Untouched(bk1, bk2, e);
    Attach(bk2, u, e).(nNew := bk2.nNew + 1)
  }

  lemma EvictSlot(h: Hashes, bk: Book, k: Slot)
    requires TriedOk(h, bk) && NewOk(h, bk) && k in bk.triedSlots
    ensures bk.triedSlots[k] in bk.infos && NewOk(h, Untry(bk, k, bk.triedSlots[k]))
    ensures forall s | s in bk.newSlots :: bk.newSlots[s] != bk.triedSlots[k]
  {
    assert TriedHolds(h, bk, k, bk.triedSlots[k]);
    forall s | s in bk.newSlots ensures bk.newSlots[s] != bk.triedSlots[k] {
      assert NewHolds(h, bk, s, bk.newSlots[s]);
    }
  }

  lemma EvictKeeps(h: Hashes, bk: Book, k: Slot, n: int)
    requires Inside(h, bk, {n}, {n}) && k in bk.triedSlots && n in bk.infos && bk.infos[n].refCount == 0
    ensures Inside(h, Evict(h, bk, k), {n}, {n})
    ensures n in Evict(h, bk, k).infos && Evict(h, bk, k).infos[n].refCount == 0
    ensures Evict(h, bk, k).infos[n].service == bk.infos[n].service
    ensures Evict(h, bk, k).triedSlots == bk.triedSlots - {k}
  {
    hide AddrsOk, RandomOk, TriedOk, NewOk, RefsOk, CountsOk, Untry, ClearNew, Attach, Evict, Untouched;
    var e := bk.triedSlots[k];
    EvictUntries(h, bk, k, n);
    UntrySpares(bk, k, e, n);
    var bk1 := Untry(bk, k, e);
    var u := h.NewSlot(bk.infos[e].service, bk.infos[e].source);
    EvictClears(h, bk1, e, u, n);
    TransitUntouched(bk1, ClearNew(bk1, u), e, n);
    EvictAttach(h, ClearNew(bk1, u), u, e, n);
    EvictIs(h, bk, k);
    AttachSpares(ClearNew(bk1, u), u, e, n);
  }

  lemma EvictIs(h: Hashes, bk: Book, k: Slot)
    requires RandomOk(bk) && TriedOk(h, bk) && NewOk(h, bk) && k in bk.triedSlots && bk.triedSlots[k] in bk.infos
    requires var bk1 := Untry(bk, k, bk.triedSlots[k]);
      var u := h.NewSlot(bk.infos[bk.triedSlots[k]].service, bk.infos[bk.triedSlots[k]].source);
      (u in bk1.newSlots ==> bk1.newSlots[u] in bk1.infos) && RandomOk(bk1)
        && bk.triedSlots[k] in ClearNew(bk1, u).infos
    ensures var e := bk.triedSlots[k];
      var u := h.NewSlot(bk.infos[e].service, bk.infos[e].source);
      var bk2 := ClearNew(Untry(bk, k, e), u);
      Evict(h, bk, k) == Attach(bk2, u, e).(nNew := bk2.nNew + 1)
  {
    hide RandomOk, TriedOk, NewOk, Untry, ClearNew, Attach;
  }

  lemma UntrySpares(bk: Book, k: Slot, e: int, n: int)
    requires k in bk.triedSlots && e in bk.infos && n in bk.infos && e != n
    ensures var bk1 := Untry(bk, k, e);
      && n in bk1.infos && bk1.infos[n] == bk.infos[n] && bk1.triedSlots == bk.triedSlots - {k}
        && bk1.newSlots == bk.newSlots
      && e in bk1.infos && !bk1.infos[e].inTried && bk1.infos[e].refCount == bk.infos[e].refCount
      && bk1.infos[e].service == bk.infos[e].service && bk1.infos[e].source == bk.infos[e].source
  {
  }

  lemma TransitUntouched(bk: Book, bk': Book, e: int, n: int)
    requires e in bk.infos && n in bk.infos && Untouched(bk, bk', e) && Untouched(bk, bk', n)
    ensures e in bk'.infos && bk'.infos[e].(randomPos := bk.infos[e].randomPos) == bk.infos[e]
    ensures n in bk'.infos && bk'.infos[n].(randomPos := bk.infos[n].randomPos) == bk.infos[n]
  {
  }

  lemma AttachSpares(bk: Book, u: Slot, e: int, n: int)
    requires e in bk.infos && n in bk.infos && e != n
    ensures var bk' := Attach(bk, u, e).(nNew := bk.nNew + 1);
      n in bk'.infos && bk'.infos[n] == bk.infos[n] && bk'.triedSlots == bk.triedSlots
  {
  }

  /** Clearing the slot of the evicted entry does not touch the two entries in transit. */
  lemma EvictClears(h: Hashes, bk: Book, e: int, u: Slot, n: int)
    requires Inside(h, bk, {n} + {e}, {n} + {e}) && n in bk.infos && e in bk.infos
    requires bk.infos[e].refCount == 0 && bk.infos[n].refCount == 0
    requires forall s | s in bk.newSlots :: bk.newSlots[s] != e && bk.newSlots[s] != n
    ensures u in bk.newSlots ==> bk.newSlots[u] in bk.infos
    ensures Inside(h, ClearNew(bk, u), {n} + {e}, {n} + {e})
    ensures ClearNew(bk, u).newSlots == bk.newSlots - {u} && ClearNew(bk, u).triedSlots == bk.triedSlots
    ensures Untouched(bk, ClearNew(bk, u), e) && Untouched(bk, ClearNew(bk, u), n)
  {
    hide AddrsOk, TriedOk, RefsOk, CountsOk;
    ClearNewKeeps(h, bk, u, {n} + {e}, {n} + {e});
    ClearNewTouchesOne(h, bk, u);
  }

  lemma EvictUntries(h: Hashes, bk: Book, k: Slot, n: int)
    requires Inside(h, bk, {n}, {n}) && k in bk.triedSlots && n in bk.infos && bk.infos[n].refCount == 0
    ensures var e := bk.triedSlots[k];
      && e in bk.infos && e != n && bk.infos[e].refCount == 0
      && Inside(h, Untry(bk, k, e), {n} + {e}, {n} + {e})
      && (forall s | s in bk.newSlots :: bk.newSlots[s] != e && bk.newSlots[s] != n)
  {
    hide AddrsOk, RandomOk, TriedOk, NewOk, RefsOk;
    UntryKeeps(h, bk, k, {n}, {n});
    assert n in NewIds(bk);
    EvictSlot(h, bk, k);
    NoSlotWithoutCount(bk, n);
  }

  lemma NoSlotWithoutCount(bk: Book, n: int)
    requires RefsOk(bk, {n}) && n in bk.infos && bk.infos[n].refCount == 0
    ensures forall s | s in bk.newSlots :: bk.newSlots[s] != n
  {
    assert RefOk(bk, {n}, n);
    forall s | s in bk.newSlots ensures bk.newSlots[s] != n {
      assert bk.newSlots[s] == n ==> s in SlotsOf(bk.newSlots, n);
    }
  }

  lemma EvictAttach(h: Hashes, bk: Book, u: Slot, e: int, n: int)
    requires Inside(h, bk, {n} + {e}, {n} + {e}) && e != n && u !in bk.newSlots
    requires e in bk.infos && !bk.infos[e].inTried && bk.infos[e].refCount == 0
    requires u == h.NewSlot(bk.infos[e].service, bk.infos[e].source)
    ensures var bk' := Attach(bk, u, e).(nNew := bk.nNew + 1); Inside(h, bk', {n}, {n})
  {
    hide AddrsOk, RandomOk, TriedOk, NewOk, RefsOk, CountsOk;
    AttachKeeps(h, bk, u, e, {n} + {e}, {n} + {e});
    assert {n} + {e} - {e} == {n};
    CountAsNew(Attach(bk, u, e), e, {n} + {e});
    CountingKeeps(h, Attach(bk, u, e), {n});
  }

  lemma CountingKeeps(h: Hashes, bk: Book, loose: set<int>)
    requires AddrsOk(bk) && RandomOk(bk) && TriedOk(h, bk) && NewOk(h, bk) && RefsOk(bk, loose)
    ensures var bk' := bk.(nNew := bk.nNew + 1);
      AddrsOk(bk') && RandomOk(bk') && TriedOk(h, bk') && NewOk(h, bk') && RefsOk(bk', loose)
  {
    var bk' := bk.(nNew := bk.nNew + 1);
    forall m | m in bk'.infos ensures RefOk(bk', loose, m) {
      assert RefOk(bk, loose, m);
    }
  }

  /** Makes room at the tried slot `k`. */
  function FreeTried(h: Hashes, bk: Book, k: Slot): Book
    requires RandomOk(bk) && TriedOk(h, bk) && NewOk(h, bk)
  {
    if k in bk.triedSlots then Evict(h, bk, k) else bk
  }

  lemma FreeTriedKeeps(h: Hashes, bk: Book, k: Slot, n: int)
    requires Inside(h, bk, {n}, {n}) && n in bk.infos && bk.infos[n].refCount == 0
    ensures var bk' := FreeTried(h, bk, k);
      && Inside(h, bk', {n}, {n}) && k !in bk'.triedSlots
      && n in bk'.infos && bk'.infos[n].refCount == 0 && bk'.infos[n].service == bk.infos[n].service
  {
    hide AddrsOk, RandomOk, TriedOk, NewOk, RefsOk, CountsOk, Evict;
    if k in bk.triedSlots {
      EvictKeeps(h, bk, k, n);
    }
  }

  /** MakeTried as a whole. */
  function MakeTried(h: Hashes, bk: Book, n: int): Book
    requires Inv(h, bk) && n in bk.infos && !bk.infos[n].inTried
  {
    DetachAllKeeps(h, bk, n);
    var k := h.TriedSlot(bk.infos[n].service);
    FreeTriedKeeps(h, DetachAll(bk, n), k, n);
    SetTried(FreeTried(h, DetachAll(bk, n), k), k, n)
  }

  lemma MakeTriedKeeps(h: Hashes, bk: Book, n: int)
    requires Inv(h, bk) && n in bk.infos && !bk.infos[n].inTried
    ensures Inv(h, MakeTried(h, bk, n))
    ensures n in MakeTried(h, bk, n).infos && MakeTried(h, bk, n).infos[n].inTried
  {
    hide AddrsOk, RandomOk, TriedOk, NewOk, RefsOk, CountsOk, FreeTried;
    DetachAllKeeps(h, bk, n);
    var k := h.TriedSlot(bk.infos[n].service);
    FreeTriedKeeps(h, DetachAll(bk, n), k, n);
    SetTriedKeeps(h, FreeTried(h, DetachAll(bk, n), k), k, n);
  }

  // ---- The operations ----

  function Max(a: int, b: int): int { if a > b then a else b }

  /** What Add_ does to an entry it already has: the time may move, the services accumulate. */
  function Refreshed(info: AddrInfo, addr: Address, penalty: int, now: int): AddrInfo
  {
    var interval := if now - addr.time < 24 * 60 * 60 then 60 * 60 else 24 * 60 * 60;
    var moves := addr.time != 0 && (info.time == 0 || info.time < addr.time - interval - penalty);
    info.(time := if moves then Max(0, addr.time - penalty) else info.time,
          services := Or(info.services, addr.services))
  }

  /** Whether Add_ stops after refreshing: nothing newer, already tried, or enough slots; every
      slot held halves the chance of another. */
  predicate Declines(info: AddrInfo, addr: Address, draw: nat)
    requires info.refCount >= 0
  {
    || addr.time == 0 || (info.time != 0 && addr.time <= info.time)
    || info.inTried || info.refCount == NEW_BUCKETS_PER_ADDRESS
    || (Pow2(info.refCount) > 1 && draw % Pow2(info.refCount) != 0)
  }

  function Created(bk: Book, addr: Address, source: NetAddr, penalty: int): Book
  {
    var bk1 := Create(bk, addr, source);
    var info := bk1.infos[bk.idCount];
    bk1.(infos := bk1.infos[bk.idCount := info.(time := Max(0, info.time - penalty))], nNew := bk1.nNew + 1)
  }

  /** Replacing an entry by one of the same shape. */
  function WithInfo(bk: Book, n: int, info: AddrInfo): Book
  {
    bk.(infos := bk.infos[n := info])
  }

  lemma WithInfoKeeps(h: Hashes, bk: Book, n: int, info: AddrInfo, uncounted: set<int>, loose: set<int>)
    requires Inside(h, bk, uncounted, loose) && n in bk.infos
    requires info.service == bk.infos[n].service && info.refCount == bk.infos[n].refCount
    requires info.inTried == bk.infos[n].inTried && info.randomPos == bk.infos[n].randomPos
    ensures Inside(h, WithInfo(bk, n, info), uncounted, loose)
  {
    hide TriedOk, NewOk, RefsOk, CountsOk;
    NamesKeep(bk, WithInfo(bk, n, info));
    ShapeKeeps(h, bk, WithInfo(bk, n, info), uncounted, loose);
  }

  lemma CreatedKeeps(h: Hashes, bk: Book, addr: Address, source: NetAddr, penalty: int)
    requires Inv(h, bk) && addr.service.ip !in bk.addrs
    ensures Inside(h, Created(bk, addr, source, penalty), {}, {bk.idCount})
  {
    hide AddrsOk, RandomOk, TriedOk, NewOk, RefsOk, CountsOk;
    var id := bk.idCount;
    CreateKeeps(h, bk, addr, source);
    var bk1 := Create(bk, addr, source);
    var info := bk1.infos[id].(time := Max(0, bk1.infos[id].time - penalty));
    WithInfoKeeps(h, bk1, id, info, {id}, {id});
    CountAsNew(WithInfo(bk1, id, info), id, {id});
    CountingKeeps(h, WithInfo(bk1, id, info), {id});
    assert {id} - {id} == {};
  }

  /** Add_ for an address it knows. */
  function AddKnown(h: Hashes, bk: Book, n: int, addr: Address, source: NetAddr, penalty: int, now: int,
    draw: nat): Book
    requires Inv(h, bk) && n in bk.infos
  {
    RefreshedKeeps(h, bk, n, addr, penalty, now);
    var info := Refreshed(bk.infos[n], addr, penalty, now);
    if Declines(info, addr, draw) then WithInfo(bk, n, info) else Place(h, WithInfo(bk, n, info), n, source, now)
  }

  /** Add_ for an address it does not know. */
  function AddUnknown(h: Hashes, bk: Book, addr: Address, source: NetAddr, penalty: int, now: int): Book
    requires Inv(h, bk) && addr.service.ip !in bk.addrs
  {
    CreatedKeeps(h, bk, addr, source, penalty);
    Place(h, Created(bk, addr, source, penalty), bk.idCount, source, now)
  }

  /** Add_. `draw` stands for the random number, `routable` for the test of the address. */
  function Add(h: Hashes, bk: Book, addr: Address, routable: bool, source: NetAddr, timePenalty: int, now: int,
    draw: nat): (Book, bool)
    requires Inv(h, bk)
  {
    var penalty := if addr.service.ip == source then 0 else timePenalty;
    if !routable then (bk, false)
    else if addr.service.ip in bk.addrs then
      assert Names(bk, addr.service.ip, bk.addrs[addr.service.ip]);
      (AddKnown(h, bk, bk.addrs[addr.service.ip], addr, source, penalty, now, draw), false)
    else (AddUnknown(h, bk, addr, source, penalty, now), true)
  }

  lemma RefreshedKeeps(h: Hashes, bk: Book, n: int, addr: Address, penalty: int, now: int)
    requires Inv(h, bk) && n in bk.infos
    ensures var info := Refreshed(bk.infos[n], addr, penalty, now);
      && 0 <= info.refCount <= NEW_BUCKETS_PER_ADDRESS
      && Inv(h, WithInfo(bk, n, info)) && Inside(h, WithInfo(bk, n, info), {}, {n})
  {
    var info := Refreshed(bk.infos[n], addr, penalty, now);
    assert RefOk(bk, {}, n);
    hide AddrsOk, RandomOk, TriedOk, NewOk, RefsOk, CountsOk;
    WithInfoKeeps(h, bk, n, info, {}, {});
    LooseGrows(WithInfo(bk, n, info), {}, {n});
  }

  lemma AddKnownKeeps(h: Hashes, bk: Book, n: int, addr: Address, source: NetAddr, penalty: int, now: int, draw: nat)
    requires Inv(h, bk) && n in bk.infos
    ensures Inv(h, AddKnown(h, bk, n, addr, source, penalty, now, draw))
  {
    hide AddrsOk, RandomOk, TriedOk, NewOk, RefsOk, CountsOk, Place, Refreshed;
    RefreshedKeeps(h, bk, n, addr, penalty, now);
    var info := Refreshed(bk.infos[n], addr, penalty, now);
    if !Declines(info, addr, draw) {
      PlaceKeeps(h, WithInfo(bk, n, info), n, source, now);
    }
  }

  lemma AddUnknownKeeps(h: Hashes, bk: Book, addr: Address, source: NetAddr, penalty: int, now: int)
    requires Inv(h, bk) && addr.service.ip !in bk.addrs
    ensures Inv(h, AddUnknown(h, bk, addr, source, penalty, now))
  {
    hide AddrsOk, RandomOk, TriedOk, NewOk, RefsOk, CountsOk, Place;
    CreatedKeeps(h, bk, addr, source, penalty);
    PlaceKeeps(h, Created(bk, addr, source, penalty), bk.idCount, source, now);
  }

  lemma AddKeeps(h: Hashes, bk: Book, addr: Address, routable: bool, source: NetAddr, timePenalty: int, now: int,
    draw: nat)
    requires Inv(h, bk)
    ensures Inv(h, Add(h, bk, addr, routable, source, timePenalty, now, draw).0)
  {
    hide RandomOk, TriedOk, NewOk, RefsOk, CountsOk, AddKnown, AddUnknown;
    var penalty := if addr.service.ip == source then 0 else timePenalty;
    if routable {
      if addr.service.ip in bk.addrs {
        assert Names(bk, addr.service.ip, bk.addrs[addr.service.ip]);
        AddKnownKeeps(h, bk, bk.addrs[addr.service.ip], addr, source, penalty, now, draw);
      } else {
        AddUnknownKeeps(h, bk, addr, source, penalty, now);
      }
    }
  }

  /** Room for a new address: its slot is free, or the occupant is terrible or sits elsewhere too. */
  predicate HasRoom(h: Hashes, bk: Book, service: Service, source: NetAddr, now: int)
  {
    var s := h.NewSlot(service, source);
    s in bk.newSlots && bk.newSlots[s] in bk.infos ==>
      IsTerrible(bk.infos[bk.newSlots[s]], now) || bk.infos[bk.newSlots[s]].refCount > 1
  }

  /** An unknown address that is added is known afterwards if and only if there is room for it.
      Otherwise it is forgotten at once, although Add_ reports it as new, and nothing is left of it but
      a used-up id. */
  lemma AddedIsKept(h: Hashes, bk: Book, addr: Address, source: NetAddr, penalty: int, now: int)
    requires Inv(h, bk) && addr.service.ip !in bk.addrs
    ensures var bk' := AddUnknown(h, bk, addr, source, penalty, now);
      && (addr.service.ip in bk'.addrs <==> HasRoom(h, bk, addr.service, source, now))
      && (!HasRoom(h, bk, addr.service, source, now) ==> bk' == bk.(idCount := bk.idCount + 1))
      && (HasRoom(h, bk, addr.service, source, now) ==>
            var s := h.NewSlot(addr.service, source);
            && s in bk'.newSlots && bk'.newSlots[s] == bk.idCount && bk'.addrs[addr.service.ip] == bk.idCount
            && bk.idCount in bk'.infos && bk'.infos[bk.idCount].service == addr.service)
  {
    hide RandomOk, NewOk, TriedOk, RefsOk, CountsOk, TakeSlot, Delete;
    var id, s := bk.idCount, h.NewSlot(addr.service, source);
    CreatedKeeps(h, bk, addr, source, penalty);
    AddUnknownKeeps(h, bk, addr, source, penalty, now);
    var bk1 := Created(bk, addr, source, penalty);
    if s in bk.newSlots {
      OccupantKnown(h, bk, s);
    }
    if HasRoom(h, bk, addr.service, source, now) {
      TakenIsNamed(h, bk1, s, id);
    } else {
      ForgottenAtOnce(bk, addr, source, penalty);
    }
  }

  lemma TakenIsNamed(h: Hashes, bk: Book, s: Slot, n: int)
    requires AddrsOk(bk) && RandomOk(bk) && NewOk(h, bk) && n in bk.infos
    requires s in bk.newSlots ==> bk.newSlots[s] != n
    requires AddrsOk(TakeSlot(h, bk, s, n))
    ensures var bk' := TakeSlot(h, bk, s, n);
      && s in bk'.newSlots && bk'.newSlots[s] == n
      && n in bk'.infos && bk'.infos[n].service == bk.infos[n].service
      && bk.infos[n].service.ip in bk'.addrs && bk'.addrs[bk.infos[n].service.ip] == n
  {
    ClearNewSpares(h, bk, s, n);
    var bk' := TakeSlot(h, bk, s, n);
    assert Named(bk', n);
  }

  lemma ForgottenAtOnce(bk: Book, addr: Address, source: NetAddr, penalty: int)
    requires bk.idCount !in bk.infos && addr.service.ip !in bk.addrs
    requires RandomOk(Created(bk, addr, source, penalty))
    ensures Delete(Created(bk, addr, source, penalty), bk.idCount) == bk.(idCount := bk.idCount + 1)
  {
    var bk1 := Created(bk, addr, source, penalty);
    var bk' := Delete(bk1, bk.idCount);
    assert bk'.infos == bk.infos && bk'.addrs == bk.addrs && bk'.random == bk.random;
  }

  /** What Add_ reports and what it may cost: a new address is reported exactly when it was
      unknown; tried entries stay as they are, and at most one other entry is lost. */
  lemma AddEffect(h: Hashes, bk: Book, addr: Address, routable: bool, source: NetAddr, timePenalty: int, now: int,
    draw: nat)
    requires Inv(h, bk)
    ensures var (bk', isNew) := Add(h, bk, addr, routable, source, timePenalty, now, draw);
      && (isNew <==> routable && addr.service.ip !in bk.addrs)
      && bk'.triedSlots == bk.triedSlots && bk'.nTried == bk.nTried
      && exists lost: int :: bk.infos.Keys - {lost} <= bk'.infos.Keys
  {
    hide RandomOk, TriedOk, NewOk, CountsOk, Place;
    var penalty := if addr.service.ip == source then 0 else timePenalty;
    if routable {
      if addr.service.ip in bk.addrs {
        var n := bk.addrs[addr.service.ip];
        assert Names(bk, addr.service.ip, n) && RefOk(bk, {}, n);
        var info := Refreshed(bk.infos[n], addr, penalty, now);
        WithInfoKeeps(h, bk, n, info, {}, {});
        PlaceLoses(h, WithInfo(bk, n, info), n, source, now);
        assert WithInfo(bk, n, info).infos.Keys == bk.infos.Keys;
        assert bk.infos.Keys - {n} <= WithInfo(bk, n, info).infos.Keys;
      } else {
        CreatedKeeps(h, bk, addr, source, penalty);
        PlaceLoses(h, Created(bk, addr, source, penalty), bk.idCount, source, now);
      }
    } else {
      assert bk.infos.Keys - {0} <= bk.infos.Keys;
    }
  }

  lemma PlaceLoses(h: Hashes, bk: Book, n: int, source: NetAddr, now: int)
    requires RandomOk(bk) && NewOk(h, bk) && n in bk.infos
    ensures var bk' := Place(h, bk, n, source, now);
      && bk'.triedSlots == bk.triedSlots && bk'.nTried == bk.nTried
      && exists lost: int :: bk.infos.Keys - {lost} <= bk'.infos.Keys
  {
    var bk' := Place(h, bk, n, source, now);
    var s := h.NewSlot(bk.infos[n].service, source);
    ClearNewTouchesOne(h, bk, s);
    DeleteTouchesOne(bk, n);
    var clears := s in bk.newSlots && (bk.newSlots[s] == n || Replaceable(bk.infos[bk.newSlots[s]], bk.infos[n], now));
    var lost := if clears then bk.newSlots[s] else n;
    forall m | m in bk.infos && m != lost ensures m in bk'.infos {
      if s !in bk.newSlots || m != bk.newSlots[s] {
        assert Untouched(bk, ClearNew(bk, s), m);
      }
    }
    assert bk.infos.Keys - {lost} <= bk'.infos.Keys;
  }

  /** The entry for exactly this address and port, if there is one. */
  function Exact(bk: Book, service: Service): (r: int)
    requires AddrsOk(bk)
    ensures r != -1 <==> exists n :: n in bk.infos && bk.infos[n].service == service
    ensures r != -1 ==> r in bk.infos && bk.infos[r].service == service
  {
    if service.ip in bk.addrs then
      var n := bk.addrs[service.ip];
      assert Names(bk, service.ip, n);
      assert forall m | m in bk.infos && bk.infos[m].service == service :: m == n by {
        forall m | m in bk.infos && bk.infos[m].service == service ensures m == n {
          assert Named(bk, m);
        }
      }
      if bk.infos[n].service == service then n else -1
    else
      assert forall m | m in bk.infos :: Named(bk, m);
      -1
  }

  function Good(h: Hashes, bk: Book, service: Service, time: int): Book
    requires Inv(h, bk)
  {
    var bk0 := bk.(lastGood := time);
    LastGoodKeeps(h, bk, time);
    var n := Exact(bk0, service);
    if n == -1 then bk0 else
      var info := bk.infos[n].(lastSuccess := time, lastTry := time, attempts := 0);
      WithInfoKeeps(h, bk0, n, info, {}, {});
      if info.inTried then WithInfo(bk0, n, info) else MakeTried(h, WithInfo(bk0, n, info), n)
  }

  lemma LastGoodKeeps(h: Hashes, bk: Book, time: int)
    requires Inv(h, bk)
    ensures Inv(h, bk.(lastGood := time))
  {
    var bk' := bk.(lastGood := time);
    hide TriedOk, NewOk, RefsOk, CountsOk;
    NamesKeep(bk, bk');
    ShapeKeeps(h, bk, bk', {}, {});
  }

  /** Good_ keeps the invariant, and an address it finds ends up in the tried table. */
  lemma GoodKeeps(h: Hashes, bk: Book, service: Service, time: int)
    requires Inv(h, bk)
    ensures Inv(h, Good(h, bk, service, time))
    ensures var n := Exact(bk, service); n != -1 ==>
      n in Good(h, bk, service, time).infos && Good(h, bk, service, time).infos[n].inTried
  {
    var bk0 := bk.(lastGood := time);
    LastGoodKeeps(h, bk, time);
    var n := Exact(bk0, service);
    if n != -1 {
      var info := bk.infos[n].(lastSuccess := time, lastTry := time, attempts := 0);
      WithInfoKeeps(h, bk0, n, info, {}, {});
      if !info.inTried {
        MakeTriedKeeps(h, WithInfo(bk0, n, info), n);
      }
    }
  }

  function Attempt(bk: Book, service: Service, countFailure: bool, time: int): Book
    requires AddrsOk(bk)
  {
    var n := Exact(bk, service);
    if n == -1 then bk else
      var info := bk.infos[n].(lastTry := time);
      WithInfo(bk, n, if countFailure && info.lastCountAttempt < bk.lastGood
                      then info.(lastCountAttempt := time, attempts := info.attempts + 1) else info)
  }

  function Connected(bk: Book, service: Service, time: int): Book
    requires AddrsOk(bk)
  {
    var n := Exact(bk, service);
    if n != -1 && time - bk.infos[n].time > 20 * 60 then WithInfo(bk, n, bk.infos[n].(time := time)) else bk
  }

  function SetServices(bk: Book, service: Service, services: Services): Book
    requires AddrsOk(bk)
  {
    var n := Exact(bk, service);
    if n != -1 then WithInfo(bk, n, bk.infos[n].(services := services)) else bk
  }

  lemma AttemptKeeps(h: Hashes, bk: Book, service: Service, countFailure: bool, time: int)
    requires Inv(h, bk)
    ensures Inv(h, Attempt(bk, service, countFailure, time))
  {
    hide AddrsOk, RandomOk, TriedOk, NewOk, RefsOk, CountsOk;
    var n := Exact(bk, service);
    if n != -1 {
      NoteKeeps(h, bk, n, Attempt(bk, service, countFailure, time));
    }
  }

  lemma ConnectedKeeps(h: Hashes, bk: Book, service: Service, time: int)
    requires Inv(h, bk)
    ensures Inv(h, Connected(bk, service, time))
  {
    hide AddrsOk, RandomOk, TriedOk, NewOk, RefsOk, CountsOk;
    var n := Exact(bk, service);
    if n != -1 && time - bk.infos[n].time > 20 * 60 {
      NoteKeeps(h, bk, n, Connected(bk, service, time));
    }
  }

  lemma SetServicesKeeps(h: Hashes, bk: Book, service: Service, services: Services)
    requires Inv(h, bk)
    ensures Inv(h, SetServices(bk, service, services))
  {
    hide AddrsOk, RandomOk, TriedOk, NewOk, RefsOk, CountsOk;
    var n := Exact(bk, service);
    if n != -1 {
      NoteKeeps(h, bk, n, SetServices(bk, service, services));
    }
  }

  lemma NoteKeeps(h: Hashes, bk: Book, n: int, bk': Book)
    requires Inv(h, bk) && n in bk.infos && n in bk'.infos && bk' == WithInfo(bk, n, bk'.infos[n])
    requires bk'.infos[n].service == bk.infos[n].service && bk'.infos[n].refCount == bk.infos[n].refCount
    requires bk'.infos[n].inTried == bk.infos[n].inTried && bk'.infos[n].randomPos == bk.infos[n].randomPos
    ensures Inv(h, bk')
  {
    hide AddrsOk, RandomOk, TriedOk, NewOk, RefsOk, CountsOk;
    WithInfoKeeps(h, bk, n, bk'.infos[n], {}, {});
  }
  // ---- Listing addresses ----

  /** Same entries, possibly at other places of the random vector. */
  ghost predicate Reshuffled(bk: Book, bk': Book)
  {
    && bk' == bk.(infos := bk'.infos, random := bk'.random)
    && (forall n :: n in bk'.infos <==> n in bk.infos)
    && (forall n | n in bk.infos :: Untouched(bk, bk', n))
  }

  lemma SwapReshuffles(bk0: Book, bk: Book, i: int, j: int)
    requires RandomOk(bk) && Reshuffled(bk0, bk) && 0 <= i < |bk.random| && 0 <= j < |bk.random|
    ensures bk.random[i] in bk.infos && bk.random[j] in bk.infos
    ensures Reshuffled(bk0, SwapRandom(bk, i, j))
  {
    assert KnowsPlace(bk, bk.random[i], i) && KnowsPlace(bk, bk.random[j], j);
    var bk' := SwapRandom(bk, i, j);
    forall n | n in bk0.infos ensures Untouched(bk0, bk', n) {
      assert Untouched(bk0, bk, n);
    }
  }

  function ToAddress(info: AddrInfo): Address
  {
    Address(info.service, info.time, info.services)
  }

  /** The addresses of the entries of `ids` that are not terrible, in order. */
  function Listing(infos: map<int, AddrInfo>, ids: seq<int>, now: int): seq<Address>
    requires forall i | 0 <= i < |ids| :: ids[i] in infos
  {
    if ids == [] then []
    else
      var last := ids[|ids| - 1];
      var rest := Listing(infos, ids[..|ids| - 1], now);
      if IsTerrible(infos[last], now) then rest else rest + [ToAddress(infos[last])]
  }

  /** Every entry among `ids` that is not terrible is listed, and nothing else is. */
  lemma {:induction false} ListingExact(infos: map<int, AddrInfo>, ids: seq<int>, now: int, a: Address)
    requires forall i | 0 <= i < |ids| :: ids[i] in infos
    ensures a in Listing(infos, ids, now) <==>
            exists i :: 0 <= i < |ids| && !IsTerrible(infos[ids[i]], now) && ToAddress(infos[ids[i]]) == a
  {
    if ids != [] {
      var n := |ids| - 1;
      ListingExact(infos, ids[..n], now, a);
      var last := ids[n];
      if a in Listing(infos, ids, now) {
        if a in Listing(infos, ids[..n], now) {
          var i :| 0 <= i < n && !IsTerrible(infos[ids[..n][i]], now) && ToAddress(infos[ids[..n][i]]) == a;
          assert ids[i] == ids[..n][i];
        } else {
          assert !IsTerrible(infos[ids[n]], now) && ToAddress(infos[ids[n]]) == a;
        }
      }
      if i :| 0 <= i < |ids| && !IsTerrible(infos[ids[i]], now) && ToAddress(infos[ids[i]]) == a {
        if i < n {
          assert ids[..n][i] == ids[i];
        }
      }
    }
  }

  /** When the whole random vector has been looked at, every entry of the book that is not
      terrible is listed. */
  lemma ListingComplete(bk: Book, now: int, n: int)
    requires RandomOk(bk) && n in bk.infos && !IsTerrible(bk.infos[n], now)
    ensures forall i | 0 <= i < |bk.random| :: bk.random[i] in bk.infos
    ensures ToAddress(bk.infos[n]) in Listing(bk.infos, bk.random, now)
  {
    forall i | 0 <= i < |bk.random| ensures bk.random[i] in bk.infos {
      assert KnowsPlace(bk, bk.random[i], i);
    }
    assert ListedAt(bk, n, bk.infos[n].randomPos);
    ListingExact(bk.infos, bk.random, now, ToAddress(bk.infos[n]));
  }

  // ---- Times ----

  /** No new id, no time changed, and only entries of `promoted` may have become tried. */
  ghost predicate TimesFrom(bk: Book, bk': Book, promoted: set<int>)
  {
    forall m | m in bk'.infos :: m in bk.infos && SameTimes(bk.infos[m], bk'.infos[m], m in promoted)
  }

  ghost predicate SameTimes(info: AddrInfo, info': AddrInfo, mayBeTried: bool)
  {
    info'.lastTry == info.lastTry && info'.lastSuccess == info.lastSuccess
      && (info'.inTried ==> info.inTried || mayBeTried)
  }

  lemma ClearNewTimes(h: Hashes, bk: Book, s: Slot)
    requires RandomOk(bk) && NewOk(h, bk)
    ensures s in bk.newSlots ==> bk.newSlots[s] in bk.infos
    ensures TimesFrom(bk, ClearNew(bk, s), {})
  {
    if s in bk.newSlots {
      var n := bk.newSlots[s];
      assert NewHolds(h, bk, s, n);
      var bk1 := Detach(bk, s, n);
      NamesKeepRandom(bk, bk1);
      if bk1.infos[n].refCount == 0 {
        DeleteTimes(bk1, n);
      }
    }
  }

  lemma DeleteTimes(bk: Book, n: int)
    requires RandomOk(bk) && n in bk.infos
    ensures TimesFrom(bk, Delete(bk, n), {})
  {
    DeleteTouchesOne(bk, n);
    var bk' := Delete(bk, n);
    forall m | m in bk'.infos ensures m in bk.infos && SameTimes(bk.infos[m], bk'.infos[m], m in {}) {
      assert Untouched(bk, bk', m);
    }
  }

  lemma PlaceTimes(h: Hashes, bk: Book, n: int, source: NetAddr, now: int)
    requires RandomOk(bk) && NewOk(h, bk) && n in bk.infos
    ensures TimesFrom(bk, Place(h, bk, n, source, now), {})
  {
    ClearNewTimes(h, bk, h.NewSlot(bk.infos[n].service, source));
    ClearNewTouchesOne(h, bk, h.NewSlot(bk.infos[n].service, source));
    DeleteTimes(bk, n);
  }

  lemma TimesCarry(bk: Book, bk': Book, promoted: set<int>)
    requires TimesOk(bk) && TimesFrom(bk, bk', promoted)
    requires forall n | n in promoted && n in bk.infos :: bk.infos[n].lastSuccess != 0
    ensures TimesOk(bk')
  {
    forall m | m in bk'.infos ensures m in bk.infos && SameTimes(bk.infos[m], bk'.infos[m], m in promoted) {}
  }

  lemma AddTimes(h: Hashes, bk: Book, addr: Address, routable: bool, source: NetAddr, timePenalty: int, now: int,
    draw: nat)
    requires Inv(h, bk) && TimesOk(bk)
    ensures TimesOk(Add(h, bk, addr, routable, source, timePenalty, now, draw).0)
  {
    hide TriedOk, CountsOk, RandomOk, NewOk;
    var penalty := if addr.service.ip == source then 0 else timePenalty;
    if routable {
      if addr.service.ip in bk.addrs {
        var n := bk.addrs[addr.service.ip];
        assert Names(bk, addr.service.ip, n) && RefOk(bk, {}, n);
        var info := Refreshed(bk.infos[n], addr, penalty, now);
        WithInfoKeeps(h, bk, n, info, {}, {});
        PlaceTimesOk(h, WithInfo(bk, n, info), n, source, now);
      } else {
        CreatedKeeps(h, bk, addr, source, penalty);
        PlaceTimesOk(h, Created(bk, addr, source, penalty), bk.idCount, source, now);
      }
    }
  }

  lemma PlaceTimesOk(h: Hashes, bk: Book, n: int, source: NetAddr, now: int)
    requires RandomOk(bk) && NewOk(h, bk) && n in bk.infos && TimesOk(bk)
    ensures TimesOk(Place(h, bk, n, source, now))
  {
    hide RandomOk, NewOk;
    PlaceTimes(h, bk, n, source, now);
    TimesCarry(bk, Place(h, bk, n, source, now), {});
  }

  lemma MakeTriedTimes(h: Hashes, bk: Book, n: int)
    requires Inv(h, bk) && n in bk.infos && !bk.infos[n].inTried
    ensures TimesFrom(bk, MakeTried(h, bk, n), {n})
  {
    hide AddrsOk, RefsOk, CountsOk;
    DetachAllKeeps(h, bk, n);
    var bk1 := DetachAll(bk, n);
    var k := h.TriedSlot(bk.infos[n].service);
    FreeTriedKeeps(h, bk1, k, n);
    if k in bk1.triedSlots {
      EvictTimes(h, bk1, k);
    }
  }

  lemma EvictTimes(h: Hashes, bk: Book, k: Slot)
    requires RandomOk(bk) && TriedOk(h, bk) && NewOk(h, bk) && k in bk.triedSlots
    ensures TimesFrom(bk, Evict(h, bk, k), {})
  {
    var e := bk.triedSlots[k];
    assert TriedHolds(h, bk, k, e);
    var bk1 := Untry(bk, k, e);
    NamesKeepRandom(bk, bk1);
    EvictSlot(h, bk, k);
    var u := h.NewSlot(bk.infos[e].service, bk.infos[e].source);
    ClearNewTimes(h, bk1, u);
    ClearNewTouchesOne(h, bk1, u);
  }

  /** Good_ keeps the times sane exactly when it finds nothing or is told a positive time. */
  lemma GoodTimes(h: Hashes, bk: Book, service: Service, time: int)
    requires Inv(h, bk) && TimesOk(bk)
    ensures TimesOk(Good(h, bk, service, time)) <==> Exact(bk, service) == -1 || time > 0
  {
    hide RandomOk, TriedOk, NewOk, RefsOk, CountsOk;
    var bk0 := bk.(lastGood := time);
    LastGoodKeeps(h, bk, time);
    var n := Exact(bk0, service);
    if n != -1 {
      var info := bk.infos[n].(lastSuccess := time, lastTry := time, attempts := 0);
      WithInfoKeeps(h, bk0, n, info, {}, {});
      var bk1 := WithInfo(bk0, n, info);
      if !info.inTried {
        MakeTriedKeeps(h, bk1, n);
        MakeTriedTimes(h, bk1, n);
        if time > 0 {
          TimesCarry(bk1, MakeTried(h, bk1, n), {n});
        }
      }
    }
  }

  /** Attempt_ keeps the times sane exactly when it finds nothing or is told no negative time. */
  lemma AttemptTimes(h: Hashes, bk: Book, service: Service, countFailure: bool, time: int)
    requires AddrsOk(bk) && TimesOk(bk)
    ensures TimesOk(Attempt(bk, service, countFailure, time)) <==> Exact(bk, service) == -1 || time >= 0
  {
    hide AddrsOk;
    var n := Exact(bk, service);
    if n != -1 {
      assert Attempt(bk, service, countFailure, time).infos[n].lastTry == time;
    }
  }
  // ---- Runs ----

  datatype Op =
    | OpAdd(addr: Address, routable: bool, source: NetAddr, timePenalty: int, now: int, draw: nat)
    | OpGood(service: Service, time: int)
    | OpAttempt(service: Service, countFailure: bool, time: int)
    | OpConnected(service: Service, time: int)
    | OpSetServices(service: Service, services: Services)
    | OpSwap(i: int, j: int)  // one step of the shuffle in GetAddr_

  function Apply(h: Hashes, bk: Book, op: Op): Book
    requires Inv(h, bk)
  {
    match op
    case OpAdd(addr, routable, source, timePenalty, now, draw) =>
      Add(h, bk, addr, routable, source, timePenalty, now, draw).0
    case OpGood(service, time) => Good(h, bk, service, time)
    case OpAttempt(service, countFailure, time) => Attempt(bk, service, countFailure, time)
    case OpConnected(service, time) => Connected(bk, service, time)
    case OpSetServices(service, services) => SetServices(bk, service, services)
    case OpSwap(i, j) =>
      if 0 <= i < |bk.random| && 0 <= j < |bk.random| then
        assert KnowsPlace(bk, bk.random[i], i) && KnowsPlace(bk, bk.random[j], j);
        SwapRandom(bk, i, j)
      else bk
  }

  /** Times come from a clock that is past its epoch. */
  predicate SaneTime(op: Op)
  {
    (op.OpGood? ==> op.time > 0) && (op.OpAttempt? ==> op.time >= 0)
  }

  lemma ApplyKeeps(h: Hashes, bk: Book, op: Op)
    requires Inv(h, bk)
    ensures Inv(h, Apply(h, bk, op))
  {
    hide AddrsOk, RandomOk, TriedOk, NewOk, RefsOk, CountsOk, Add, Good, Attempt, Connected, SetServices;
    match op
    case OpAdd(addr, routable, source, timePenalty, now, draw) =>
      AddKeeps(h, bk, addr, routable, source, timePenalty, now, draw);
    case OpGood(service, time) => GoodKeeps(h, bk, service, time);
    case OpAttempt(service, countFailure, time) => AttemptKeeps(h, bk, service, countFailure, time);
    case OpConnected(service, time) => ConnectedKeeps(h, bk, service, time);
    case OpSetServices(service, services) => SetServicesKeeps(h, bk, service, services);
    case OpSwap(i, j) =>
      if 0 <= i < |bk.random| && 0 <= j < |bk.random| {
        SwapRandomKeeps(h, bk, i, j, {}, {});
      }
  }

  lemma ApplyTimes(h: Hashes, bk: Book, op: Op)
    requires Inv(h, bk) && TimesOk(bk) && SaneTime(op)
    ensures TimesOk(Apply(h, bk, op))
  {
    hide RandomOk, TriedOk, NewOk, RefsOk, CountsOk, Add, Good, Attempt;
    match op
    case OpAdd(addr, routable, source, timePenalty, now, draw) =>
      AddTimes(h, bk, addr, routable, source, timePenalty, now, draw);
    case OpGood(service, time) => GoodTimes(h, bk, service, time);
    case OpAttempt(service, countFailure, time) => AttemptTimes(h, bk, service, countFailure, time);
    case OpConnected(service, time) =>
    case OpSetServices(service, services) =>
    case OpSwap(i, j) =>
      if 0 <= i < |bk.random| && 0 <= j < |bk.random| {
        SwapTimes(bk, i, j);
      }
  }

  lemma SwapTimes(bk: Book, i: int, j: int)
    requires RandomOk(bk) && TimesOk(bk) && 0 <= i < |bk.random| && 0 <= j < |bk.random|
    ensures bk.random[i] in bk.infos && bk.random[j] in bk.infos && TimesOk(SwapRandom(bk, i, j))
  {
    SwapReshuffles(bk, bk, i, j);
    forall n | n in bk.infos ensures Untouched(bk, SwapRandom(bk, i, j), n) {}
  }

  /** `states` is a run of `ops`: each state is the previous one after the next operation. */
  ghost predicate IsRun(h: Hashes, states: seq<Book>, ops: seq<Op>)
  {
    && |states| == |ops| + 1
    && forall i | 0 <= i < |ops| :: Inv(h, states[i]) ==> states[i + 1] == Apply(h, states[i], ops[i])
  }

  const EMPTY := Book(0, map[], map[], [], 0, map[], 0, map[], 1)

  lemma EmptyInv(h: Hashes)
    ensures Inv(h, EMPTY) && TimesOk(EMPTY)
  {
    assert TriedIds(EMPTY) == {} && NewIds(EMPTY) - {} == {};
  }

  /** A table that passes the check and fails it afterwards: the only address known is reported good at
      time zero. */
  lemma GoodTimesExample(h: Hashes, addr: Address, source: NetAddr)
    ensures Inv(h, EMPTY)
    ensures var bk := Add(h, EMPTY, addr, true, source, 0, 0, 0).0;
      Inv(h, bk) && TimesOk(bk) && !TimesOk(Good(h, bk, addr.service, 0))
  {
    hide RandomOk, TriedOk, NewOk, RefsOk, CountsOk, TimesOk, AddUnknown, Good, HasRoom;
    EmptyInv(h);
    RoomAtFirst(h, addr, source);
    AddedIsKept(h, EMPTY, addr, source, 0, 0);
    var bk := Add(h, EMPTY, addr, true, source, 0, 0, 0).0;
    AddKeeps(h, EMPTY, addr, true, source, 0, 0, 0);
    AddTimes(h, EMPTY, addr, true, source, 0, 0, 0);
    assert bk.infos[EMPTY.idCount].service == addr.service;
    GoodTimes(h, bk, addr.service, 0);
  }

  lemma RoomAtFirst(h: Hashes, addr: Address, source: NetAddr)
    ensures HasRoom(h, EMPTY, addr.service, source, 0)
  {
  }

  /** Every state of every run from the empty book passes all the tests of Check_. */
  lemma {:induction false} RunsAreConsistent(h: Hashes, states: seq<Book>, ops: seq<Op>, k: nat)
    requires IsRun(h, states, ops) && states[0] == EMPTY && k < |states|
    ensures Inv(h, states[k]) && |states[k].random| == states[k].nTried + states[k].nNew
    ensures (forall i | 0 <= i < k :: SaneTime(ops[i])) ==> TimesOk(states[k])
  {
    hide AddrsOk, RandomOk, TriedOk, NewOk, RefsOk, CountsOk, TimesOk, Apply;
    EmptyInv(h);
    if k > 0 {
      RunsAreConsistent(h, states, ops, k - 1);
      ApplyKeeps(h, states[k - 1], ops[k - 1]);
      if forall i | 0 <= i < k :: SaneTime(ops[i]) {
        ApplyTimes(h, states[k - 1], ops[k - 1]);
      }
    }
    RandomLength(h, states[k]);
  }
}
