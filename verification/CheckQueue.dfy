/**
 CCheckQueue: one master hands out checks to itself and any number of workers.  The protocol is a
 state machine whose steps are the sections the code runs under its mutex, plus the running of
 checks outside it; a thread that waits on a condition variable may wake up at any time, and is
 marked once it has been notified.
 */
module CheckQueue {

  /** Checks are opaque; `verdict` says what running one returns. */
  type Check = nat
  type Verdict = Check -> bool

  /** Where a thread is.  `Locked` is inside the critical section of Loop. */
  datatype Pc =
    | Outside
    | Entering
    | Locked
    | Waiting(notified: bool)
    | Working(checks: seq<Check>, ok: bool)
    | Worked(checks: seq<Check>, ok: bool)
  {
    function Hand(): seq<Check>
    {
      if Working? || Worked? then checks else []
    }

    predicate Counted() { !Outside? && !Entering? }
  }

  /** Thread 0 is the master.  `added` and `retired` record this round's checks. */
  datatype State = State(
    batchSize: nat, queue: seq<Check>, nIdle: int, nTotal: int, allOk: bool, nTodo: int,
    threads: seq<Pc>, added: seq<Check>, retired: seq<Check>)

  // ---- Sums over threads ----

  ghost function Hands(ts: seq<Pc>): multiset<Check>
  {
    if ts == [] then multiset{} else Hands(ts[..|ts| - 1]) + multiset(ts[|ts| - 1].Hand())
  }

  function Count(ts: seq<Pc>, p: Pc -> bool): nat
  {
    if ts == [] then 0 else Count(ts[..|ts| - 1], p) + (if p(ts[|ts| - 1]) then 1 else 0)
  }

  function InLoop(p: Pc): bool { p.Counted() }
  function Idle(p: Pc): bool { p.Waiting? }

  lemma {:induction false} HandsUpdate(ts: seq<Pc>, i: nat, p: Pc)
    requires i < |ts|
    ensures Hands(ts[i := p]) + multiset(ts[i].Hand()) == Hands(ts) + multiset(p.Hand())
  {
    var n := |ts| - 1;
    var us := ts[i := p];
    var h, h' := Hands(ts[..n]), Hands(us[..n]);
    if i == n {
      assert us[..n] == ts[..n];
      Swap(h, multiset(ts[i].Hand()), multiset(p.Hand()));
    } else {
      assert us[..n] == ts[..n][i := p];
      HandsUpdate(ts[..n], i, p);
      SwapUnder(h, h', multiset(ts[i].Hand()), multiset(p.Hand()), multiset(ts[n].Hand()));
    }
  }

  lemma HandsReleased(ts: seq<Pc>, i: nat, p: Pc)
    requires i < |ts| && p.Hand() == []
    ensures Hands(ts) == Hands(ts[i := p]) + multiset(ts[i].Hand())
  {
    hide Hands;
    HandsUpdate(ts, i, p);
    assert multiset(p.Hand()) == multiset{};
  }

  lemma HandsTaken(ts: seq<Pc>, i: nat, p: Pc)
    requires i < |ts| && ts[i].Hand() == []
    ensures Hands(ts[i := p]) == Hands(ts) + multiset(p.Hand())
  {
    hide Hands;
    HandsUpdate(ts, i, p);
    assert multiset(ts[i].Hand()) == multiset{};
  }

  lemma Swap(h: multiset<Check>, a: multiset<Check>, b: multiset<Check>)
    ensures (h + b) + a == (h + a) + b
  {
  }

  lemma SwapUnder(h: multiset<Check>, h': multiset<Check>, a: multiset<Check>, b: multiset<Check>, c: multiset<Check>)
    requires h' + a == h + b
    ensures (h' + c) + a == (h + c) + b
  {
    Swap(h', c, a);
    Swap(h, c, b);
  }

  lemma {:induction false} CountUpdate(ts: seq<Pc>, q: Pc -> bool, i: nat, p: Pc)
    requires i < |ts|
    ensures Count(ts[i := p], q) + (if q(ts[i]) then 1 else 0) == Count(ts, q) + (if q(p) then 1 else 0)
  {
    var n := |ts| - 1;
    if i == n {
      assert ts[i := p][..n] == ts[..n];
    } else {
      assert ts[i := p][..n] == ts[..n][i := p];
      CountUpdate(ts[..n], q, i, p);
    }
  }

  lemma {:induction false} HandsPart(ts: seq<Pc>, i: nat)
    requires i < |ts|
    ensures multiset(ts[i].Hand()) <= Hands(ts)
  {
    if i < |ts| - 1 {
      HandsPart(ts[..|ts| - 1], i);
    }
  }

  lemma {:induction false} SomeHand(ts: seq<Pc>)
    requires |Hands(ts)| > 0
    ensures exists i :: 0 <= i < |ts| && ts[i].Hand() != []
  {
    var n := |ts| - 1;
    if ts[n].Hand() == [] {
      SomeHand(ts[..n]);
      var i :| 0 <= i < n && ts[..n][i].Hand() != [];
      assert ts[i].Hand() != [];
    }
  }

  // ---- Steps ----

  function NotifyWorkers(ts: seq<Pc>): seq<Pc>
  {
    seq(|ts|, i requires 0 <= i < |ts| => if i > 0 && ts[i].Waiting? then Waiting(true) else ts[i])
  }

  /** notify_one picks any waiting worker; with none waiting it does nothing. */
  predicate NotifiesOne(ts: seq<Pc>, ts': seq<Pc>)
  {
    || (ts' == ts && forall i | 0 < i < |ts| :: !ts[i].Waiting?)
    || exists i :: 0 < i < |ts| && ts[i].Waiting? && ts' == ts[i := Waiting(true)]
  }

  /** Add: the master queues checks and notifies workers. */
  ghost predicate AddStep(st: State, checks: seq<Check>, st': State)
  {
    && st.threads != [] && st.threads[0].Outside?
    && (|checks| == 0 ==> st'.threads == st.threads)
    && (|checks| == 1 ==> NotifiesOne(st.threads, st'.threads))
    && (|checks| > 1 ==> st'.threads == NotifyWorkers(st.threads))
    && st' == st.(queue := st.queue + checks, nTodo := st.nTodo + |checks|, added := st.added + checks,
      threads := st'.threads)
  }

  /** Wait: the master enters the loop. */
  ghost predicate EnterStep(st: State, st': State)
  {
    st.threads != [] && st.threads[0].Outside? && st' == st.(threads := st.threads[0 := Entering])
  }

  /** The first half of the critical section: account for the checks just run, or for entering the
      loop, or for waking up. */
  function Settled(st: State, i: nat): State
    requires i < |st.threads|
  {
    var ts := st.threads[i := Locked];
    match st.threads[i]
    case Worked(checks, ok) =>
      var nTodo := st.nTodo - |checks|;
      st.(allOk := st.allOk && ok, nTodo := nTodo, retired := st.retired + checks,
          threads := if nTodo == 0 && i != 0 && ts[0].Waiting? then ts[0 := Waiting(true)] else ts)
    case Entering => st.(nTotal := st.nTotal + 1, threads := ts)
    case Waiting(_) => st.(nIdle := st.nIdle - 1, threads := ts)
    case _ => st.(threads := ts)
  }

  /** How many checks a thread takes: its share of the queue, at least one and never more than
      there are. */
  function BatchOf(st: State): (n: nat)
    requires st.queue != [] && st.nTotal + st.nIdle >= 0
    ensures 1 <= n <= |st.queue|
  {
    var share := |st.queue| / (st.nTotal + st.nIdle + 1);
    var capped := if st.batchSize < share then st.batchSize else share;
    if capped > 1 then capped else 1
  }

  predicate Returns(st: State, i: nat)
  {
    st.queue == [] && i == 0 && st.nTodo == 0
  }

  /** The second half: take checks from the back of the queue, or wait, or return. */
  function Decided(st: State, i: nat): State
    requires i < |st.threads| && st.nTotal + st.nIdle >= 0
  {
    if Returns(st, i) then
      st.(nTotal := st.nTotal - 1, allOk := true, threads := st.threads[i := Outside], added := [], retired := [])
    else if st.queue == [] then
      st.(nIdle := st.nIdle + 1, threads := st.threads[i := Waiting(false)])
    else
      var rest := |st.queue| - BatchOf(st);
      st.(queue := st.queue[..rest], threads := st.threads[i := Working(Reversed(st.queue[rest..]), st.allOk)])
  }

  function Reversed(s: seq<Check>): seq<Check>
  {
    if s == [] then [] else Reversed(s[1..]) + [s[0]]
  }

  lemma {:induction false} ReversedSame(s: seq<Check>)
    ensures multiset(Reversed(s)) == multiset(s) && |Reversed(s)| == |s|
  {
    if s != [] {
      ReversedSame(s[1..]);
      assert s == [s[0]] + s[1..];
    }
  }

  /** A thread at the lock: entering, coming back with results, or waking up. */
  predicate AtLock(p: Pc) { p.Entering? || p.Worked? || p.Waiting? }

  ghost predicate LockStep(st: State, i: nat, st': State)
  {
    && i < |st.threads| && AtLock(st.threads[i])
    && Settled(st, i).nTotal + Settled(st, i).nIdle >= 0
    && st' == Decided(Settled(st, i), i)
  }

  /** Running the checks in hand: once one fails the rest are skipped. */
  function RunChecks(verdict: Verdict, checks: seq<Check>, ok: bool): bool
  {
    if checks == [] then ok else RunChecks(verdict, checks[1..], if ok then verdict(checks[0]) else ok)
  }

  lemma {:induction false} RunChecksResult(verdict: Verdict, checks: seq<Check>, ok: bool)
    ensures RunChecks(verdict, checks, ok) <==> ok && forall c | c in checks :: verdict(c)
  {
    if checks != [] {
      RunChecksResult(verdict, checks[1..], if ok then verdict(checks[0]) else ok);
      assert forall c | c in checks :: c == checks[0] || c in checks[1..];
    }
  }

  ghost predicate RunStep(verdict: Verdict, st: State, i: nat, st': State)
  {
    && i < |st.threads| && st.threads[i].Working?
    && var p := st.threads[i];
       st' == st.(threads := st.threads[i := Worked(p.checks, RunChecks(verdict, p.checks, p.ok))])
  }

  ghost predicate Step(verdict: Verdict, st: State, st': State)
  {
    || (exists checks :: AddStep(st, checks, st'))
    || EnterStep(st, st')
    || (exists i :: LockStep(st, i, st'))
    || (exists i :: RunStep(verdict, st, i, st'))
  }

  // ---- The invariant ----

  ghost predicate SomeFalse(verdict: Verdict, checks: seq<Check>)
  {
    exists c :: c in checks && !verdict(c)
  }

  ghost predicate AllTrue(verdict: Verdict, checks: seq<Check>)
  {
    forall c | c in checks :: verdict(c)
  }

  /** nTodo counts the queued checks and those in hand; every added check is in exactly one place. */
  ghost predicate Balanced(st: State)
  {
    && st.nTodo == |st.queue| + |Hands(st.threads)|
    && multiset(st.queue) + Hands(st.threads) + multiset(st.retired) == multiset(st.added)
  }

  ghost predicate Counted(st: State)
  {
    st.nTotal == Count(st.threads, InLoop) && st.nIdle == Count(st.threads, Idle)
  }

  /** A failed flag always has a failed check behind it, and a good one covers all the work done. */
  ghost predicate ThreadOk(verdict: Verdict, added: seq<Check>, p: Pc)
  {
    && (p.Working? || p.Worked? ==> p.checks != [])
    && (p.Working? && !p.ok ==> SomeFalse(verdict, added))
    && (p.Worked? ==> if p.ok then AllTrue(verdict, p.checks) else SomeFalse(verdict, added))
  }

  ghost predicate ThreadsOk(verdict: Verdict, added: seq<Check>, ts: seq<Pc>)
  {
    forall i | 0 <= i < |ts| :: ThreadOk(verdict, added, ts[i])
  }

  ghost predicate FlagOk(verdict: Verdict, st: State)
  {
    if st.allOk then AllTrue(verdict, st.retired) else SomeFalse(verdict, st.added)
  }

  /** An unnotified waiting master has work outstanding, all of it in workers' hands. */
  predicate MasterAttended(st: State)
  {
    st.threads != [] && (st.threads[0] == Waiting(false) ==> st.queue == [] && st.nTodo > 0)
  }

  predicate Awake(p: Pc) { p != Waiting(false) }

  /** With workers and queued checks, some worker is awake or has been notified. */
  predicate QueueAttended(st: State)
  {
    |st.threads| > 1 && st.queue != [] ==> exists i :: 0 < i < |st.threads| && Awake(st.threads[i])
  }

  ghost predicate Core(verdict: Verdict, st: State)
  {
    && Balanced(st) && Counted(st) && FlagOk(verdict, st) && ThreadsOk(verdict, st.added, st.threads)
    && MasterAttended(st) && QueueAttended(st)
  }

  ghost predicate Inv(verdict: Verdict, st: State)
  {
    Core(verdict, st) && forall i | 0 <= i < |st.threads| :: !st.threads[i].Locked?
  }

  // ---- Every step keeps it ----

  lemma SettledBalanced(st: State, i: nat)
    requires Balanced(st) && i < |st.threads| && AtLock(st.threads[i])
    ensures Balanced(Settled(st, i)) && Settled(st, i).nTodo >= 0
  {
    hide Hands;
    var ts := st.threads[i := Locked];
    var hand := st.threads[i].Hand();
    HandsReleased(st.threads, i, Locked);
    HandsReleased(ts, 0, Waiting(true));
    assert multiset(st.retired + hand) == multiset(st.retired) + multiset(hand);
  }

  lemma SettledCounted(st: State, i: nat)
    requires Counted(st) && i < |st.threads| && AtLock(st.threads[i])
    ensures Counted(Settled(st, i))
  {
    hide Count;
    var ts := st.threads[i := Locked];
    CountUpdate(st.threads, InLoop, i, Locked);
    CountUpdate(st.threads, Idle, i, Locked);
    CountUpdate(ts, InLoop, 0, Waiting(true));
    CountUpdate(ts, Idle, 0, Waiting(true));
  }

  lemma SettledKeeps(verdict: Verdict, st: State, i: nat)
    requires Core(verdict, st) && i < |st.threads| && AtLock(st.threads[i])
    ensures Core(verdict, Settled(st, i)) && Settled(st, i).threads[i].Locked?
  {
    hide Count, Hands, Balanced, Counted;
    SettledBalanced(st, i);
    SettledCounted(st, i);
    var st' := Settled(st, i);
    assert ThreadOk(verdict, st.added, st.threads[i]);
    assert 0 < i ==> Awake(st'.threads[i]);
    assert forall j | 0 < j < |st.threads| && Awake(st.threads[j]) :: Awake(st'.threads[j]);
    assert |st.threads| == |st'.threads|;
    assert MasterAttended(st');
    assert QueueAttended(st');
    assert FlagOk(verdict, st');
  }

  lemma TakingBalanced(st: State, i: nat)
    requires Balanced(st) && i < |st.threads| && st.threads[i].Locked?
    requires st.nTotal + st.nIdle >= 0 && st.queue != []
    ensures Balanced(Decided(st, i))
  {
    hide Hands, Reversed;
    var rest := |st.queue| - BatchOf(st);
    var taken, left := st.queue[rest..], st.queue[..rest];
    HandsTaken(st.threads, i, Working(Reversed(taken), st.allOk));
    ReversedSame(taken);
    assert st.queue == left + taken;
    var h := Hands(st.threads);
    assert multiset(left) + (h + multiset(taken)) == multiset(left + taken) + h;
  }

  lemma ParkingBalanced(st: State, i: nat)
    requires Balanced(st) && i < |st.threads| && st.threads[i].Locked?
    requires st.nTotal + st.nIdle >= 0 && st.queue == []
    ensures Balanced(Decided(st, i)) && st.nTodo >= 0
  {
    hide Hands;
    var st' := Decided(st, i);
    HandsTaken(st.threads, i, st'.threads[i]);
    assert Hands(st'.threads) == Hands(st.threads);
    assert st.nTodo == |Hands(st.threads)|;
  }

  /** With nothing outstanding no thread holds checks. */
  lemma NothingInHand(verdict: Verdict, st: State, i: nat)
    requires Balanced(st) && st.nTodo == 0 && i < |st.threads| && ThreadOk(verdict, st.added, st.threads[i])
    ensures !st.threads[i].Working? && !st.threads[i].Worked?
  {
    hide Hands;
    HandsPart(st.threads, i);
    assert |multiset(st.threads[i].Hand())| <= |Hands(st.threads)|;
  }

  lemma DecidedKeeps(verdict: Verdict, st: State, i: nat)
    requires Core(verdict, st) && i < |st.threads| && st.threads[i].Locked?
    ensures st.nTotal + st.nIdle >= 0 && Core(verdict, Decided(st, i)) && !Decided(st, i).threads[i].Locked?
  {
    hide Count, Hands, Balanced, Reversed;
    var st' := Decided(st, i);
    CountUpdate(st.threads, InLoop, i, st'.threads[i]);
    CountUpdate(st.threads, Idle, i, st'.threads[i]);
    if st.queue == [] {
      ParkingBalanced(st, i);
      if Returns(st, i) {
        forall j: nat | j < |st.threads|
          ensures !st.threads[j].Working? && !st.threads[j].Worked?
        {
          NothingInHand(verdict, st, j);
        }
      }
    } else {
      TakingBalanced(st, i);
      ReversedSame(st.queue[|st.queue| - BatchOf(st)..]);
      assert 0 < i ==> Awake(st'.threads[i]);
      assert forall j | 0 < j < |st.threads| && Awake(st.threads[j]) :: Awake(st'.threads[j]);
    }
    assert ThreadsOk(verdict, st'.added, st'.threads);
    assert FlagOk(verdict, st');
    assert QueueAttended(st');
    assert MasterAttended(st');
  }

  /** Waking waiting threads changes neither what is held nor who is counted. */
  lemma {:induction false} NotifyHarmless(ts: seq<Pc>, us: seq<Pc>)
    requires |us| == |ts|
    requires forall i | 0 <= i < |ts| :: us[i] == ts[i] || (ts[i].Waiting? && us[i] == Waiting(true))
    ensures Hands(us) == Hands(ts) && Count(us, InLoop) == Count(ts, InLoop) && Count(us, Idle) == Count(ts, Idle)
  {
    if ts != [] {
      var n := |ts| - 1;
      assert forall i | 0 <= i < n :: us[..n][i] == us[i] && ts[..n][i] == ts[i];
      NotifyHarmless(ts[..n], us[..n]);
      assert us[n].Hand() == ts[n].Hand();
    }
  }

  lemma AddKeeps(verdict: Verdict, st: State, checks: seq<Check>, st': State)
    requires Inv(verdict, st) && AddStep(st, checks, st')
    ensures Inv(verdict, st')
  {
    hide Count, Hands;
    var ts, us := st.threads, st'.threads;
    assert |us| == |ts| && forall i | 0 <= i < |ts| :: us[i] == ts[i] || (ts[i].Waiting? && us[i] == Waiting(true));
    NotifyHarmless(ts, us);
    AddBalanced(st, checks, st');
    hide Balanced;
    assert forall c | c in st.added :: c in st'.added;
    assert FlagOk(verdict, st');
    assert ThreadsOk(verdict, st'.added, us) by {
      forall i | 0 <= i < |us| ensures ThreadOk(verdict, st'.added, us[i]) {
        assert ThreadOk(verdict, st.added, ts[i]);
      }
    }
    assert QueueAttended(st') by {
      if |us| > 1 && st'.queue != [] {
        AddAttends(st, checks, st');
      }
    }
  }

  lemma AddBalanced(st: State, checks: seq<Check>, st': State)
    requires Balanced(st) && AddStep(st, checks, st') && Hands(st'.threads) == Hands(st.threads)
    ensures Balanced(st')
  {
    hide Hands, NotifyWorkers, NotifiesOne;
    var h := Hands(st.threads);
    assert multiset(st.queue + checks) + h + multiset(st.retired)
           == multiset(st.queue) + h + multiset(st.retired) + multiset(checks);
  }

  lemma AddAttends(st: State, checks: seq<Check>, st': State)
    requires AddStep(st, checks, st') && QueueAttended(st) && |st.threads| > 1 && st'.queue != []
    ensures exists i :: 0 < i < |st'.threads| && Awake(st'.threads[i])
  {
    if checks == [] {
      assert st'.queue == st.queue;
    } else if |checks| > 1 {
      assert Awake(st'.threads[1]);
    } else if st'.threads == st.threads && !st.threads[1].Waiting? {
      assert Awake(st'.threads[1]);
    } else {
      var i :| 0 < i < |st.threads| && st.threads[i].Waiting? && st'.threads == st.threads[i := Waiting(true)];
      assert Awake(st'.threads[i]);
    }
  }

  lemma EnterKeeps(verdict: Verdict, st: State, st': State)
    requires Inv(verdict, st) && EnterStep(st, st')
    ensures Inv(verdict, st')
  {
    hide Count, Hands;
    HandsReleased(st.threads, 0, Entering);
    CountUpdate(st.threads, InLoop, 0, Entering);
    CountUpdate(st.threads, Idle, 0, Entering);
    assert forall j | 0 < j < |st.threads| && Awake(st.threads[j]) :: Awake(st'.threads[j]);
  }

  lemma LockKeeps(verdict: Verdict, st: State, i: nat, st': State)
    requires Inv(verdict, st) && LockStep(st, i, st')
    ensures Inv(verdict, st')
  {
    hide Core;
    SettledKeeps(verdict, st, i);
    DecidedKeeps(verdict, Settled(st, i), i);
  }

  lemma RunKeeps(verdict: Verdict, st: State, i: nat, st': State)
    requires Inv(verdict, st) && RunStep(verdict, st, i, st')
    ensures Inv(verdict, st')
  {
    hide Count, Hands, RunChecks;
    var p, p' := st.threads[i], st'.threads[i];
    HandsUpdate(st.threads, i, p');
    SameHands(Hands(st'.threads), Hands(st.threads), multiset(p.Hand()));
    CountUpdate(st.threads, InLoop, i, p');
    CountUpdate(st.threads, Idle, i, p');
    RunChecksResult(verdict, p.checks, p.ok);
    assert ThreadOk(verdict, st.added, p);
    HandAdded(st, i);
    assert forall j | 0 < j < |st.threads| && Awake(st.threads[j]) :: Awake(st'.threads[j]);
  }

  lemma SameHands(h: multiset<Check>, h': multiset<Check>, a: multiset<Check>)
    requires h + a == h' + a
    ensures h == h'
  {
    forall c: Check ensures h[c] == h'[c] {
      assert (h + a)[c] == h[c] + a[c] && (h' + a)[c] == h'[c] + a[c];
    }
  }

  lemma HandAdded(st: State, i: nat)
    requires Balanced(st) && i < |st.threads|
    ensures forall c | c in st.threads[i].Hand() :: c in st.added
  {
    hide Hands;
    HandsPart(st.threads, i);
    forall c | c in st.threads[i].Hand() ensures c in st.added {
      assert c in multiset(st.threads[i].Hand());
      assert c in multiset(st.added);
    }
  }

  lemma StepKeeps(verdict: Verdict, st: State, st': State)
    requires Inv(verdict, st) && Step(verdict, st, st')
    ensures Inv(verdict, st')
  {
    hide Inv, AddStep, EnterStep, LockStep, RunStep;
    if checks :| AddStep(st, checks, st') {
      AddKeeps(verdict, st, checks, st');
    } else if EnterStep(st, st') {
      EnterKeeps(verdict, st, st');
    } else if i: nat :| LockStep(st, i, st') {
      LockKeeps(verdict, st, i, st');
    } else {
      var i: nat :| RunStep(verdict, st, i, st');
      RunKeeps(verdict, st, i, st');
    }
  }

  // ---- Whole runs ----

  function Initial(batchSize: nat, workers: nat): State
  {
    State(batchSize, [], 0, 0, true, 0, [Outside] + seq(workers, _ => Entering), [], [])
  }

  lemma {:induction false} NobodyCounted(ts: seq<Pc>)
    requires forall i | 0 <= i < |ts| :: ts[i] == Outside || ts[i] == Entering
    ensures Hands(ts) == multiset{} && Count(ts, InLoop) == 0 && Count(ts, Idle) == 0
  {
    if ts != [] {
      NobodyCounted(ts[..|ts| - 1]);
    }
  }

  lemma InitialInv(verdict: Verdict, batchSize: nat, workers: nat)
    ensures Inv(verdict, Initial(batchSize, workers))
  {
    NobodyCounted(Initial(batchSize, workers).threads);
  }

  ghost predicate IsRun(verdict: Verdict, run: seq<State>)
  {
    && run != []
    && (exists batchSize, workers :: run[0] == Initial(batchSize, workers))
    && forall k | 0 < k < |run| :: Step(verdict, run[k - 1], run[k])
  }

  lemma {:induction false} RunInv(verdict: Verdict, run: seq<State>, k: nat)
    requires IsRun(verdict, run) && k < |run|
    ensures Inv(verdict, run[k])
  {
    hide Inv, Step, Initial;
    if k == 0 {
      var batchSize, workers :| run[0] == Initial(batchSize, workers);
      InitialInv(verdict, batchSize, workers);
    } else {
      RunInv(verdict, run, k - 1);
      StepKeeps(verdict, run[k - 1], run[k]);
    }
  }

  /** The step in which Wait returns, and what it returns. */
  ghost predicate WaitReturns(st: State, st': State, result: bool)
  {
    LockStep(st, 0, st') && Returns(Settled(st, 0), 0) && result == Settled(st, 0).allOk
  }

  /** A clean slate: nothing queued, held or outstanding, and the flag reset. */
  predicate Clean(st: State)
  {
    && st.queue == [] && st.nTodo == 0 && st.allOk && st.added == [] && st.retired == []
    && forall i | 0 <= i < |st.threads| :: st.threads[i].Hand() == []
  }

  lemma WaitAnswers(verdict: Verdict, st: State, st': State, result: bool)
    requires Inv(verdict, st) && WaitReturns(st, st', result)
    ensures multiset(Settled(st, 0).retired) == multiset(st.added)
    ensures result <==> forall c | c in st.added :: verdict(c)
    ensures Clean(st')
  {
    hide Hands, Count;
    var mid := Settled(st, 0);
    SettledKeeps(verdict, st, 0);
    DecidedKeeps(verdict, mid, 0);
    assert mid.added == st.added;
    assert |Hands(mid.threads)| == 0;
    assert Hands(mid.threads) == multiset{};
    assert multiset(mid.retired) == multiset(mid.added);
    assert forall c :: c in mid.retired <==> c in multiset(mid.retired);
    assert forall c :: c in mid.added <==> c in multiset(mid.added);
    forall i: nat | i < |st'.threads| ensures st'.threads[i].Hand() == [] {
      NothingInHand(verdict, st', i);
    }
  }

  /** In every run of any number of workers, each answer Wait gives is the truth about exactly the
      checks added since the last one. */
  lemma EveryWaitAnswers(verdict: Verdict, run: seq<State>, k: nat, result: bool)
    requires IsRun(verdict, run) && k + 1 < |run| && WaitReturns(run[k], run[k + 1], result)
    ensures multiset(Settled(run[k], 0).retired) == multiset(run[k].added)
    ensures result <==> forall c | c in run[k].added :: verdict(c)
    ensures Clean(run[k + 1])
  {
    hide Inv, WaitReturns, Clean;
    RunInv(verdict, run, k);
    WaitAnswers(verdict, run[k], run[k + 1], result);
  }

  /** The master is never left asleep: while it waits unnotified, some worker holds checks whose
      completion will notify it. */
  lemma MasterNotForgotten(verdict: Verdict, st: State)
    requires Inv(verdict, st) && st.threads[0] == Waiting(false)
    ensures st.nTodo > 0 && exists i :: 0 < i < |st.threads| && (st.threads[i].Working? || st.threads[i].Worked?)
  {
    hide Hands, Count;
    SomeHand(st.threads);
    var i :| 0 <= i < |st.threads| && st.threads[i].Hand() != [];
    assert i > 0;
  }

  /** The worker that finishes the last outstanding check wakes the master. */
  lemma LastWorkerNotifies(verdict: Verdict, st: State, i: nat, st': State)
    requires Inv(verdict, st) && LockStep(st, i, st') && 0 < i && st.threads[0].Waiting? && st'.nTodo == 0
    ensures st'.threads[0] == Waiting(true)
  {
    hide Balanced, Counted, FlagOk, ThreadsOk, QueueAttended;
    LockKeeps(verdict, st, i, st');
  }

  /** A thread at the lock can always take its step. */
  lemma LockAlwaysDefined(verdict: Verdict, st: State, i: nat)
    requires Inv(verdict, st) && i < |st.threads| && AtLock(st.threads[i])
    ensures exists st' :: LockStep(st, i, st')
  {
    hide Count, Hands, Balanced, FlagOk, ThreadsOk, QueueAttended, MasterAttended;
    SettledKeeps(verdict, st, i);
    assert LockStep(st, i, Decided(Settled(st, i), i));
  }
}
