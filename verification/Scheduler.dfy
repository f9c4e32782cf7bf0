/**
 SingleThreadedSchedulerClient: callbacks handed to a multi-threaded scheduler run one at a time in
 the order they were queued.  A state machine whose steps are the client's lock sections and its
 hand-over to the scheduler; any number of activities may be at each point between them.
 */
module Scheduler {

  type Callback = nat

  /** `pending` and `running` are the client's fields.  `checking` activities are about to take the
      lock in MaybeScheduleProcessQueue, `scheduling` ones have decided to schedule, `scheduled`
      counts ProcessQueue tasks the scheduler holds and `starting` those about to take the lock in
      ProcessQueue; `executing` are the callbacks in progress.  `added` and `finished` are the
      history. */
  datatype State = State(
    pending: seq<Callback>, running: bool,
    checking: nat, scheduling: nat, scheduled: nat, starting: nat, executing: seq<Callback>,
    added: seq<Callback>, finished: seq<Callback>)

  const INITIAL := State([], false, 0, 0, 0, 0, [], [], [])

  /** What activities can do.  Finish(k) is the end of the k-th callback in progress. */
  datatype Event =
    | Append(callback: Callback)
    | Process
    | Check
    | Schedule
    | Dispatch
    | Start
    | Finish(k: nat)

  /** Append and Process are calls from outside; the rest is the client's own work. */
  predicate Internal(e: Event) { !e.Append? && !e.Process? }

  predicate Enabled(st: State, e: Event)
  {
    match e
    case Append(_) => true
    case Process => true
    case Check => st.checking > 0
    case Schedule => st.scheduling > 0
    case Dispatch => st.scheduled > 0
    case Start => st.starting > 0
    case Finish(k) => k < |st.executing|
  }

  function Next(st: State, e: Event): State
    requires Enabled(st, e)
  {
    match e
    case Append(callback) =>
      st.(pending := st.pending + [callback], checking := st.checking + 1, added := st.added + [callback])
    case Process => st.(starting := st.starting + 1)
    case Check =>
      if st.running || st.pending == [] then st.(checking := st.checking - 1)
      else st.(checking := st.checking - 1, scheduling := st.scheduling + 1)
    case Schedule => st.(scheduling := st.scheduling - 1, scheduled := st.scheduled + 1)
    case Dispatch => st.(scheduled := st.scheduled - 1, starting := st.starting + 1)
    case Start =>
      if st.running || st.pending == [] then st.(starting := st.starting - 1)
      else st.(starting := st.starting - 1, running := true, pending := st.pending[1..],
               executing := st.executing + [st.pending[0]])
    case Finish(k) =>
      st.(running := false, checking := st.checking + 1, finished := st.finished + [st.executing[k]],
          executing := st.executing[..k] + st.executing[k + 1..])
  }

  /** Never two callbacks at a time; every callback ever appended is finished, in progress or
      pending, in that order; and pending work is always on its way to being processed. */
  predicate Inv(st: State)
  {
    && |st.executing| == (if st.running then 1 else 0)
    && st.added == st.finished + st.executing + st.pending
    && (st.pending != [] && !st.running ==> st.checking + st.scheduling + st.scheduled + st.starting > 0)
  }

  lemma StepKeeps(st: State, e: Event)
    requires Inv(st) && Enabled(st, e)
    ensures Inv(Next(st, e))
  {
    var st' := Next(st, e);
    assert st'.added == st'.finished + st'.executing + st'.pending;
  }

  predicate AllEnabled(st: State, events: seq<Event>)
    decreases |events|
  {
    events == [] || (Enabled(st, events[0]) && AllEnabled(Next(st, events[0]), events[1..]))
  }

  function Run(st: State, events: seq<Event>): State
    requires AllEnabled(st, events)
    decreases |events|
  {
    if events == [] then st else Run(Next(st, events[0]), events[1..])
  }

  /** The callbacks a run appends, in order. */
  function Appended(events: seq<Event>): seq<Callback>
  {
    if events == [] then []
    else (if events[0].Append? then [events[0].callback] else []) + Appended(events[1..])
  }

  lemma {:induction false} RunKeeps(st: State, events: seq<Event>)
    requires Inv(st) && AllEnabled(st, events)
    ensures Inv(Run(st, events)) && Run(st, events).added == st.added + Appended(events)
    decreases |events|
  {
    hide Inv;
    if events != [] {
      StepKeeps(st, events[0]);
      RunKeeps(Next(st, events[0]), events[1..]);
    }
  }

  /** In every run callbacks start in the order they were appended, each at most once, and at most
      one is in progress; one pending with none in progress is on its way. */
  lemma CallbacksInOrder(events: seq<Event>)
    requires AllEnabled(INITIAL, events)
    ensures var st := Run(INITIAL, events);
      && st.finished + st.executing <= Appended(events) && |st.executing| <= 1
      && (st.running <==> st.executing != [])
      && (st.pending != [] && st.executing == [] ==> st.checking + st.scheduling + st.scheduled + st.starting > 0)
  {
    RunKeeps(INITIAL, events);
    assert INITIAL.added + Appended(events) == Appended(events);
  }

  // ---- Nothing is left behind ----

  predicate Quiet(st: State)
  {
    st.checking == 0 && st.scheduling == 0 && st.scheduled == 0 && st.starting == 0 && st.executing == []
  }

  /** Work left before the client falls quiet. */
  function Work(st: State): nat
  {
    5 * |st.pending| + 5 * |st.executing| + 4 * st.checking + 3 * st.scheduling + 2 * st.scheduled + st.starting
  }

  lemma InternalStepsWork(st: State, e: Event)
    requires Inv(st) && Enabled(st, e) && Internal(e)
    ensures Work(Next(st, e)) < Work(st)
  {
  }

  /** Left to itself the client does only so much, however its steps interleave. */
  lemma {:induction false} InternalRunsAreShort(st: State, events: seq<Event>)
    requires Inv(st) && AllEnabled(st, events) && forall k | 0 <= k < |events| :: Internal(events[k])
    ensures Work(Run(st, events)) + |events| <= Work(st)
    decreases |events|
  {
    hide Inv, Work;
    if events != [] {
      StepKeeps(st, events[0]);
      InternalStepsWork(st, events[0]);
      InternalRunsAreShort(Next(st, events[0]), events[1..]);
    }
  }

  /** A state from which no internal step is possible is quiet, and every callback appended over the
      whole run has then been run to completion, exactly once and in order. */
  lemma NothingLeftBehind(events: seq<Event>)
    requires AllEnabled(INITIAL, events)
    requires forall e | Internal(e) :: !Enabled(Run(INITIAL, events), e)
    ensures Quiet(Run(INITIAL, events)) && Run(INITIAL, events).finished == Appended(events)
  {
    RunKeeps(INITIAL, events);
    assert INITIAL.added + Appended(events) == Appended(events);
    var st := Run(INITIAL, events);
    assert !Enabled(st, Check) && !Enabled(st, Schedule) && !Enabled(st, Dispatch) && !Enabled(st, Start)
      && !Enabled(st, Finish(0));
  }
}
