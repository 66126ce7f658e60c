/**
 The scheduler, the sleepers and the timer slices as one state machine over any set of
 contexts (src/common/scheduler.c, src/common/context.c, src/kernel/sleep.c,
 src/kernel/hpet.c).  `SchedulerHeap` proves that the linked lists of the kernel
 implement these steps; here the machine is followed over whole runs.
 */
module SchedulerModel {
  import opened Common

  /** The ready queue and the sleep list in link order; each sleeper carries its `alarm`. */
  datatype State<T(==)> = State(
    active: T,
    ready: seq<T>,
    sleepers: seq<(T, nat)>,
    slices: map<T, nat>,
    priority: map<T, nat>)

  datatype Event<T(==)> =
    | Create(ctx: T, prio: nat)
    | Timer
    | Yield
    | Sleep(millis: nat)
    | Exit

  // ---------------------------------------------------------------- steps

  /** `schedule`: the head of the ready queue becomes active; the old one is dropped. */
  function Schedule<T>(s: State<T>): State<T> {
    if s.ready == [] then s
    else s.(active := s.ready[0], ready := s.ready[1..])
  }

  /** `preempt`: the active context goes to the tail and the head becomes active. */
  function Preempt<T>(s: State<T>): State<T> {
    if s.ready == [] then s
    else s.(active := s.ready[0], ready := s.ready[1..] + [s.active])
  }

  /** The loop of `sleep_tick`: alarms fall until one reaches zero.  That sleeper is
      unlinked with its `next` cleared, so the loop ends there and those behind it keep
      their alarms. */
  function TickList<T>(sl: seq<(T, nat)>): (r: (seq<(T, nat)>, Option<T>)) {
    if sl == [] then ([], None)
    else if Dec(sl[0].1) == 0 then (sl[1..], Some(sl[0].0))
    else
      var (rest, woken) := TickList(sl[1..]);
      ([(sl[0].0, Dec(sl[0].1))] + rest, woken)
  }

  /** `sleep_tick`.  A woken context is linked behind `last_ctx`; when `next_ctx` is null
      nothing leads to that link, so the context is on no list afterwards. */
  function SleepTick<T>(s: State<T>): State<T> {
    var (rest, woken) := TickList(s.sleepers);
    var ready := if woken.Some? && s.ready != [] then s.ready + [woken.value] else s.ready;
    s.(sleepers := rest, ready := ready)
  }

  function Lookup<T>(m: map<T, nat>, c: T): nat {
    if c in m then m[c] else 0
  }

  /** The slice accounting of `handle_timer_inner` for the active context. */
  function NewSlices<T>(s: State<T>): nat {
    var left := Lookup(s.slices, s.active);
    Dec(if left == 0 then Lookup(s.priority, s.active) else left)
  }

  /** `handle_timer_inner`. */
  function TimerStep<T>(s: State<T>): State<T> {
    var t := SleepTick(s);
    var left := NewSlices(t);
    var u := t.(slices := t.slices[t.active := left]);
    if left > 0 then u else Preempt(u)
  }

  /** The ready-queue append of `create_context`. */
  function CreateStep<T>(s: State<T>, c: T, prio: nat): State<T> {
    s.(ready := s.ready + [c], slices := s.slices[c := 0], priority := s.priority[c := prio])
  }

  /** `sleep_millis`. */
  function SleepStep<T>(s: State<T>, millis: nat): State<T> {
    Schedule(s.(sleepers := [(s.active, millis)] + s.sleepers))
  }

  function Step<T>(s: State<T>, e: Event<T>): State<T> {
    match e
    case Create(c, p) => CreateStep(s, c, p)
    case Timer => TimerStep(s)
    case Yield => Preempt(s)
    case Sleep(m) => SleepStep(s, m)
    case Exit => Schedule(s)
  }

  function Run<T>(s: State<T>, es: seq<Event<T>>): State<T>
    decreases |es|
  {
    if es == [] then s else Run(Step(s, es[0]), es[1..])
  }

  // ---------------------------------------------------------------- conservation

  function Names<T>(sl: seq<(T, nat)>): (r: seq<T>)
    ensures |r| == |sl| && forall i | 0 <= i < |sl| :: r[i] == sl[i].0
  {
    seq(|sl|, i requires 0 <= i < |sl| => sl[i].0)
  }

  /** Every place that holds a context: active, ready, asleep. */
  function Members<T>(s: State<T>): seq<T> {
    [s.active] + s.ready + Names(s.sleepers)
  }

  /** How often each context is held.  One live context is in exactly one place when
      this multiset is the one of the set of live contexts. */
  function Held<T>(s: State<T>): multiset<T> {
    multiset{s.active} + multiset(s.ready) + multiset(Names(s.sleepers))
  }

  ghost predicate Partitioned<T>(s: State<T>, live: set<T>) {
    Held(s) == multiset(live)
  }

  function LiveAfter<T>(s: State<T>, live: set<T>, e: Event<T>): set<T> {
    match e
    case Create(c, _) => live + {c}
    case Exit => live - {s.active}
    case _ => live
  }

  /** What the next step needs for no context to be lost or held twice.  The kernel could
      test it before the step: it only reads `next_ctx` and the alarms. */
  predicate Keeps<T>(s: State<T>, e: Event<T>) {
    match e
    case Create(_, _) => true
    case Yield => true
    case Sleep(_) => s.ready != []
    case Exit => s.ready != []
    case Timer => s.ready != [] || TickList(s.sleepers).1.None?
  }

  lemma NamesHeld<T>(x: (T, nat), sl: seq<(T, nat)>)
    ensures multiset(Names([x] + sl)) == multiset{x.0} + multiset(Names(sl))
  {
    assert Names([x] + sl) == [x.0] + Names(sl);
  }

  function HeldBy<T>(o: Option<T>): multiset<T> {
    match o
    case None => multiset{}
    case Some(c) => multiset{c}
  }

  lemma {:induction false} TickListHeld<T>(sl: seq<(T, nat)>)
    ensures multiset(Names(sl)) == multiset(Names(TickList(sl).0)) + HeldBy(TickList(sl).1)
  {
    if sl != [] {
      var tail := sl[1..];
      assert sl == [sl[0]] + tail;
      NamesHeld(sl[0], tail);
      if Dec(sl[0].1) != 0 {
        TickListHeld(tail);
        NamesHeld((sl[0].0, Dec(sl[0].1)), TickList(tail).0);
      }
    }
  }

  lemma ScheduleHeld<T>(s: State<T>)
    requires s.ready != []
    ensures Held(Schedule(s)) == Held(s) - multiset{s.active}
  {
    assert s.ready == [s.ready[0]] + s.ready[1..];
  }

  lemma PreemptHeld<T>(s: State<T>)
    ensures Held(Preempt(s)) == Held(s)
  {
    if s.ready != [] {
      assert s.ready == [s.ready[0]] + s.ready[1..];
    }
  }

  lemma SleepTickHeld<T>(s: State<T>)
    ensures var woken := TickList(s.sleepers).1;
            Held(SleepTick(s)) ==
            if s.ready != [] || woken.None? then Held(s) else Held(s) - multiset{woken.value}
  {
    TickListHeld(s.sleepers);
  }

  lemma SleepHeld<T>(s: State<T>, m: nat)
    ensures Held(s.(sleepers := [(s.active, m)] + s.sleepers)) == Held(s) + multiset{s.active}
  {
    assert Names([(s.active, m)] + s.sleepers) == [s.active] + Names(s.sleepers);
  }

  lemma TimerHeld<T>(s: State<T>)
    ensures Held(TimerStep(s)) == Held(SleepTick(s))
  {
    var t := SleepTick(s);
    var u := t.(slices := t.slices[t.active := NewSlices(t)]);
    assert Held(u) == Held(t);
    PreemptHeld(u);
  }

  /** The multiset of a set, one element more or less. */
  lemma SetMultiset<T>(live: set<T>, m: multiset<T>, x: T)
    requires m == multiset(live)
    ensures x !in live ==> m + multiset{x} == multiset(live + {x})
    ensures x in live ==> m - multiset{x} == multiset(live - {x})
    ensures x in live ==> m + multiset{x} != m && m - multiset{x} != m
  {
    assert m[x] == if x in live then 1 else 0;
    assert (m + multiset{x})[x] == m[x] + 1;
    assert x in live ==> (m - multiset{x})[x] == 0;
  }

  lemma TimerConserves<T>(s: State<T>, live: set<T>)
    requires Partitioned(s, live)
    ensures Partitioned(TimerStep(s), live) <==> Keeps(s, Timer)
  {
    TimerHeld(s);
    SleepTickHeld(s);
    TickListHeld(s.sleepers);
    var woken := TickList(s.sleepers).1;
    if woken.Some? {
      assert woken.value in multiset(Names(s.sleepers));
      assert woken.value in Held(s);
      SetMultiset(live, Held(s), woken.value);
    }
  }

  lemma SleepConserves<T>(s: State<T>, live: set<T>, m: nat)
    requires Partitioned(s, live)
    ensures Partitioned(SleepStep(s, m), live) <==> s.ready != []
  {
    assert s.active in Held(s);
    SetMultiset(live, Held(s), s.active);
    SleepHeld(s, m);
    var t := s.(sleepers := [(s.active, m)] + s.sleepers);
    if s.ready != [] {
      ScheduleHeld(t);
      assert Held(s) + multiset{s.active} - multiset{s.active} == Held(s);
    }
  }

  lemma ExitConserves<T>(s: State<T>, live: set<T>)
    requires Partitioned(s, live)
    ensures Partitioned(Schedule(s), live - {s.active}) <==> s.ready != []
  {
    assert s.active in Held(s);
    SetMultiset(live, Held(s), s.active);
    if s.ready != [] {
      ScheduleHeld(s);
    } else {
      assert s.active !in multiset(live - {s.active});
    }
  }

  /** One step keeps "every live context is in exactly one place" if and only if `Keeps`. */
  lemma StepConserves<T>(s: State<T>, live: set<T>, e: Event<T>)
    requires Partitioned(s, live)
    requires e.Create? ==> e.ctx !in live
    ensures Partitioned(Step(s, e), LiveAfter(s, live, e)) <==> Keeps(s, e)
  {
    match e
    case Create(c, p) =>
      SetMultiset(live, Held(s), c);
      assert Held(Step(s, e)) == Held(s) + multiset{c};
    case Yield => PreemptHeld(s);
    case Timer => TimerConserves(s, live);
    case Sleep(m) => SleepConserves(s, live, m);
    case Exit => ExitConserves(s, live);
  }

  /** With an empty ready queue a tick loses the context it wakes. */
  lemma EmptyQueueLosesSleeper()
    ensures var s := State(1, [], [(2, 1)], map[1 := 5, 2 := 0], map[1 := 1, 2 := 1]);
            && Partitioned(s, {1, 2})
            && !Keeps(s, Timer)
            && 2 !in Members(Step(s, Timer))
  {
    var s := State(1, [], [(2, 1)], map[1 := 5, 2 := 0], map[1 := 1, 2 := 1]);
    assert Names(s.sleepers) == [2];
    assert s.sleepers[1..] == [];
    assert TickList(s.sleepers) == ([], Some(2));
    assert Members(Step(s, Timer)) == [1];
  }

  /** Runs in which created contexts are new and the two daemons (the `kmain` loop and
      `idle`) neither sleep nor exit. */
  ghost predicate Legal<T>(s: State<T>, live: set<T>, es: seq<Event<T>>, daemons: set<T>)
    decreases |es|
  {
    es == [] ||
    (var e := es[0];
     && (e.Create? ==> e.ctx !in live)
     && (e.Sleep? || e.Exit? ==> s.active !in daemons)
     && Legal(Step(s, e), LiveAfter(s, live, e), es[1..], daemons))
  }

  function LiveAtEnd<T>(s: State<T>, live: set<T>, es: seq<Event<T>>): set<T>
    decreases |es|
  {
    if es == [] then live else LiveAtEnd(Step(s, es[0]), LiveAfter(s, live, es[0]), es[1..])
  }

  predicate Awake<T>(s: State<T>, c: T) {
    c == s.active || c in s.ready
  }

  lemma PreemptAwake<T>(s: State<T>, c: T)
    requires Awake(s, c)
    ensures Awake(Preempt(s), c)
  {
    if s.ready != [] {
      assert s.ready == [s.ready[0]] + s.ready[1..];
    }
  }

  lemma StepKeepsDaemonsAwake<T>(s: State<T>, e: Event<T>, c: T)
    requires Awake(s, c)
    requires e.Sleep? || e.Exit? ==> s.active != c
    ensures Awake(Step(s, e), c)
  {
    if s.ready != [] {
      assert s.ready == [s.ready[0]] + s.ready[1..];
    }
    if e.Yield? {
      PreemptAwake(s, c);
    } else if e.Timer? {
      var t := SleepTick(s);
      PreemptAwake(t.(slices := t.slices[t.active := NewSlices(t)]), c);
    }
  }

  /** Safety and conservation over every run: while two contexts never sleep or exit, each
      live context is active, ready or asleep, in exactly one of these places, and the
      ready queue never runs empty. */
  lemma {:induction false} RunConserves<T>(s: State<T>, live: set<T>, es: seq<Event<T>>, d: T, d': T)
    requires Partitioned(s, live)
    requires d != d' && Awake(s, d) && Awake(s, d')
    requires Legal(s, live, es, {d, d'})
    ensures Partitioned(Run(s, es), LiveAtEnd(s, live, es))
    ensures Run(s, es).ready != []
    ensures Awake(Run(s, es), d) && Awake(Run(s, es), d')
    decreases |es|
  {
    if es != [] {
      var e := es[0];
      StepKeepsDaemonsAwake(s, e, d);
      StepKeepsDaemonsAwake(s, e, d');
      StepConserves(s, live, e);
      RunConserves(Step(s, e), LiveAfter(s, live, e), es[1..], d, d');
    }
  }

  predicate NoDup<T(==)>(q: seq<T>) {
    q == [] || (q[0] !in q[1..] && NoDup(q[1..]))
  }

  lemma {:induction false} OnceInSeq<T>(q: seq<T>)
    requires forall x | x in q :: multiset(q)[x] <= 1
    ensures NoDup(q)
  {
    if q != [] {
      var tail := q[1..];
      assert q == [q[0]] + tail;
      assert multiset(q)[q[0]] == 1 + multiset(tail)[q[0]];
      assert q[0] in tail <==> multiset(tail)[q[0]] > 0;
      forall x | x in tail ensures multiset(tail)[x] <= 1 {
        assert x in q;
        assert multiset(tail)[x] <= multiset(q)[x];
      }
      OnceInSeq(tail);
    }
  }

  /** What "exactly one place" means for one context. */
  lemma PartitionedMeans<T>(s: State<T>, live: set<T>, c: T)
    requires Partitioned(s, live)
    ensures c in live <==> c == s.active || c in s.ready || c in Names(s.sleepers)
    ensures c == s.active ==> c !in s.ready && c !in Names(s.sleepers)
    ensures c in s.ready ==> c !in Names(s.sleepers)
    ensures NoDup(s.ready) && NoDup(Names(s.sleepers))
  {
    var n := Names(s.sleepers);
    assert Held(s)[c] <= 1;
    assert Held(s)[c] == multiset{s.active}[c] + multiset(s.ready)[c] + multiset(n)[c];
    assert c in s.ready <==> multiset(s.ready)[c] > 0;
    assert c in n <==> multiset(n)[c] > 0;
    forall x | x in s.ready ensures multiset(s.ready)[x] <= 1 {
      assert Held(s)[x] <= 1;
    }
    forall x | x in n ensures multiset(n)[x] <= 1 {
      assert Held(s)[x] <= 1;
    }
    OnceInSeq(s.ready);
    OnceInSeq(n);
  }

  // ---------------------------------------------------------------- sleep timing

  /** Ticks a sleeper with this alarm still needs when nobody is ahead of it.  An alarm of
      zero wraps on the first decrement. */
  function Ticks(alarm: nat): nat {
    if alarm == 0 then WORD else alarm
  }

  function Position<T(==)>(sl: seq<(T, nat)>, c: T): nat {
    if sl == [] || sl[0].0 == c then 0 else 1 + Position(sl[1..], c)
  }

  function AlarmOf<T(==)>(sl: seq<(T, nat)>, c: T): nat {
    if sl == [] then 0 else if sl[0].0 == c then sl[0].1 else AlarmOf(sl[1..], c)
  }

  /** The measure of a sleeper: ticks left plus sleepers ahead. */
  function Measure<T(==)>(sl: seq<(T, nat)>, c: T): nat {
    Ticks(AlarmOf(sl, c)) + Position(sl, c)
  }

  lemma NamesCons<T>(x: (T, nat), sl: seq<(T, nat)>)
    ensures Names([x] + sl) == [x.0] + Names(sl)
  {
  }

  /** A tick neither adds a sleeper nor lists one twice, and the woken one is gone. */
  lemma {:induction false} TickListNames<T>(sl: seq<(T, nat)>)
    requires NoDup(Names(sl))
    ensures var (rest, woken) := TickList(sl);
            && NoDup(Names(rest))
            && (forall x | x in Names(rest) :: x in Names(sl))
            && (woken.Some? ==> woken.value in Names(sl) && woken.value !in Names(rest))
  {
    if sl != [] {
      assert sl == [sl[0]] + sl[1..];
      NamesCons(sl[0], sl[1..]);
      assert Names(sl)[1..] == Names(sl[1..]);
      if Dec(sl[0].1) != 0 {
        TickListNames(sl[1..]);
        var rest' := TickList(sl[1..]).0;
        NamesCons((sl[0].0, Dec(sl[0].1)), rest');
        var rest := TickList(sl).0;
        assert Names(rest)[1..] == Names(rest');
      }
    }
  }

  /** The heart of the timing argument: on a tick the measure of a sleeper that is not the
      one woken falls by exactly one, and the one woken had a single tick left. */
  lemma {:induction false} TickMeasure<T>(sl: seq<(T, nat)>, c: T)
    requires NoDup(Names(sl)) && c in Names(sl)
    ensures var (rest, woken) := TickList(sl);
            if c in Names(rest) then
              && Measure(rest, c) == Measure(sl, c) - 1
              && Ticks(AlarmOf(rest, c)) >= Ticks(AlarmOf(sl, c)) - 1
            else
              woken == Some(c) && Ticks(AlarmOf(sl, c)) == 1
  {
    var tail := sl[1..];
    assert sl == [sl[0]] + tail;
    NamesCons(sl[0], tail);
    assert Names(sl)[1..] == Names(tail);
    if Dec(sl[0].1) != 0 {
      var first := (sl[0].0, Dec(sl[0].1));
      var rest' := TickList(tail).0;
      NamesCons(first, rest');
      assert ([first] + rest')[1..] == rest';
      if sl[0].0 != c {
        TickMeasure(tail, c);
      }
    }
  }

  /** When, along a run, context `c` leaves the sleep list: the timer ticks and the
      `sleep_millis` calls seen until then. */
  datatype Wake = Never | At(ticks: nat, sleeps: nat)

  function WakeUp<T>(s: State<T>, es: seq<Event<T>>, c: T): Wake
    decreases |es|
  {
    if c !in Names(s.sleepers) then At(0, 0)
    else if es == [] then Never
    else
      match WakeUp(Step(s, es[0]), es[1..], c)
      case Never => Never
      case At(t, z) => At(t + (if es[0].Timer? then 1 else 0), z + (if es[0].Sleep? then 1 else 0))
  }

  function CountTimer<T>(es: seq<Event<T>>): nat {
    if es == [] then 0 else (if es[0].Timer? then 1 else 0) + CountTimer(es[1..])
  }

  function CountSleep<T>(es: seq<Event<T>>): nat {
    if es == [] then 0 else (if es[0].Sleep? then 1 else 0) + CountSleep(es[1..])
  }

  /** How one step moves a sleeper: a tick costs one, a new sleeper ahead adds one, and
      nothing else matters. */
  lemma StepMeasure<T>(s: State<T>, live: set<T>, e: Event<T>, c: T)
    requires Partitioned(s, live) && s.ready != []
    requires c in Names(s.sleepers)
    ensures var s' := Step(s, e);
            if c in Names(s'.sleepers) then
              && Measure(s'.sleepers, c) + (if e.Timer? then 1 else 0)
                 == Measure(s.sleepers, c) + (if e.Sleep? then 1 else 0)
              && Ticks(AlarmOf(s'.sleepers, c)) + (if e.Timer? then 1 else 0) >= Ticks(AlarmOf(s.sleepers, c))
            else
              e.Timer? && Ticks(AlarmOf(s.sleepers, c)) == 1 && Awake(s', c)
  {
    PartitionedMeans(s, live, c);
    var s' := Step(s, e);
    if e.Timer? {
      TickMeasure(s.sleepers, c);
      var t := SleepTick(s);
      var u := t.(slices := t.slices[t.active := NewSlices(t)]);
      if c in u.ready { PreemptAwake(u, c); }
    } else if e.Sleep? {
      NamesCons((s.active, e.millis), s.sleepers);
      assert s'.sleepers[1..] == s.sleepers;
    }
  }

  /** Sleep timing over every run.  A sleeper with `a` ticks on its alarm and `k` sleepers
      ahead becomes ready after at least `a` and at most `a + k + j` ticks, where `j` counts
      the sleeps begun before it woke; until then its measure is exactly what is left. */
  lemma {:induction false} SleepTiming<T>(s: State<T>, live: set<T>, es: seq<Event<T>>, d: T, d': T, c: T)
    requires Partitioned(s, live)
    requires d != d' && Awake(s, d) && Awake(s, d')
    requires Legal(s, live, es, {d, d'})
    requires c in Names(s.sleepers)
    ensures match WakeUp(s, es, c)
            case At(t, j) => Ticks(AlarmOf(s.sleepers, c)) <= t <= Measure(s.sleepers, c) + j
            case Never =>
              && c in Names(Run(s, es).sleepers)
              && Measure(Run(s, es).sleepers, c) + CountTimer(es) == Measure(s.sleepers, c) + CountSleep(es)
              && CountTimer(es) < Measure(s.sleepers, c) + CountSleep(es)
    decreases |es|
  {
    RunConserves(s, live, [], d, d');
    if es != [] {
      var e := es[0];
      var s' := Step(s, e);
      StepMeasure(s, live, e, c);
      StepKeepsDaemonsAwake(s, e, d);
      StepKeepsDaemonsAwake(s, e, d');
      StepConserves(s, live, e);
      if c in Names(s'.sleepers) {
        SleepTiming(s', LiveAfter(s, live, e), es[1..], d, d', c);
      } else {
        assert WakeUp(s', es[1..], c) == At(0, 0);
      }
    }
  }

  /** What a caller of `sleep_millis(m)` gets, over every run: it is ready again after at least
      `m` ticks, and after at most as many more as other contexts began to sleep meanwhile.  An
      argument of 0 counts as 2^32. */
  lemma SleepFor<T>(s: State<T>, live: set<T>, m: nat, es: seq<Event<T>>, d: T, d': T)
    requires Partitioned(s, live)
    requires d != d' && Awake(s, d) && Awake(s, d') && s.active !in {d, d'}
    requires Legal(Step(s, Sleep(m)), live, es, {d, d'})
    ensures match WakeUp(Step(s, Sleep(m)), es, s.active)
            case At(t, j) => (if m == 0 then 0x1_0000_0000 else m) <= t <= (if m == 0 then 0x1_0000_0000 else m) + j
            case Never => CountTimer(es) < (if m == 0 then 0x1_0000_0000 else m) + CountSleep(es)
  {
    var e: Event<T> := Sleep(m);
    var s' := Step(s, e);
    StepKeepsDaemonsAwake(s, e, d);
    StepKeepsDaemonsAwake(s, e, d');
    StepConserves(s, live, e);
    assert s'.sleepers[0] == (s.active, m) && Names(s'.sleepers)[0] == s.active;
    SleepTiming(s', live, es, d, d', s.active);
  }

  // ---------------------------------------------------------------- exact waiting time

  /** Timer ticks a context still runs once it is active. */
  function Budget<T>(s: State<T>, c: T): nat {
    var left := Lookup(s.slices, c);
    if left > 0 then left else Ticks(Lookup(s.priority, c))
  }

  function Budgets<T>(s: State<T>, cs: seq<T>): nat {
    if cs == [] then 0 else Budget(s, cs[0]) + Budgets(s, cs[1..])
  }

  /** The contexts that run before `c`, in the order they run. */
  function Ahead<T>(s: State<T>, c: T): seq<T> {
    [s.active] + Before(s.ready, c)
  }

  function Before<T(==)>(q: seq<T>, c: T): seq<T> {
    if q == [] || q[0] == c then [] else [q[0]] + Before(q[1..], c)
  }

  /** Ticks of the timer until `c` is active: the budgets of the contexts ahead. */
  function WaitingTime<T>(s: State<T>, c: T): nat {
    Budgets(s, Ahead(s, c))
  }

  lemma {:induction false} BeforeAppend<T>(q: seq<T>, more: seq<T>, c: T)
    requires c in q
    ensures Before(q + more, c) == Before(q, c)
  {
    if q[0] != c {
      assert (q + more)[1..] == q[1..] + more;
      BeforeAppend(q[1..], more, c);
    }
  }

  lemma {:induction false} BeforeSubset<T>(q: seq<T>, c: T, x: T)
    requires x in Before(q, c)
    ensures x in q && x != c
  {
    if x != q[0] {
      assert x in Before(q[1..], c);
      BeforeSubset(q[1..], c, x);
    }
  }

  lemma {:induction false} BudgetsSame<T>(s: State<T>, s': State<T>, cs: seq<T>)
    requires forall x | x in cs :: Budget(s, x) == Budget(s', x)
    ensures Budgets(s, cs) == Budgets(s', cs)
  {
    if cs != [] { BudgetsSame(s, s', cs[1..]); }
  }

  /** One tick or one new context, seen from a waiting context: time passes by exactly one
      tick, the contexts ahead are the same ones in the same order (at most the first is
      done), and whoever is created or woken goes behind. */
  lemma StepWait<T>(s: State<T>, live: set<T>, e: Event<T>, c: T)
    requires Partitioned(s, live) && c in s.ready
    requires e.Timer? || (e.Create? && e.ctx !in live)
    ensures var s' := Step(s, e);
            if c in s'.ready then
              && WaitingTime(s', c) == WaitingTime(s, c) - (if e.Timer? then 1 else 0)
              && (Ahead(s', c) == Ahead(s, c) || Ahead(s', c) == Ahead(s, c)[1..])
            else
              e.Timer? && WaitingTime(s, c) == 1 && s'.active == c
  {
    PartitionedMeans(s, live, c);
    PartitionedMeans(s, live, s.active);
    var s' := Step(s, e);
    var before := Before(s.ready, c);
    assert Ahead(s, c)[1..] == before;
    forall x | x in before ensures x in s.ready && x != c {
      BeforeSubset(s.ready, c, x);
    }
    if e.Create? {
      assert e.ctx != s.active && e.ctx !in s.ready by { PartitionedMeans(s, live, e.ctx); }
      BeforeAppend(s.ready, [e.ctx], c);
      BudgetsSame(s, s', Ahead(s, c));
    } else {
      StepWaitTimer(s, c);
    }
  }

  /** A tick only queues contexts behind those already waiting, and only sleepers. */
  lemma SleepTickReady<T>(s: State<T>) returns (more: seq<T>)
    ensures SleepTick(s).ready == s.ready + more
    ensures forall x | x in more :: x in Names(s.sleepers)
  {
    TickListHeld(s.sleepers);
    var woken := TickList(s.sleepers).1;
    if woken.Some? && s.ready != [] {
      more := [woken.value];
      assert woken.value in multiset(Names(s.sleepers));
    } else {
      more := [];
    }
  }

  /** The preemption seen from `c`, with `u` the state after the slice accounting. */
  lemma PreemptWait<T>(s: State<T>, u: State<T>, more: seq<T>, c: T)
    requires u.ready == s.ready + more && u.active == s.active
    requires c in s.ready && c !in more && c != s.active
    requires s.ready[0] == c ==> c !in s.ready[1..]
    ensures var v := Preempt(u);
            if s.ready[0] == c then v.active == c && c !in v.ready && Before(s.ready, c) == []
            else c in v.ready && Ahead(v, c) == Before(s.ready, c)
  {
    var v := Preempt(u);
    var tail := s.ready[1..];
    assert s.ready == [s.ready[0]] + tail;
    assert u.ready[1..] == tail + more;
    if s.ready[0] != c {
      assert v.ready == tail + (more + [s.active]);
      BeforeAppend(tail, more + [s.active], c);
      assert v.active == s.ready[0];
    }
  }

  lemma StepWaitTimer<T>(s: State<T>, c: T)
    requires c in s.ready && c != s.active && s.active !in s.ready && c !in Names(s.sleepers)
    requires s.ready[0] == c ==> c !in s.ready[1..]
    ensures var s' := TimerStep(s);
            if c in s'.ready then
              && WaitingTime(s', c) == WaitingTime(s, c) - 1
              && (Ahead(s', c) == Ahead(s, c) || Ahead(s', c) == Ahead(s, c)[1..])
            else
              WaitingTime(s, c) == 1 && s'.active == c
  {
    var s' := TimerStep(s);
    var before := Before(s.ready, c);
    assert Ahead(s, c)[1..] == before;
    var more := SleepTickReady(s);
    BeforeAppend(s.ready, more, c);
    var t := SleepTick(s);
    var left := NewSlices(t);
    var u := t.(slices := t.slices[t.active := left]);
    assert Budget(s, s.active) == left + 1;
    forall x | x in before ensures Budget(s, x) == Budget(s', x) {
      BeforeSubset(s.ready, c, x);
    }
    BudgetsSame(s, s', before);
    assert Budgets(s, Ahead(s, c)) == left + 1 + Budgets(s, before);
    if left > 0 {
      assert s' == u;
      assert Ahead(s', c) == Ahead(s, c);
      assert Budgets(s', Ahead(s, c)) == left + Budgets(s', before);
    } else {
      PreemptWait(s, u, more, c);
    }
  }

  /** Timer ticks along a run until `c` is active. */
  function TicksUntilActive<T(==)>(s: State<T>, es: seq<Event<T>>, c: T): Option<nat>
    decreases |es|
  {
    if s.active == c then Some(0)
    else if es == [] then None
    else
      match TicksUntilActive(Step(s, es[0]), es[1..], c)
      case None => None
      case Some(t) => Some(t + if es[0].Timer? then 1 else 0)
  }

  /** Runs without voluntary yields: the timer ticks and new contexts appear. */
  ghost predicate Involuntary<T>(s: State<T>, live: set<T>, es: seq<Event<T>>)
    decreases |es|
  {
    es == [] ||
    (var e := es[0];
     && (e.Timer? || (e.Create? && e.ctx !in live))
     && Involuntary(Step(s, e), LiveAfter(s, live, e), es[1..]))
  }

  /** A context that was created with priority `p` will run for `p` ticks (2^32 for 0), from the
      tail of the queue; nobody else's budget changes. */
  lemma CreatedBudget<T>(s: State<T>, c: T, p: nat, x: T)
    ensures var t := Step(s, Create(c, p));
            && Budget(t, c) == (if p == 0 then 0x1_0000_0000 else p)
            && t.active == s.active && t.ready == s.ready + [c] && t.sleepers == s.sleepers
            && (x != c ==> Budget(t, x) == Budget(s, x))
  {
  }

  /** The turn of the active context over every such run: it stays active for all the ticks of
      its budget but the last, and its budget is what is left. */
  lemma {:induction false} ActiveTurn<T>(s: State<T>, live: set<T>, es: seq<Event<T>>)
    requires s.active in live && Involuntary(s, live, es) && CountTimer(es) < Budget(s, s.active)
    ensures Run(s, es).active == s.active
    ensures Budget(Run(s, es), s.active) + CountTimer(es) == Budget(s, s.active)
    decreases |es|
  {
    if es != [] {
      var e := es[0];
      var s' := Step(s, e);
      assert s'.active == s.active && Budget(s', s.active) == Budget(s, s.active) - if e.Timer? then 1 else 0;
      ActiveTurn(s', LiveAfter(s, live, e), es[1..]);
    }
  }

  /** The tick that ends the turn: the head of the queue becomes active, and the context that
      was active goes to the tail with its whole priority as its next budget. */
  lemma TurnEnds<T>(s: State<T>)
    requires Budget(s, s.active) == 1 && s.ready != []
    ensures var s' := Step(s, Timer);
            && s'.active == s.ready[0] && s'.ready[|s'.ready| - 1] == s.active && |s'.ready| >= |s.ready|
            && s'.priority == s.priority && Budget(s', s.active) == Ticks(Lookup(s.priority, s.active))
            && s'.ready[..|s.ready| - 1] == s.ready[1..]
  {
  }

  predicate Suffix<T(==)>(short: seq<T>, long: seq<T>) {
    |short| <= |long| && short == long[|long| - |short|..]
  }

  lemma SuffixTail<T>(a: seq<T>, b: seq<T>, c: seq<T>)
    requires Suffix(a, b) && c != []
    requires b == c || b == c[1..]
    ensures Suffix(a, c)
  {
  }

  /** Exact waiting time over every such run: a ready context becomes active after exactly
      the budgets of those ahead of it.  Before that the time left is exactly the rest, and
      nobody has overtaken it: the contexts ahead are the last of the original ones. */
  lemma {:induction false} ExactWait<T>(s: State<T>, live: set<T>, es: seq<Event<T>>, c: T)
    requires Partitioned(s, live) && c in s.ready
    requires Involuntary(s, live, es)
    ensures match TicksUntilActive(s, es, c)
            case Some(t) => t == WaitingTime(s, c)
            case None =>
              && c in Run(s, es).ready
              && CountTimer(es) + WaitingTime(Run(s, es), c) == WaitingTime(s, c)
              && Suffix(Ahead(Run(s, es), c), Ahead(s, c))
    decreases |es|
  {
    assert c != s.active by { PartitionedMeans(s, live, c); }
    if es != [] {
      var e, rest := es[0], es[1..];
      var s' := Step(s, e);
      var live' := LiveAfter(s, live, e);
      StepWait(s, live, e, c);
      if c in s'.ready {
        assert Partitioned(s', live') by { StepConserves(s, live, e); }
        ExactWait(s', live', rest, c);
        assert Run(s, es) == Run(s', rest);
        if TicksUntilActive(s', rest, c).None? {
          SuffixTail(Ahead(Run(s, es), c), Ahead(s', c), Ahead(s, c));
        }
      } else {
        assert TicksUntilActive(s', rest, c) == Some(0);
      }
    }
  }

  lemma {:induction false} BeforeAll<T>(q: seq<T>, c: T)
    requires c !in q
    ensures Before(q + [c], c) == q
  {
    if q != [] {
      assert (q + [c])[1..] == q[1..] + [c];
      BeforeAll(q[1..], c);
    }
  }

  /** A new context runs for the first time after exactly the budgets that the active context
      and all those ready had when it was created. */
  lemma CreatedWaits<T>(s: State<T>, live: set<T>, c: T, p: nat, es: seq<Event<T>>)
    requires Partitioned(s, live) && c !in live
    requires Involuntary(Step(s, Create(c, p)), live + {c}, es)
    ensures match TicksUntilActive(Step(s, Create(c, p)), es, c)
            case Some(t) => t == Budgets(s, [s.active] + s.ready)
            case None => CountTimer(es) <= Budgets(s, [s.active] + s.ready)
  {
    var e: Event<T> := Create(c, p);
    var s' := Step(s, e);
    StepConserves(s, live, e);
    PartitionedMeans(s, live, c);
    BeforeAll(s.ready, c);
    assert Ahead(s', c) == [s.active] + s.ready;
    BudgetsSame(s, s', [s.active] + s.ready);
    ExactWait(s', live + {c}, es, c);
  }
}
