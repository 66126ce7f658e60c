/**
 The readers/writer lock of src/common/sync.c as interleaved steps of any number of
 contexts.  Each step is one atomic access to `stat` or `waiting_readers`, or one stretch
 of code that runs with the scheduler locked.
 */
module MultiLock {
  import opened Common

  /** `stat`: 0, LSTAT_WRITE or LSTAT_READ. */
  datatype Stat = Free | Write | Read

  /** Where a context is in the code. */
  datatype Pc =
    | Idle
    | Pending      // acquire_read: counted, about to load `stat`
    | Retrying     // acquire_read: `stat` was not READ, about to compare-and-exchange
    | Waiting      // wait: counted, spinning until `stat` is READ
    | Reading      // holds the lock as a reader
    | Clearing     // release_read: the count fell to zero, the store to `stat` is still to come
    | Writing      // holds the lock as the writer

  datatype State = State(stat: Stat, waitingReaders: nat, pcs: seq<Pc>)

  datatype Op =
    | AcquireRead      // the increment
    | LoadStat         // the load in the loop condition of acquire_read
    | SwapRead         // the compare-and-exchange in that condition
    | EnterWait        // wait: check and increment, with the scheduler locked
    | WakeWait         // wait: the load that ends the spinning
    | ReleaseRead      // the decrement
    | ClearStat        // the store after the decrement
    | SwapWrite        // the compare-and-exchange of acquire_write
    | Signal           // with the scheduler locked
    | ReleaseWrite     // the store

  function Inc(x: nat): nat { (x + 1) % WORD }

  /** The operations a context may perform next; `Signal` and `ReleaseWrite` belong to the
      writer, `ReleaseRead` to a reader. */
  predicate Enabled(pc: Pc, op: Op) {
    match op
    case AcquireRead => pc == Idle
    case LoadStat => pc == Pending
    case SwapRead => pc == Retrying
    case EnterWait => pc == Idle
    case WakeWait => pc == Waiting
    case ReleaseRead => pc == Reading
    case ClearStat => pc == Clearing
    case SwapWrite => pc == Idle
    case Signal => pc == Writing
    case ReleaseWrite => pc == Writing
  }

  /** One step of context `i`.  A failed test leaves the context where it was, to retry. */
  function Step(s: State, i: nat, op: Op): State
    requires i < |s.pcs| && Enabled(s.pcs[i], op)
  {
    match op
    case AcquireRead => s.(waitingReaders := Inc(s.waitingReaders), pcs := s.pcs[i := Pending])
    case LoadStat => s.(pcs := s.pcs[i := if s.stat == Read then Reading else Retrying])
    case SwapRead =>
      if s.stat == Free then s.(stat := Read, pcs := s.pcs[i := Reading])
      else s.(pcs := s.pcs[i := Pending])
    case EnterWait =>
      if s.stat == Read then s
      else s.(waitingReaders := Inc(s.waitingReaders), pcs := s.pcs[i := Waiting])
    case WakeWait => if s.stat == Read then s.(pcs := s.pcs[i := Reading]) else s
    case ReleaseRead =>
      var n := Dec(s.waitingReaders);
      s.(waitingReaders := n, pcs := s.pcs[i := if n == 0 then Clearing else Idle])
    case ClearStat => s.(stat := Free, pcs := s.pcs[i := Idle])
    case SwapWrite =>
      if s.stat == Free then s.(stat := Write, pcs := s.pcs[i := Writing]) else s
    case Signal =>
      s.(stat := if s.waitingReaders != 0 then Read else Free, pcs := s.pcs[i := Idle])
    case ReleaseWrite => s.(stat := Free, pcs := s.pcs[i := Idle])
  }

  /** The atomicity that exclusion needs: no context starts `acquire_read` while another is
      between the decrement and the store of `release_read`. */
  predicate Atomic(s: State, op: Op) {
    op == AcquireRead ==> Clearing !in s.pcs
  }

  /** Runs are sequences of (context, operation). */
  ghost predicate IsRun(s: State, run: seq<(nat, Op)>)
    decreases |run|
  {
    run == [] ||
    (var (i, op) := run[0];
     && i < |s.pcs| && Enabled(s.pcs[i], op)
     && IsRun(Step(s, i, op), run[1..]))
  }

  ghost predicate AtomicRun(s: State, run: seq<(nat, Op)>)
    requires IsRun(s, run)
    decreases |run|
  {
    run == [] ||
    (var (i, op) := run[0];
     Atomic(s, op) && AtomicRun(Step(s, i, op), run[1..]))
  }

  ghost function Run(s: State, run: seq<(nat, Op)>): State
    requires IsRun(s, run)
    decreases |run|
  {
    if run == [] then s else Run(Step(s, run[0].0, run[0].1), run[1..])
  }

  // ---------------------------------------------------------------- counting

  predicate IsReader(pc: Pc) { pc.Pending? || pc.Retrying? || pc.Waiting? || pc.Reading? }

  function Weight(b: bool): nat { if b then 1 else 0 }

  /** Pending, waiting and active readers. */
  function Readers(pcs: seq<Pc>): nat {
    if pcs == [] then 0 else Weight(IsReader(pcs[0])) + Readers(pcs[1..])
  }

  function Count(pcs: seq<Pc>, pc: Pc): nat {
    if pcs == [] then 0 else Weight(pcs[0] == pc) + Count(pcs[1..], pc)
  }

  lemma {:induction false} ReadersUpdate(pcs: seq<Pc>, i: nat, pc: Pc)
    requires i < |pcs|
    ensures Readers(pcs[i := pc]) + Weight(IsReader(pcs[i])) == Readers(pcs) + Weight(IsReader(pc))
    ensures Weight(IsReader(pcs[i])) <= Readers(pcs) <= |pcs|
  {
    if i == 0 {
      assert pcs[i := pc][1..] == pcs[1..];
      ReadersBound(pcs);
    } else {
      assert pcs[i := pc][1..] == pcs[1..][i - 1 := pc];
      ReadersUpdate(pcs[1..], i - 1, pc);
    }
  }

  lemma {:induction false} ReadersBound(pcs: seq<Pc>)
    ensures Readers(pcs) <= |pcs|
  {
    if pcs != [] { ReadersBound(pcs[1..]); }
  }

  lemma {:induction false} CountUpdate(pcs: seq<Pc>, i: nat, pc: Pc, p: Pc)
    requires i < |pcs|
    ensures Count(pcs[i := pc], p) + Weight(pcs[i] == p) == Count(pcs, p) + Weight(pc == p)
    ensures Weight(pcs[i] == p) <= Count(pcs, p)
  {
    if i == 0 {
      assert pcs[i := pc][1..] == pcs[1..];
    } else {
      assert pcs[i := pc][1..] == pcs[1..][i - 1 := pc];
      CountUpdate(pcs[1..], i - 1, pc, p);
    }
  }

  lemma {:induction false} CountIn(pcs: seq<Pc>, p: Pc)
    ensures p in pcs <==> Count(pcs, p) > 0
  {
    if pcs != [] {
      assert pcs == [pcs[0]] + pcs[1..];
      CountIn(pcs[1..], p);
    }
  }

  /** Two contexts at the same place count twice. */
  lemma {:induction false} CountTwo(pcs: seq<Pc>, i: nat, j: nat, p: Pc)
    requires i < j < |pcs| && pcs[i] == p && pcs[j] == p
    ensures Count(pcs, p) >= 2
  {
    if i == 0 {
      assert pcs[1..][j - 1] == p;
      CountIn(pcs[1..], p);
    } else {
      CountTwo(pcs[1..], i - 1, j - 1, p);
    }
  }

  // ---------------------------------------------------------------- safety

  /** The invariant of the lock. */
  ghost predicate Inv(s: State) {
    && |s.pcs| < WORD
    && s.waitingReaders == Readers(s.pcs)
    && (Reading in s.pcs ==> s.stat == Read)
    && Count(s.pcs, Writing) == Weight(s.stat == Write)
    && (s.stat == Read ==> Readers(s.pcs) > 0 || Clearing in s.pcs)
    && Count(s.pcs, Clearing) <= 1
    && (Clearing in s.pcs ==> s.stat == Read && Readers(s.pcs) == 0)
  }

  lemma InvInit(n: nat)
    requires n < WORD
    ensures Inv(State(Free, 0, seq(n, _ => Idle)))
  {
    var pcs := seq(n, _ => Idle);
    AllIdle(pcs);
    CountIn(pcs, Writing);
    CountIn(pcs, Clearing);
  }

  lemma {:induction false} AllIdle(pcs: seq<Pc>)
    requires forall i | 0 <= i < |pcs| :: pcs[i] == Idle
    ensures Readers(pcs) == 0
  {
    if pcs != [] { AllIdle(pcs[1..]); }
  }

  /** What moving context `i` to `pc` does to the counts. */
  ghost predicate Moved(pcs: seq<Pc>, i: nat, pc: Pc, pcs': seq<Pc>)
    requires i < |pcs|
  {
    && |pcs'| == |pcs| && Readers(pcs') <= |pcs|
    && Readers(pcs') + Weight(IsReader(pcs[i])) == Readers(pcs) + Weight(IsReader(pc))
    && (forall x :: Count(pcs', x) + Weight(pcs[i] == x) == Count(pcs, x) + Weight(pc == x))
    && (forall x :: x in pcs' <==> Count(pcs', x) > 0)
    && (forall x :: x in pcs <==> Count(pcs, x) > 0)
    && Count(pcs, Reading) <= Readers(pcs) && Count(pcs', Reading) <= Readers(pcs')
  }

  lemma MovedFacts(pcs: seq<Pc>, i: nat, pc: Pc)
    requires i < |pcs|
    ensures Moved(pcs, i, pc, pcs[i := pc])
  {
    var pcs' := pcs[i := pc];
    ReadersUpdate(pcs, i, pc);
    ReadersBound(pcs');
    ReadingCounts(pcs);
    ReadingCounts(pcs');
    forall x ensures Count(pcs', x) + Weight(pcs[i] == x) == Count(pcs, x) + Weight(pc == x) {
      CountUpdate(pcs, i, pc, x);
    }
    forall x ensures (x in pcs' <==> Count(pcs', x) > 0) && (x in pcs <==> Count(pcs, x) > 0) {
      CountIn(pcs, x);
      CountIn(pcs', x);
    }
  }

  /** Every atomic step keeps the invariant. */
  lemma StepInv(s: State, i: nat, op: Op)
    requires Inv(s) && i < |s.pcs| && Enabled(s.pcs[i], op)
    requires Atomic(s, op)
    ensures Inv(Step(s, i, op))
  {
    var s' := Step(s, i, op);
    var pc := s'.pcs[i];
    assert s'.pcs == s.pcs[i := pc];
    MovedFacts(s.pcs, i, pc);
    MovedInv(s, i, op, pc);
  }

  lemma MovedInv(s: State, i: nat, op: Op, pc: Pc)
    requires Inv(s) && i < |s.pcs| && Enabled(s.pcs[i], op) && Atomic(s, op)
    requires pc == Step(s, i, op).pcs[i] && Moved(s.pcs, i, pc, Step(s, i, op).pcs)
    ensures Inv(Step(s, i, op))
  {
  }

  lemma {:induction false} ReadingCounts(pcs: seq<Pc>)
    ensures Count(pcs, Reading) <= Readers(pcs)
  {
    if pcs != [] { ReadingCounts(pcs[1..]); }
  }

  lemma {:induction false} RunInv(s: State, run: seq<(nat, Op)>)
    requires Inv(s) && IsRun(s, run) && AtomicRun(s, run)
    ensures Inv(Run(s, run))
    decreases |run|
  {
    if run != [] {
      var (i, op) := run[0];
      StepInv(s, i, op);
      RunInv(Step(s, i, op), run[1..]);
    }
  }

  /** What a user of the lock relies on. */
  ghost predicate Exclusion(s: State) {
    && (forall i | 0 <= i < |s.pcs| && s.pcs[i] == Reading :: s.stat == Read)
    && (forall i, j | 0 <= i < |s.pcs| && 0 <= j < |s.pcs| && s.pcs[i] == Writing && i != j ::
          s.stat == Write && s.pcs[j] != Writing && s.pcs[j] != Reading)
  }

  /** Readers/writer safety over all interleavings from a free lock: readers see READ, a
      writer is alone, and `waiting_readers` is the number of pending, waiting and active
      readers. */
  lemma Safety(n: nat, run: seq<(nat, Op)>)
    requires n < WORD
    requires var s := State(Free, 0, seq(n, _ => Idle)); IsRun(s, run) && AtomicRun(s, run)
    ensures var t := Run(State(Free, 0, seq(n, _ => Idle)), run);
            Exclusion(t) && t.waitingReaders == Readers(t.pcs)
  {
    var s := State(Free, 0, seq(n, _ => Idle));
    InvInit(n);
    RunInv(s, run);
    InvExclusion(Run(s, run));
  }

  lemma InvExclusion(s: State)
    requires Inv(s)
    ensures Exclusion(s)
  {
    forall i, j | 0 <= i < |s.pcs| && 0 <= j < |s.pcs| && s.pcs[i] == Writing && i != j
      ensures s.stat == Write && s.pcs[j] != Writing && s.pcs[j] != Reading
    {
      CountIn(s.pcs, Writing);
      if s.pcs[j] == Writing {
        CountTwo(s.pcs, if i < j then i else j, if i < j then j else i, Writing);
      }
    }
  }

  /** The assumption is exactly what is needed: from any state of the invariant, starting an
      `acquire_read` inside another context's release opens a run of three more steps after
      which a reader holds a lock that says it is free. */
  lemma OverlapBreaks(s: State, i: nat, j: nat)
    requires Inv(s) && i < |s.pcs| && j < |s.pcs|
    requires s.pcs[i] == Idle && s.pcs[j] == Clearing
    ensures var run := [(i, AcquireRead), (i, LoadStat), (j, ClearStat)];
            IsRun(s, run) && !AtomicRun(s, run) && !Exclusion(Run(s, run))
  {
    var s1 := Step(s, i, AcquireRead);
    var s2 := Step(s1, i, LoadStat);
    var s3 := Step(s2, j, ClearStat);
    assert s3.pcs[i] == Reading && s3.stat == Free;
    var rest: seq<(nat, Op)> := [(i, LoadStat), (j, ClearStat)];
    TwoSteps(s1, i, LoadStat, j, ClearStat);
    RunCons(s, i, AcquireRead, rest);
    assert [(i, AcquireRead)] + rest == [(i, AcquireRead), (i, LoadStat), (j, ClearStat)];
  }

  /** A run, read from its first step on. */
  lemma RunCons(s: State, i: nat, op: Op, rest: seq<(nat, Op)>)
    requires i < |s.pcs| && Enabled(s.pcs[i], op) && IsRun(Step(s, i, op), rest)
    ensures var run := [(i, op)] + rest;
            && IsRun(s, run) && Run(s, run) == Run(Step(s, i, op), rest)
            && (AtomicRun(s, run) <==> Atomic(s, op) && AtomicRun(Step(s, i, op), rest))
  {
    var run := [(i, op)] + rest;
    assert run[0] == (i, op) && run[1..] == rest;
  }

  lemma TwoSteps(s: State, i: nat, op: Op, j: nat, op': Op)
    requires i < |s.pcs| && Enabled(s.pcs[i], op)
    requires j < |Step(s, i, op).pcs| && Enabled(Step(s, i, op).pcs[j], op')
    ensures var run: seq<(nat, Op)> := [(i, op), (j, op')];
            && IsRun(s, run) && Run(s, run) == Step(Step(s, i, op), j, op')
            && (AtomicRun(s, run) <==> Atomic(s, op) && Atomic(Step(s, i, op), op'))
  {
    var t := Step(s, i, op);
    var last: seq<(nat, Op)> := [(j, op')];
    RunCons(t, j, op', []);
    assert [(j, op')] + [] == last;
    RunCons(s, i, op, last);
    assert [(i, op)] + last == [(i, op), (j, op')];
  }

  /** Exclusion holds now and after every atomic continuation. */
  ghost predicate SafeFrom(s: State) {
    forall run: seq<(nat, Op)> :: IsRun(s, run) && AtomicRun(s, run) ==> Exclusion(Run(s, run))
  }

  /** A step by step account of the condition: one step from the invariant keeps exclusion
      for every continuation that is atomic if and only if the step itself is atomic. */
  lemma StepSafeIffAtomic(s: State, i: nat, op: Op)
    requires Inv(s) && i < |s.pcs| && Enabled(s.pcs[i], op)
    ensures SafeFrom(Step(s, i, op)) <==> Atomic(s, op)
  {
    var s' := Step(s, i, op);
    if Atomic(s, op) {
      StepInv(s, i, op);
      forall run: seq<(nat, Op)> | IsRun(s', run) && AtomicRun(s', run) ensures Exclusion(Run(s', run)) {
        RunInv(s', run);
        InvExclusion(Run(s', run));
      }
    } else {
      var j :| 0 <= j < |s.pcs| && s.pcs[j] == Clearing;
      OverlapBreaks(s, i, j);
      var rest: seq<(nat, Op)> := [(i, LoadStat), (j, ClearStat)];
      TwoSteps(s', i, LoadStat, j, ClearStat);
      RunCons(s, i, op, rest);
      assert [(i, op)] + rest == [(i, AcquireRead), (i, LoadStat), (j, ClearStat)];
      assert !Exclusion(Run(s', rest));
    }
  }

  // ---------------------------------------------------------------- granting the lock

  /** A free lock is granted to a writer, and its release undoes that. */
  lemma WriteCycle(s: State, i: nat)
    requires i < |s.pcs| && s.pcs[i] == Idle && s.stat == Free
    ensures var run := [(i, SwapWrite)];
            IsRun(s, run) && Run(s, run) == State(Write, s.waitingReaders, s.pcs[i := Writing])
    ensures var run := [(i, SwapWrite), (i, ReleaseWrite)]; IsRun(s, run) && Run(s, run) == s
  {
    TwoSteps(s, i, SwapWrite, i, ReleaseWrite);
    RunCons(s, i, SwapWrite, []);
    assert [(i, SwapWrite)] + [] == [(i, SwapWrite)];
    assert s.pcs[i := Writing][i := Idle] == s.pcs;
  }

  /** A lock that readers hold is granted to one more. */
  lemma ReadJoins(s: State, i: nat)
    requires i < |s.pcs| && s.pcs[i] == Idle && s.stat == Read && s.waitingReaders + 1 < WORD
    ensures var run := [(i, AcquireRead), (i, LoadStat)];
            IsRun(s, run) && Run(s, run) == State(Read, s.waitingReaders + 1, s.pcs[i := Reading])
  {
    TwoSteps(s, i, AcquireRead, i, LoadStat);
    assert s.pcs[i := Pending][i := Reading] == s.pcs[i := Reading];
  }

  /** A free lock is granted to a reader. */
  lemma ReadFree(s: State, i: nat)
    requires i < |s.pcs| && s.pcs[i] == Idle && s.stat == Free && s.waitingReaders + 1 < WORD
    ensures var run := [(i, AcquireRead), (i, LoadStat), (i, SwapRead)];
            IsRun(s, run) && Run(s, run) == State(Read, s.waitingReaders + 1, s.pcs[i := Reading])
  {
    var t := Step(s, i, AcquireRead);
    var rest: seq<(nat, Op)> := [(i, LoadStat), (i, SwapRead)];
    TwoSteps(t, i, LoadStat, i, SwapRead);
    RunCons(s, i, AcquireRead, rest);
    assert [(i, AcquireRead)] + rest == [(i, AcquireRead), (i, LoadStat), (i, SwapRead)];
    assert s.pcs[i := Pending][i := Retrying][i := Reading] == s.pcs[i := Reading];
  }

  /** The release of the last reader frees the lock, that of another one does not. */
  lemma ReadReleased(s: State, i: nat)
    requires i < |s.pcs| && s.pcs[i] == Reading && s.stat == Read && 1 <= s.waitingReaders
    ensures var t := Step(s, i, ReleaseRead);
            if s.waitingReaders > 1 then t == State(Read, s.waitingReaders - 1, s.pcs[i := Idle])
            else t.pcs[i] == Clearing && Step(t, i, ClearStat) == State(Free, 0, s.pcs[i := Idle])
  {
    assert s.pcs[i := Clearing][i := Idle] == s.pcs[i := Idle];
  }

  /** The lock never leaks: over all interleavings, once every context is idle again the lock
      is as it was at the start, free and with nobody counted. */
  lemma NoLeak(n: nat, run: seq<(nat, Op)>)
    requires n < WORD
    requires var s := State(Free, 0, seq(n, _ => Idle)); IsRun(s, run) && AtomicRun(s, run)
    ensures var s := State(Free, 0, seq(n, _ => Idle));
            (forall i | 0 <= i < |Run(s, run).pcs| :: Run(s, run).pcs[i] == Idle) ==> Run(s, run) == s
  {
    var s := State(Free, 0, seq(n, _ => Idle));
    var t := Run(s, run);
    InvInit(n);
    RunInv(s, run);
    RunSize(s, run);
    if forall i | 0 <= i < |t.pcs| :: t.pcs[i] == Idle {
      AllIdle(t.pcs);
      CountIn(t.pcs, Writing);
      CountIn(t.pcs, Clearing);
      assert t.pcs == s.pcs;
    }
  }

  lemma {:induction false} RunSize(s: State, run: seq<(nat, Op)>)
    requires IsRun(s, run)
    ensures |Run(s, run).pcs| == |s.pcs|
    decreases |run|
  {
    if run != [] { RunSize(Step(s, run[0].0, run[0].1), run[1..]); }
  }

  // ---------------------------------------------------------------- wait and signal

  lemma {:induction false} ReaderCounts(pcs: seq<Pc>, c: nat)
    requires c < |pcs| && IsReader(pcs[c])
    ensures Readers(pcs) > 0
  {
    if c > 0 { ReaderCounts(pcs[1..], c - 1); }
  }

  /** A test that fails leaves the lock as it was and the context where it has to try again. */
  lemma Refused(s: State, i: nat)
    requires i < |s.pcs|
    ensures s.pcs[i] == Idle && s.stat != Free ==> Step(s, i, SwapWrite) == s
    ensures s.pcs[i] == Retrying && s.stat != Free ==> Step(s, i, SwapRead) == s.(pcs := s.pcs[i := Pending])
    ensures s.pcs[i] == Pending && s.stat != Read ==> Step(s, i, LoadStat) == s.(pcs := s.pcs[i := Retrying])
    ensures s.pcs[i] == Idle && s.stat == Read ==> Step(s, i, EnterWait) == s
    ensures s.pcs[i] == Waiting && s.stat != Read ==> Step(s, i, WakeWait) == s
  {
  }

  /** `wait` waits for something new: a context that has entered it found the lock not with the
      readers, and stays there through every run in which nobody signals and no reader takes a
      free lock. */
  lemma {:induction false} WaitBlocks(s: State, run: seq<(nat, Op)>, c: nat)
    requires c < |s.pcs| && s.pcs[c] == Waiting && s.stat != Read && IsRun(s, run)
    requires forall k | 0 <= k < |run| :: run[k].1 != Signal && run[k].1 != SwapRead
    ensures c < |Run(s, run).pcs| && Run(s, run).pcs[c] == Waiting && Run(s, run).stat != Read
    decreases |run|
  {
    if run != [] {
      assert run[0].1 != Signal && run[0].1 != SwapRead;
      WaitBlocks(Step(s, run[0].0, run[0].1), run[1..], c);
    }
  }

  lemma EntersWait(s: State, i: nat)
    requires i < |s.pcs| && s.pcs[i] == Idle && s.stat != Read && s.waitingReaders + 1 < WORD
    ensures Step(s, i, EnterWait) == State(s.stat, s.waitingReaders + 1, s.pcs[i := Waiting])
  {
  }

  /** No wake-up is lost: once a signal has given the lock to the readers, it stays theirs
      until a waiting context has taken its own step, whatever the others do. */
  lemma {:induction false} HandOff(s: State, run: seq<(nat, Op)>, c: nat)
    requires Inv(s) && IsRun(s, run) && AtomicRun(s, run)
    requires c < |s.pcs| && IsReader(s.pcs[c]) && s.stat == Read
    requires forall k | 0 <= k < |run| :: run[k].0 != c
    ensures var t := Run(s, run);
            t.stat == Read && c < |t.pcs| && t.pcs[c] == s.pcs[c]
    decreases |run|
  {
    if run != [] {
      var (i, op) := run[0];
      ReaderCounts(s.pcs, c);
      CountIn(s.pcs, Writing);
      assert run[0].0 != c;
      StepInv(s, i, op);
      HandOff(Step(s, i, op), run[1..], c);
    }
  }

  /** The signal itself: a waiting context finds READ afterwards and so becomes a reader. */
  lemma SignalWakes(s: State, i: nat, c: nat, run: seq<(nat, Op)>)
    requires Inv(s) && i < |s.pcs| && s.pcs[i] == Writing
    requires c < |s.pcs| && s.pcs[c] == Waiting
    requires var t := Step(s, i, Signal); IsRun(t, run) && AtomicRun(t, run)
    requires forall k | 0 <= k < |run| :: run[k].0 != c
    ensures var t := Run(Step(s, i, Signal), run);
            c < |t.pcs| && t.pcs[c] == Waiting && Step(t, c, WakeWait).pcs[c] == Reading
  {
    ReaderCounts(s.pcs, c);
    StepInv(s, i, Signal);
    HandOff(Step(s, i, Signal), run, c);
  }
}
