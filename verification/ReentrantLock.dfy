/**
 The reentrant lock of src/common/sync.c as interleaved steps.  `acquire` and `release` run
 with the scheduler locked and give up the processor only between two tries of the
 compare-and-exchange, so each try is one step.
 */
module ReentrantLock {
  import opened Common

  /** A context outside of `acquire`, or one that spins inside of it. */
  datatype Pc = Out | Spinning

  /** Context `i` has id `ids[i]`; `depth[i]` counts its acquires not yet released. */
  datatype State = State(owner: nat, cnt: nat, ids: seq<nat>, pcs: seq<Pc>, depth: seq<nat>)

  datatype Op = Acquire | Try | Release

  function Init(ids: seq<nat>): State {
    State(0, 0, ids, seq(|ids|, _ => Out), seq(|ids|, _ => 0))
  }

  predicate WellFormed(s: State) {
    |s.ids| == |s.pcs| == |s.depth|
  }

  /** Only a context that holds the lock releases it. */
  predicate Enabled(s: State, i: nat, op: Op)
    requires WellFormed(s) && i < |s.pcs|
  {
    match op
    case Acquire => s.pcs[i] == Out
    case Try => s.pcs[i] == Spinning
    case Release => s.pcs[i] == Out && s.depth[i] > 0
  }

  function CompareAndExchange(s: State, i: nat): State
    requires WellFormed(s) && i < |s.pcs|
  {
    if s.owner == 0 then
      s.(owner := s.ids[i], cnt := 1, pcs := s.pcs[i := Out], depth := s.depth[i := s.depth[i] + 1])
    else
      s.(pcs := s.pcs[i := Spinning])
  }

  function Step(s: State, i: nat, op: Op): (s': State)
    requires WellFormed(s) && i < |s.pcs| && Enabled(s, i, op)
    ensures WellFormed(s') && s'.ids == s.ids
  {
    match op
    case Acquire =>
      if s.owner == s.ids[i] then s.(cnt := (s.cnt + 1) % WORD, depth := s.depth[i := s.depth[i] + 1])
      else CompareAndExchange(s, i)
    case Try => CompareAndExchange(s, i)
    case Release =>
      var cnt := if s.cnt == 0 then WORD - 1 else s.cnt - 1;
      s.(cnt := cnt, owner := if cnt == 0 then 0 else s.owner, depth := s.depth[i := s.depth[i] - 1])
  }

  /** Runs; nobody nests 2^32 acquires. */
  ghost predicate IsRun(s: State, run: seq<(nat, Op)>)
    requires WellFormed(s)
    decreases |run|
  {
    run == [] ||
    (var (i, op) := run[0];
     && i < |s.pcs| && Enabled(s, i, op)
     && (op == Acquire ==> s.depth[i] + 1 < WORD)
     && IsRun(Step(s, i, op), run[1..]))
  }

  ghost function Run(s: State, run: seq<(nat, Op)>): (t: State)
    requires WellFormed(s) && IsRun(s, run)
    ensures WellFormed(t)
    decreases |run|
  {
    if run == [] then s else Run(Step(s, run[0].0, run[0].1), run[1..])
  }

  /** 0 means "free", so ids have to be nonzero, and two contexts must not share one. */
  predicate GoodIds(ids: seq<nat>) {
    && (forall i | 0 <= i < |ids| :: ids[i] != 0)
    && (forall i, j | 0 <= i < j < |ids| :: ids[i] != ids[j])
  }

  /** The lock agrees with the outstanding acquires: the owner is nonzero exactly while the
      count is, the count is the owner's outstanding acquires, and no two contexts hold the
      lock at once. */
  ghost predicate Safe(s: State)
    requires WellFormed(s)
  {
    && (s.owner != 0 <==> s.cnt > 0)
    && (forall i | 0 <= i < |s.depth| :: s.depth[i] > 0 <==> (s.owner != 0 && s.owner == s.ids[i]))
    && (forall i | 0 <= i < |s.depth| && s.depth[i] > 0 :: s.cnt == s.depth[i])
    && (forall i, j | 0 <= i < j < |s.depth| :: s.depth[i] == 0 || s.depth[j] == 0)
  }

  ghost predicate Inv(s: State) {
    && WellFormed(s) && GoodIds(s.ids)
    && (s.owner == 0 <==> s.cnt == 0)
    && (s.owner != 0 ==> s.owner in s.ids)
    && (forall i | 0 <= i < |s.depth| :: s.depth[i] == if s.ids[i] == s.owner then s.cnt else 0)
    && (forall i | 0 <= i < |s.depth| && s.depth[i] > 0 :: s.pcs[i] == Out)
  }

  lemma StepInv(s: State, i: nat, op: Op)
    requires Inv(s) && i < |s.pcs| && Enabled(s, i, op)
    requires op == Acquire ==> s.depth[i] + 1 < WORD
    ensures Inv(Step(s, i, op))
  {
    assert s.ids[i] in s.ids;
  }

  lemma {:induction false} RunInv(s: State, run: seq<(nat, Op)>)
    requires Inv(s) && IsRun(s, run)
    ensures Inv(Run(s, run))
    decreases |run|
  {
    if run != [] {
      StepInv(s, run[0].0, run[0].1);
      RunInv(Step(s, run[0].0, run[0].1), run[1..]);
    }
  }

  lemma InvSafe(s: State)
    requires Inv(s)
    ensures Safe(s)
  {
  }

  ghost predicate AlwaysSafe(ids: seq<nat>) {
    forall run: seq<(nat, Op)> :: IsRun(Init(ids), run) ==> Safe(Run(Init(ids), run))
  }

  /** The lock is safe over all runs if and only if the ids are unique and nonzero. */
  lemma SafetyIff(ids: seq<nat>)
    ensures AlwaysSafe(ids) <==> GoodIds(ids)
  {
    var s := Init(ids);
    if GoodIds(ids) {
      forall run: seq<(nat, Op)> | IsRun(s, run) ensures Safe(Run(s, run)) {
        RunInv(s, run);
        InvSafe(Run(s, run));
      }
    } else if exists i :: 0 <= i < |ids| && ids[i] == 0 {
      var i :| 0 <= i < |ids| && ids[i] == 0;
      ZeroIdBreaks(ids, i);
    } else {
      var i, j :| 0 <= i < j < |ids| && ids[i] == ids[j];
      SharedIdBreaks(ids, i, j);
    }
  }

  /** The lock never leaks: over all runs, once every acquire has been released the lock is
      free, and the next context that tries gets it. */
  lemma NoLeak(ids: seq<nat>, run: seq<(nat, Op)>, i: nat, op: Op)
    requires GoodIds(ids) && IsRun(Init(ids), run) && i < |ids|
    requires forall j | 0 <= j < |Run(Init(ids), run).depth| :: Run(Init(ids), run).depth[j] == 0
    ensures var s := Run(Init(ids), run);
            && s.owner == 0 && s.cnt == 0 && |s.pcs| == |ids|
            && (op == (if s.pcs[i] == Out then Acquire else Try) ==>
                var t := Step(s, i, op);
                t.owner == ids[i] && t.cnt == 1 && t.pcs[i] == Out && t.depth == s.depth[i := 1])
  {
    var s := Run(Init(ids), run);
    RunInv(Init(ids), run);
    RunIds(Init(ids), run);
    OwnerHolds(s);
  }

  lemma OwnerHolds(s: State)
    requires Inv(s)
    ensures s.owner != 0 ==> exists j | 0 <= j < |s.depth| :: s.depth[j] > 0
  {
    if s.owner != 0 {
      var j :| 0 <= j < |s.ids| && s.ids[j] == s.owner;
      assert s.depth[j] == s.cnt;
    }
  }

  lemma {:induction false} RunIds(s: State, run: seq<(nat, Op)>)
    requires WellFormed(s) && IsRun(s, run)
    ensures Run(s, run).ids == s.ids
    decreases |run|
  {
    if run != [] { RunIds(Step(s, run[0].0, run[0].1), run[1..]); }
  }

  /** Only the owner gets past another acquire while the lock is held, and it gets one deeper. */
  lemma HeldLock(s: State, i: nat)
    requires Inv(s) && i < |s.pcs| && s.pcs[i] == Out && s.owner != 0 && s.depth[i] + 1 < WORD
    ensures var t := Step(s, i, Acquire);
            && t.owner == s.owner
            && (if s.ids[i] == s.owner then t.depth[i] == s.depth[i] + 1 == t.cnt && t.pcs[i] == Out
                else t.depth == s.depth && t.cnt == s.cnt && t.pcs[i] == Spinning)
  {
  }

  /** A context with id 0 "owns" the free lock: its acquire only raises the count. */
  lemma ZeroIdBreaks(ids: seq<nat>, i: nat)
    requires i < |ids| && ids[i] == 0
    ensures !AlwaysSafe(ids)
  {
    var s := Init(ids);
    var run: seq<(nat, Op)> := [(i, Acquire)];
    assert run[1..] == [];
    assert IsRun(s, run);
    assert Run(s, run) == Step(s, i, Acquire);
  }

  lemma SharedIdBreaks(ids: seq<nat>, i: nat, j: nat)
    requires i < j < |ids| && ids[i] == ids[j] != 0
    ensures !AlwaysSafe(ids)
  {
    var s := Init(ids);
    var run: seq<(nat, Op)> := [(i, Acquire), (j, Acquire)];
    var run': seq<(nat, Op)> := [(j, Acquire)];
    var s1 := Step(s, i, Acquire);
    assert run[1..] == run' && run'[1..] == [];
    assert IsRun(s1, run') && Run(s1, run') == Step(s1, j, Acquire);
    assert IsRun(s, run) && Run(s, run) == Run(s1, run');
    var t := Run(s, run);
    assert t.depth[i] == 1 && t.depth[j] == 1;
    assert !Safe(t);
  }
}
