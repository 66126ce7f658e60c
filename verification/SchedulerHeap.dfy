/**
 The kernel's own lists: contexts linked through one `next` field, with `next_ctx` and
 `last_ctx` at the ends of the ready queue and `first_sleeping_ctx` at the head of the
 sleep list (src/common/scheduler.c, src/common/context.c, src/kernel/sleep.c,
 src/kernel/hpet.c).  A `struct context *` is an address, null is 0, and each field of the
 structure is a table indexed by address, so the pointer code is kept assignment by
 assignment.  Every method is proved to take the step of `SchedulerModel`.
 */
module SchedulerHeap {
  import opened Common
  import opened SchedulerModel

  type Ptr = nat

  const NULL: Ptr := 0

  /** `cs` is the whole list that starts at `p`. */
  predicate Linked(next: map<Ptr, Ptr>, p: Ptr, cs: seq<Ptr>)
    decreases |cs|
  {
    if cs == [] then p == NULL
    else p == cs[0] && p != NULL && p in next && Linked(next, next[p], cs[1..])
  }

  lemma {:induction false} LinkedFrame(next: map<Ptr, Ptr>, next': map<Ptr, Ptr>, p: Ptr, cs: seq<Ptr>)
    requires Linked(next, p, cs)
    requires forall c | c in cs :: c in next && c in next' ==> next[c] == next'[c]
    requires forall c | c in cs :: c in next'
    ensures Linked(next', p, cs)
    decreases |cs|
  {
    if cs != [] {
      LinkedFrame(next, next', next[p], cs[1..]);
    }
  }

  /** A list keeps its shape when a link outside it is written. */
  lemma LinkedOther(next: map<Ptr, Ptr>, p: Ptr, cs: seq<Ptr>, q: Ptr, v: Ptr)
    requires Linked(next, p, cs) && q !in cs
    ensures Linked(next[q := v], p, cs)
  {
    LinkedIn(next, p, cs);
    LinkedFrame(next, next[q := v], p, cs);
  }

  lemma {:induction false} LinkedIn(next: map<Ptr, Ptr>, p: Ptr, cs: seq<Ptr>)
    requires Linked(next, p, cs)
    ensures forall c | c in cs :: c in next && c != NULL
    decreases |cs|
  {
    if cs != [] {
      assert cs == [cs[0]] + cs[1..];
      LinkedIn(next, next[p], cs[1..]);
    }
  }

  /** Writing the last link and ending the new node with null appends one node. */
  lemma {:induction false} LinkedAppend(next: map<Ptr, Ptr>, p: Ptr, cs: seq<Ptr>, c: Ptr)
    requires Linked(next, p, cs) && cs != [] && NoDup(cs)
    requires c != NULL && c !in cs
    ensures Linked(next[cs[|cs| - 1] := c][c := NULL], p, cs + [c])
    decreases |cs|
  {
    var last := cs[|cs| - 1];
    var next' := next[last := c][c := NULL];
    var tail := cs[1..];
    assert (cs + [c])[1..] == tail + [c];
    if tail == [] {
      assert Linked(next', c, [c]);
    } else {
      assert tail[|tail| - 1] == last && last in tail;
      LinkedAppend(next, next[p], tail, c);
    }
  }

  /** Taking node `k` out: its predecessor, or the head, takes over its link. */
  lemma {:induction false} LinkedRemove(next: map<Ptr, Ptr>, p: Ptr, cs: seq<Ptr>, k: nat)
    requires Linked(next, p, cs) && NoDup(cs) && k < |cs|
    requires cs[k] in next
    ensures k == 0 ==> Linked(next, next[cs[0]], cs[1..])
    ensures k > 0 ==> Linked(next[cs[k - 1] := next[cs[k]]], p, cs[..k] + cs[k + 1..])
    decreases |cs|
  {
    if k > 0 {
      var tail := cs[1..];
      var out := cs[..k] + cs[k + 1..];
      if k == 1 {
        assert out[1..] == tail[1..];
        assert cs[0] !in tail[1..];
        LinkedOther(next, next[cs[1]], tail[1..], cs[0], next[cs[1]]);
      } else {
        LinkedRemove(next, next[p], tail, k - 1);
        assert out[1..] == tail[..k - 1] + tail[k..];
        assert tail[k - 2] == cs[k - 1] && cs[k - 1] in tail;
      }
    }
  }

  /** A prefix of `sl` is decremented, and element `k` dropped, whose alarm reaches zero. */
  predicate Ticked<T(==)>(sl: seq<(T, nat)>, k: nat, out: seq<(T, nat)>) {
    && k <= |sl| && |out| == (if k < |sl| then |sl| - 1 else |sl|)
    && (forall i | 0 <= i < k :: Dec(sl[i].1) != 0 && out[i] == (sl[i].0, Dec(sl[i].1)))
    && (k < |sl| ==> Dec(sl[k].1) == 0)
    && (forall i | k <= i < |out| :: out[i] == sl[i + 1])
  }

  /** `TickList` by index: it decrements a prefix and drops the first alarm that reaches
      zero. */
  lemma {:induction false} TickListByIndex<T>(sl: seq<(T, nat)>, k: nat, out: seq<(T, nat)>)
    requires Ticked(sl, k, out)
    ensures TickList(sl) == (out, if k < |sl| then Some(sl[k].0) else None)
  {
    if sl == [] {
    } else if k == 0 {
      assert out == sl[1..];
    } else {
      TickListByIndex(sl[1..], k - 1, out[1..]);
      assert out == [out[0]] + out[1..];
    }
  }

  function Alarms(alarm: map<Ptr, nat>, cs: seq<Ptr>): (r: seq<(Ptr, nat)>)
    ensures |r| == |cs| && forall i | 0 <= i < |cs| :: r[i] == (cs[i], Lookup(alarm, cs[i]))
  {
    if cs == [] then [] else [(cs[0], Lookup(alarm, cs[0]))] + Alarms(alarm, cs[1..])
  }

  lemma {:induction false} AlarmsOther(alarm: map<Ptr, nat>, cs: seq<Ptr>, c: Ptr, a: nat)
    requires c !in cs
    ensures Alarms(alarm[c := a], cs) == Alarms(alarm, cs)
  {
    if cs != [] { AlarmsOther(alarm, cs[1..], c, a); }
  }

  lemma AlarmsPush(alarm: map<Ptr, nat>, cs: seq<Ptr>, c: Ptr, a: nat)
    requires c !in cs
    ensures Alarms(alarm[c := a], [c] + cs) == [(c, a)] + Alarms(alarm, cs)
  {
    AlarmsOther(alarm, cs, c, a);
    assert ([c] + cs)[1..] == cs;
  }

  /** The list after `sleep_tick` counted down to node `k`, as `TickList` gives it. */
  lemma TickedAlarms(alarm: map<Ptr, nat>, alarm': map<Ptr, nat>, cs: seq<Ptr>, k: nat)
    requires k <= |cs|
    requires forall i | 0 <= i < |cs| :: Lookup(alarm', cs[i]) ==
               if i <= k then Dec(Lookup(alarm, cs[i])) else Lookup(alarm, cs[i])
    requires forall i | 0 <= i < k :: Lookup(alarm', cs[i]) != 0
    requires k < |cs| ==> Lookup(alarm', cs[k]) == 0
    ensures TickList(Alarms(alarm, cs)) ==
            if k < |cs| then (Alarms(alarm', cs[..k] + cs[k + 1..]), Some(cs[k])) else (Alarms(alarm', cs), None)
  {
    var rest := if k < |cs| then cs[..k] + cs[k + 1..] else cs;
    TickedPairs(alarm, alarm', cs, k, rest, Alarms(alarm, cs), Alarms(alarm', rest));
    TickListByIndex(Alarms(alarm, cs), k, Alarms(alarm', rest));
  }

  lemma TickedPairs(alarm: map<Ptr, nat>, alarm': map<Ptr, nat>, cs: seq<Ptr>, k: nat, rest: seq<Ptr>,
      sl: seq<(Ptr, nat)>, out: seq<(Ptr, nat)>)
    requires k <= |cs| && rest == if k < |cs| then cs[..k] + cs[k + 1..] else cs
    requires |sl| == |cs| && forall i | 0 <= i < |cs| :: sl[i] == (cs[i], Lookup(alarm, cs[i]))
    requires |out| == |rest| && forall i | 0 <= i < |rest| :: out[i] == (rest[i], Lookup(alarm', rest[i]))
    requires forall i | 0 <= i < |cs| :: Lookup(alarm', cs[i]) ==
               if i <= k then Dec(Lookup(alarm, cs[i])) else Lookup(alarm, cs[i])
    requires forall i | 0 <= i < k :: Lookup(alarm', cs[i]) != 0
    requires k < |cs| ==> Lookup(alarm', cs[k]) == 0
    ensures Ticked(sl, k, out)
  {
    forall i | 0 <= i < |rest| ensures rest[i] == cs[if i < k then i else i + 1] { }
  }

  lemma {:induction false} NoDupIndex<T>(q: seq<T>, i: nat, j: nat)
    requires NoDup(q) && i < j < |q|
    ensures q[i] != q[j]
  {
    if i == 0 {
      assert q[j] == q[1..][j - 1];
    } else {
      NoDupIndex(q[1..], i - 1, j - 1);
    }
  }

  lemma {:induction false} NoDupRemove<T>(q: seq<T>, k: nat)
    requires NoDup(q) && k < |q|
    ensures NoDup(q[..k] + q[k + 1..]) && q[k] !in q[..k] + q[k + 1..]
  {
    if k == 0 {
      assert q[..k] + q[k + 1..] == q[1..];
    } else {
      NoDupRemove(q[1..], k - 1);
      assert (q[..k] + q[k + 1..])[1..] == q[1..][..k - 1] + q[1..][k..];
      assert q[k] == q[1..][k - 1];
    }
  }

  lemma {:induction false} NoDupAppend<T>(q: seq<T>, c: T)
    requires NoDup(q) && c !in q
    ensures NoDup(q + [c])
  {
    if q != [] {
      NoDupAppend(q[1..], c);
      assert (q + [c])[1..] == q[1..] + [c];
    }
  }

  /** The link structure of the scheduler.  When the queue has run empty `last_ctx` is
      stale: it was never set, or it still names some context that is not asleep. */
  predicate Shape(active: Ptr, head: Ptr, last: Ptr, first: Ptr, next: map<Ptr, Ptr>, ready: seq<Ptr>,
      sleepers: seq<Ptr>)
  {
    && active != NULL && active in next
    && active !in ready && active !in sleepers
    && Linked(next, head, ready)
    && Linked(next, first, sleepers)
    && NoDup(ready) && NoDup(sleepers)
    && (forall c | c in ready :: c !in sleepers)
    && (if ready != [] then last == ready[|ready| - 1] else last !in sleepers)
  }

  /** `create_context` on an empty ready queue. */
  lemma ShapeCreateFirst(active: Ptr, head: Ptr, last: Ptr, first: Ptr, next: map<Ptr, Ptr>, ready: seq<Ptr>,
      sleepers: seq<Ptr>, c: Ptr)
    requires Shape(active, head, last, first, next, ready, sleepers) && head == NULL
    requires c != NULL && c != active && c !in ready && c !in sleepers
    ensures Shape(active, c, c, first, next[c := NULL][active := c], ready + [c], sleepers)
  {
    LinkedOther(next, first, sleepers, c, NULL);
    LinkedOther(next[c := NULL], first, sleepers, active, c);
  }

  /** `last_ctx->next = c` for a context on neither list. */
  lemma ShapeAppend(active: Ptr, head: Ptr, last: Ptr, first: Ptr, next: map<Ptr, Ptr>, ready: seq<Ptr>,
      sleepers: seq<Ptr>, c: Ptr)
    requires Shape(active, head, last, first, next, ready, sleepers) && head != NULL
    requires c != NULL && c != active && c !in ready && c !in sleepers
    ensures Shape(active, head, c, first, next[c := NULL][last := c], ready + [c], sleepers)
  {
    assert last in ready;
    LinkedAppend(next, head, ready, c);
    LinkedOther(next, first, sleepers, c, NULL);
    LinkedOther(next[c := NULL], first, sleepers, last, c);
    assert next[last := c][c := NULL] == next[c := NULL][last := c];
    NoDupAppend(ready, c);
  }

  lemma ShapeSchedule(active: Ptr, head: Ptr, last: Ptr, first: Ptr, next: map<Ptr, Ptr>, ready: seq<Ptr>,
      sleepers: seq<Ptr>)
    requires Shape(active, head, last, first, next, ready, sleepers) && head != NULL
    ensures ready != [] && head == ready[0] && head in next
    ensures Shape(head, next[head], last, first, next, ready[1..], sleepers)
  {
  }

  lemma ShapePreempt(active: Ptr, head: Ptr, last: Ptr, first: Ptr, next: map<Ptr, Ptr>, ready: seq<Ptr>,
      sleepers: seq<Ptr>)
    requires Shape(active, head, last, first, next, ready, sleepers) && head != NULL
    ensures ready != [] && head == ready[0] && head in next
    ensures var next' := next[active := NULL][last := active];
            Shape(head, next'[head], active, first, next', ready[1..] + [active], sleepers)
  {
    assert last in ready;
    LinkedAppend(next, head, ready, active);
    LinkedOther(next, first, sleepers, active, NULL);
    LinkedOther(next[active := NULL], first, sleepers, last, active);
    assert next[last := active][active := NULL] == next[active := NULL][last := active];
    NoDupAppend(ready, active);
    assert (ready + [active])[1..] == ready[1..] + [active];
  }

  lemma ShapeSleep(active: Ptr, head: Ptr, last: Ptr, first: Ptr, next: map<Ptr, Ptr>, ready: seq<Ptr>,
      sleepers: seq<Ptr>)
    requires Shape(active, head, last, first, next, ready, sleepers)
    ensures var next', asleep := next[active := first], [active] + sleepers;
            if head != NULL then
              && ready != [] && head == ready[0] && head in next'
              && Shape(head, next'[head], last, active, next', ready[1..], asleep)
            else
              ready == [] && !Shape(active, head, last, active, next', ready, asleep)
  {
    LinkedOther(next, head, ready, active, first);
    LinkedOther(next, first, sleepers, active, first);
    assert ([active] + sleepers)[1..] == sleepers;
    assert ([active] + sleepers)[0] == active;
  }

  /** The three link writes of a wake-up, for sleeper `k`. */
  lemma ShapeWake(active: Ptr, head: Ptr, last: Ptr, first: Ptr, next: map<Ptr, Ptr>, ready: seq<Ptr>,
      sleepers: seq<Ptr>, k: nat)
    requires Shape(active, head, last, first, next, ready, sleepers)
    requires k < |sleepers|
    ensures var c, rest := sleepers[k], sleepers[..k] + sleepers[k + 1..];
            var next1 := next[last := c];
            && c in next1 && (k > 0 ==> sleepers[k - 1] != NULL)
            && (var next2 := (if k == 0 then next1 else next1[sleepers[k - 1] := next1[c]])[c := NULL];
                Shape(active, head, c, if k == 0 then next1[c] else first, next2,
                      if ready == [] then [] else ready + [c], rest))
  {
    var c, rest := sleepers[k], sleepers[..k] + sleepers[k + 1..];
    assert ready != [] ==> last in ready;
    LinkedIn(next, first, sleepers);
    assert c in sleepers && (k > 0 ==> sleepers[k - 1] in sleepers);
    NoDupRemove(sleepers, k);
    LinkedOther(next, first, sleepers, last, c);
    var next1 := next[last := c];
    LinkedRemove(next1, first, sleepers, k);
    var mid := if k == 0 then next1 else next1[sleepers[k - 1] := next1[c]];
    assert k == 0 ==> rest == sleepers[1..];
    LinkedOther(mid, if k == 0 then next1[c] else first, rest, c, NULL);
    if ready != [] {
      WakeAppend(head, next, ready, c, if k == 0 then c else sleepers[k - 1], mid);
    }
  }

  /** The ready queue of a wake-up: `mid` differs from the appended links at `q` only. */
  lemma WakeAppend(head: Ptr, next: map<Ptr, Ptr>, ready: seq<Ptr>, c: Ptr, q: Ptr, mid: map<Ptr, Ptr>)
    requires Linked(next, head, ready) && NoDup(ready) && ready != []
    requires c != NULL && c !in ready && q !in ready
    requires var next1 := next[ready[|ready| - 1] := c];
             mid == next1 || (q in mid && mid == next1[q := mid[q]])
    ensures Linked(mid[c := NULL], head, ready + [c]) && NoDup(ready + [c])
  {
    var appended := next[ready[|ready| - 1] := c][c := NULL];
    LinkedAppend(next, head, ready, c);
    LinkedIn(appended, head, ready + [c]);
    LinkedFrame(appended, mid[c := NULL], head, ready + [c]);
    NoDupAppend(ready, c);
  }

  /** The steps of the machine, read off their parts. */
  lemma TickIs<T>(s: State<T>, rest: seq<(T, nat)>, woken: Option<T>, ready: seq<T>)
    requires TickList(s.sleepers) == (rest, woken)
    requires ready == if woken.Some? && s.ready != [] then s.ready + [woken.value] else s.ready
    ensures SchedulerModel.SleepTick(s) == s.(sleepers := rest, ready := ready)
  {
  }

  lemma SleepIs<T>(s: State<T>, millis: nat, t: State<T>)
    requires t.sleepers == [(s.active, millis)] + s.sleepers && t.slices == s.slices && t.priority == s.priority
    requires if s.ready == [] then t.active == s.active && t.ready == s.ready
             else t.active == s.ready[0] && t.ready == s.ready[1..]
    ensures t == SleepStep(s, millis)
  {
  }

  class Scheduler {
    var activeCtx: Ptr
    var nextCtx: Ptr
    var lastCtx: Ptr
    var firstSleeping: Ptr

    // the fields of `struct context`
    var next: map<Ptr, Ptr>
    var alarm: map<Ptr, nat>
    var slices: map<Ptr, nat>
    var priority: map<Ptr, nat>

    ghost var ready: seq<Ptr>
    ghost var sleepers: seq<Ptr>

    ghost predicate Valid()
      reads this
    {
      Shape(activeCtx, nextCtx, lastCtx, firstSleeping, next, ready, sleepers)
    }

    /** The state of the machine that the links stand for. */
    ghost function View(): State<Ptr>
      reads this
    {
      State(activeCtx, ready, Alarms(alarm, sleepers), slices, priority)
    }

    /** `init_first_ctx`. */
    constructor (first: Ptr)
      requires first != NULL
      ensures Valid()
      ensures View() == State(first, [], [], map[first := 0], map[first := 1])
    {
      activeCtx := first;
      nextCtx, lastCtx, firstSleeping := NULL, NULL, NULL;
      next, alarm := map[first := NULL], map[];
      slices, priority := map[first := 0], map[first := 1];
      ready, sleepers := [], [];
    }

    /** The ready-queue append of `create_context` for a structure fresh from `kmalloc`. */
    method CreateContext(c: Ptr, prio: nat)
      requires Valid()
      requires c != NULL && c != activeCtx && c !in ready && c !in sleepers
      modifies this
      ensures Valid()
      ensures View() == CreateStep(old(View()), c, prio)
    {
      ghost var links := next;
      priority := priority[c := prio];
      slices := slices[c := 0];
      next := next[c := NULL];
      if nextCtx == NULL {
        ShapeCreateFirst(activeCtx, nextCtx, lastCtx, firstSleeping, links, ready, sleepers, c);
        next := next[activeCtx := c];
        nextCtx := c;
        lastCtx := c;
      } else {
        ShapeAppend(activeCtx, nextCtx, lastCtx, firstSleeping, links, ready, sleepers, c);
        next := next[lastCtx := c];
        lastCtx := c;
      }
      ready := ready + [c];
    }

    /** `schedule`, with `context_switch` as the assignment of `active_ctx`. */
    method Schedule()
      requires Valid()
      modifies this`activeCtx, this`nextCtx, this`ready
      ensures Valid()
      ensures View() == SchedulerModel.Schedule(old(View()))
    {
      if nextCtx != NULL {
        ShapeSchedule(activeCtx, nextCtx, lastCtx, firstSleeping, next, ready, sleepers);
        var ctx := nextCtx;
        nextCtx := next[nextCtx];
        activeCtx := ctx;
        ready := ready[1..];
      }
    }

    /** `preempt`. */
    method Preempt()
      requires Valid()
      modifies this
      ensures Valid()
      ensures View() == SchedulerModel.Preempt(old(View()))
    {
      if nextCtx != NULL {
        var ctx := nextCtx;
        ShapePreempt(activeCtx, nextCtx, lastCtx, firstSleeping, next, ready, sleepers);
        next := next[activeCtx := NULL];
        next := next[lastCtx := activeCtx];
        lastCtx := next[lastCtx];
        nextCtx := next[nextCtx];
        ready := ready[1..] + [activeCtx];
        activeCtx := ctx;
      }
    }

    /** `terminate`. */
    method Terminate()
      requires Valid()
      modifies this
      ensures Valid()
      ensures View() == SchedulerModel.Schedule(old(View()))
    {
      Schedule();
    }

    /** `sleep_millis`.  With an empty ready queue the caller stays active while it is also
        on the sleep list, as `SchedulerModel.StepConserves` says: then the lists are no
        longer valid. */
    method SleepMillis(millis: nat)
      requires Valid()
      modifies this`next, this`firstSleeping, this`alarm, this`sleepers, this`nextCtx, this`activeCtx, this`ready
      ensures Valid() <==> old(nextCtx) != NULL
      ensures View() == SleepStep(old(View()), millis)
    {
      ghost var was := View();
      ShapeSleep(activeCtx, nextCtx, lastCtx, firstSleeping, next, ready, sleepers);
      AlarmsPush(alarm, sleepers, activeCtx, millis);
      next := next[activeCtx := firstSleeping];
      firstSleeping := activeCtx;
      alarm := alarm[firstSleeping := millis];
      sleepers := [activeCtx] + sleepers;
      if nextCtx != NULL {
        var ctx := nextCtx;
        nextCtx := next[nextCtx];
        activeCtx := ctx;
        ready := ready[1..];
      }
      SleepIs(was, millis, View());
    }

    /** The loop of `sleep_tick` up to the first alarm that reaches zero, at node `k`. */
    method CountDown() returns (previous: Ptr, sleeping: Ptr, ghost k: nat)
      requires Valid()
      modifies this`alarm
      ensures k <= |sleepers|
      ensures sleeping == (if k < |sleepers| then sleepers[k] else NULL)
      ensures previous == (if k > 0 then sleepers[k - 1] else NULL)
      ensures sleeping == NULL <==> k == |sleepers|
      ensures forall i | 0 <= i < |sleepers| :: Lookup(alarm, sleepers[i]) ==
                if i <= k then Dec(old(Lookup(alarm, sleepers[i]))) else old(Lookup(alarm, sleepers[i]))
      ensures forall i | 0 <= i < k :: Lookup(alarm, sleepers[i]) != 0
      ensures k < |sleepers| ==> Lookup(alarm, sleepers[k]) == 0
    {
      previous := NULL;
      sleeping := firstSleeping;
      k := 0;
      while sleeping != NULL
        invariant 0 <= k <= |sleepers|
        invariant Linked(next, sleeping, sleepers[k..])
        invariant previous == if k > 0 then sleepers[k - 1] else NULL
        invariant forall i | 0 <= i < k :: Lookup(alarm, sleepers[i]) == Dec(old(Lookup(alarm, sleepers[i]))) != 0
        invariant forall i | k <= i < |sleepers| :: Lookup(alarm, sleepers[i]) == old(Lookup(alarm, sleepers[i]))
        decreases |sleepers| - k
      {
        assert sleeping == sleepers[k];
        forall i | 0 <= i < |sleepers| && i != k ensures sleepers[i] != sleepers[k] {
          NoDupIndex(sleepers, if i < k then i else k, if i < k then k else i);
        }
        alarm := alarm[sleeping := Dec(Lookup(alarm, sleeping))];
        if alarm[sleeping] == 0 {
          return;
        }
        assert sleepers[k..][1..] == sleepers[k + 1..];
        previous := sleeping;
        sleeping := next[sleeping];
        k := k + 1;
      }
    }

    /** The same, said of the list as a whole. */
    method CountDownList() returns (previous: Ptr, sleeping: Ptr, ghost k: nat)
      requires Valid()
      modifies this`alarm
      ensures k <= |sleepers| && sleeping == (if k < |sleepers| then sleepers[k] else NULL)
      ensures previous == (if k > 0 then sleepers[k - 1] else NULL)
      ensures sleeping == NULL <==> k == |sleepers|
      ensures TickList(Alarms(old(alarm), sleepers)) ==
              if k < |sleepers| then (Alarms(alarm, sleepers[..k] + sleepers[k + 1..]), Some(sleeping))
              else (Alarms(alarm, sleepers), None)
    {
      previous, sleeping, k := CountDown();
      TickedAlarms(old(alarm), alarm, sleepers, k);
    }

    /** The body of the `if` in `sleep_tick`: move one sleeper behind `last_ctx`.  It clears
        the link that the loop reads next, so the pass ends with it. */
    method Wake(previous: Ptr, sleeping: Ptr, ghost k: nat)
      requires Valid()
      requires k < |sleepers| && sleepers[k] == sleeping
      requires previous == if k > 0 then sleepers[k - 1] else NULL
      requires lastCtx != NULL
      modifies this`next, this`lastCtx, this`firstSleeping, this`sleepers, this`ready
      ensures Valid()
      ensures sleepers == old(sleepers[..k] + sleepers[k + 1..])
      ensures ready == old(if ready == [] then [] else ready + [sleeping])
    {
      ShapeWake(activeCtx, nextCtx, lastCtx, firstSleeping, next, ready, sleepers, k);
      next := next[lastCtx := sleeping];
      lastCtx := sleeping;
      if previous == NULL {
        firstSleeping := next[sleeping];
      } else {
        next := next[previous := next[sleeping]];
      }
      next := next[sleeping := NULL];
      if ready != [] { ready := ready + [sleeping]; }
      sleepers := sleepers[..k] + sleepers[k + 1..];
    }

    /** `sleep_tick`: one pass over the sleep list.  A wake-up writes through `last_ctx`, so
        that pointer has to be set by then; `create_context` sets it. */
    method SleepTick()
      requires Valid()
      requires lastCtx != NULL || TickList(View().sleepers).1.None?
      modifies this`alarm, this`next, this`lastCtx, this`firstSleeping, this`sleepers, this`ready
      ensures Valid()
      ensures View() == SchedulerModel.SleepTick(old(View()))
    {
      ghost var was := View();
      var previous, sleeping, k := CountDownList();
      ghost var woken := if sleeping != NULL then Some(sleeping) else None;
      if sleeping != NULL {
        Wake(previous, sleeping, k);
      }
      TickIs(was, Alarms(alarm, sleepers), woken, ready);
    }

    /** `handle_timer_inner`: the sleepers first, then the slices of the active context. */
    method HandleTimer()
      requires Valid()
      requires lastCtx != NULL || TickList(View().sleepers).1.None?
      modifies this
      ensures Valid()
      ensures View() == TimerStep(old(View()))
    {
      SleepTick();
      if Lookup(slices, activeCtx) == 0 {
        slices := slices[activeCtx := Lookup(priority, activeCtx)];
      }
      slices := slices[activeCtx := Dec(Lookup(slices, activeCtx))];
      assert slices == old(slices)[activeCtx := NewSlices(SchedulerModel.SleepTick(old(View())))];
      if Lookup(slices, activeCtx) > 0 {
        return;
      }
      Preempt();
    }
  }
}
