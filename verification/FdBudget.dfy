/**
 The global file-descriptor budget: a 32-bit atomic counter taken from by a
 compare-and-swap retry loop and given back to when a guard is dropped, under
 every interleaving of the threads' loads, swaps and drops.
 */
module FdBudget {

  const I32_MAX: int := 0x7FFF_FFFF

  type I32 = x: int | -0x8000_0000 <= x <= I32_MAX

  // 32-bit wrap-around.
  function Wrap(x: int): I32 {
    (x + 0x8000_0000) % 0x1_0000_0000 - 0x8000_0000
  }

  datatype Thread =
    | Idle
    | Asking(value: I32)
    | Loaded(value: I32, acquired: I32)
    | Refused(value: I32, acquired: I32)

  // The counter, the value held by each live guard, and the threads.
  datatype State = State(counter: I32, guards: map<nat, I32>, threads: map<nat, Thread>)

  datatype Action =
    | Request(tid: nat, value: I32)
    | Load(tid: nat)
    | Swap(tid: nat, guard: nat)
    | Drop(guard: nat)

  function At(s: State, tid: nat): Thread {
    if tid in s.threads then s.threads[tid] else Idle
  }

  // One atomic step; an action that is not enabled changes nothing. A failed swap
  // goes back to the load.
  function Step(limit: I32, s: State, a: Action): State {
    match a
    case Request(tid, value) =>
      if At(s, tid).Idle? || At(s, tid).Refused? then s.(threads := s.threads[tid := Asking(value)]) else s
    case Load(tid) =>
      var t := At(s, tid);
      if !t.Asking? then s
      else if Wrap(s.counter + t.value) > limit then s.(threads := s.threads[tid := Refused(t.value, s.counter)])
      else s.(threads := s.threads[tid := Loaded(t.value, s.counter)])
    case Swap(tid, guard) =>
      var t := At(s, tid);
      if !t.Loaded? || guard in s.guards then s
      else if s.counter != t.acquired then s.(threads := s.threads[tid := Asking(t.value)])
      else State(Wrap(t.acquired + t.value), s.guards[guard := t.value], s.threads[tid := Idle])
    case Drop(guard) =>
      if guard in s.guards then s.(counter := Wrap(s.counter - s.guards[guard]), guards := s.guards - {guard}) else s
  }

  function Run(limit: I32, s: State, actions: seq<Action>): State {
    if actions == [] then s else Step(limit, Run(limit, s, actions[..|actions| - 1]), actions[|actions| - 1])
  }

  const START: State := State(0, map[], map[])

  // What the live guards hold together.
  ghost function Held(guards: map<nat, I32>): int {
    if guards == map[] then 0 else
      var g :| g in guards;
      guards[g] + Held(guards - {g})
  }

  // Any guard may be counted first.
  lemma {:induction false} HeldWithout(guards: map<nat, I32>, g: nat)
    requires g in guards
    ensures Held(guards) == guards[g] + Held(guards - {g})
    decreases |guards|
  {
    var h :| h in guards && Held(guards) == guards[h] + Held(guards - {h});
    if h != g {
      HeldWithout(guards - {h}, g);
      HeldWithout(guards - {g}, h);
      assert guards - {h} - {g} == guards - {g} - {h};
    }
  }

  lemma {:induction false} HeldWith(guards: map<nat, I32>, g: nat, value: I32)
    requires g !in guards
    ensures Held(guards[g := value]) == Held(guards) + value
  {
    HeldWithout(guards[g := value], g);
    assert guards[g := value] - {g} == guards;
  }

  lemma WrapSum(x: int, y: int)
    ensures Wrap(Wrap(x) + y) == Wrap(x + y)
  {
    var q := (x + 0x8000_0000) / 0x1_0000_0000;
    assert Wrap(x) + y == x + y - 0x1_0000_0000 * q;
    WrapMultiple(x + y, -q);
  }

  lemma WrapMultiple(x: int, q: int)
    ensures Wrap(x + 0x1_0000_0000 * q) == Wrap(x)
  {
  }

  // ---- Conservation, for all 32-bit requests ----

  ghost predicate Counted(s: State) {
    s.counter == Wrap(Held(s.guards))
  }

  lemma StepCounted(limit: I32, s: State, a: Action)
    requires Counted(s)
    ensures Counted(Step(limit, s, a))
  {
    match a
    case Swap(tid, guard) =>
      var t := At(s, tid);
      if t.Loaded? && guard !in s.guards && s.counter == t.acquired {
        HeldWith(s.guards, guard, t.value);
        WrapSum(Held(s.guards), t.value);
      }
    case Drop(guard) =>
      if guard in s.guards {
        HeldWithout(s.guards, guard);
        var value: int := s.guards[guard];
        WrapSum(Held(s.guards), -value);
      }
    case _ =>
  }

  // Over every interleaving no release or retry is lost or doubled: the counter is
  // the sum of the live guards, in 32-bit arithmetic.
  lemma {:induction false} Conserved(limit: I32, actions: seq<Action>)
    ensures Counted(Run(limit, START, actions))
  {
    if actions != [] {
      var n := |actions| - 1;
      Conserved(limit, actions[..n]);
      StepCounted(limit, Run(limit, START, actions[..n]), actions[n]);
    }
  }

  // ---- The budget ----

  // A thread about to swap has checked the value it read; a refusal was justified.
  ghost predicate ThreadOk(limit: I32, t: Thread) {
    match t
    case Loaded(v, acquired) => v >= 0 && acquired + v <= limit
    case Refused(v, acquired) => acquired + v > limit
    case _ => true
  }

  ghost predicate NoNegative(guards: map<nat, I32>) {
    forall g :: g in guards ==> guards[g] >= 0
  }

  // The counter is exactly what is held, and within the limit.
  ghost predicate Inv(limit: I32, s: State) {
    && NoNegative(s.guards)
    && 0 <= s.counter == Held(s.guards) <= limit
    && forall tid :: ThreadOk(limit, At(s, tid))
  }

  // The load that lets a request through wrongly: a negative one, or one whose
  // 32-bit sum wraps below the limit.
  ghost predicate Misjudges(s: State, a: Action) {
    a.Load? && At(s, a.tid).Asking? && (At(s, a.tid).value < 0 || s.counter + At(s, a.tid).value > I32_MAX)
  }

  lemma {:induction false} HeldNatural(guards: map<nat, I32>)
    requires NoNegative(guards)
    ensures Held(guards) >= 0
    decreases |guards|
  {
    if guards != map[] {
      var g :| g in guards && Held(guards) == guards[g] + Held(guards - {g});
      assert (guards - {g}).Keys == guards.Keys - {g};
      HeldNatural(guards - {g});
    }
  }

  lemma WrapNone(x: I32)
    ensures Wrap(x) == x
  {
  }

  // Every step keeps the budget, except exactly those loads.
  lemma StepInv(limit: I32, s: State, a: Action)
    requires Inv(limit, s)
    ensures Inv(limit, Step(limit, s, a)) <==> !Misjudges(s, a)
  {
    var t := Step(limit, s, a);
    if Misjudges(s, a) {
      assert !ThreadOk(limit, At(t, a.tid));
    } else {
      StepGuards(limit, s, a);
      forall tid
        ensures ThreadOk(limit, At(t, tid))
      {
        assert ThreadOk(limit, At(s, tid));
      }
    }
  }

  lemma StepGuards(limit: I32, s: State, a: Action)
    requires Inv(limit, s)
    ensures var t := Step(limit, s, a);
      NoNegative(t.guards) && 0 <= t.counter == Held(t.guards) <= limit
  {
    match a
    case Swap(tid, guard) =>
      assert ThreadOk(limit, At(s, tid));
      if At(s, tid).Loaded? && guard !in s.guards {
        HeldWith(s.guards, guard, At(s, tid).value);
        HeldNatural(s.guards);
        if s.counter == At(s, tid).acquired {
          WrapNone(s.counter + At(s, tid).value);
        }
      }
    case Drop(guard) =>
      if guard in s.guards {
        HeldWithout(s.guards, guard);
        HeldNatural(s.guards - {guard});
        WrapNone(Held(s.guards - {guard}));
      }
    case _ =>
  }

  ghost predicate Small(limit: I32, t: Thread) {
    t.Asking? || t.Loaded? ==> 0 <= t.value <= I32_MAX - limit
  }

  lemma StepSmall(limit: I32, s: State, a: Action)
    requires forall tid :: Small(limit, At(s, tid))
    requires a.Request? ==> 0 <= a.value <= I32_MAX - limit
    ensures forall tid :: Small(limit, At(Step(limit, s, a), tid))
  {
    forall tid
      ensures Small(limit, At(Step(limit, s, a), tid))
    {
      assert Small(limit, At(s, tid));
    }
  }

  // Over every interleaving the guards never hold more than the limit, provided no
  // single request is negative or overflows past it.
  lemma {:induction false} Safe(limit: I32, actions: seq<Action>)
    requires 0 <= limit
    requires forall i :: 0 <= i < |actions| && actions[i].Request? ==> 0 <= actions[i].value <= I32_MAX - limit
    ensures Inv(limit, Run(limit, START, actions))
    ensures forall tid :: Small(limit, At(Run(limit, START, actions), tid))
  {
    if actions != [] {
      var n := |actions| - 1;
      Safe(limit, actions[..n]);
      var s := Run(limit, START, actions[..n]);
      StepSmall(limit, s, actions[n]);
      if actions[n].Load? {
        assert Small(limit, At(s, actions[n].tid));
      }
      StepInv(limit, s, actions[n]);
    }
  }

  // ---- What a misjudged load leads to ----

  // No load of the run is misjudged.
  ghost predicate Careful(limit: I32, s: State, actions: seq<Action>) {
    actions == [] ||
      var n := |actions| - 1;
      Careful(limit, s, actions[..n]) && !Misjudges(Run(limit, s, actions[..n]), actions[n])
  }

  lemma {:induction false} CarefulKeeps(limit: I32, s: State, actions: seq<Action>)
    requires Inv(limit, s) && Careful(limit, s, actions)
    ensures Inv(limit, Run(limit, s, actions))
  {
    if actions != [] {
      var n := |actions| - 1;
      CarefulKeeps(limit, s, actions[..n]);
      StepInv(limit, Run(limit, s, actions[..n]), actions[n]);
    }
  }

  lemma {:induction false} RunNext(limit: I32, s: State, actions: seq<Action>, a: Action)
    ensures Run(limit, s, actions + [a]) == Step(limit, Run(limit, s, actions), a)
    ensures Careful(limit, s, actions + [a]) <==> Careful(limit, s, actions) && !Misjudges(Run(limit, s, actions), a)
  {
    assert (actions + [a])[..|actions|] == actions;
  }

  // A request that fits is granted in three undisturbed steps.
  lemma GrantSteps(limit: I32, t: State, tid: nat, value: I32, guard: nat)
    requires At(t, tid) == Idle && guard !in t.guards && value >= 0 && -0x8000_0000 <= t.counter + value <= limit
    ensures var asked := Step(limit, t, Request(tid, value));
      var loaded := Step(limit, asked, Load(tid));
      && !Misjudges(asked, Load(tid))
      && Step(limit, loaded, Swap(tid, guard)) == State(t.counter + value, t.guards[guard := value], t.threads[tid := Idle])
  {
    WrapNone(t.counter + value);
    var asked := Step(limit, t, Request(tid, value));
    assert At(asked, tid) == Asking(value) && asked.counter == t.counter;
    var loaded := Step(limit, asked, Load(tid));
    assert At(loaded, tid) == Loaded(value, t.counter);
    assert t.threads[tid := Asking(value)][tid := Loaded(value, t.counter)][tid := Idle] == t.threads[tid := Idle];
  }

  lemma {:induction false} Grant(limit: I32, s: State, done: seq<Action>, tid: nat, value: I32, guard: nat)
    returns (more: seq<Action>)
    requires var t := Run(limit, s, done);
      At(t, tid) == Idle && guard !in t.guards && value >= 0 && -0x8000_0000 <= t.counter + value <= limit
    ensures var t := Run(limit, s, done);
      Run(limit, s, more) == State(t.counter + value, t.guards[guard := value], t.threads[tid := Idle])
    ensures Careful(limit, s, done) ==> Careful(limit, s, more)
  {
    GrantSteps(limit, Run(limit, s, done), tid, value, guard);
    var asked := done + [Request(tid, value)];
    var loaded := asked + [Load(tid)];
    more := loaded + [Swap(tid, guard)];
    RunNext(limit, s, done, Request(tid, value));
    RunNext(limit, s, asked, Load(tid));
    RunNext(limit, s, loaded, Swap(tid, guard));
  }

  lemma FreshGuard(guards: map<nat, I32>) returns (g: nat)
    ensures forall h :: h in guards ==> h < g
  {
    g := 0;
    var left := guards;
    while left != map[]
      invariant forall h :: h in left ==> h in guards
      invariant forall h :: h in guards && h !in left ==> h < g
      decreases |left|
    {
      var h :| h in left;
      assert (left - {h}).Keys == left.Keys - {h};
      left := left - {h};
      g := if h < g then g else h + 1;
    }
  }

  // A negative request lets as much again be granted; once its guard is dropped the
  // others hold one more than the limit.
  lemma {:induction false} NegativeOverruns(limit: I32, s: State, tid: nat) returns (more: seq<Action>)
    requires NoNegative(s.guards) && 0 <= s.counter == Held(s.guards) <= limit
    requires At(s, tid).Loaded? && At(s, tid).acquired == s.counter && At(s, tid).value < 0
    ensures Careful(limit, s, more) && Held(Run(limit, s, more).guards) == limit + 1
  {
    var value := At(s, tid).value;
    var g := FreshGuard(s.guards);
    WrapNone(s.counter + value);
    RunNext(limit, s, [], Swap(tid, g));
    more := FillUp(limit, s, [] + [Swap(tid, g)], tid, value, g);
    HeldAfterDrop(s.guards, g, value, limit - s.counter);
  }

  lemma {:induction false} FillUp(limit: I32, s: State, done: seq<Action>, tid: nat, value: I32, g: nat)
    returns (more: seq<Action>)
    requires 0 <= s.counter <= limit && value < 0 && forall h :: h in s.guards ==> h < g
    requires Careful(limit, s, done)
    requires Run(limit, s, done) == State(s.counter + value, s.guards[g := value], s.threads[tid := Idle])
    ensures Careful(limit, s, more)
    ensures Run(limit, s, more).guards == s.guards[g := value][g + 1 := limit - s.counter][g + 2 := 1] - {g}
  {
    more := Grant(limit, s, done, tid, limit - s.counter, g + 1);
    more := OneMore(limit, s, more, tid, g, s.guards[g := value][g + 1 := limit - s.counter]);
  }

  lemma {:induction false} OneMore(limit: I32, s: State, done: seq<Action>, tid: nat, g: nat, guards: map<nat, I32>)
    returns (more: seq<Action>)
    requires Careful(limit, s, done) && g in guards && g + 2 !in guards
    requires var t := Run(limit, s, done);
      At(t, tid) == Idle && t.guards == guards && -0x8000_0000 <= t.counter < limit
    ensures Careful(limit, s, more) && Run(limit, s, more).guards == guards[g + 2 := 1] - {g}
  {
    more := Grant(limit, s, done, tid, 1, g + 2);
    more := Release(limit, s, more, g);
  }

  lemma {:induction false} Release(limit: I32, s: State, done: seq<Action>, g: nat) returns (more: seq<Action>)
    requires g in Run(limit, s, done).guards
    ensures Run(limit, s, more).guards == Run(limit, s, done).guards - {g}
    ensures Careful(limit, s, done) ==> Careful(limit, s, more)
  {
    RunNext(limit, s, done, Drop(g));
    more := done + [Drop(g)];
  }

  lemma HeldAfterDrop(guards: map<nat, I32>, g: nat, value: I32, filler: I32)
    requires forall h :: h in guards ==> h < g
    ensures Held(guards[g := value][g + 1 := filler][g + 2 := 1] - {g}) == Held(guards) + filler + 1
  {
    HeldWith(guards, g + 1, filler);
    HeldWith(guards[g + 1 := filler], g + 2, 1);
    assert guards[g := value][g + 1 := filler][g + 2 := 1] - {g} == guards[g + 1 := filler][g + 2 := 1];
  }

  // A request whose sum wraps is itself more than the limit.
  lemma {:induction false} WrapOverruns(limit: I32, s: State, tid: nat) returns (more: seq<Action>)
    requires NoNegative(s.guards) && 0 <= s.counter == Held(s.guards) <= limit
    requires At(s, tid).Loaded? && At(s, tid).acquired == s.counter && s.counter + At(s, tid).value > I32_MAX
    ensures Careful(limit, s, more) && Held(Run(limit, s, more).guards) > limit
  {
    var g := FreshGuard(s.guards);
    RunNext(limit, s, [], Swap(tid, g));
    HeldWith(s.guards, g, At(s, tid).value);
    more := [] + [Swap(tid, g)];
  }

  // From every state within budget, a step is misjudged if and only if some run
  // after it, itself without misjudged loads, ends with more held than the limit.
  lemma {:induction false} BudgetExact(limit: I32, s: State, a: Action)
    requires Inv(limit, s)
    ensures Misjudges(s, a) <==>
            exists more :: Careful(limit, Step(limit, s, a), more) && Held(Run(limit, Step(limit, s, a), more).guards) > limit
  {
    var t := Step(limit, s, a);
    if Misjudges(s, a) {
      var value := At(s, a.tid).value;
      assert At(t, a.tid) == Loaded(value, s.counter) by {
        MisjudgedLoads(limit, s.counter, value);
      }
      var more;
      if value < 0 {
        more := NegativeOverruns(limit, t, a.tid);
      } else {
        more := WrapOverruns(limit, t, a.tid);
      }
    } else {
      StepInv(limit, s, a);
      forall more | Careful(limit, t, more)
        ensures Held(Run(limit, t, more).guards) <= limit
      {
        CarefulKeeps(limit, t, more);
      }
    }
  }

  lemma MisjudgedLoads(limit: I32, counter: I32, value: I32)
    requires 0 <= counter <= limit && (value < 0 || counter + value > I32_MAX)
    ensures Wrap(counter + value) <= limit
  {
  }

  // For instance: with 30 of 100 held, asking for 2^31 - 1 succeeds and drives the
  // counter negative.
  lemma WrapBreaksBudget()
    ensures var s := State(30, map[0 := 30], map[]);
      var t := Step(100, Step(100, Step(100, s, Request(0, 0x7FFF_FFFF)), Load(0)), Swap(0, 1));
      Inv(100, s) && t.counter < 0 && t.guards == map[0 := 30, 1 := 0x7FFF_FFFF]
  {
    var s := State(30, map[0 := 30], map[]);
    HeldWith(map[], 0, 30);
    assert map[][0 := 30 as I32] == s.guards;
    var asked := Step(100, s, Request(0, 0x7FFF_FFFF));
    assert At(asked, 0) == Asking(0x7FFF_FFFF);
    assert Wrap(30 + 0x7FFF_FFFF) < 0;
  }

  // And with -50 granted first, 150 of 100 are granted, and the counter is 150 once
  // the first guard is dropped.
  lemma NegativeBreaksBudget()
    ensures var taken := Step(100, Step(100, Step(100, START, Request(0, -50)), Load(0)), Swap(0, 0));
      var full := Step(100, Step(100, Step(100, taken, Request(0, 150)), Load(0)), Swap(0, 1));
      full.counter == 100 && Step(100, full, Drop(0)).counter == 150
  {
    var taken := Step(100, Step(100, Step(100, START, Request(0, -50)), Load(0)), Swap(0, 0));
    assert taken.counter == -50 && At(taken, 0) == Idle;
  }
}
