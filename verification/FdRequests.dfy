/**
 What becomes of one request to the file-descriptor budget: exactly, when it runs
 alone, and over every interleaving.
 */
module FdRequests {
  import opened FdBudget

  // ---- A request that runs alone ----

  // The request, its check and its swap; a refused one has no swap left to make.
  function WholeRequest(tid: nat, value: I32, guard: nat): seq<Action> {
    [] + [Request(tid, value)] + [Load(tid)] + [Swap(tid, guard)]
  }

  // It is refused, with nothing taken, exactly when the 32-bit sum exceeds the limit;
  // otherwise it is granted a guard of its value.
  lemma {:induction false} AcquireAlone(limit: I32, s: State, tid: nat, value: I32, guard: nat)
    requires (At(s, tid).Idle? || At(s, tid).Refused?) && guard !in s.guards
    ensures Run(limit, s, WholeRequest(tid, value, guard)) ==
      if Wrap(s.counter + value) > limit then State(s.counter, s.guards, s.threads[tid := Refused(value, s.counter)])
      else State(Wrap(s.counter + value), s.guards[guard := value], s.threads[tid := Idle])
  {
    var a1 := [] + [Request(tid, value)];
    var a2 := a1 + [Load(tid)];
    RunNext(limit, s, [], Request(tid, value));
    RunNext(limit, s, a1, Load(tid));
    RunNext(limit, s, a2, Swap(tid, guard));
    var t := Run(limit, s, WholeRequest(tid, value, guard));
    assert s.threads[tid := Asking(value)][tid := Loaded(value, s.counter)][tid := Idle] == s.threads[tid := Idle];
    assert s.threads[tid := Asking(value)][tid := Refused(value, s.counter)] == s.threads[tid := Refused(value, s.counter)];
  }

  // Dropping the guard gives back what was taken, wrap-around or not.
  lemma {:induction false} DropUndoes(limit: I32, s: State, tid: nat, value: I32, guard: nat)
    requires (At(s, tid).Idle? || At(s, tid).Refused?) && guard !in s.guards && Wrap(s.counter + value) <= limit
    ensures var t := Step(limit, Run(limit, s, WholeRequest(tid, value, guard)), Drop(guard));
      t.counter == s.counter && t.guards == s.guards
  {
    AcquireAlone(limit, s, tid, value, guard);
    var taken: int := value;
    WrapSum(s.counter + taken, -taken);
    WrapNone(s.counter);
    assert Wrap(Wrap(s.counter + taken) - taken) == s.counter;
    assert s.guards[guard := value] - {guard} == s.guards;
  }

  // ---- A request among others ----

  // The request is made and not yet answered.
  predicate Pending(s: State, tid: nat, value: I32) {
    (At(s, tid).Asking? || At(s, tid).Loaded?) && At(s, tid).value == value
  }

  // One step answers it with a guard of its value, or with a refusal.
  ghost predicate Granted(s: State, a: Action, t: State, tid: nat, value: I32) {
    && a.Swap? && a.tid == tid && a.guard !in s.guards && At(t, tid) == Idle
    && t.guards == s.guards[a.guard := value] && t.counter == Wrap(s.counter + value)
  }

  ghost predicate Denied(limit: I32, s: State, t: State, tid: nat, value: I32) {
    && Wrap(s.counter + value) > limit && At(t, tid) == Refused(value, s.counter)
    && t.guards == s.guards && t.counter == s.counter
  }

  lemma StepAnswers(limit: I32, s: State, a: Action, tid: nat, value: I32)
    requires Pending(s, tid, value)
    ensures var t := Step(limit, s, a);
      Pending(t, tid, value) || Granted(s, a, t, tid, value) || Denied(limit, s, t, tid, value)
  {
  }

  // The state after the first k actions.
  ghost function After(limit: I32, s: State, actions: seq<Action>, k: nat): State
    requires k <= |actions|
  {
    Run(limit, s, actions[..k])
  }

  // The n-th action answers a request that has been pending until then.
  ghost predicate AnsweredAt(limit: I32, s: State, actions: seq<Action>, n: nat, tid: nat, value: I32) {
    && n < |actions|
    && (forall k :: 0 <= k <= n ==> Pending(After(limit, s, actions, k), tid, value))
    && var before, after := After(limit, s, actions, n), After(limit, s, actions, n + 1);
       Granted(before, actions[n], after, tid, value) || Denied(limit, before, after, tid, value)
  }

  // Over every run no request is lost: it stays pending, retries included, until it is
  // granted a guard of its value or refused.
  lemma {:induction false} RequestAnswered(limit: I32, s: State, actions: seq<Action>, m: nat, tid: nat, value: I32)
    requires Pending(s, tid, value) && m <= |actions|
    ensures || (forall k :: 0 <= k <= m ==> Pending(After(limit, s, actions, k), tid, value))
            || (exists n :: 0 <= n < m && AnsweredAt(limit, s, actions, n, tid, value))
  {
    if m == 0 {
      assert actions[..0] == [];
    } else {
      RequestAnswered(limit, s, actions, m - 1, tid, value);
      if forall k :: 0 <= k <= m - 1 ==> Pending(After(limit, s, actions, k), tid, value) {
        var before := After(limit, s, actions, m - 1);
        assert actions[..m][..m - 1] == actions[..m - 1];
        assert Pending(before, tid, value);
        StepAnswers(limit, before, actions[m - 1], tid, value);
        if !Pending(After(limit, s, actions, m), tid, value) {
          assert AnsweredAt(limit, s, actions, m - 1, tid, value);
        }
      }
    }
  }

  // A swap fails only because the counter has changed since the load; made at once, it
  // never does. So some request always gets through.
  lemma RetryHasCause(limit: I32, s: State, tid: nat, guard: nat)
    requires At(s, tid).Loaded? && guard !in s.guards
    ensures Pending(Step(limit, s, Swap(tid, guard)), tid, At(s, tid).value) <==> s.counter != At(s, tid).acquired
  {
  }
}
