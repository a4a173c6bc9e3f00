/**
 What one call of `ExpiringCache::get` gives back: exactly, when it runs alone, and by
 its place in the whole run, when it is interleaved with others.
 */
module ExpiringCalls {
  import opened ExpiringCache
  import opened Wrappers

  // ---- A call that runs alone ----

  // All its steps. Those the call does not come to change nothing.
  function WholeCall<T>(id: CallerId, now: nat, item: T, later: nat): seq<Action<T>> {
    [] + [Load(id)] + [Check(id, now)] + [Capture(id)] + [Fetch(id, item, later)] + [Store(id)] + [Release(id)]
  }

  // The stored item is younger than `refetch`, or younger than `expire` while someone
  // else refetches.
  predicate MayReturn<T>(cfg: Config, s: State<T>, now: nat) {
    s.store.Some? && s.store.value.timestamp <= now
    && (now < s.store.value.timestamp + cfg.refetch || (s.fetching && now < s.store.value.timestamp + cfg.expire))
  }

  // Load, check and, if it comes to it, capture.
  lemma DecideAlone<T>(cfg: Config, s: State<T>, id: CallerId, now: nat)
    requires At(s, id).Idle? || At(s, id).Returned?
    ensures var t := Step(cfg, Step(cfg, Step(cfg, s, Load(id)), Check(id, now)), Capture(id));
      if MayReturn(cfg, s, now) then t == Move(s, id, Returned(Reading(s.store, now), s.store.value.item, FromStore))
      else
        exists captured :: (captured ==> !s.fetching) &&
          t == Move(s.(fetching := s.fetching || captured), id, Fetching(Reading(s.store, now), captured))
  {
    var u := Step(cfg, Step(cfg, s, Load(id)), Check(id, now));
    var t := Step(cfg, u, Capture(id));
    var loaded := Step(cfg, s, Load(id));
    assert loaded == Move(s, id, Loaded(s.store)) && At(loaded, id) == Loaded(s.store);
    if At(u, id).Stale? && !s.fetching {
      assert s.callers[id := Loaded(s.store)][id := At(u, id)][id := At(t, id)] == s.callers[id := At(t, id)];
      assert t == Move(s.(fetching := true), id, Fetching(Reading(s.store, now), true));
    } else {
      assert s.callers[id := Loaded(s.store)][id := At(u, id)][id := At(t, id)] == s.callers[id := At(t, id)];
      assert !MayReturn(cfg, s, now) ==> t == Move(s, id, Fetching(Reading(s.store, now), false));
    }
  }

  // Fetch, store and release.
  lemma FinishAlone<T>(cfg: Config, s: State<T>, id: CallerId, r: Reading<T>, captured: bool, item: T, later: nat)
    requires captured ==> !s.fetching
    ensures var u := Move(s.(fetching := s.fetching || captured), id, Fetching(r, captured));
      Step(cfg, Step(cfg, Step(cfg, u, Fetch(id, item, later)), Store(id)), Release(id)) ==
        State(Some(Entry(item, later)), s.fetching, s.callers[id := Returned(r, item, FromFetch(later))],
              s.fetched + {Entry(item, later)})
  {
    var u := Move(s.(fetching := s.fetching || captured), id, Fetching(r, captured));
    var fetched := Step(cfg, u, Fetch(id, item, later));
    var stored := Step(cfg, fetched, Store(id));
    var t := Step(cfg, stored, Release(id));
    assert At(fetched, id) == Fetched(r, captured, item, later);
    assert At(stored, id) == Stored(r, captured, item, later);
    assert At(t, id) == Returned(r, item, FromFetch(later));
    assert s.callers[id := Fetching(r, captured)][id := At(fetched, id)][id := At(stored, id)][id := At(t, id)]
        == s.callers[id := At(t, id)];
  }

  lemma {:induction false} RunWholeCall<T>(cfg: Config, s: State<T>, id: CallerId, now: nat, item: T, later: nat)
    ensures var u := Step(cfg, Step(cfg, Step(cfg, s, Load(id)), Check(id, now)), Capture(id));
      Run(cfg, s, WholeCall(id, now, item, later)) ==
        Step(cfg, Step(cfg, Step(cfg, u, Fetch(id, item, later)), Store(id)), Release(id))
  {
    var a1 := [] + [Load(id)];
    var a2 := a1 + [Check(id, now)];
    var a3 := a2 + [Capture(id)];
    var a4 := a3 + [Fetch(id, item, later)];
    var a5 := a4 + [Store(id)];
    RunNext(cfg, s, [], Load(id));
    RunNext(cfg, s, a1, Check(id, now));
    RunNext(cfg, s, a2, Capture(id));
    RunNext(cfg, s, a3, Fetch(id, item, later));
    RunNext(cfg, s, a4, Store(id));
    RunNext(cfg, s, a5, Release(id));
  }

  // The stored item is returned, and nothing else changes, exactly when it may be.
  // Otherwise the fetched item is returned and stored with its time, and the flag is
  // as before.
  lemma {:induction false} CallAlone<T>(cfg: Config, s: State<T>, id: CallerId, now: nat, item: T, later: nat)
    requires At(s, id).Idle? || At(s, id).Returned?
    ensures Run(cfg, s, WholeCall(id, now, item, later)) ==
      if MayReturn(cfg, s, now) then
        State(s.store, s.fetching,
              s.callers[id := Returned(Reading(s.store, now), s.store.value.item, FromStore)], s.fetched)
      else
        State(Some(Entry(item, later)), s.fetching,
              s.callers[id := Returned(Reading(s.store, now), item, FromFetch(later))],
              s.fetched + {Entry(item, later)})
  {
    var r := Reading(s.store, now);
    var u := Step(cfg, Step(cfg, Step(cfg, s, Load(id)), Check(id, now)), Capture(id));
    RunWholeCall(cfg, s, id, now, item, later);
    DecideAlone(cfg, s, id, now);
    if !MayReturn(cfg, s, now) {
      var captured :| (captured ==> !s.fetching) &&
        u == Move(s.(fetching := s.fetching || captured), id, Fetching(r, captured));
      FinishAlone(cfg, s, id, r, captured, item, later);
    } else {
      assert At(u, id).Returned?;
    }
  }

  // ---- A call among others ----

  // A call past its check, and what it read.
  predicate Checked<T>(c: Caller<T>) {
    c.Stale? || c.Fetching? || c.Fetched? || c.Stored? || c.Returned?
  }

  function Read<T>(c: Caller<T>): Reading<T>
    requires Checked(c)
  {
    if c.Stale? then Reading(Some(c.entry), c.now) else c.read
  }

  // A call past its fetch, and what it fetched.
  predicate HasFetched<T>(c: Caller<T>) {
    c.Fetched? || c.Stored? || (c.Returned? && c.source.FromFetch?)
  }

  function NewEntry<T>(c: Caller<T>): Entry<T>
    requires HasFetched(c)
  {
    Entry(c.item, if c.Returned? then c.source.timestamp else c.timestamp)
  }

  // What a step can make of another state of a call.
  lemma StepReads<T>(cfg: Config, s: State<T>, a: Action<T>, id: CallerId)
    ensures var c, d := At(s, id), At(Step(cfg, s, a), id);
      && (d != c ==> a.id == id)
      && (d.Loaded? && d != c ==> a.Load? && d.seen == s.store)
      && (Checked(d) ==> if Checked(c) then Read(d) == Read(c)
                         else c.Loaded? && a.Check? && Read(d) == Reading(c.seen, a.now))
      && (HasFetched(d) ==> if HasFetched(c) then NewEntry(d) == NewEntry(c)
                            else c.Fetching? && a.Fetch? && NewEntry(d) == Entry(a.item, a.now))
  {
  }

  // The state after the first k actions of a run.
  ghost function After<T>(cfg: Config, actions: seq<Action<T>>, k: nat): State<T>
    requires k <= |actions|
  {
    Run(cfg, Init(), actions[..k])
  }

  lemma AfterNext<T>(cfg: Config, actions: seq<Action<T>>, k: nat)
    requires k < |actions|
    ensures After(cfg, actions, k + 1) == Step(cfg, After(cfg, actions, k), actions[k])
  {
    assert actions[..k + 1][..k] == actions[..k];
  }

  // The i-th action loaded the store for a call that has not been checked up to n.
  ghost predicate LoadedAt<T>(cfg: Config, actions: seq<Action<T>>, n: nat, id: CallerId, i: nat, seen: Option<Entry<T>>)
    requires n <= |actions|
  {
    && i < n && actions[i] == Load(id) && After(cfg, actions, i).store == seen
    && forall k :: i < k <= n ==> At(After(cfg, actions, k), id) == Loaded(seen)
  }

  // The i-th action loaded the store and the j-th read the clock for a call that is
  // under way, or has returned, at n.
  ghost predicate ReadAt<T>(cfg: Config, actions: seq<Action<T>>, n: nat, id: CallerId, i: nat, j: nat, r: Reading<T>)
    requires n <= |actions|
  {
    && j < n && LoadedAt(cfg, actions, j, id, i, r.seen) && actions[j] == Check(id, r.now)
    && forall k :: j < k <= n ==> var c := At(After(cfg, actions, k), id); Checked(c) && Read(c) == r
  }

  // Over every run: what a call goes by is what the store held when it loaded it and
  // what the clock said when it read it.
  lemma {:induction false} ReadingExplained<T>(cfg: Config, actions: seq<Action<T>>, n: nat, id: CallerId)
    requires n <= |actions|
    ensures var c := At(After(cfg, actions, n), id);
      && (c.Loaded? ==> exists i :: LoadedAt(cfg, actions, n, id, i, c.seen))
      && (Checked(c) ==> exists i, j :: ReadAt(cfg, actions, n, id, i, j, Read(c)))
  {
    if n == 0 {
      assert At(After(cfg, actions, 0), id) == Idle;
    } else {
      var m := n - 1;
      var s, a := After(cfg, actions, m), actions[m];
      var c, d := At(s, id), At(After(cfg, actions, n), id);
      ReadingExplained(cfg, actions, m, id);
      AfterNext(cfg, actions, m);
      StepReads(cfg, s, a, id);
      if d.Loaded? {
        if d == c {
          var i :| LoadedAt(cfg, actions, m, id, i, c.seen);
          assert LoadedAt(cfg, actions, n, id, i, d.seen);
        } else {
          assert LoadedAt(cfg, actions, n, id, m, d.seen);
        }
      } else if Checked(d) {
        if Checked(c) {
          var i, j :| ReadAt(cfg, actions, m, id, i, j, Read(c));
          assert ReadAt(cfg, actions, n, id, i, j, Read(d));
        } else {
          var i :| LoadedAt(cfg, actions, m, id, i, c.seen);
          assert ReadAt(cfg, actions, n, id, i, m, Read(d));
        }
      }
    }
  }

  // The k-th action fetched the item for a call that is past its fetch at n.
  ghost predicate FetchedAt<T>(cfg: Config, actions: seq<Action<T>>, n: nat, id: CallerId, k: nat, e: Entry<T>)
    requires n <= |actions|
  {
    && k < n && actions[k] == Fetch(id, e.item, e.timestamp)
    && forall m :: k < m <= n ==> var c := At(After(cfg, actions, m), id); HasFetched(c) && NewEntry(c) == e
  }

  // Over every run: what a call stores and returns as new is what it fetched.
  lemma {:induction false} FetchExplained<T>(cfg: Config, actions: seq<Action<T>>, n: nat, id: CallerId)
    requires n <= |actions|
    ensures var c := At(After(cfg, actions, n), id);
      HasFetched(c) ==> exists k :: FetchedAt(cfg, actions, n, id, k, NewEntry(c))
  {
    if n == 0 {
      assert At(After(cfg, actions, 0), id) == Idle;
    } else {
      var m := n - 1;
      var s, a := After(cfg, actions, m), actions[m];
      var c, d := At(s, id), At(After(cfg, actions, n), id);
      FetchExplained(cfg, actions, m, id);
      AfterNext(cfg, actions, m);
      StepReads(cfg, s, a, id);
      if HasFetched(d) {
        if HasFetched(c) {
          var k :| FetchedAt(cfg, actions, m, id, k, NewEntry(c));
          assert FetchedAt(cfg, actions, n, id, k, NewEntry(d));
        } else {
          assert FetchedAt(cfg, actions, n, id, m, NewEntry(d));
        }
      }
    }
  }

  // The k-th action of the run stores what its call fetched.
  ghost predicate StoresAt<T>(cfg: Config, actions: seq<Action<T>>, k: nat) {
    k < |actions| && actions[k].Store? && At(After(cfg, actions, k), actions[k].id).Fetched?
  }

  // Over every run the store holds what the last call to store anything had fetched.
  lemma {:induction false} StoreIsLatest<T>(cfg: Config, actions: seq<Action<T>>, n: nat)
    requires n <= |actions|
    ensures match After(cfg, actions, n).store
      case None => forall k :: 0 <= k < n ==> !StoresAt(cfg, actions, k)
      case Some(e) => exists k ::
        && 0 <= k < n && StoresAt(cfg, actions, k) && NewEntry(At(After(cfg, actions, k), actions[k].id)) == e
        && forall m :: k < m < n ==> !StoresAt(cfg, actions, m)
  {
    if n > 0 {
      var m := n - 1;
      StoreIsLatest(cfg, actions, m);
      AfterNext(cfg, actions, m);
    }
  }

  // ---- Decisions ----

  // How a check comes out, whatever the others do: at once for a fresh entry, by a
  // fetch without one or with one from the future, and by the flag otherwise.
  lemma CheckDecides<T>(cfg: Config, s: State<T>, id: CallerId, now: nat)
    requires At(s, id).Loaded?
    ensures var r, t := Reading(At(s, id).seen, now), Step(cfg, s, Check(id, now));
      && t.store == s.store && t.fetching == s.fetching && t.fetched == s.fetched
      && (At(t, id).Returned? <==> Fresh(cfg, r))
      && (At(t, id).Fetching? <==> r.seen.None? || now < r.seen.value.timestamp)
      && (At(t, id).Stale? <==> r.seen.Some? && now >= r.seen.value.timestamp + cfg.refetch)
  {
  }

  // How a refetch comes out: the first to ask captures it; while it is captured, an
  // entry that is not yet expired is returned and any other fetched anew.
  lemma CaptureDecides<T>(cfg: Config, s: State<T>, id: CallerId)
    requires cfg.refetch <= cfg.expire && Inv(cfg, s) && At(s, id).Stale?
    ensures var r, t := Read(At(s, id)), Step(cfg, s, Capture(id));
      && t.store == s.store && t.fetching && t.fetched == s.fetched
      && (Owner(t, id) <==> !s.fetching)
      && (At(t, id).Returned? <==> s.fetching && Usable(cfg, r))
      && (At(t, id) == Fetching(r, false) <==> s.fetching && !Usable(cfg, r))
  {
    assert CallerOk(cfg, s, At(s, id));
  }

  // ---- Progress ----

  predicate UnderWay<T>(c: Caller<T>) {
    c.Loaded? || c.Stale? || c.Fetching? || c.Fetched? || c.Stored?
  }

  // The steps a call may still have before it.
  function Ahead<T>(c: Caller<T>): nat {
    match c
    case Loaded(_) => 5
    case Stale(_, _) => 4
    case Fetching(_, _) => 3
    case Fetched(_, _, _, _) => 2
    case Stored(_, _, _, _) => 1
    case _ => 0
  }

  // A call's next step, with what the clock and the fetch may say.
  function NextStep<T>(c: Caller<T>, id: CallerId, now: nat, item: T): Action<T>
    requires UnderWay(c)
  {
    match c
    case Loaded(_) => Check(id, now)
    case Stale(_, _) => Capture(id)
    case Fetching(_, _) => Fetch(id, item, now)
    case Fetched(_, _, _, _) => Store(id)
    case Stored(_, _, _, _) => Release(id)
  }

  // No call ever waits for another: its own next step always brings it closer to its
  // end, and no step of another call sets it back.
  lemma NeverWaits<T>(cfg: Config, s: State<T>, id: CallerId, now: nat, item: T, other: Action<T>)
    requires cfg.refetch <= cfg.expire && Inv(cfg, s) && UnderWay(At(s, id)) && other.id != id
    ensures Ahead(At(Step(cfg, s, NextStep(At(s, id), id, now, item)), id)) < Ahead(At(s, id))
    ensures Ahead(At(Step(cfg, s, NextStep(At(s, id), id, now, item)), id)) == 0 ==>
      At(Step(cfg, s, NextStep(At(s, id), id, now, item)), id).Returned?
    ensures At(Step(cfg, s, other), id) == At(s, id)
  {
    StepInv(cfg, s, NextStep(At(s, id), id, now, item));
    assert CallerOk(cfg, Step(cfg, s, NextStep(At(s, id), id, now, item)),
                    At(Step(cfg, s, NextStep(At(s, id), id, now, item)), id));
  }
}
