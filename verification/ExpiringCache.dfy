/**
 The single-item expiring cache (`ExpiringCache::get`) as a protocol: any number
 of callers, each atomic access one step, every interleaving and any clock
 readings.
 */
module ExpiringCache {
  import opened Wrappers

  type CallerId = nat

  datatype Entry<T> = Entry(item: T, timestamp: nat)

  // How a call obtained its item: from the entry it loaded, or by fetching, and when.
  datatype Source = FromStore | FromFetch(timestamp: nat)

  // What a call has read: the entry it loaded and the clock.
  datatype Reading<T> = Reading(seen: Option<Entry<T>>, now: nat)

  // Where a call stands. `captured` is the local variable `fetching` of the source.
  datatype Caller<T> =
    | Idle
    | Loaded(seen: Option<Entry<T>>)
    | Stale(entry: Entry<T>, now: nat)
    | Fetching(read: Reading<T>, captured: bool)
    | Fetched(read: Reading<T>, captured: bool, item: T, timestamp: nat)
    | Stored(read: Reading<T>, captured: bool, item: T, timestamp: nat)
    | Returned(read: Reading<T>, item: T, source: Source)
    | Panicked

  datatype Config = Config(refetch: nat, expire: nat)

  // The shared cells, all callers, and every fetch ever completed.
  datatype State<T(==)> = State(store: Option<Entry<T>>, fetching: bool, callers: map<CallerId, Caller<T>>,
                                fetched: set<Entry<T>>)

  datatype Action<T> =
    | Load(id: CallerId)
    | Check(id: CallerId, now: nat)
    | Capture(id: CallerId)
    | Fetch(id: CallerId, item: T, now: nat)
    | Store(id: CallerId)
    | Release(id: CallerId)
    | Cancel(id: CallerId)

  function At<T>(s: State<T>, id: CallerId): Caller<T> {
    if id in s.callers then s.callers[id] else Idle
  }

  function Move<T>(s: State<T>, id: CallerId, c: Caller<T>): State<T> {
    s.(callers := s.callers[id := c])
  }

  // One atomic step; an action that is not enabled changes nothing.
  function Step<T(==)>(cfg: Config, s: State<T>, a: Action<T>): State<T> {
    var c := At(s, a.id);
    match a
    case Load(id) => if c.Idle? || c.Returned? then Move(s, id, Loaded(s.store)) else s
    case Check(id, now) =>
      if !c.Loaded? then s
      else if c.seen.None? || now < c.seen.value.timestamp then Move(s, id, Fetching(Reading(c.seen, now), false))
      else
        var e := c.seen.value;
        if now - e.timestamp < cfg.refetch then Move(s, id, Returned(Reading(c.seen, now), e.item, FromStore))
        else Move(s, id, Stale(e, now))
    case Capture(id) =>
      if !c.Stale? then s
      else if !s.fetching then Move(s.(fetching := true), id, Fetching(Reading(Some(c.entry), c.now), true))
      else if c.now - c.entry.timestamp < cfg.expire then
        Move(s, id, Returned(Reading(Some(c.entry), c.now), c.entry.item, FromStore))
      else Move(s, id, Fetching(Reading(Some(c.entry), c.now), false))
    case Fetch(id, item, now) =>
      if !c.Fetching? then s
      else Move(s.(fetched := s.fetched + {Entry(item, now)}), id, Fetched(c.read, c.captured, item, now))
    case Store(id) =>
      if !c.Fetched? then s
      else Move(s.(store := Some(Entry(c.item, c.timestamp))), id, Stored(c.read, c.captured, c.item, c.timestamp))
    case Release(id) =>
      if !c.Stored? then s
      else if !c.captured then Move(s, id, Returned(c.read, c.item, FromFetch(c.timestamp)))
      else if s.fetching then Move(s.(fetching := false), id, Returned(c.read, c.item, FromFetch(c.timestamp)))
      else Move(s, id, Panicked)
    case Cancel(id) => if c.Fetching? then Move(s, id, Idle) else s
  }

  function Run<T(==)>(cfg: Config, s: State<T>, actions: seq<Action<T>>): State<T> {
    if actions == [] then s else Step(cfg, Run(cfg, s, actions[..|actions| - 1]), actions[|actions| - 1])
  }

  // A caller that has set the flag and not yet cleared it.
  predicate Owns<T>(c: Caller<T>) {
    (c.Fetching? || c.Fetched? || c.Stored?) && c.captured
  }

  ghost predicate Owner<T>(s: State<T>, id: CallerId) {
    Owns(At(s, id))
  }

  // The entry read was younger than `refetch`, or younger than `expire`, by a clock not
  // before its timestamp.
  predicate Fresh<T>(cfg: Config, r: Reading<T>) {
    r.seen.Some? && r.seen.value.timestamp <= r.now < r.seen.value.timestamp + cfg.refetch
  }

  predicate Usable<T>(cfg: Config, r: Reading<T>) {
    r.seen.Some? && r.seen.value.timestamp <= r.now < r.seen.value.timestamp + cfg.expire
  }

  // A call fetches for one of two reasons: it captured the refetch of an entry that is
  // due, or it read nothing it may return.
  predicate Justified<T>(cfg: Config, r: Reading<T>, captured: bool) {
    if captured then r.seen.Some? && r.now >= r.seen.value.timestamp + cfg.refetch else !Usable(cfg, r)
  }

  // What is known of one caller: never panicked; whatever it holds was fetched at the
  // time it says; it returns the entry it loaded only if that was usable, and fetches
  // only with a reason.
  ghost predicate CallerOk<T>(cfg: Config, s: State<T>, c: Caller<T>) {
    match c
    case Idle => true
    case Loaded(e) => e.Some? ==> e.value in s.fetched
    case Stale(e, now) => e in s.fetched && now >= e.timestamp + cfg.refetch
    case Fetching(r, captured) => Justified(cfg, r, captured)
    case Fetched(r, captured, item, t) => Justified(cfg, r, captured) && Entry(item, t) in s.fetched
    case Stored(r, captured, item, t) => Justified(cfg, r, captured) && Entry(item, t) in s.fetched
    case Returned(r, item, FromStore) => Usable(cfg, r) && r.seen.value.item == item && r.seen.value in s.fetched
    case Returned(r, item, FromFetch(t)) => !Fresh(cfg, r) && Entry(item, t) in s.fetched
    case Panicked => false
  }

  // The flag has at most one owner, and is set while it has one.
  ghost predicate OneOwner<T>(s: State<T>) {
    && (forall i, j :: Owner(s, i) && Owner(s, j) ==> i == j)
    && (forall i :: Owner(s, i) ==> s.fetching)
  }

  // A set flag has an owner, who will clear it.
  ghost predicate Held<T>(s: State<T>) {
    s.fetching ==> exists i :: Owner(s, i)
  }

  ghost predicate Inv<T>(cfg: Config, s: State<T>) {
    && OneOwner(s)
    && (s.store.Some? ==> s.store.value in s.fetched)
    && forall id :: CallerOk(cfg, s, At(s, id))
  }

  function Init<T(==)>(): State<T> {
    State(None, false, map[], {})
  }

  // Moving one caller, with what it means for ownership of the flag.
  lemma MoveOwner<T>(s: State<T>, t: State<T>, id: CallerId)
    requires OneOwner(s)
    requires forall j :: j != id ==> At(t, j) == At(s, j)
    requires if Owner(t, id) then t.fetching && (Owner(s, id) || !s.fetching)
             else Owner(s, id) || t.fetching == s.fetching
    ensures OneOwner(t)
  {
    forall i: CallerId, j: CallerId | Owner(t, i) && Owner(t, j)
      ensures i == j
    {
      if i != id && j != id {
        assert Owner(s, i) && Owner(s, j);
      } else if i != j {
        assert Owner(s, if i == id then j else i);
      }
    }
    forall i: CallerId | Owner(t, i)
      ensures t.fetching
    {
      if i != id {
        assert Owner(s, i);
      }
    }
  }

  lemma StepCallers<T>(cfg: Config, s: State<T>, a: Action<T>)
    requires cfg.refetch <= cfg.expire && Inv(cfg, s)
    ensures var t := Step(cfg, s, a);
      && (forall j :: j != a.id ==> At(t, j) == At(s, j))
      && s.fetched <= t.fetched
      && CallerOk(cfg, t, At(t, a.id))
      && (t.store.Some? ==> t.store.value in t.fetched)
  {
    assert CallerOk(cfg, s, At(s, a.id));
    if At(s, a.id).Stored? && At(s, a.id).captured {
      assert Owner(s, a.id);
    }
  }

  lemma StepInv<T>(cfg: Config, s: State<T>, a: Action<T>)
    requires cfg.refetch <= cfg.expire && Inv(cfg, s)
    ensures Inv(cfg, Step(cfg, s, a))
  {
    var t := Step(cfg, s, a);
    StepCallers(cfg, s, a);
    forall j
      ensures CallerOk(cfg, t, At(t, j))
    {
      assert CallerOk(cfg, s, At(s, j));
    }
    assert Owner(s, a.id) ==> s.fetching;
    MoveOwner(s, t, a.id);
  }

  // Over every interleaving, cancellations included, and every clock: at most one
  // caller owns the flag, the final compare-exchange never fails, an item is returned
  // from the store only if it was younger than `expire`, and always if it was younger
  // than `refetch`.
  lemma {:induction false} Safe<T>(cfg: Config, actions: seq<Action<T>>)
    requires cfg.refetch <= cfg.expire
    ensures Inv(cfg, Run(cfg, Init(), actions))
  {
    if actions == [] {
      assert forall id :: At(Init<T>(), id) == Idle;
    } else {
      var n := |actions| - 1;
      Safe(cfg, actions[..n]);
      StepInv(cfg, Run(cfg, Init(), actions[..n]), actions[n]);
    }
  }

  // ---- Whether the flag can get stuck ----

  ghost predicate CancelsOwner<T>(s: State<T>, a: Action<T>) {
    a.Cancel? && Owner(s, a.id) && At(s, a.id).Fetching?
  }

  // One step leaves a set flag without an owner exactly when it cancels the owner.
  lemma StepHeld<T>(cfg: Config, s: State<T>, a: Action<T>)
    requires OneOwner(s) && Held(s)
    ensures Held(Step(cfg, s, a)) <==> !CancelsOwner(s, a)
  {
    var t := Step(cfg, s, a);
    assert forall j :: j != a.id ==> Owner(t, j) == Owner(s, j);
    if CancelsOwner(s, a) {
      assert forall i :: !Owner(t, i);
    } else if t.fetching && !Owner(t, a.id) {
      var i :| Owner(s, i);
      assert Owner(t, i);
    }
  }

  // A set flag without an owner stays that way, whatever happens next.
  lemma StuckForGood<T>(cfg: Config, s: State<T>, a: Action<T>)
    requires !Held(s)
    ensures !Held(Step(cfg, s, a))
  {
    var t := Step(cfg, s, a);
    assert !Owner(s, a.id);
    assert forall j :: j != a.id ==> Owner(t, j) == Owner(s, j);
  }

  ghost predicate NeverCancelsOwner<T>(cfg: Config, actions: seq<Action<T>>) {
    actions == [] ||
      var n := |actions| - 1;
      NeverCancelsOwner(cfg, actions[..n]) && !CancelsOwner(Run(cfg, Init(), actions[..n]), actions[n])
  }

  // Over every run: a set flag still has an owner at the end if and only if no
  // caller was ever cancelled while it owned the flag.
  lemma {:induction false} HeldExactly<T>(cfg: Config, actions: seq<Action<T>>)
    requires cfg.refetch <= cfg.expire
    ensures Held(Run(cfg, Init(), actions)) <==> NeverCancelsOwner(cfg, actions)
  {
    if actions != [] {
      var n := |actions| - 1;
      var s := Run(cfg, Init(), actions[..n]);
      Safe(cfg, actions[..n]);
      HeldExactly(cfg, actions[..n]);
      if Held(s) {
        StepHeld(cfg, s, actions[n]);
      } else {
        StuckForGood(cfg, s, actions[n]);
      }
    }
  }

  lemma {:induction false} RunNext<T>(cfg: Config, s: State<T>, actions: seq<Action<T>>, a: Action<T>)
    ensures Run(cfg, s, actions + [a]) == Step(cfg, Run(cfg, s, actions), a)
  {
    assert (actions + [a])[..|actions|] == actions;
  }

  // A first call fetches the item; a later one finds it due, captures the refetch
  // and is cancelled in the middle of it.
  function CancelledRefetch<T>(cfg: Config, item: T): seq<Action<T>> {
    FirstFetch(item) + [Load(0)] + [Check(0, cfg.refetch)] + [Capture(0)] + [Cancel(0)]
  }

  function FirstFetch<T>(item: T): seq<Action<T>> {
    [] + [Load(0)] + [Check(0, 0)] + [Fetch(0, item, 0)] + [Store(0)] + [Release(0)]
  }

  lemma {:induction false} FirstFetched<T>(cfg: Config, item: T)
    ensures var s := Run(cfg, Init(), FirstFetch(item));
      s.store == Some(Entry(item, 0)) && !s.fetching && s.callers == map[0 := Returned(Reading(None, 0), item, FromFetch(0))]
  {
    var a1 := [] + [Load(0)];
    var a2 := a1 + [Check(0, 0)];
    var a3 := a2 + [Fetch(0, item, 0)];
    var a4 := a3 + [Store(0)];
    RunNext(cfg, Init<T>(), [], Load(0));
    RunNext(cfg, Init(), a1, Check(0, 0));
    RunNext(cfg, Init(), a2, Fetch(0, item, 0));
    RunNext(cfg, Init(), a3, Store(0));
    RunNext(cfg, Init(), a4, Release(0));
  }

  // Whatever the configuration, that run leaves the flag set and no one to clear it.
  lemma {:induction false} StuckAfterCancel<T>(cfg: Config, item: T)
    ensures var s := Run(cfg, Init(), CancelledRefetch(cfg, item));
      s.fetching && !Held(s) && s.callers == map[0 := Idle]
  {
    var a1 := FirstFetch(item) + [Load(0)];
    var a2 := a1 + [Check(0, cfg.refetch)];
    var a3 := a2 + [Capture(0)];
    FirstFetched(cfg, item);
    RunNext(cfg, Init(), FirstFetch(item), Load(0));
    RunNext(cfg, Init(), a1, Check(0, cfg.refetch));
    RunNext(cfg, Init(), a2, Capture(0));
    RunNext(cfg, Init(), a3, Cancel(0));
  }
}
