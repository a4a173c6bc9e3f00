/**
 The simulator's vocabulary, what processes ask for when they are resumed, and the law
 that ties every resumption to a request.
 */
module SimulationLog {
  import opened Wrappers

  datatype Event<T> = Event(timestamp: nat, dest: nat, msg: Option<T>)

  datatype Resumption<T> = Initial | Scheduled | Message(msg: T)

  datatype Suspension = Timeout(timeout: nat) | Idle | Halt

  // The public calls a process may make on the environment.
  datatype Call<T> =
    | SendCall(delay: nat, dest: nat, msg: T)
    | TimeoutCall(timeout: nat, dest: nat)
    | BroadcastCall(sender: nat, msg: T)

  datatype Reaction<T> = Reaction(calls: seq<Call<T>>, suspension: Suspension)

  // What stopped a run: a process halted, the time limit passed, a panic (an empty
  // queue, an unknown destination, a halt on startup), or the step bound.
  datatype End = Halted | TimeUp | Panicked | OutOfSteps

  // How process `id` reacts at the n-th resumption overall.
  type Processes<!T> = (nat, nat, Resumption<T>) -> Reaction<T>

  // A resumption that is owed: when, of which process, with what.
  datatype Due<T> = Due(time: nat, id: nat, op: Resumption<T>)

  // A resumption that took place, how the process reacted, and which processes a
  // broadcast reached at that moment.
  datatype Entry<T> = Entry(time: nat, id: nat, op: Resumption<T>, reaction: Reaction<T>, audience: seq<nat>)

  // Ord for Event, reversed as the heap needs it: b is not popped before a.
  predicate NotLater<T>(a: Event<T>, b: Event<T>) {
    a.timestamp < b.timestamp || (a.timestamp == b.timestamp && a.dest <= b.dest)
  }

  // The event brings about the resumption.
  predicate Carries<T(==)>(e: Event<T>, d: Due<T>) {
    && e.timestamp == d.time && e.dest == d.id
    && match d.op
       case Message(m) => e.msg == Some(m)
       case Scheduled => e.msg == None
       case Initial => false
  }

  // ---- What is asked for ----

  function Asked<T>(call: Call<T>, now: nat, delay: nat, audience: seq<nat>): seq<Due<T>> {
    match call
    case SendCall(d, dest, msg) => [Due(now + d, dest, Message(msg))]
    case TimeoutCall(d, dest) => [Due(now + d, dest, Scheduled)]
    case BroadcastCall(_, msg) => Copies(now + delay, audience, msg)
  }

  // One copy of a broadcast per process.
  function Copies<T>(at: nat, audience: seq<nat>, msg: T): seq<Due<T>> {
    seq(|audience|, i requires 0 <= i < |audience| => Due(at, audience[i], Message(msg)))
  }

  lemma CopiesSnoc<T>(before: seq<Due<T>>, at: nat, audience: seq<nat>, i: nat, msg: T)
    requires i < |audience|
    ensures before + Copies(at, audience[..i + 1], msg)
         == before + Copies(at, audience[..i], msg) + [Due(at, audience[i], Message(msg))]
  {
    assert Copies(at, audience[..i + 1], msg) == Copies(at, audience[..i], msg) + [Due(at, audience[i], Message(msg))];
  }

  function AskedAll<T>(calls: seq<Call<T>>, now: nat, delay: nat, audience: seq<nat>): seq<Due<T>> {
    if calls == [] then []
    else AskedAll(calls[..|calls| - 1], now, delay, audience) + Asked(calls[|calls| - 1], now, delay, audience)
  }

  // The wake-up a suspended process is owed.
  function WakeUp<T>(suspension: Suspension, id: nat, now: nat): seq<Due<T>> {
    if suspension.Timeout? then [Due(now + suspension.timeout, id, Scheduled)] else []
  }

  // All that one resumption asks for, in order, and all that a log of them does.
  function OwedBy<T>(e: Entry<T>, delay: nat): seq<Due<T>> {
    AskedAll(e.reaction.calls, e.time, delay, e.audience) + WakeUp(e.reaction.suspension, e.id, e.time)
  }

  function OwedAll<T>(log: seq<Entry<T>>, delay: nat): seq<Due<T>> {
    if log == [] then [] else OwedAll(log[..|log| - 1], delay) + OwedBy(log[|log| - 1], delay)
  }

  // A message sent is owed to its receiver after its delay, a timeout to the process
  // it was set for, a broadcast to every process after the broadcast delay, and a
  // wake-up to the process itself.
  ghost predicate Asks<T(!new)>(e: Entry<T>, delay: nat, d: Due<T>) {
    || (exists i :: 0 <= i < |e.reaction.calls| && CallAsks(e, delay, e.reaction.calls[i], d))
    || (e.reaction.suspension.Timeout? && d == Due(e.time + e.reaction.suspension.timeout, e.id, Scheduled))
  }

  ghost predicate CallAsks<T>(e: Entry<T>, delay: nat, call: Call<T>, d: Due<T>) {
    match call
    case SendCall(after, dest, msg) => d.time == e.time + after && d.id == dest && d.op == Message(msg)
    case TimeoutCall(after, dest) => d.time == e.time + after && d.id == dest && d.op == Scheduled
    case BroadcastCall(_, msg) => d.time == e.time + delay && d.id in e.audience && d.op == Message(msg)
  }

  lemma {:induction false} AskedExactly<T(!new)>(calls: seq<Call<T>>, e: Entry<T>, delay: nat, d: Due<T>)
    ensures d in AskedAll(calls, e.time, delay, e.audience) <==>
      exists i :: 0 <= i < |calls| && CallAsks(e, delay, calls[i], d)
  {
    if calls != [] {
      var n := |calls| - 1;
      AskedExactly(calls[..n], e, delay, d);
      OneAsked(calls[n], e, delay, d);
      var all, before := AskedAll(calls, e.time, delay, e.audience), AskedAll(calls[..n], e.time, delay, e.audience);
      assert d in all <==> d in before || d in Asked(calls[n], e.time, delay, e.audience);
      if d in before {
        var i :| 0 <= i < n && CallAsks(e, delay, calls[..n][i], d);
        assert CallAsks(e, delay, calls[i], d);
      }
      if i :| 0 <= i < |calls| && CallAsks(e, delay, calls[i], d) {
        if i < n {
          assert calls[..n][i] == calls[i];
        }
      }
    }
  }

  lemma OneAsked<T>(call: Call<T>, e: Entry<T>, delay: nat, d: Due<T>)
    ensures d in Asked(call, e.time, delay, e.audience) <==> CallAsks(e, delay, call, d)
  {
    if call.BroadcastCall? && CallAsks(e, delay, call, d) {
      var i :| 0 <= i < |e.audience| && e.audience[i] == d.id;
      assert Asked(call, e.time, delay, e.audience)[i] == d;
    }
  }

  // What an entry owes is what its calls and its suspension say.
  lemma OwedExactly<T(!new)>(e: Entry<T>, delay: nat, d: Due<T>)
    ensures d in OwedBy(e, delay) <==> Asks(e, delay, d)
  {
    AskedExactly(e.reaction.calls, e, delay, d);
  }

  // The events of one broadcast: one for each of the ids and nothing else.
  ghost predicate OneEach<T(!new)>(copies: seq<Due<T>>, ids: set<nat>, at: nat, msg: T) {
    && (forall i :: 0 <= i < |copies| ==> copies[i].id in ids && copies[i] == Due(at, copies[i].id, Message(msg)))
    && (forall i, j :: 0 <= i < j < |copies| ==> copies[i].id != copies[j].id)
    && (forall id :: id in ids ==> exists i :: 0 <= i < |copies| && copies[i].id == id)
  }

  lemma CopiesOneEach<T(!new)>(at: nat, order: seq<nat>, ids: set<nat>, msg: T)
    ensures Lists(order, ids) ==> OneEach(Copies(at, order, msg), ids, at, msg)
  {
    var copies := Copies(at, order, msg);
    forall id | Lists(order, ids) && id in ids
      ensures exists i :: 0 <= i < |copies| && copies[i].id == id
    {
      var i :| 0 <= i < |order| && order[i] == id;
      assert copies[i].id == id;
    }
  }

  // A hash set's elements in some iteration order.
  predicate Lists(order: seq<nat>, ids: set<nat>) {
    && (forall i :: 0 <= i < |order| ==> order[i] in ids)
    && (forall id :: id in ids ==> id in order)
    && (forall i, j :: 0 <= i < j < |order| ==> order[i] != order[j])
  }

  lemma ListsNothing(order: seq<nat>, ids: set<nat>)
    requires |order| == 0 && ids == {}
    ensures Lists(order, ids)
  {
  }

  lemma ListsSnoc(order: seq<nat>, ids: set<nat>, id: nat)
    requires Lists(order, ids) && id !in ids
    ensures Lists(order + [id], ids + {id})
  {
    var after := order + [id];
    forall j | j in ids + {id}
      ensures j in after
    {
      if j == id {
        assert after[|order|] == id;
      }
    }
  }

  // ---- The queue ----

  // Everything ever owed is either pending or was delivered, once; nothing pending
  // lies in the past; delivery times never decrease.
  ghost predicate Accounted<T(!new)>(now: nat, queue: map<nat, Event<T>>, owed: seq<Due<T>>, delivered: seq<nat>) {
    && (forall k :: k in queue ==> k < |owed| && Carries(queue[k], owed[k]) && owed[k].time >= now)
    && InOrder(owed, delivered, now)
    && (forall k :: 0 <= k < |owed| ==> (k in queue <==> k !in delivered))
  }

  // No serial number is delivered twice, and none before an earlier time's.
  ghost predicate InOrder<T>(owed: seq<Due<T>>, delivered: seq<nat>, now: nat) {
    delivered == [] ||
      var n := |delivered| - 1;
      var k := delivered[n];
      k < |owed| && owed[k].time <= now && k !in delivered[..n] && InOrder(owed, delivered[..n], owed[k].time)
  }

  lemma {:induction false} InOrderLater<T>(owed: seq<Due<T>>, longer: seq<Due<T>>, delivered: seq<nat>, now: nat, later: nat)
    requires owed <= longer && now <= later && InOrder(owed, delivered, now)
    ensures InOrder(longer, delivered, later)
  {
    if delivered != [] {
      var n := |delivered| - 1;
      InOrderLater(owed, longer, delivered[..n], owed[delivered[n]].time, owed[delivered[n]].time);
    }
  }

  // So deliveries are of different events, at times that never decrease.
  lemma {:induction false} InOrderPair<T>(owed: seq<Due<T>>, delivered: seq<nat>, now: nat, i: nat, j: nat)
    requires InOrder(owed, delivered, now) && i <= j < |delivered|
    ensures delivered[i] < |owed| && delivered[j] < |owed|
    ensures owed[delivered[i]].time <= owed[delivered[j]].time <= now
    ensures i < j ==> delivered[i] != delivered[j]
  {
    var n := |delivered| - 1;
    var k := delivered[n];
    if j < n {
      InOrderPair(owed, delivered[..n], owed[k].time, i, j);
    } else if i < n {
      InOrderPair(owed, delivered[..n], owed[k].time, i, i);
      assert delivered[i] == delivered[..n][i];
    }
  }

  lemma NothingYet<T(!new)>(now: nat, queue: map<nat, Event<T>>, owed: seq<Due<T>>, delivered: seq<nat>)
    requires queue == map[] && |owed| == |delivered| == 0
    ensures Accounted(now, queue, owed, delivered)
  {
  }

  lemma Pushed<T(!new)>(now: nat, queue: map<nat, Event<T>>, owed: seq<Due<T>>, delivered: seq<nat>,
                        e: Event<T>, d: Due<T>)
    requires Accounted(now, queue, owed, delivered) && Carries(e, d) && d.time >= now
    ensures Accounted(now, queue[|owed| := e], owed + [d], delivered)
  {
    InOrderLater(owed, owed + [d], delivered, now, now);
    if i :| 0 <= i < |delivered| && delivered[i] == |owed| {
      InOrderPair(owed, delivered, now, i, i);
    }
  }

  lemma Popped<T(!new)>(now: nat, queue: map<nat, Event<T>>, owed: seq<Due<T>>, delivered: seq<nat>, k: nat)
    requires Accounted(now, queue, owed, delivered) && k in queue
    requires forall j :: j in queue ==> NotLater(queue[k], queue[j])
    ensures Accounted(queue[k].timestamp, queue - {k}, owed, delivered + [k])
  {
    var t := queue[k].timestamp;
    InOrderLater(owed, owed, delivered, now, t);
    assert (delivered + [k])[..|delivered|] == delivered;
  }

  // ---- The log ----

  // From position n on, each reaction is the process's own.
  ghost predicate Obeys<T>(log: seq<Entry<T>>, n: nat, behaviour: Processes<T>) {
    forall i :: n <= i < |log| ==> log[i].reaction == behaviour(i, log[i].id, log[i].op)
  }

  // A run from one point to another: log and deliveries only grow, and every reaction
  // since is the process's own.
  ghost predicate Leads<T>(log0: seq<Entry<T>>, delivered0: seq<nat>, log: seq<Entry<T>>, delivered: seq<nat>,
                           behaviour: Processes<T>) {
    log0 <= log && delivered0 <= delivered && Obeys(log, |log0|, behaviour)
  }

  lemma LeadsOn<T>(log0: seq<Entry<T>>, delivered0: seq<nat>, log1: seq<Entry<T>>, delivered1: seq<nat>,
                   log2: seq<Entry<T>>, delivered2: seq<nat>, behaviour: Processes<T>)
    requires Leads(log0, delivered0, log1, delivered1, behaviour) && Leads(log1, delivered1, log2, delivered2, behaviour)
    ensures Leads(log0, delivered0, log2, delivered2, behaviour)
  {
    forall i | |log0| <= i < |log2|
      ensures log2[i].reaction == behaviour(i, log2[i].id, log2[i].op)
    {
      if i < |log1| {
        assert log1[i] == log2[i];
      }
    }
  }

  // The entries made by starting the first m processes of an order, from position n on.
  function Initials<T>(n: nat, order: seq<nat>, m: nat, now: nat, audience: seq<nat>,
                       behaviour: Processes<T>): (entries: seq<Entry<T>>)
    requires m <= |order|
    ensures |entries| == m
  {
    if m == 0 then []
    else
      Initials(n, order, m - 1, now, audience, behaviour)
      + [Entry(now, order[m - 1], Initial, behaviour(n + m - 1, order[m - 1], Initial), audience)]
  }

  lemma InitialsNext<T>(log: seq<Entry<T>>, order: seq<nat>, m: nat, now: nat, audience: seq<nat>,
                        behaviour: Processes<T>)
    requires m < |order|
    ensures log + Initials(|log|, order, m + 1, now, audience, behaviour)
         == log + Initials(|log|, order, m, now, audience, behaviour)
            + [Entry(now, order[m], Initial, behaviour(|log| + m, order[m], Initial), audience)]
  {
  }

  lemma {:induction false} InitialsLead<T>(log: seq<Entry<T>>, delivered: seq<nat>, order: seq<nat>, m: nat, now: nat,
                                           audience: seq<nat>, behaviour: Processes<T>)
    requires m <= |order|
    ensures Leads(log, delivered, log + Initials(|log|, order, m, now, audience, behaviour), delivered, behaviour)
  {
    if m > 0 {
      InitialsLead(log, delivered, order, m - 1, now, audience, behaviour);
      InitialsNext(log, order, m - 1, now, audience, behaviour);
      var before := log + Initials(|log|, order, m - 1, now, audience, behaviour);
      LeadsOn(log, delivered, before, delivered,
              log + Initials(|log|, order, m, now, audience, behaviour), delivered, behaviour);
    }
  }

  // Whether a process asks to halt when started as the n-th resumption.
  predicate Halts<T>(behaviour: Processes<T>, n: nat, id: nat) {
    behaviour(n, id, Initial).suspension.Halt?
  }

  ghost predicate NoneHalts<T>(behaviour: Processes<T>, n: nat, order: seq<nat>, m: nat)
    requires m <= |order|
  {
    m == 0 || (NoneHalts(behaviour, n, order, m - 1) && !Halts(behaviour, n + m - 1, order[m - 1]))
  }

  // From position n on no process asked to halt, except the last one in a run that a
  // halt ended.
  ghost predicate Ends<T>(log: seq<Entry<T>>, n: nat, end: End) {
    && (forall i :: n <= i < |log| ==> (log[i].reaction.suspension.Halt? <==> i == |log| - 1 && end == Halted))
    && (end == Halted ==> |log| > n)
  }

  // One more resumption, which halts or not.
  ghost predicate OneMore<T>(log: seq<Entry<T>>, longer: seq<Entry<T>>, halts: bool) {
    log <= longer && |longer| == |log| + 1 && longer[|log|].reaction.suspension.Halt? == halts
  }

  lemma EndsNext<T>(log: seq<Entry<T>>, longer: seq<Entry<T>>, n: nat, end: End)
    requires n <= |log| && Ends(log, n, OutOfSteps) && OneMore(log, longer, end == Halted)
    ensures Ends(longer, n, end)
  {
    forall i | n <= i < |longer|
      ensures longer[i].reaction.suspension.Halt? <==> i == |longer| - 1 && end == Halted
    {
      if i < |log| {
        assert log[i] == longer[i];
      }
    }
  }

  lemma {:induction false} InitialsEnd<T>(log: seq<Entry<T>>, order: seq<nat>, m: nat, now: nat, audience: seq<nat>,
                                          behaviour: Processes<T>)
    requires m <= |order| && NoneHalts(behaviour, |log|, order, m)
    ensures Ends(log + Initials(|log|, order, m, now, audience, behaviour), |log|, OutOfSteps)
  {
    if m == 0 {
      assert log + Initials(|log|, order, m, now, audience, behaviour) == log;
    } else {
      InitialsEnd(log, order, m - 1, now, audience, behaviour);
      InitialsNext(log, order, m - 1, now, audience, behaviour);
      EndsNext(log + Initials(|log|, order, m - 1, now, audience, behaviour),
               log + Initials(|log|, order, m, now, audience, behaviour), |log|, OutOfSteps);
    }
  }

  // Every resumption but the initial ones was owed before, in the order of the
  // deliveries: at that time, to that process, with that message or none.
  ghost predicate Faithful<T>(log: seq<Entry<T>>, delivered: seq<nat>, delay: nat) {
    if log == [] then delivered == []
    else
      var n := |log| - 1;
      var e := log[n];
      if e.op.Initial? then Faithful(log[..n], delivered, delay)
      else
        && delivered != []
        && var m := |delivered| - 1;
           && Faithful(log[..n], delivered[..m], delay)
           && delivered[m] < |OwedAll(log[..n], delay)|
           && OwedAll(log[..n], delay)[delivered[m]] == Due(e.time, e.id, e.op)
  }

  // The law the simulator keeps: everything owed was asked for by a logged resumption.
  ghost predicate Law<T>(owed: seq<Due<T>>, delivered: seq<nat>, log: seq<Entry<T>>, delay: nat) {
    owed == OwedAll(log, delay) && Faithful(log, delivered, delay)
  }

  lemma {:induction false} LawDelivered<T>(owed: seq<Due<T>>, delivered: seq<nat>, k: nat, log: seq<Entry<T>>,
                                           delay: nat, e: Entry<T>)
    requires Law(owed, delivered, log, delay) && !e.op.Initial?
    requires k < |owed| && owed[k] == Due(e.time, e.id, e.op)
    ensures Law(owed + OwedBy(e, delay), delivered + [k], log + [e], delay)
  {
    assert (log + [e])[..|log|] == log && (delivered + [k])[..|delivered|] == delivered;
  }

  lemma {:induction false} LawStarted<T>(owed: seq<Due<T>>, delivered: seq<nat>, log: seq<Entry<T>>, delay: nat,
                                         e: Entry<T>)
    requires Law(owed, delivered, log, delay) && e.op.Initial?
    ensures Law(owed + OwedBy(e, delay), delivered, log + [e], delay)
  {
    assert (log + [e])[..|log|] == log;
  }

  // ---- Time limits ----

  // The deliveries from position lo up to hi were not later than `until`.
  ghost predicate Within<T>(owed: seq<Due<T>>, delivered: seq<nat>, lo: nat, hi: nat, until: nat) {
    forall i :: lo <= i < hi && i < |delivered| && delivered[i] < |owed| ==> owed[delivered[i]].time <= until
  }

  lemma WithinLonger<T>(owed: seq<Due<T>>, longer: seq<Due<T>>, delivered: seq<nat>, now: nat, more: seq<nat>, lo: nat,
                        until: nat)
    requires owed <= longer && |more| <= 1 && Within(owed, delivered, lo, |delivered|, until)
    requires InOrder(owed, delivered, now)
    ensures Within(longer, delivered + more, lo, |delivered|, until)
    ensures lo <= |delivered| && |delivered + more| > lo ==> Within(longer, delivered + more, lo, |delivered + more| - 1, until)
    ensures more != [] && more[0] < |longer| && longer[more[0]].time <= until ==>
      Within(longer, delivered + more, lo, |delivered| + 1, until)
  {
    forall i | lo <= i < |delivered|
      ensures delivered[i] < |owed| && longer[delivered[i]].time <= until
    {
      InOrderPair(owed, delivered, now, i, i);
    }
  }

  // ---- What the law means ----

  ghost predicate Answers<T>(e: Entry<T>, d: Due<T>) {
    e.time == d.time && e.id == d.id && e.op == d.op
  }

  // No process is resumed, after its start, but as an earlier resumption asked for.
  ghost predicate NothingInvented<T(!new)>(log: seq<Entry<T>>, delay: nat) {
    forall i :: 0 <= i < |log| && !log[i].op.Initial? ==>
      exists j :: 0 <= j < i && Asks(log[j], delay, Due(log[i].time, log[i].id, log[i].op))
  }

  // All that was asked for is still in the queue or has come about since.
  ghost predicate NothingForgotten<T(!new)>(queue: map<nat, Event<T>>, log: seq<Entry<T>>, delay: nat) {
    forall j, d :: 0 <= j < |log| && Asks(log[j], delay, d) ==>
      || (exists k :: k in queue && Carries(queue[k], d))
      || (exists i :: j < i < |log| && Answers(log[i], d))
  }

  lemma {:induction false} OwedGrows<T>(log: seq<Entry<T>>, delay: nat, i: nat)
    requires i <= |log|
    ensures OwedAll(log[..i], delay) <= OwedAll(log, delay)
  {
    if i == |log| {
      assert log[..i] == log;
    } else {
      var n := |log| - 1;
      OwedGrows(log[..n], delay, i);
      assert log[..n][..i] == log[..i];
    }
  }

  lemma {:induction false} OwedShorter<T>(log: seq<Entry<T>>, delay: nat, i: nat, j: nat)
    requires i <= |log| && j <= |log|
    ensures i <= j ==> |OwedAll(log[..i], delay)| <= |OwedAll(log[..j], delay)|
  {
    if i <= j {
      OwedGrows(log[..j], delay, i);
      assert log[..j][..i] == log[..i];
    }
  }

  // What is owed at a position was asked for by some resumption.
  lemma {:induction false} OwedFrom<T(!new)>(log: seq<Entry<T>>, delay: nat, k: nat) returns (j: nat)
    requires k < |OwedAll(log, delay)|
    ensures j < |log| && Asks(log[j], delay, OwedAll(log, delay)[k])
  {
    var n := |log| - 1;
    var before := OwedAll(log[..n], delay);
    if k < |before| {
      j := OwedFrom(log[..n], delay, k);
    } else {
      j := n;
      assert OwedAll(log, delay)[k] == OwedBy(log[n], delay)[k - |before|];
      OwedExactly(log[n], delay, OwedAll(log, delay)[k]);
    }
  }

  lemma {:induction false} CauseOf<T(!new)>(log: seq<Entry<T>>, delivered: seq<nat>, delay: nat, i: nat) returns (j: nat)
    requires Faithful(log, delivered, delay) && i < |log| && !log[i].op.Initial?
    ensures j < i && Asks(log[j], delay, Due(log[i].time, log[i].id, log[i].op))
  {
    var n := |log| - 1;
    var rest := if log[n].op.Initial? then delivered else delivered[..|delivered| - 1];
    if i < n {
      j := CauseOf(log[..n], rest, delay, i);
    } else {
      j := OwedFrom(log[..n], delay, delivered[|delivered| - 1]);
    }
  }

  // A delivery is the resumption owed, and was owed before.
  lemma {:induction false} EffectOf<T>(log: seq<Entry<T>>, delivered: seq<nat>, delay: nat, p: nat) returns (i: nat)
    requires Faithful(log, delivered, delay) && p < |delivered|
    ensures i < |log| && !log[i].op.Initial? && delivered[p] < |OwedAll(log[..i], delay)|
    ensures Answers(log[i], OwedAll(log[..i], delay)[delivered[p]])
  {
    var n := |log| - 1;
    if log[n].op.Initial? {
      i := EffectOf(log[..n], delivered, delay, p);
      assert log[..n][..i] == log[..i];
    } else if p < |delivered| - 1 {
      i := EffectOf(log[..n], delivered[..|delivered| - 1], delay, p);
      assert log[..n][..i] == log[..i];
    } else {
      i := n;
    }
  }

  // Where in the list of all that is owed a request stands.
  lemma {:induction false} PlaceOf<T(!new)>(log: seq<Entry<T>>, delay: nat, j: nat, d: Due<T>) returns (k: nat)
    requires j < |log| && Asks(log[j], delay, d)
    ensures |OwedAll(log[..j], delay)| <= k < |OwedAll(log, delay)| && OwedAll(log, delay)[k] == d
  {
    OwedExactly(log[j], delay, d);
    var i :| 0 <= i < |OwedBy(log[j], delay)| && OwedBy(log[j], delay)[i] == d;
    var before, upto := OwedAll(log[..j], delay), OwedAll(log[..j + 1], delay);
    assert log[..j + 1][..j] == log[..j];
    assert upto == before + OwedBy(log[j], delay);
    k := |before| + i;
    assert upto[k] == d;
    OwedGrows(log, delay, j + 1);
  }

  lemma Answered<T(!new)>(now: nat, queue: map<nat, Event<T>>, owed: seq<Due<T>>, delivered: seq<nat>,
                          log: seq<Entry<T>>, delay: nat, j: nat, d: Due<T>)
    requires Accounted(now, queue, owed, delivered) && Law(owed, delivered, log, delay)
    requires j < |log| && Asks(log[j], delay, d)
    ensures (exists k :: k in queue && Carries(queue[k], d)) || (exists i :: j < i < |log| && Answers(log[i], d))
  {
    var k := PlaceOf(log, delay, j, d);
    if k in queue {
      assert Carries(queue[k], d);
    } else {
      var p :| 0 <= p < |delivered| && delivered[p] == k;
      var i := EffectOf(log, delivered, delay, p);
      OwedGrows(log, delay, i);
      OwedShorter(log, delay, i, j);
      assert j < i && Answers(log[i], d);
    }
  }

  // The law at work: what a process asks for is what comes about, and nothing else.
  lemma LawMeans<T(!new)>(now: nat, queue: map<nat, Event<T>>, owed: seq<Due<T>>, delivered: seq<nat>,
                          log: seq<Entry<T>>, delay: nat)
    requires Law(owed, delivered, log, delay)
    ensures NothingInvented(log, delay)
    ensures Accounted(now, queue, owed, delivered) ==> NothingForgotten(queue, log, delay)
  {
    forall i | 0 <= i < |log| && !log[i].op.Initial?
      ensures exists j :: 0 <= j < i && Asks(log[j], delay, Due(log[i].time, log[i].id, log[i].op))
    {
      var j := CauseOf(log, delivered, delay, i);
    }
    if Accounted(now, queue, owed, delivered) {
      forall j, d | 0 <= j < |log| && Asks(log[j], delay, d)
        ensures (exists k :: k in queue && Carries(queue[k], d)) || (exists i :: j < i < |log| && Answers(log[i], d))
      {
        Answered(now, queue, owed, delivered, log, delay, j, d);
      }
    }
  }

  // The resumptions but the initial ones, in order.
  function Resumptions<T>(log: seq<Entry<T>>): seq<Due<T>> {
    if log == [] then []
    else
      var n := |log| - 1;
      Resumptions(log[..n]) + if log[n].op.Initial? then [] else [Due(log[n].time, log[n].id, log[n].op)]
  }

  lemma {:induction false} AsMany<T>(log: seq<Entry<T>>, delivered: seq<nat>, delay: nat)
    requires Faithful(log, delivered, delay)
    ensures |Resumptions(log)| == |delivered|
  {
    if log != [] {
      var n := |log| - 1;
      AsMany(log[..n], if log[n].op.Initial? then delivered else delivered[..|delivered| - 1], delay);
    }
  }

  // Exactly once: the resumptions are one for one what was owed under the serial
  // numbers delivered, which are all different.
  lemma {:induction false} OneForOne<T>(log: seq<Entry<T>>, delivered: seq<nat>, delay: nat, p: nat)
    requires Faithful(log, delivered, delay) && p < |delivered|
    ensures |Resumptions(log)| == |delivered| && delivered[p] < |OwedAll(log, delay)|
    ensures Resumptions(log)[p] == OwedAll(log, delay)[delivered[p]]
  {
    var n, m := |log| - 1, |delivered| - 1;
    var before, owed := OwedAll(log[..n], delay), OwedAll(log, delay);
    assert before <= owed;
    if log[n].op.Initial? {
      OneForOne(log[..n], delivered, delay, p);
      assert Resumptions(log) == Resumptions(log[..n]);
      assert before[delivered[p]] == owed[delivered[p]];
    } else {
      AsMany(log[..n], delivered[..m], delay);
      if p < m {
        OneForOne(log[..n], delivered[..m], delay, p);
      }
      assert before[delivered[p]] == owed[delivered[p]];
    }
  }
}
