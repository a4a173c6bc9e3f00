/**
 The discrete-event simulator. Processes are arbitrary: at each resumption they
 may make any environment calls and suspend in any way. Among events equal in
 timestamp and destination the heap may pop any.
 */
module Simulation {
  import opened SimulationLog
  import opened Wrappers

  class Simulation<T(==, !new)> {
    var now: nat
    const broadcastDelay: nat
    // The event queue; each event is keyed by the order in which it was scheduled.
    var queue: map<nat, Event<T>>
    var nextSerial: nat
    // The process ids in the order the hash set iterates them.
    var processIds: seq<nat>
    // The ids whose process is still held.
    var processes: set<nat>
    // Every id ever registered.
    ghost var registered: set<nat>
    var resumptions: nat
    // What every event ever scheduled is to bring about, the serial numbers of those
    // delivered so far, in order, and every resumption of a process.
    ghost var owed: seq<Due<T>>
    ghost var delivered: seq<nat>
    ghost var log: seq<Entry<T>>

    ghost predicate Valid()
      reads this`now, this`queue, this`nextSerial, this`owed, this`delivered, this`resumptions, this`log
    {
      nextSerial == |owed| && resumptions == |log| && Accounted(now, queue, owed, delivered)
    }

    // The events are exactly those the processes asked for when they were resumed, and
    // the deliveries exactly those the processes were resumed for.
    ghost predicate Kept()
      reads this`owed, this`delivered, this`log
    {
      Law(owed, delivered, log, broadcastDelay)
    }

    // The same, but the last delivery found no process.
    ghost predicate Undeliverable()
      reads this`owed, this`delivered, this`log, this`processes
    {
      && delivered != []
      && var n := |delivered| - 1;
         && Law(owed, delivered[..n], log, broadcastDelay)
         && delivered[n] < |owed| && owed[delivered[n]].id !in processes
    }

    // The hash set lists every process ever registered, once.
    ghost predicate Listed()
      reads this`processIds, this`processes, this`registered
    {
      Lists(processIds, registered) && processes <= registered
    }

    constructor (delay: nat, start: nat)
      ensures Valid() && Kept() && Listed() && now == start && queue == map[] && log == []
      ensures broadcastDelay == delay && registered == {} && processes == {}
    {
      now := start;
      broadcastDelay := delay;
      queue, nextSerial, resumptions := map[], 0, 0;
      processIds, processes, registered := [], {}, {};
      owed, delivered, log := [], [], [];
      new;
      NothingYet(now, queue, owed, delivered);
      ListsNothing(processIds, registered);
    }

    // Registering, again or for the first time, may change the iteration order
    // arbitrarily.
    method Register(id: nat)
      requires Valid() && Listed()
      modifies this`processIds, this`processes, this`registered
      ensures Valid() && Listed() && registered == old(registered) + {id} && processes == old(processes) + {id}
    {
      var ids := (set i | i in processIds) + {id};
      assert ids == registered + {id};
      processes, registered := processes + {id}, registered + {id};
      processIds := Iterate(ids);
    }

    // event_queue.push at now + delay: an event that owes its destination a message, or
    // a wake-up if it carries none.
    method Push(delay: nat, dest: nat, msg: Option<T>, ghost op: Resumption<T>)
      requires Valid() && Carries(Event(now + delay, dest, msg), Due(now + delay, dest, op))
      modifies this`queue, this`nextSerial, this`owed
      ensures Valid()
      ensures owed == old(owed) + [Due(now + delay, dest, op)]
    {
      var event := Event(now + delay, dest, msg);
      Pushed(now, queue, owed, delivered, event, Due(now + delay, dest, op));
      queue := queue[nextSerial := event];
      nextSerial := nextSerial + 1;
      owed := owed + [Due(now + delay, dest, op)];
    }

    // One event for every process, the sender included.
    method Broadcast(sender: nat, msg: T)
      requires Valid()
      modifies this`queue, this`nextSerial, this`owed
      ensures Valid()
      ensures owed == old(owed) + Copies(now + broadcastDelay, processIds, msg)
      ensures Listed() ==> OneEach(Copies(now + broadcastDelay, processIds, msg), registered, now + broadcastDelay, msg)
    {
      ghost var before, at := owed, now + broadcastDelay;
      CopiesOneEach(at, processIds, registered, msg);
      for i := 0 to |processIds|
        invariant Valid()
        invariant owed == before + Copies(at, processIds[..i], msg)
      {
        CopiesSnoc(before, at, processIds, i, msg);
        Push(broadcastDelay, processIds[i], Some(msg), Message(msg));
      }
      assert processIds[..|processIds|] == processIds;
    }

    method Perform(calls: seq<Call<T>>)
      requires Valid()
      modifies this`queue, this`nextSerial, this`owed
      ensures Valid()
      ensures owed == old(owed) + AskedAll(calls, now, broadcastDelay, processIds)
    {
      if calls != [] {
        var last := |calls| - 1;
        Perform(calls[..last]);
        PerformOne(calls[last]);
      }
    }

    method PerformOne(call: Call<T>)
      requires Valid()
      modifies this`queue, this`nextSerial, this`owed
      ensures Valid()
      ensures owed == old(owed) + Asked(call, now, broadcastDelay, processIds)
    {
      match call {
        case SendCall(delay, dest, msg) => Push(delay, dest, Some(msg), Message(msg));
        case TimeoutCall(timeout, dest) => Push(timeout, dest, None, Scheduled);
        case BroadcastCall(sender, msg) => Broadcast(sender, msg);
      }
    }

    // next_event: the earliest event, by time and then by destination, which also
    // moves the clock.
    method NextEvent() returns (event: Event<T>, ghost k: nat)
      requires Valid() && queue != map[]
      modifies this`queue, this`now, this`delivered
      ensures Valid() && now == event.timestamp >= old(now)
      ensures k in old(queue) && queue == old(queue) - {k} && event == old(queue)[k]
      ensures delivered == old(delivered) + [k] && k < |owed| && Carries(event, owed[k])
      ensures forall j :: j in old(queue) ==>
        var other := old(queue)[j];
        event.timestamp < other.timestamp || (event.timestamp == other.timestamp && event.dest <= other.dest)
    {
      var first := Earliest(queue);
      Popped(now, queue, owed, delivered, first);
      event, k := queue[first], first;
      queue := queue - {first};
      now := event.timestamp;
      delivered := delivered + [k];
    }

    // Resumes a process and carries out what it asks for.
    method Resume(behaviour: Processes<T>, id: nat, op: Resumption<T>) returns (end: Option<End>)
      requires Valid()
      modifies this`queue, this`nextSerial, this`resumptions, this`owed, this`log
      ensures Valid()
      ensures var e := Entry(now, id, op, behaviour(|old(log)|, id, op), processIds);
        && log == old(log) + [e] && owed == old(owed) + OwedBy(e, broadcastDelay)
        && end == if e.reaction.suspension.Halt? then Some(if op.Initial? then Panicked else Halted) else None
    {
      var reaction := behaviour(resumptions, id, op);
      ghost var e := Entry(now, id, op, reaction, processIds);
      Perform(reaction.calls);
      Suspend(reaction.suspension, id);
      resumptions := resumptions + 1;
      log := log + [e];
      end := if reaction.suspension.Halt? then Some(if op.Initial? then Panicked else Halted) else None;
    }

    // A process that wants to be woken up gets its timeout.
    method Suspend(suspension: Suspension, id: nat)
      requires Valid()
      modifies this`queue, this`nextSerial, this`owed
      ensures Valid()
      ensures owed == old(owed) + WakeUp(suspension, id, now)
    {
      match suspension {
        case Timeout(timeout) => Push(timeout, id, None, Scheduled);
        case Idle =>
        case Halt =>
      }
    }

    // Resumes the process an event is for, with its message, or as scheduled if it has
    // none; without such a process the simulation panics.
    method Dispatch(behaviour: Processes<T>, event: Event<T>, ghost before: seq<nat>, ghost k: nat)
      returns (end: Option<End>)
      requires Valid() && now == event.timestamp && delivered == before + [k] && k < |owed| && Carries(event, owed[k])
      requires Law(owed, before, log, broadcastDelay)
      modifies this`queue, this`nextSerial, this`resumptions, this`owed, this`log
      ensures Valid() && old(owed) <= owed && old(log) <= log && Obeys(log, |old(log)|, behaviour)
      ensures if event.dest in processes then
                Kept() && Resumed(behaviour, end, old(log), event.dest,
                                  match event.msg case Some(msg) => Message(msg) case None => Scheduled)
              else end == Some(Panicked) && Undeliverable() && log == old(log)
    {
      if event.dest !in processes {
        assert delivered[..|delivered| - 1] == before;
        return Some(Panicked);
      }
      var op := match event.msg case Some(msg) => Message(msg) case None => Scheduled;
      ghost var e := Entry(now, event.dest, op, behaviour(|log|, event.dest, op), processIds);
      LawDelivered(owed, before, k, log, broadcastDelay, e);
      end := Resume(behaviour, event.dest, op);
    }

    // The log has grown by one resumption, with the reaction of its process, at this
    // time; a halt ends the run.
    ghost predicate Resumed(behaviour: Processes<T>, end: Option<End>, log0: seq<Entry<T>>, id: nat, op: Resumption<T>)
      reads this`now, this`log, this`processIds
    {
      var reaction := behaviour(|log0|, id, op);
      && log == log0 + [Entry(now, id, op, reaction, processIds)]
      && end == if reaction.suspension.Halt? then Some(if op.Initial? then Panicked else Halted) else None
    }

    // step: an earliest event, by time and then by destination, is delivered, and its
    // process resumed.
    method Step(behaviour: Processes<T>) returns (end: Option<End>, ghost more: seq<nat>)
      requires Valid() && Kept()
      modifies this`now, this`queue, this`nextSerial, this`resumptions, this`owed, this`delivered, this`log
      ensures Valid() && now >= old(now) && old(owed) <= owed
      ensures Leads(old(log), old(delivered), log, delivered, behaviour) && delivered == old(delivered) + more
      ensures if old(queue) == map[] then more == [] && end == Some(Panicked) && Kept() && log == old(log)
              else |more| == 1 && more[0] in old(queue) && Delivers(behaviour, end, old(queue), more[0], old(log))
    {
      if queue == map[] {
        return Some(Panicked), [];
      }
      var event, k := NextEvent();
      more := [k];
      end := Dispatch(behaviour, event, old(delivered), k);
    }

    // Event k, an earliest one, has been delivered: its process is resumed with its
    // message, or as scheduled if it has none, or the simulation panics without one.
    ghost predicate Delivers(behaviour: Processes<T>, end: Option<End>, queue0: map<nat, Event<T>>, k: nat,
                             log0: seq<Entry<T>>)
      requires k in queue0
      reads this`now, this`owed, this`delivered, this`log, this`processes, this`processIds
    {
      var event := queue0[k];
      && now == event.timestamp && k < |owed| && owed[k].time == now
      && (forall j :: j in queue0 ==>
            event.timestamp < queue0[j].timestamp || (event.timestamp == queue0[j].timestamp && event.dest <= queue0[j].dest))
      && if event.dest in processes then
           Kept() && Resumed(behaviour, end, log0, event.dest,
                             match event.msg case Some(msg) => Message(msg) case None => Scheduled)
         else end == Some(Panicked) && Undeliverable() && log == log0
    }

    // run(until), cut off after `steps` events, so that every finite prefix of a run is
    // covered. Whatever the processes do: time never runs back; each is resumed with
    // what was asked for and when it was asked for, and with nothing else; all that was
    // asked for is pending or has come about, once; and at most the last event
    // delivered is later than `until`.
    method Run(behaviour: Processes<T>, until: nat, steps: nat) returns (end: End)
      requires Valid() && Kept() && Listed()
      modifies this`now, this`queue, this`nextSerial, this`resumptions, this`owed, this`delivered, this`log, this`processes
      ensures Valid() && Listed() && now >= old(now)
      ensures Kept() || (end == Panicked && Undeliverable())
      ensures NothingInvented(log, broadcastDelay)
      ensures end != Panicked ==> NothingForgotten(queue, log, broadcastDelay)
      ensures Leads(old(log), old(delivered), log, delivered, behaviour)
      ensures end != Panicked ==> Ends(log, |old(log)|, end)
      ensures |delivered| > |old(delivered)| ==> Within(owed, delivered, |old(delivered)|, |delivered| - 1, until)
      ensures end == TimeUp ==> now > until
      ensures end == OutOfSteps ==> |delivered| == |old(delivered)| + steps
      ensures processes == if end == Halted || end == TimeUp then {} else old(processes)
    {
      end := StartAndLoop(behaviour, until, steps);
      ghost var known := if Kept() then delivered else delivered[..|delivered| - 1];
      LawMeans(now, queue, owed, known, log, broadcastDelay);
    }

    method StartAndLoop(behaviour: Processes<T>, until: nat, steps: nat) returns (end: End)
      requires Valid() && Kept()
      modifies this`now, this`queue, this`nextSerial, this`resumptions, this`owed, this`delivered, this`log, this`processes
      ensures Valid() && now >= old(now)
      ensures Kept() || (end == Panicked && Undeliverable())
      ensures processes == if end == Halted || end == TimeUp then {} else old(processes)
      ensures Leads(old(log), old(delivered), log, delivered, behaviour)
      ensures end != Panicked ==> Ends(log, |old(log)|, end)
      ensures |delivered| > |old(delivered)| ==> Within(owed, delivered, |old(delivered)|, |delivered| - 1, until)
      ensures end == TimeUp ==> now > until
      ensures end == OutOfSteps ==> |delivered| == |old(delivered)| + steps
    {
      ghost var log0, delivered0 := log, delivered;
      var started, order, m := Start(behaviour);
      InitialsLead(log0, delivered0, order, m, now, processIds, behaviour);
      if !started {
        return Panicked;
      }
      InitialsEnd(log0, order, m, now, processIds, behaviour);
      ghost var log1 := log;
      end := Loop(behaviour, until, steps, |log0|);
      LeadsOn(log0, delivered0, log1, delivered0, log, delivered, behaviour);
    }

    // The loop of a run whose resumptions start at position n of the log.
    method Loop(behaviour: Processes<T>, until: nat, steps: nat, ghost n: nat) returns (end: End)
      requires Valid() && Kept() && n <= |log| && Ends(log, n, OutOfSteps)
      modifies this`now, this`queue, this`nextSerial, this`resumptions, this`owed, this`delivered, this`log, this`processes
      ensures Valid() && now >= old(now)
      ensures Kept() || (end == Panicked && Undeliverable())
      ensures processes == if end == Halted || end == TimeUp then {} else old(processes)
      ensures Leads(old(log), old(delivered), log, delivered, behaviour)
      ensures end != Panicked ==> Ends(log, n, end)
      ensures |delivered| > |old(delivered)| ==> Within(owed, delivered, |old(delivered)|, |delivered| - 1, until)
      ensures end == TimeUp ==> now > until
      ensures end == OutOfSteps ==> |delivered| == |old(delivered)| + steps
    {
      ghost var log0, delivered0 := log, delivered;
      for i := 0 to steps
        invariant Valid() && Kept() && now >= old(now)
        invariant Leads(log0, delivered0, log, delivered, behaviour) && Ends(log, n, OutOfSteps)
        invariant |delivered| == |delivered0| + i
        invariant Within(owed, delivered, |delivered0|, |delivered|, until)
        invariant processes == old(processes)
      {
        ghost var log1, delivered1 := log, delivered;
        var stopped := Turn(behaviour, until, |delivered0|);
        LeadsOn(log0, delivered0, log1, delivered1, log, delivered, behaviour);
        if stopped != Some(Panicked) {
          EndsNext(log1, log, n, if stopped.Some? then stopped.value else OutOfSteps);
        }
        if stopped.Some? {
          return stopped.value;
        }
      }
      return OutOfSteps;
    }

    // A step as the loop of a run sees it, whose earlier deliveries start at position lo.
    method Advance(behaviour: Processes<T>, until: nat, ghost lo: nat) returns (stopped: Option<End>)
      requires Valid() && Kept() && lo <= |delivered| && Within(owed, delivered, lo, |delivered|, until)
      modifies this`now, this`queue, this`nextSerial, this`resumptions, this`owed, this`delivered, this`log
      ensures Valid() && now >= old(now)
      ensures Kept() || (stopped == Some(Panicked) && Undeliverable())
      ensures Leads(old(log), old(delivered), log, delivered, behaviour)
      ensures |delivered| > lo ==> Within(owed, delivered, lo, |delivered| - 1, until)
      ensures stopped.None? ==>
        |delivered| == |old(delivered)| + 1 && (now <= until ==> Within(owed, delivered, lo, |delivered|, until))
      ensures stopped.None? || stopped == Some(Panicked) || stopped == Some(Halted)
      ensures stopped != Some(Panicked) ==> OneMore(old(log), log, stopped == Some(Halted))
    {
      ghost var owed0, delivered0, now0 := owed, delivered, now;
      ghost var more;
      stopped, more := Step(behaviour);
      WithinLonger(owed0, owed, delivered0, now0, more, lo, until);
    }

    // One turn of run's loop: a step, then the time limit.
    method Turn(behaviour: Processes<T>, until: nat, ghost lo: nat) returns (stopped: Option<End>)
      requires Valid() && Kept() && lo <= |delivered| && Within(owed, delivered, lo, |delivered|, until)
      modifies this`now, this`queue, this`nextSerial, this`resumptions, this`owed, this`delivered, this`log, this`processes
      ensures Valid() && now >= old(now) && Leads(old(log), old(delivered), log, delivered, behaviour)
      ensures Kept() || (stopped == Some(Panicked) && Undeliverable())
      ensures stopped.None? ==> |delivered| == |old(delivered)| + 1 && Within(owed, delivered, lo, |delivered|, until)
      ensures |delivered| > lo ==> Within(owed, delivered, lo, |delivered| - 1, until)
      ensures stopped == Some(TimeUp) ==> now > until
      ensures stopped != Some(OutOfSteps)
      ensures stopped != Some(Panicked) ==> OneMore(old(log), log, stopped == Some(Halted))
      ensures processes == if stopped.Some? && stopped != Some(Panicked) then {} else old(processes)
    {
      stopped := Advance(behaviour, until, lo);
      stopped := if stopped.None? && now > until then Some(TimeUp) else stopped;
      processes := if stopped.Some? && stopped.value != Panicked then {} else processes;
    }

    // The initial resumption of the processes, in any order, until one halts.
    method Start(behaviour: Processes<T>) returns (ok: bool, order: seq<nat>, m: nat)
      requires Valid() && Kept()
      modifies this`queue, this`nextSerial, this`resumptions, this`owed, this`log
      ensures Valid() && Kept() && Lists(order, processes) && m <= |order|
      ensures log == old(log) + Initials(|old(log)|, order, m, now, processIds, behaviour)
      ensures if ok then m == |order| && NoneHalts(behaviour, |old(log)|, order, m)
              else m > 0 && NoneHalts(behaviour, |old(log)|, order, m - 1)
                   && Halts(behaviour, |old(log)| + m - 1, order[m - 1])
    {
      order := Iterate(processes);
      ok, m := StartAll(behaviour, order);
    }

    method StartAll(behaviour: Processes<T>, order: seq<nat>) returns (ok: bool, m: nat)
      requires Valid() && Kept()
      modifies this`queue, this`nextSerial, this`resumptions, this`owed, this`log
      ensures Valid() && Kept() && m <= |order|
      ensures log == old(log) + Initials(|old(log)|, order, m, now, processIds, behaviour)
      ensures if ok then m == |order| && NoneHalts(behaviour, |old(log)|, order, m)
              else m > 0 && NoneHalts(behaviour, |old(log)|, order, m - 1)
                   && Halts(behaviour, |old(log)| + m - 1, order[m - 1])
    {
      ghost var log0 := log;
      for i := 0 to |order|
        invariant Valid() && Kept()
        invariant log == log0 + Initials(|log0|, order, i, now, processIds, behaviour)
        invariant NoneHalts(behaviour, |log0|, order, i)
      {
        var halted := StartOne(behaviour, order, i, log0);
        if halted {
          return false, i + 1;
        }
      }
      return true, |order|;
    }

    method StartOne(behaviour: Processes<T>, order: seq<nat>, i: nat, ghost log0: seq<Entry<T>>) returns (halted: bool)
      requires Valid() && Kept() && i < |order|
      requires log == log0 + Initials(|log0|, order, i, now, processIds, behaviour)
      modifies this`queue, this`nextSerial, this`resumptions, this`owed, this`log
      ensures Valid() && Kept()
      ensures log == log0 + Initials(|log0|, order, i + 1, now, processIds, behaviour)
      ensures halted == Halts(behaviour, |log0| + i, order[i])
    {
      ghost var n := |log0| + i;
      assert n == |log|;
      InitialsNext(log0, order, i, now, processIds, behaviour);
      LawStarted(owed, delivered, log, broadcastDelay,
                 Entry(now, order[i], Initial, behaviour(n, order[i], Initial), processIds));
      var startup := Resume(behaviour, order[i], Initial);
      halted := startup.Some?;
    }
  }

  // A hash set's iteration order, any order.
  method Iterate(ids: set<nat>) returns (order: seq<nat>)
    ensures Lists(order, ids)
  {
    var rest := ids;
    order := [];
    while rest != {}
      invariant rest <= ids && Lists(order, ids - rest)
      decreases rest
    {
      var id :| id in rest;
      ListsSnoc(order, ids - rest, id);
      assert ids - (rest - {id}) == ids - rest + {id};
      order, rest := order + [id], rest - {id};
    }
    assert ids - rest == ids;
  }

  // The serial number of an earliest event.
  method Earliest<T>(queue: map<nat, Event<T>>) returns (k: nat)
    requires queue != map[]
    ensures k in queue
    ensures forall j :: j in queue ==> NotLater(queue[k], queue[j])
  {
    k :| k in queue;
    var rest := queue.Keys;
    while rest != {}
      invariant rest <= queue.Keys && k in queue
      invariant forall j :: j in queue && j !in rest ==> NotLater(queue[k], queue[j])
      decreases rest
    {
      var j :| j in rest;
      rest := rest - {j};
      if !NotLater(queue[k], queue[j]) {
        k := j;
      }
    }
  }
}
