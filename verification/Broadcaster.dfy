/**
 The broadcasting plan (subscription -> encoding -> listener -> connection) and
 the loop that registers, unregisters, notifies and purges. Iteration order over
 the maps is arbitrary, and so is the outcome of every send.
 */
module Broadcaster {
  import opened Wrappers

  type Id = nat

  // What one attempt to send comes to.
  datatype Outcome = Sent | Failed(closed: bool)

  // One attempted send.
  datatype Attempt<M> = Attempt(id: Id, message: M)

  type Tree<S, E, C> = map<S, map<E, map<Id, C>>>

  // The connection filed under s, e and id.
  function Conn<S, E, C>(tree: Tree<S, E, C>, s: S, e: E, id: Id): Option<C> {
    if s in tree && e in tree[s] && id in tree[s][e] then Some(tree[s][e][id]) else None
  }

  // How subscriptions, encodings and connections behave, as far as the plan cares.
  datatype Behaviour<!S, !E, !C, !N, !M> = Behaviour(
    encoding: C -> E,
    apply: (N, S) -> Option<N>,
    intoMessage: (N, E) -> M)

  // A listener's subscription and connection.
  datatype Listener<S, C> = Listener(subscription: S, connection: C)

  ghost predicate NoEmpty<S(!new), E(!new), C(!new)>(tree: Tree<S, E, C>) {
    forall s :: s in tree ==> tree[s] != map[] && forall e :: e in tree[s] ==> tree[s][e] != map[]
  }

  // The tree files exactly the given listeners, each once, under its own
  // subscription and its connection's encoding.
  ghost predicate Files<S(!new), E(!new), C(!new)>(tree: Tree<S, E, C>, listeners: map<Id, Listener<S, C>>,
                                                   encoding: C -> E) {
    && (forall s, e, id :: Conn(tree, s, e, id).Some? ==>
          id in listeners && listeners[id] == Listener(s, Conn(tree, s, e, id).value) && e == encoding(listeners[id].connection))
    && (forall id :: id in listeners ==>
          Conn(tree, listeners[id].subscription, encoding(listeners[id].connection), id) == Some(listeners[id].connection))
  }

  // ---- Edits of the tree ----

  function TakeOut<S, E, C>(tree: Tree<S, E, C>, s: S, e: E, id: Id): Tree<S, E, C>
    requires s in tree && e in tree[s]
  {
    tree[s := tree[s][e := tree[s][e] - {id}]]
  }

  // Drops an encoding and, if that leaves it empty, its subscription.
  function Prune<S, E, C>(tree: Tree<S, E, C>, s: S, e: E): Tree<S, E, C>
    requires s in tree
  {
    if tree[s] - {e} == map[] then tree - {s} else tree[s := tree[s] - {e}]
  }

  // entry(..).or_default() twice, then entry(id).or_insert(c).
  function PutIn<S, E, C>(tree: Tree<S, E, C>, s: S, e: E, id: Id, c: C): Tree<S, E, C> {
    var encodings: map<E, map<Id, C>> := if s in tree then tree[s] else map[];
    var connections: map<Id, C> := if e in encodings then encodings[e] else map[];
    var filled: map<Id, C> := if id in connections then connections else connections[id := c];
    tree[s := encodings[e := filled]]
  }

  lemma ConnTakeOut<S, E, C>(tree: Tree<S, E, C>, s: S, e: E, id: Id, s': S, e': E, j: Id)
    requires s in tree && e in tree[s]
    ensures Conn(TakeOut(tree, s, e, id), s', e', j)
         == if s' == s && e' == e && j == id then None else Conn(tree, s', e', j)
  {
  }

  lemma ConnPrune<S, E, C>(tree: Tree<S, E, C>, s: S, e: E, s': S, e': E, j: Id)
    requires s in tree && e in tree[s] && tree[s][e] == map[]
    ensures Conn(Prune(tree, s, e), s', e', j) == Conn(tree, s', e', j)
  {
    if s' == s && e' != e && tree[s] - {e} == map[] {
      assert e' !in tree[s] by {
        assert e' !in tree[s] - {e};
      }
    }
  }

  lemma ConnPutIn<S, E, C>(tree: Tree<S, E, C>, s: S, e: E, id: Id, c: C, s': S, e': E, j: Id)
    requires Conn(tree, s, e, id) == None
    ensures Conn(PutIn(tree, s, e, id, c), s', e', j)
         == if s' == s && e' == e && j == id then Some(c) else Conn(tree, s', e', j)
  {
  }

  // Removing a filed listener, then dropping its set if that is now empty.
  function Removed<S, E, C>(tree: Tree<S, E, C>, s: S, e: E, id: Id): Tree<S, E, C>
    requires s in tree && e in tree[s]
  {
    var taken := TakeOut(tree, s, e, id);
    if taken[s][e] == map[] then Prune(taken, s, e) else taken
  }

  lemma RemovedNoEmpty<S(!new), E(!new), C(!new)>(tree: Tree<S, E, C>, s: S, e: E, id: Id)
    requires NoEmpty(tree) && s in tree && e in tree[s]
    ensures NoEmpty(Removed(tree, s, e, id))
  {
  }

  lemma RemovedConn<S, E, C>(tree: Tree<S, E, C>, s: S, e: E, id: Id, s': S, e': E, j: Id)
    requires s in tree && e in tree[s]
    ensures Conn(Removed(tree, s, e, id), s', e', j)
         == if s' == s && e' == e && j == id then None else Conn(tree, s', e', j)
  {
    var taken := TakeOut(tree, s, e, id);
    ConnTakeOut(tree, s, e, id, s', e', j);
    if taken[s][e] == map[] {
      ConnPrune(taken, s, e, s', e', j);
    }
  }

  lemma FilesWithout<S(!new), E(!new), C(!new)>(tree: Tree<S, E, C>, after: Tree<S, E, C>,
                                                listeners: map<Id, Listener<S, C>>, encoding: C -> E, id: Id)
    requires Files(tree, listeners, encoding)
    requires forall s, e, j :: Conn(after, s, e, j) == if j == id then None else Conn(tree, s, e, j)
    ensures Files(after, listeners - {id}, encoding)
  {
  }

  lemma RemovedFiles<S(!new), E(!new), C(!new)>(tree: Tree<S, E, C>, listeners: map<Id, Listener<S, C>>,
                                                encoding: C -> E, id: Id)
    requires NoEmpty(tree) && Files(tree, listeners, encoding) && id in listeners
    ensures var s, e := listeners[id].subscription, encoding(listeners[id].connection);
      && s in tree && e in tree[s]
      && NoEmpty(Removed(tree, s, e, id)) && Files(Removed(tree, s, e, id), listeners - {id}, encoding)
  {
    var s, e := listeners[id].subscription, encoding(listeners[id].connection);
    assert Conn(tree, s, e, id).Some?;
    RemovedNoEmpty(tree, s, e, id);
    forall s', e', j
      ensures Conn(Removed(tree, s, e, id), s', e', j) == if j == id then None else Conn(tree, s', e', j)
    {
      RemovedConn(tree, s, e, id, s', e', j);
    }
    FilesWithout(tree, Removed(tree, s, e, id), listeners, encoding, id);
  }

  lemma FilesWith<S(!new), E(!new), C(!new)>(tree: Tree<S, E, C>, after: Tree<S, E, C>,
                                             listeners: map<Id, Listener<S, C>>, encoding: C -> E, id: Id,
                                             l: Listener<S, C>)
    requires Files(tree, listeners, encoding) && id !in listeners
    requires forall s, e, j ::
      Conn(after, s, e, j)
      == if s == l.subscription && e == encoding(l.connection) && j == id then Some(l.connection) else Conn(tree, s, e, j)
    ensures Files(after, listeners[id := l], encoding)
  {
  }

  lemma PutInNoEmpty<S(!new), E(!new), C(!new)>(tree: Tree<S, E, C>, s: S, e: E, id: Id, c: C)
    requires NoEmpty(tree)
    ensures NoEmpty(PutIn(tree, s, e, id, c))
  {
    assert id in PutIn(tree, s, e, id, c)[s][e];
  }

  lemma PutInFiles<S(!new), E(!new), C(!new)>(tree: Tree<S, E, C>, listeners: map<Id, Listener<S, C>>,
                                              encoding: C -> E, id: Id, l: Listener<S, C>)
    requires NoEmpty(tree) && Files(tree, listeners, encoding) && id !in listeners
    ensures var after := PutIn(tree, l.subscription, encoding(l.connection), id, l.connection);
      NoEmpty(after) && Files(after, listeners[id := l], encoding)
  {
    var s, e := l.subscription, encoding(l.connection);
    var after := PutIn(tree, s, e, id, l.connection);
    PutInNoEmpty(tree, s, e, id, l.connection);
    assert Conn(tree, s, e, id) == None;
    forall s', e', j
      ensures Conn(after, s', e', j) == if s' == s && e' == e && j == id then Some(l.connection) else Conn(tree, s', e', j)
    {
      ConnPutIn(tree, s, e, id, l.connection, s', e', j);
    }
    FilesWith(tree, after, listeners, encoding, id, l);
  }

  // Once taken out, an id is nowhere in the tree.
  lemma TakenNowhere<S(!new), E(!new), C(!new)>(tree: Tree<S, E, C>, listeners: map<Id, Listener<S, C>>,
                                                encoding: C -> E, id: Id, s: S, e: E)
    requires Files(tree, listeners, encoding) && id in listeners
    ensures var l := listeners[id];
      && l.subscription in tree && encoding(l.connection) in tree[l.subscription]
      && Conn(TakeOut(tree, l.subscription, encoding(l.connection), id), s, e, id) == None
  {
    var l := listeners[id];
    assert Conn(tree, l.subscription, encoding(l.connection), id).Some?;
    ConnTakeOut(tree, l.subscription, encoding(l.connection), id, s, e, id);
  }

  class Plan<S(==, !new), E(==, !new), C(==, !new), N(!new), M(==, !new)> {
    const behaviour: Behaviour<S, E, C, N, M>
    var tree: Tree<S, E, C>
    ghost var listeners: map<Id, Listener<S, C>>

    ghost predicate Valid()
      reads this
    {
      NoEmpty(tree) && Files(tree, listeners, behaviour.encoding)
    }

    constructor (behaviour: Behaviour<S, E, C, N, M>)
      ensures Valid() && tree == map[] && listeners == map[] && this.behaviour == behaviour
    {
      this.behaviour := behaviour;
      tree := map[];
      listeners := map[];
    }

    // tree is T with id taken out of its (still nonempty) connection set.
    ghost predicate TakenFrom(T: Tree<S, E, C>, tree: Tree<S, E, C>, l: Listener<S, C>, id: Id) {
      var s, e := l.subscription, behaviour.encoding(l.connection);
      && Conn(T, s, e, id) == Some(l.connection)
      && tree == TakeOut(T, s, e, id)
      && tree[s][e] != map[]
    }

    // Takes id out of the one connection set that holds it, without cleaning up.
    // The scan stops early only when it has emptied a set.
    method Take(id: Id) returns (result: Option<C>, found: Option<(S, E)>)
      requires Valid()
      modifies this`tree
      ensures id !in listeners ==> result == None && found == None && tree == old(tree)
      ensures id in listeners ==>
        var l := listeners[id];
        var s, e := l.subscription, behaviour.encoding(l.connection);
        && result == Some(l.connection)
        && Conn(old(tree), s, e, id).Some?
        && tree == TakeOut(old(tree), s, e, id)
        && found == if tree[s][e] == map[] then Some((s, e)) else None
    {
      ghost var T := tree;
      result, found := None, None;
      var subs := tree.Keys;
      label outer:
      while subs != {}
        invariant subs <= T.Keys && T.Keys == tree.Keys
        invariant found == None
        invariant result == None ==> tree == T
        invariant result == None ==> forall s, e :: s !in subs ==> Conn(T, s, e, id) == None
        invariant result.Some? ==>
          id in listeners && result == Some(listeners[id].connection) && TakenFrom(T, tree, listeners[id], id)
        decreases subs
      {
        var s :| s in subs;
        subs := subs - {s};
        var encs := tree[s].Keys;
        while encs != {}
          invariant T.Keys == tree.Keys && s in T && encs <= T[s].Keys && T[s].Keys == tree[s].Keys
          invariant found == None
          invariant result == None ==> tree == T
          invariant result == None ==> forall s', e :: s' !in subs && (s' != s || e !in encs) ==> Conn(T, s', e, id) == None
          invariant result.Some? ==>
            id in listeners && result == Some(listeners[id].connection) && TakenFrom(T, tree, listeners[id], id)
          decreases encs
        {
          var e :| e in encs;
          encs := encs - {e};
          if result.Some? {
            TakenNowhere(T, listeners, behaviour.encoding, id, s, e);
          }
          assert Conn(tree, s, e, id).Some? ==> result == None;
          if id in tree[s][e] {
            assert Conn(T, s, e, id) == Some(tree[s][e][id]);
            result := Some(tree[s][e][id]);
            tree := TakeOut(tree, s, e, id);
            if tree[s][e] == map[] {
              found := Some((s, e));
              break outer;
            }
          }
        }
      }
    }

    method Remove(id: Id) returns (result: Option<C>)
      requires Valid()
      modifies this
      ensures Valid()
      ensures listeners == old(listeners) - {id}
      ensures result == if id in old(listeners) then Some(old(listeners)[id].connection) else None
    {
      var found;
      ghost var T := tree;
      if id in listeners {
        RemovedFiles(T, listeners, behaviour.encoding, id);
      }
      result, found := Take(id);
      if found.Some? {
        var (s, e) := found.value;
        tree := Prune(tree, s, e);
      }
      assert id !in listeners ==> listeners - {id} == listeners;
      listeners := listeners - {id};
    }

    // At most one instance of an id is registered in the whole plan.
    method Insert(subscription: S, id: Id, connection: C) returns (result: Option<C>)
      requires Valid()
      modifies this
      ensures Valid()
      ensures listeners == old(listeners)[id := Listener(subscription, connection)]
      ensures result == if id in old(listeners) then Some(old(listeners)[id].connection) else None
    {
      result := Remove(id);
      var l := Listener(subscription, connection);
      PutInFiles(tree, listeners, behaviour.encoding, id, l);
      assert old(listeners)[id := l] == listeners[id := l];
      tree := PutIn(tree, subscription, behaviour.encoding(connection), id, connection);
      listeners := listeners[id := l];
    }

    // Whether a listener's subscription applies to the notification.
    ghost predicate Applies(l: Listener<S, C>, notification: N) {
      behaviour.apply(notification, l.subscription).Some?
    }

    // The message a listener is due.
    ghost function MessageFor(l: Listener<S, C>, notification: N): M
      requires Applies(l, notification)
    {
      behaviour.intoMessage(behaviour.apply(notification, l.subscription).value, behaviour.encoding(l.connection))
    }

    // The log holds exactly one attempt for each id in done, with the message due.
    ghost predicate LogOf(done: set<Id>, listeners: map<Id, Listener<S, C>>, notification: N, log: seq<Attempt<M>>) {
      && (forall i, j :: 0 <= i < j < |log| ==> log[i].id != log[j].id)
      && (forall i :: 0 <= i < |log| ==>
            && log[i].id in done && log[i].id in listeners && Applies(listeners[log[i].id], notification)
            && log[i].message == MessageFor(listeners[log[i].id], notification))
      && (forall id :: id in done ==> exists i :: 0 <= i < |log| && log[i].id == id)
    }

    lemma LogSnoc(done: set<Id>, listeners: map<Id, Listener<S, C>>, notification: N, log: seq<Attempt<M>>, id: Id,
                  m: M)
      requires LogOf(done, listeners, notification, log) && id !in done
      requires id in listeners && Applies(listeners[id], notification) && m == MessageFor(listeners[id], notification)
      ensures LogOf(done + {id}, listeners, notification, log + [Attempt(id, m)])
    {
      var after := log + [Attempt(id, m)];
      forall j | j in done + {id}
        ensures exists i :: 0 <= i < |after| && after[i].id == j
      {
        if j == id {
          assert after[|log|].id == id;
        } else {
          var i :| 0 <= i < |log| && log[i].id == j;
          assert after[i].id == j;
        }
      }
    }

    // The message is the one due to each of these listeners.
    ghost predicate Addressed(ids: set<Id>, message: M, notification: N)
      reads this
    {
      forall id :: id in ids ==>
        id in listeners && Applies(listeners[id], notification) && message == MessageFor(listeners[id], notification)
    }

    // The listeners to drop: those done whose send failed on a closed connection.
    ghost predicate PurgeOf(done: set<Id>, outcome: Id -> Outcome, purge: seq<Id>) {
      forall id :: id in purge <==> id in done && outcome(id) == Failed(true)
    }

    // One message to every connection of one set.
    method SendToSet(s: S, e: E, message: M, notification: N, outcome: Id -> Outcome,
                     log0: seq<Attempt<M>>, purge0: seq<Id>, ghost done0: set<Id>)
      returns (log: seq<Attempt<M>>, purge: seq<Id>, ghost done: set<Id>)
      requires s in tree && e in tree[s] && Addressed(tree[s][e].Keys, message, notification)
      requires LogOf(done0, listeners, notification, log0) && PurgeOf(done0, outcome, purge0)
      requires tree[s][e].Keys !! done0
      ensures LogOf(done, listeners, notification, log) && PurgeOf(done, outcome, purge)
      ensures done == done0 + tree[s][e].Keys
    {
      log, purge, done := log0, purge0, done0;
      var ids := tree[s][e].Keys;
      while ids != {}
        invariant ids <= tree[s][e].Keys && ids !! done
        invariant done == done0 + (tree[s][e].Keys - ids)
        invariant LogOf(done, listeners, notification, log) && PurgeOf(done, outcome, purge)
        decreases ids
      {
        var id :| id in ids;
        ids := ids - {id};
        log, purge := SendOne(id, message, notification, outcome, log, purge, done);
        done := done + {id};
      }
    }

    // One send; a closed connection is noted for removal.
    method SendOne(id: Id, message: M, notification: N, outcome: Id -> Outcome,
                   log0: seq<Attempt<M>>, purge0: seq<Id>, ghost done: set<Id>)
      returns (log: seq<Attempt<M>>, purge: seq<Id>)
      requires id !in done && Addressed({id}, message, notification)
      requires LogOf(done, listeners, notification, log0) && PurgeOf(done, outcome, purge0)
      ensures LogOf(done + {id}, listeners, notification, log)
      ensures PurgeOf(done + {id}, outcome, purge)
    {
      LogSnoc(done, listeners, notification, log0, id, message);
      log, purge := log0 + [Attempt(id, message)], purge0;
      match outcome(id) {
        case Sent =>
        case Failed(closed) =>
          if closed {
            purge := purge + [id];
          }
      }
    }

    // The send loops of one notification.
    method Broadcast(notification: N, outcome: Id -> Outcome) returns (log: seq<Attempt<M>>, purge: seq<Id>)
      requires Valid()
      ensures LogOf(Due(listeners, notification), listeners, notification, log)
      ensures PurgeOf(Due(listeners, notification), outcome, purge)
    {
      log, purge := [], [];
      ghost var done: set<Id> := {};
      var subs := tree.Keys;
      while subs != {}
        invariant subs <= tree.Keys
        invariant LogOf(done, listeners, notification, log) && PurgeOf(done, outcome, purge)
        invariant forall id :: id in done <==>
          id in listeners && listeners[id].subscription !in subs && Applies(listeners[id], notification)
        decreases subs
      {
        var s :| s in subs;
        subs := subs - {s};
        var applied := behaviour.apply(notification, s);
        if applied.Some? {
          var encs := tree[s].Keys;
          while encs != {}
            invariant encs <= tree[s].Keys
            invariant LogOf(done, listeners, notification, log) && PurgeOf(done, outcome, purge)
            invariant forall id :: id in done <==>
              && id in listeners && listeners[id].subscription !in subs && Applies(listeners[id], notification)
              && (listeners[id].subscription == s ==> behaviour.encoding(listeners[id].connection) !in encs)
            decreases encs
          {
            var e :| e in encs;
            encs := encs - {e};
            var message := behaviour.intoMessage(applied.value, e);
            forall id
              ensures id in tree[s][e] <==>
                id in listeners && listeners[id].subscription == s && behaviour.encoding(listeners[id].connection) == e
            {
              assert id in tree[s][e] ==> Conn(tree, s, e, id).Some?;
            }
            assert Addressed(tree[s][e].Keys, message, notification);
            log, purge, done := SendToSet(s, e, message, notification, outcome, log, purge, done);
          }
        }
      }
    }

    // Everyone whose subscription applies.
    ghost function Due(listeners: map<Id, Listener<S, C>>, notification: N): set<Id> {
      set id | id in listeners && Applies(listeners[id], notification)
    }

    // Those left after the closed connections among them are purged.
    ghost function Kept(listeners: map<Id, Listener<S, C>>, notification: N,
                        outcome: Id -> Outcome): map<Id, Listener<S, C>> {
      map id | id in listeners && !(Applies(listeners[id], notification) && outcome(id) == Failed(true)) :: listeners[id]
    }

    // One notification: exactly one send to each listener whose subscription
    // applies, then the failed ones with closed connections are dropped.
    method Notify(notification: N, outcome: Id -> Outcome) returns (log: seq<Attempt<M>>)
      requires Valid()
      modifies this
      ensures Valid()
      ensures LogOf(Due(old(listeners), notification), old(listeners), notification, log)
      ensures listeners == Kept(old(listeners), notification, outcome)
    {
      var purge;
      log, purge := Broadcast(notification, outcome);
      Purge(purge);
      assert forall id :: id in purge ==> id in Due(old(listeners), notification);
    }

    // The listeners whose ids are not listed.
    ghost function Others(listeners: map<Id, Listener<S, C>>, ids: seq<Id>): map<Id, Listener<S, C>> {
      map id | id in listeners && id !in ids :: listeners[id]
    }

    lemma OthersSnoc(listeners: map<Id, Listener<S, C>>, ids: seq<Id>, id: Id)
      ensures Others(listeners, ids + [id]) == Others(listeners, ids) - {id}
    {
    }

    method Purge(ids: seq<Id>)
      requires Valid()
      modifies this
      ensures Valid()
      ensures listeners == Others(old(listeners), ids)
    {
      assert Others(listeners, ids[..0]) == listeners;
      for i := 0 to |ids|
        invariant Valid()
        invariant listeners == Others(old(listeners), ids[..i])
      {
        OthersSnoc(old(listeners), ids[..i], ids[i]);
        assert ids[..i + 1] == ids[..i] + [ids[i]];
        var c := Remove(ids[i]);
      }
      assert ids[..|ids|] == ids;
    }
  }

  datatype Command<S, C, !N> =
    | Register(subscription: S, id: Id, connection: C)
    | Unregister(id: Id)
    | Incoming(notification: N, outcome: Id -> Outcome)

  // What a command does to the listeners.
  ghost function Next<S(!new), E(!new), C(!new), N(!new), M(!new)>(plan: Plan<S, E, C, N, M>,
                                                                   l: map<Id, Listener<S, C>>,
                                                                   c: Command<S, C, N>): map<Id, Listener<S, C>> {
    match c
    case Register(s, id, conn) => l[id := Listener(s, conn)]
    case Unregister(id) => l - {id}
    case Incoming(n, outcome) => plan.Kept(l, n, outcome)
  }

  ghost function After<S(!new), E(!new), C(!new), N(!new), M(!new)>(plan: Plan<S, E, C, N, M>,
                                                                    l: map<Id, Listener<S, C>>,
                                                                    cs: seq<Command<S, C, N>>): map<Id, Listener<S, C>> {
    if cs == [] then l else Next(plan, After(plan, l, cs[..|cs| - 1]), cs[|cs| - 1])
  }

  // What a command must send when these listeners are registered.
  ghost predicate Answers<S(!new), E(!new), C(!new), N(!new), M(!new)>(plan: Plan<S, E, C, N, M>,
                                                                       l: map<Id, Listener<S, C>>,
                                                                       c: Command<S, C, N>, log: seq<Attempt<M>>) {
    if c.Incoming? then plan.LogOf(plan.Due(l, c.notification), l, c.notification, log) else log == []
  }

  // Each log is the one due at its moment of the run.
  ghost predicate AllAnswered<S(!new), E(!new), C(!new), N(!new), M(!new)>(plan: Plan<S, E, C, N, M>,
                                                                           l: map<Id, Listener<S, C>>,
                                                                           cs: seq<Command<S, C, N>>,
                                                                           logs: seq<seq<Attempt<M>>>) {
    |logs| == |cs| && forall i :: 0 <= i < |cs| ==> Answers(plan, After(plan, l, cs[..i]), cs[i], logs[i])
  }

  lemma AnsweredSnoc<S(!new), E(!new), C(!new), N(!new), M(!new)>(plan: Plan<S, E, C, N, M>,
                                                                  l: map<Id, Listener<S, C>>,
                                                                  cs: seq<Command<S, C, N>>,
                                                                  logs: seq<seq<Attempt<M>>>,
                                                                  c: Command<S, C, N>, log: seq<Attempt<M>>)
    requires AllAnswered(plan, l, cs, logs) && Answers(plan, After(plan, l, cs), c, log)
    ensures AllAnswered(plan, l, cs + [c], logs + [log])
    ensures After(plan, l, cs + [c]) == Next(plan, After(plan, l, cs), c)
  {
    assert (cs + [c])[..|cs|] == cs;
    forall i | 0 <= i < |cs| + 1
      ensures Answers(plan, After(plan, l, (cs + [c])[..i]), (cs + [c])[i], (logs + [log])[i])
    {
      if i < |cs| {
        assert (cs + [c])[..i] == cs[..i];
      }
    }
  }

  method Obey<S(==, !new), E(==, !new), C(==, !new), N(!new), M(==, !new)>(plan: Plan<S, E, C, N, M>,
        c: Command<S, C, N>)
    returns (log: seq<Attempt<M>>)
    requires plan.Valid()
    modifies plan
    ensures plan.Valid() && plan.listeners == Next(plan, old(plan.listeners), c)
    ensures Answers(plan, old(plan.listeners), c, log)
  {
    log := [];
    match c {
      case Register(s, id, connection) =>
        var previous := plan.Insert(s, id, connection);
      case Unregister(id) =>
        var previous := plan.Remove(id);
      case Incoming(n, outcome) =>
        log := plan.Notify(n, outcome);
    }
  }

  // Over every run of the loop the plan holds exactly the listeners a plain map
  // would, each filed once with no empty set left behind, and each notification
  // reaches exactly the listeners registered at that moment whose subscription applies.
  method Run<S(==, !new), E(==, !new), C(==, !new), N(!new), M(==, !new)>(plan: Plan<S, E, C, N, M>,
        cs: seq<Command<S, C, N>>)
    returns (logs: seq<seq<Attempt<M>>>)
    requires plan.Valid()
    modifies plan
    ensures plan.Valid() && plan.listeners == After(plan, old(plan.listeners), cs)
    ensures AllAnswered(plan, old(plan.listeners), cs, logs)
  {
    logs := [];
    for k := 0 to |cs|
      invariant plan.Valid() && plan.listeners == After(plan, old(plan.listeners), cs[..k])
      invariant AllAnswered(plan, old(plan.listeners), cs[..k], logs)
    {
      ghost var done := logs;
      var log := Obey(plan, cs[k]);
      logs := logs + [log];
      assert cs[..k + 1] == cs[..k] + [cs[k]];
      AnsweredSnoc(plan, old(plan.listeners), cs[..k], done, cs[k], log);
    }
    assert cs[..|cs|] == cs;
  }
}
