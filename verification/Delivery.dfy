/**
 * One-time delivery as a property of runs. Every command of the key stores is
 * atomic (a mutex or a Redis command), so a run of any number of concurrent
 * callers is a sequence of actions; the log is the history of what they did.
 */
module Delivery {
  type Id = string
  type Time = int

  datatype Record = Record(privPem: string, createdAt: Time)
  datatype Entry = Entry(rec: Record, expiry: Time)

  /** `caller` numbers the save call that wrote the record. A dropped record was taken but its reply was lost. */
  datatype Event =
    | Wrote(id: Id, at: Time, rec: Record, expiry: Time, caller: nat)
    | Delivered(id: Id, at: Time, rec: Record)
    | Dropped(id: Id, at: Time)

  datatype World = World(now: Time, store: map<Id, Entry>, log: seq<Event>)

  datatype Action =
    | Tick(span: nat)
    | Put(id: Id, rec: Record, ttl: nat, caller: nat)
    | PutNew(id: Id, rec: Record, ttl: nat, caller: nat)
    | Take(id: Id, answered: bool)
    | Sweep(ids: set<Id>)

  predicate Live(store: map<Id, Entry>, id: Id, now: Time) {
    id in store && now <= store[id].expiry
  }

  function Written(w: World, id: Id, rec: Record, ttl: nat, caller: nat): World {
    World(w.now, w.store[id := Entry(rec, w.now + ttl)], w.log + [Wrote(id, w.now, rec, w.now + ttl, caller)])
  }

  /** Time passes; SET; SETNX; GETDEL; or some expired entries disappear. */
  function Step(w: World, a: Action): World {
    match a
    case Tick(span) => w.(now := w.now + span)
    case Put(id, rec, ttl, caller) => Written(w, id, rec, ttl, caller)
    case PutNew(id, rec, ttl, caller) => if Live(w.store, id, w.now) then w else Written(w, id, rec, ttl, caller)
    case Take(id, answered) =>
      var event :=
        if !Live(w.store, id, w.now) then []
        else if answered then [Delivered(id, w.now, w.store[id].rec)]
        else [Dropped(id, w.now)];
      World(w.now, w.store - {id}, w.log + event)
    case Sweep(ids) =>
      w.(store := map id | id in w.store && (id in ids ==> w.now <= w.store[id].expiry) :: w.store[id])
  }

  function Start(now: Time): World {
    World(now, map[], [])
  }

  function After(w: World, actions: seq<Action>): World {
    if actions == [] then w
    else Step(After(w, actions[..|actions| - 1]), actions[|actions| - 1])
  }

  lemma AfterNothing(w: World)
    ensures After(w, []) == w
  {
  }

  lemma AfterNext(w: World, actions: seq<Action>, i: nat)
    requires i < |actions|
    ensures After(w, actions[..i + 1]) == Step(After(w, actions[..i]), actions[i])
  {
    hide Step;
    assert actions[..i + 1][..i] == actions[..i];
  }

  // The history of one id.

  /** Position of the last event about an id among the first n, or -1. */
  function Last(log: seq<Event>, n: nat, id: Id): (k: int)
    requires n <= |log|
    ensures -1 <= k < n
    ensures k >= 0 ==> log[k].id == id
    ensures forall i | k < i < n :: log[i].id != id
  {
    if n == 0 then -1
    else if log[n - 1].id == id then n - 1
    else Last(log, n - 1, id)
  }

  lemma {:induction false} LastOfPrefix(log: seq<Event>, e: Event, n: nat, id: Id)
    requires n <= |log|
    ensures Last(log + [e], n, id) == Last(log, n, id)
  {
    if n > 0 {
      LastOfPrefix(log, e, n - 1, id);
    }
  }

  lemma LastAppend(log: seq<Event>, e: Event, n: nat, id: Id)
    requires n <= |log|
    ensures Last(log + [e], n, id) == Last(log, n, id)
    ensures Last(log + [e], |log| + 1, id) == if e.id == id then |log| else Last(log, |log|, id)
  {
    LastOfPrefix(log, e, n, id);
    LastOfPrefix(log, e, |log|, id);
  }

  /** The last event about the id is a write that has not expired. */
  predicate Pending(log: seq<Event>, id: Id, now: Time) {
    var k := Last(log, |log|, id);
    k >= 0 && log[k].Wrote? && now <= log[k].expiry
  }

  /** Delivery j hands over the record of the last write, which no other event follows, before its expiry. */
  predicate Served(log: seq<Event>, j: nat)
    requires j < |log| && log[j].Delivered?
  {
    var k := Last(log, j, log[j].id);
    && k >= 0 && log[k].Wrote?
    && log[j].rec == log[k].rec
    && log[k].at <= log[j].at <= log[k].expiry
  }

  predicate AllServed(log: seq<Event>) {
    forall j | 0 <= j < |log| && log[j].Delivered? :: Served(log, j)
  }

  /** What the store holds about one id is its last write. */
  predicate Faithful(w: World, id: Id) {
    var k := Last(w.log, |w.log|, id);
    && (id in w.store ==>
          k >= 0 && w.log[k].Wrote? && w.store[id] == Entry(w.log[k].rec, w.log[k].expiry))
    && (Pending(w.log, id, w.now) ==> id in w.store)
  }

  ghost predicate Good(w: World) {
    && (forall id: Id :: Faithful(w, id))
    && (forall j | 0 <= j < |w.log| :: w.log[j].at <= w.now)
    && AllServed(w.log)
  }

  lemma AppendFaithful(w: World, w': World, e: Event, id: Id)
    requires Faithful(w, id) && w'.log == w.log + [e] && w'.now == w.now
    requires e.id != id ==> (id in w'.store <==> id in w.store) && (id in w.store ==> w'.store[id] == w.store[id])
    requires e.id == id && e.Wrote? ==> id in w'.store && w'.store[id] == Entry(e.rec, e.expiry)
    requires e.id == id && !e.Wrote? ==> id !in w'.store
    ensures Faithful(w', id)
  {
    LastAppend(w.log, e, 0, id);
  }

  /** The delivery answers the last write of its id in time. */
  predicate CanServe(log: seq<Event>, e: Event)
    requires e.Delivered?
  {
    var k := Last(log, |log|, e.id);
    k >= 0 && log[k].Wrote? && e.rec == log[k].rec && log[k].at <= e.at <= log[k].expiry
  }

  lemma AppendServed(log: seq<Event>, e: Event)
    requires AllServed(log)
    requires e.Delivered? ==> CanServe(log, e)
    ensures AllServed(log + [e])
  {
    hide Served, CanServe;
    var log' := log + [e];
    forall j | 0 <= j < |log'| && log'[j].Delivered? ensures Served(log', j) {
      if j < |log| {
        ServedStays(log, e, j);
      } else {
        NowServed(log, e);
      }
    }
  }

  lemma ServedStays(log: seq<Event>, e: Event, j: nat)
    requires j < |log| && log[j].Delivered? && Served(log, j)
    ensures Served(log + [e], j)
  {
    hide Last;
    assert (log + [e])[j] == log[j];
    LastAppend(log, e, j, log[j].id);
  }

  lemma NowServed(log: seq<Event>, e: Event)
    requires e.Delivered? && CanServe(log, e)
    ensures Served(log + [e], |log|)
  {
    hide Last;
    LastAppend(log, e, |log|, e.id);
  }

  lemma StepKeepsGood(w: World, a: Action)
    requires Good(w)
    ensures Good(Step(w, a))
  {
    hide Served, AllServed, Last;
    var w' := Step(w, a);
    if |w'.log| > |w.log| {
      var e := w'.log[|w.log|];
      forall id: Id ensures Faithful(w', id) {
        AppendFaithful(w, w', e, id);
      }
      if e.Delivered? {
        assert Faithful(w, e.id);
      }
      AppendServed(w.log, e);
    } else {
      assert w'.log == w.log;
      forall id: Id ensures Faithful(w', id) {
        assert Faithful(w, id);
      }
    }
  }

  /** Every run of any callers keeps the invariant. */
  lemma {:induction false} RunIsGood(now: Time, actions: seq<Action>)
    ensures Good(After(Start(now), actions))
  {
    if actions != [] {
      RunIsGood(now, actions[..|actions| - 1]);
      StepKeepsGood(After(Start(now), actions[..|actions| - 1]), actions[|actions| - 1]);
    }
  }

  // What the invariant means for callers.

  /** A load finds a record exactly when the last thing that happened to its id is an unexpired write. */
  lemma LoadFindsPending(now: Time, actions: seq<Action>, id: Id)
    ensures var w := After(Start(now), actions);
            Live(w.store, id, w.now) <==> Pending(w.log, id, w.now)
  {
    hide Last, After;
    RunIsGood(now, actions);
    assert Faithful(After(Start(now), actions), id);
  }

  /** The write a delivery answers. */
  function WriteOf(log: seq<Event>, j: nat): int
    requires j < |log|
  {
    Last(log, j, log[j].id)
  }

  /** No two deliveries answer the same write: every saved record is handed out at most once. */
  lemma ServedAtMostOnce(log: seq<Event>, i: nat, j: nat)
    requires AllServed(log) && i < |log| && j < |log| && i != j && log[i].Delivered? && log[j].Delivered?
    ensures 0 <= WriteOf(log, i) < i && log[WriteOf(log, i)].Wrote?
    ensures WriteOf(log, i) != WriteOf(log, j)
  {
    assert Served(log, i) && Served(log, j);
  }

  function Writes(log: seq<Event>, n: nat, id: Id): nat
    requires n <= |log|
  {
    if n == 0 then 0
    else Writes(log, n - 1, id) + if log[n - 1].id == id && log[n - 1].Wrote? then 1 else 0
  }

  function Deliveries(log: seq<Event>, n: nat, id: Id): nat
    requires n <= |log|
  {
    if n == 0 then 0
    else Deliveries(log, n - 1, id) + if log[n - 1].id == id && log[n - 1].Delivered? then 1 else 0
  }

  /** Deliveries never outnumber writes, and an outstanding write is one more. */
  lemma {:induction false} DeliveriesCounted(log: seq<Event>, n: nat, id: Id)
    requires AllServed(log) && n <= |log|
    ensures var k := Last(log, n, id);
            Deliveries(log, n, id) + (if k >= 0 && log[k].Wrote? then 1 else 0) <= Writes(log, n, id)
  {
    if n > 0 {
      DeliveriesCounted(log, n - 1, id);
      if log[n - 1].id == id && log[n - 1].Delivered? {
        assert Served(log, n - 1);
      }
    }
  }

  /** At every moment of every run: one delivery per write at most, none after expiry, none before the write. */
  lemma OneTimeDelivery(now: Time, actions: seq<Action>, id: Id)
    ensures var log := After(Start(now), actions).log;
            && Deliveries(log, |log|, id) <= Writes(log, |log|, id)
            && AllServed(log)
  {
    hide Last, Served;
    RunIsGood(now, actions);
    var log := After(Start(now), actions).log;
    DeliveriesCounted(log, |log|, id);
  }

  // Lazy and eager expiry.

  /** Two stores that agree on everything that has not expired. */
  ghost predicate SameLive(v: World, w: World) {
    && v.now == w.now && v.log == w.log
    && forall id: Id ::
         && (Live(v.store, id, v.now) <==> Live(w.store, id, w.now))
         && (Live(v.store, id, v.now) ==> v.store[id] == w.store[id])
  }

  lemma StepKeepsSameLive(v: World, w: World, a: Action)
    requires SameLive(v, w)
    ensures SameLive(Step(v, a), Step(w, a))
  {
  }

  lemma SweepKeepsSameLive(v: World, w: World, ids: set<Id>)
    requires SameLive(v, w)
    ensures SameLive(v, Step(w, Sweep(ids)))
  {
  }

  function WithoutSweeps(actions: seq<Action>): seq<Action> {
    if actions == [] then []
    else
      var rest, a := WithoutSweeps(actions[..|actions| - 1]), actions[|actions| - 1];
      if a.Sweep? then rest else rest + [a]
  }

  /**
   * When expired entries disappear makes no difference to any answer: a store
   * that removes them only when they are loaded and one that removes them at
   * once, or at any time, have the same history.
   */
  lemma {:induction false} ExpiryTimingIsInvisible(start: World, actions: seq<Action>)
    ensures SameLive(After(start, WithoutSweeps(actions)), After(start, actions))
  {
    hide SameLive, Step;
    if actions == [] {
      SameLiveReflexive(start);
    } else {
      var front, a := actions[..|actions| - 1], actions[|actions| - 1];
      var v, w := After(start, WithoutSweeps(front)), After(start, front);
      ExpiryTimingIsInvisible(start, front);
      if a.Sweep? {
        SweepKeepsSameLive(v, w, a.ids);
      } else {
        StepKeepsSameLive(v, w, a);
        assert (WithoutSweeps(front) + [a])[..|WithoutSweeps(front)|] == WithoutSweeps(front);
      }
    }
  }

  lemma SameLiveReflexive(w: World)
    ensures SameLive(w, w)
  {
  }

  // Overwriting.

  /** Event j writes over a record that is still live. */
  predicate Overwrites(log: seq<Event>, j: nat)
    requires j < |log|
  {
    var k := Last(log, j, log[j].id);
    log[j].Wrote? && k >= 0 && log[k].Wrote? && log[j].at <= log[k].expiry
  }

  predicate NeverOverwrites(log: seq<Event>) {
    forall j | 0 <= j < |log| :: !Overwrites(log, j)
  }

  /** Every plain SET of the run draws an id that is not live at that moment. */
  predicate DrawsFreshIds(now: Time, actions: seq<Action>) {
    forall i | 0 <= i < |actions| && actions[i].Put? ::
      var w := After(Start(now), actions[..i]);
      !Live(w.store, actions[i].id, w.now)
  }

  lemma OverwritesOfPrefix(log: seq<Event>, e: Event, j: nat)
    requires j <= |log|
    ensures Overwrites(log + [e], j)
         == if j < |log| then Overwrites(log, j) else e.Wrote? && Pending(log, e.id, e.at)
  {
    LastAppend(log, e, j, (log + [e])[j].id);
  }

  lemma AppendOverwrites(log: seq<Event>, e: Event)
    ensures NeverOverwrites(log + [e]) <==> NeverOverwrites(log) && (e.Wrote? ==> !Pending(log, e.id, e.at))
  {
    hide Overwrites, Pending;
    forall j | 0 <= j <= |log|
      ensures Overwrites(log + [e], j)
           == if j < |log| then Overwrites(log, j) else e.Wrote? && Pending(log, e.id, e.at)
    {
      OverwritesOfPrefix(log, e, j);
    }
    if NeverOverwrites(log + [e]) {
      assert !Overwrites(log + [e], |log|);
      forall j | 0 <= j < |log| ensures !Overwrites(log, j) {
        assert !Overwrites(log + [e], j);
      }
    }
  }

  lemma FreshFront(now: Time, front: seq<Action>, a: Action)
    ensures DrawsFreshIds(now, front + [a])
        <==> DrawsFreshIds(now, front)
             && (a.Put? ==> !Live(After(Start(now), front).store, a.id, After(Start(now), front).now))
  {
    hide After, Live;
    var actions := front + [a];
    forall i | 0 <= i <= |front| ensures actions[..i] == front[..i] {
    }
    assert front[..|front|] == front;
    if DrawsFreshIds(now, actions) {
      forall i | 0 <= i < |front| && front[i].Put?
        ensures !Live(After(Start(now), front[..i]).store, front[i].id, After(Start(now), front[..i]).now)
      {
        assert actions[i] == front[i];
      }
      assert actions[|front|] == a;
    }
  }

  /** A run never overwrites a live record exactly when no plain SET of it draws a live id. */
  lemma {:induction false} OverwritesExactly(now: Time, actions: seq<Action>)
    ensures NeverOverwrites(After(Start(now), actions).log) <==> DrawsFreshIds(now, actions)
  {
    hide Good, NeverOverwrites, DrawsFreshIds, Last, Pending;
    if actions == [] {
      NothingOverwritten(now);
    } else {
      var front, a := actions[..|actions| - 1], actions[|actions| - 1];
      var w := After(Start(now), front);
      assert actions == front + [a];
      OverwritesExactly(now, front);
      FreshFront(now, front, a);
      var w' := Step(w, a);
      if |w'.log| > |w.log| {
        var e := w'.log[|w.log|];
        assert w'.log == w.log + [e];
        AppendOverwrites(w.log, e);
        LoadFindsPending(now, front, e.id);
      } else {
        assert w'.log == w.log;
      }
    }
  }

  lemma NothingOverwritten(now: Time)
    ensures NeverOverwrites([]) && DrawsFreshIds(now, [])
  {
  }

  /** With SETNX alone no live record is ever overwritten. */
  lemma SetnxNeverOverwrites(now: Time, actions: seq<Action>)
    requires forall i | 0 <= i < |actions| :: !actions[i].Put?
    ensures NeverOverwrites(After(Start(now), actions).log)
  {
    OverwritesExactly(now, actions);
  }

  /** SET does overwrite: of two saves that draw the same id, the first record is lost while it is live. */
  lemma SetOverwrites(id: Id, first: Record, second: Record)
    ensures var actions := [Put(id, first, 60, 0), Put(id, second, 60, 1), Take(id, true), Take(id, true)];
            After(Start(0), actions).log
            == [Wrote(id, 0, first, 60, 0), Wrote(id, 0, second, 60, 1), Delivered(id, 0, second)]
    ensures !NeverOverwrites([Wrote(id, 0, first, 60, 0), Wrote(id, 0, second, 60, 1), Delivered(id, 0, second)])
  {
    var a, b, t := Put(id, first, 60, 0), Put(id, second, 60, 1), Take(id, true);
    var one, two, three := [a], [a, b], [a, b, t];
    var four := [a, b, t, t];
    assert four[..3] == three && three[..2] == two && two[..1] == one && one[..0] == [];
    var w0 := Start(0);
    assert After(w0, one) == Step(After(w0, one[..0]), a) == Step(w0, a);
    assert After(w0, two) == Step(Step(w0, a), b);
    assert After(w0, three) == Step(Step(Step(w0, a), b), t);
    assert After(w0, four) == Step(Step(Step(Step(w0, a), b), t), t);
    var log := [Wrote(id, 0, first, 60, 0), Wrote(id, 0, second, 60, 1), Delivered(id, 0, second)];
    assert Step(Step(w0, a), b).store[id] == Entry(second, 60);
    assert Overwrites(log, 1);
  }
}
