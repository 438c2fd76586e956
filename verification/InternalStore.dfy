/**
 * The key store of internal/store/store.go: a save draws up to three ids and
 * writes with SETNX. Other callers may act between its attempts, so a save is a
 * small state machine inside the run of all callers.
 */
module InternalStore {
  import opened Wrappers
  import opened Delivery
  import opened KeyStore

  const NO_UNIQUE_ID := "store: failed to allocate unique id"

  /** A save in progress: `tried` holds the drawn ids that were taken. */
  datatype Call = Call(rec: Record, ttl: nat, tried: seq<Id>, outcome: Option<Result<Id>>)

  /** `encodes`: the record becomes JSON; otherwise the call fails before it draws an id. */
  function NewCall(rec: Record, ttl: nat, encodes: bool): Call {
    Call(rec, ttl, [], if encodes then None else Some(Failure("json")))
  }

  /** One attempt of call number c. */
  function Attempt(w: World, call: Call, c: nat, random: Option<Id>, net: Network): (World, Call) {
    if call.outcome.Some? then (w, call)
    else if random.None? then (w, call.(outcome := Some(Failure("rand"))))
    else
      var id := random.value;
      var w' := if net.RequestLost? then w else Step(w, PutNew(id, call.rec, call.ttl, c));
      if !net.Answered? then (w', call.(outcome := Some(Failure("redis"))))
      else if !Live(w.store, id, w.now) then (w', call.(outcome := Some(Success(id))))
      else if |call.tried| + 1 < 3 then (w', call.(tried := call.tried + [id]))
      else (w', call.(tried := call.tried + [id], outcome := Some(Failure(NO_UNIQUE_ID))))
  }

  /** What the environment gives to one attempt: what others do before it, the drawn id, the network. */
  datatype Chance = Chance(others: seq<Action>, random: Option<Id>, net: Network)

  /** The first n attempts, each after whatever other callers do meanwhile. */
  function Attempts(w: World, call: Call, c: nat, chances: seq<Chance>, n: nat): (World, Call)
    requires n <= |chances|
  {
    if n == 0 then (w, call)
    else
      var (w', call') := Attempts(w, call, c, chances, n - 1);
      if call'.outcome.Some? then (w', call')
      else
        var chance := chances[n - 1];
        Attempt(After(w', chance.others), call', c, chance.random, chance.net)
  }

  lemma {:induction false} SettledStays(w: World, call: Call, c: nat, chances: seq<Chance>, m: nat, n: nat)
    requires m <= n <= |chances|
    requires Attempts(w, call, c, chances, m).1.outcome.Some?
    ensures Attempts(w, call, c, chances, n) == Attempts(w, call, c, chances, m)
  {
    hide Attempt, After;
    if m < n {
      SettledStays(w, call, c, chances, m, n - 1);
    }
  }

  class RedisKeyStore {
    const client: Redis

    constructor (client: Redis)
      ensures this.client == client
    {
      this.client := client;
    }

    /** Other callers may act before every attempt; `later` is the time at the end. */
    method Save(rec: Record, ttl: nat, now: Time, encodes: bool, chances: seq<Chance>, ghost c: nat)
      returns (r: Result<Id>, later: Time)
      requires |chances| == 3
      modifies client
      ensures (client.View(later), Some(r))
           == var end := Attempts(old(client.View(now)), NewCall(rec, ttl, encodes), c, chances, 3); (end.0, end.1.outcome)
    {
      hide Step, After;
      later := now;
      ghost var start := client.View(now);
      ghost var first := NewCall(rec, ttl, encodes);
      ghost var call := first;
      if !encodes {
        SettledStays(start, first, c, chances, 0, 3);
        return Failure("json"), later;
      }
      for attempt := 0 to 3
        invariant call.outcome == if attempt < 3 then None else Some(Failure(NO_UNIQUE_ID))
        invariant |call.tried| == attempt && call.rec == rec && call.ttl == ttl
        invariant (client.View(later), call) == Attempts(start, first, c, chances, attempt)
      {
        later := client.Elsewhere(later, chances[attempt].others);
        ghost var next := Attempt(client.View(later), call, c, chances[attempt].random, chances[attempt].net);
        assert Attempts(start, first, c, chances, attempt + 1) == next;
        if next.1.outcome.Some? {
          SettledStays(start, first, c, chances, attempt + 1, 3);
        }
        if chances[attempt].random.None? {
          return Failure("rand"), later;
        }
        var id := chances[attempt].random.value;
        var ok := client.SetNX(id, rec, ttl, later, chances[attempt].net, c);
        if ok.None? {
          return Failure("redis"), later;
        }
        if ok.value {
          return Success(id), later;
        }
        call := next.1;
      }
      r := Failure(NO_UNIQUE_ID);
    }

    /** As in the other store. */
    method Load(id: Id, now: Time, net: Network, decodes: bool) returns (r: Result<Option<Record>>)
      modifies client
      ensures r == LoadAnswer(old(client.keys), id, now, net, decodes)
      ensures client.View(now) == if net.RequestLost? then old(client.View(now))
                                  else Step(old(client.View(now)), Take(id, net.Answered? && decodes))
    {
      var val := client.GetDel(id, now, net, decodes);
      if val.Failure? {
        return Failure("redis");
      }
      if val.value == None {
        return Success(None);
      }
      r := if decodes then val else Failure("json");
    }
  }

  // Any number of saves, their attempts interleaved with everything else.

  datatype Move =
    | Begin(c: nat, rec: Record, ttl: nat, encodes: bool)
    | Try(c: nat, random: Option<Id>, net: Network)
    | Other(a: Action)

  /** `trace` lists the actions on the store so far. */
  datatype System = System(w: World, calls: map<nat, Call>, trace: seq<Action>)

  function Boot(now: Time): System {
    System(Start(now), map[], [])
  }

  /** A call number is used once; saves are the only writers. */
  predicate Enabled(s: System, m: Move) {
    match m
    case Begin(c, rec, ttl, encodes) => c !in s.calls
    case Try(c, random, net) => c in s.calls
    case Other(a) => a.Tick? || a.Take? || a.Sweep?
  }

  /** A move that is not enabled changes nothing. */
  function Apply(s: System, m: Move): System {
    if !Enabled(s, m) then s else
    match m
    case Begin(c, rec, ttl, encodes) => s.(calls := s.calls[c := NewCall(rec, ttl, encodes)])
    case Try(c, random, net) =>
      var call := s.calls[c];
      var (w', call') := Attempt(s.w, call, c, random, net);
      var acts := if call.outcome.None? && random.Some? && !net.RequestLost?
                  then [PutNew(random.value, call.rec, call.ttl, c)] else [];
      System(w', s.calls[c := call'], s.trace + acts)
    case Other(a) => System(Step(s.w, a), s.calls, s.trace + [a])
  }

  function Run(now: Time, moves: seq<Move>): System {
    if moves == [] then Boot(now)
    else Apply(Run(now, moves[..|moves| - 1]), moves[|moves| - 1])
  }

  function WritesBy(log: seq<Event>, c: nat): nat {
    if log == [] then 0
    else
      var e := log[|log| - 1];
      WritesBy(log[..|log| - 1], c) + if e.Wrote? && e.caller == c then 1 else 0
  }

  lemma WritesByAppend(log: seq<Event>, e: Event, c: nat)
    ensures WritesBy(log + [e], c) == WritesBy(log, c) + if e.Wrote? && e.caller == c then 1 else 0
  {
    assert (log + [e])[..|log|] == log;
  }

  /** The call wrote its record under the id, for its own lifetime. */
  predicate WroteIts(log: seq<Event>, c: nat, call: Call, id: Id) {
    exists k :: 0 <= k < |log| && log[k] == Wrote(id, log[k].at, call.rec, log[k].at + call.ttl, c)
  }

  /** A call in progress or out of ids has written nothing, a successful one exactly its record, any other at most that. */
  predicate Settled(log: seq<Event>, c: nat, call: Call) {
    match call.outcome
    case None => WritesBy(log, c) == 0 && |call.tried| < 3
    case Some(Success(id)) => WritesBy(log, c) == 1 && WroteIts(log, c, call, id)
    case Some(Failure(e)) =>
      WritesBy(log, c) <= 1 && (e == NO_UNIQUE_ID ==> WritesBy(log, c) == 0 && |call.tried| == 3)
  }

  ghost predicate Sound(now: Time, s: System) {
    && s.w == After(Start(now), s.trace)
    && (forall i | 0 <= i < |s.trace| :: !s.trace[i].Put?)
    && (forall c: nat | c !in s.calls :: WritesBy(s.w.log, c) == 0)
    && (forall c | c in s.calls :: Settled(s.w.log, c, s.calls[c]))
  }

  lemma AfterAppend(w: World, trace: seq<Action>, a: Action)
    ensures After(w, trace + [a]) == Step(After(w, trace), a)
    ensures After(w, trace + []) == After(w, trace)
  {
    assert (trace + [a])[..|trace|] == trace;
    assert trace + [] == trace;
  }

  /** What an event of call c does to the books of call d. */
  lemma SettledAppend(log: seq<Event>, e: Event, d: nat, call: Call)
    requires Settled(log, d, call) && (e.Wrote? ==> e.caller != d)
    ensures Settled(log + [e], d, call)
  {
    hide WritesBy;
    WritesByAppend(log, e, d);
    if call.outcome.Some? && call.outcome.value.Success? {
      var id := call.outcome.value.value;
      var k :| 0 <= k < |log| && log[k] == Wrote(id, log[k].at, call.rec, log[k].at + call.ttl, d);
      assert (log + [e])[k] == log[k];
    }
  }

  lemma AttemptSettles(w: World, call: Call, c: nat, random: Option<Id>, net: Network)
    requires Settled(w.log, c, call)
    ensures Settled(Attempt(w, call, c, random, net).0.log, c, Attempt(w, call, c, random, net).1)
  {
    hide WritesBy;
    if call.outcome.None? && random.Some? && !net.RequestLost? && !Live(w.store, random.value, w.now) {
      var e := Wrote(random.value, w.now, call.rec, w.now + call.ttl, c);
      var log' := w.log + [e];
      WritesByAppend(w.log, e, c);
      assert log'[|w.log|] == e;
      assert Attempt(w, call, c, random, net).0.log == log';
    }
  }

  lemma AttemptAppends(w: World, call: Call, c: nat, random: Option<Id>, net: Network) returns (e: Event)
    ensures var log' := Attempt(w, call, c, random, net).0.log;
            log' == w.log || (log' == w.log + [e] && e.Wrote? && e.caller == c)
  {
    e := Wrote(if random.Some? then random.value else "", w.now, call.rec, w.now + call.ttl, c);
  }

  lemma ApplyKeepsSound(now: Time, s: System, m: Move)
    requires Sound(now, s)
    ensures Sound(now, Apply(s, m))
  {
    hide Settled, WritesBy, Step, Attempt;
    if Enabled(s, m) {
      match m
      case Begin(c, rec, ttl, encodes) =>
        FirstSettled(s.w.log, c, rec, ttl, encodes);
      case Try(c, random, net) =>
        TryKeepsSound(now, s, c, random, net);
      case Other(a) =>
        OtherKeepsSound(now, s, a);
    }
  }

  lemma FirstSettled(log: seq<Event>, c: nat, rec: Record, ttl: nat, encodes: bool)
    requires WritesBy(log, c) == 0
    ensures Settled(log, c, NewCall(rec, ttl, encodes))
  {
  }

  lemma TryKeepsSound(now: Time, s: System, c: nat, random: Option<Id>, net: Network)
    requires Sound(now, s) && c in s.calls
    ensures Sound(now, Apply(s, Try(c, random, net)))
  {
    hide Settled, WritesBy, Step, After;
    var call := s.calls[c];
    var s' := Apply(s, Try(c, random, net));
    if random.Some? {
      AfterAppend(Start(now), s.trace, PutNew(random.value, call.rec, call.ttl, c));
    }
    AfterAppend(Start(now), s.trace, Tick(0));
    AttemptSettles(s.w, call, c, random, net);
    forall d: nat | d != c
      ensures WritesBy(s'.w.log, d) == WritesBy(s.w.log, d)
      ensures d in s.calls ==> Settled(s'.w.log, d, s.calls[d])
    {
      OthersUntouched(s, c, random, net, d);
    }
  }

  /** An attempt of call c does not enter the books of any other call. */
  lemma OthersUntouched(s: System, c: nat, random: Option<Id>, net: Network, d: nat)
    requires c in s.calls && d != c && (d in s.calls ==> Settled(s.w.log, d, s.calls[d]))
    ensures var log' := Attempt(s.w, s.calls[c], c, random, net).0.log;
            && WritesBy(log', d) == WritesBy(s.w.log, d)
            && (d in s.calls ==> Settled(log', d, s.calls[d]))
  {
    hide Settled, WritesBy, Attempt;
    var e := AttemptAppends(s.w, s.calls[c], c, random, net);
    if Attempt(s.w, s.calls[c], c, random, net).0.log != s.w.log {
      WritesByAppend(s.w.log, e, d);
      if d in s.calls {
        SettledAppend(s.w.log, e, d, s.calls[d]);
      }
    }
  }

  lemma OtherKeepsSound(now: Time, s: System, a: Action)
    requires Sound(now, s) && (a.Tick? || a.Take? || a.Sweep?)
    ensures Sound(now, Apply(s, Other(a)))
  {
    hide Settled, WritesBy, Live;
    AfterAppend(Start(now), s.trace, a);
    var log' := Step(s.w, a).log;
    if log' != s.w.log {
      var e := log'[|s.w.log|];
      assert log' == s.w.log + [e] && !e.Wrote?;
      forall d: nat
        ensures WritesBy(log', d) == WritesBy(s.w.log, d)
        ensures d in s.calls ==> Settled(log', d, s.calls[d])
      {
        WritesByAppend(s.w.log, e, d);
        if d in s.calls {
          SettledAppend(s.w.log, e, d, s.calls[d]);
        }
      }
    }
  }

  lemma {:induction false} RunIsSound(now: Time, moves: seq<Move>)
    ensures Sound(now, Run(now, moves))
  {
    hide Apply, Sound;
    if moves == [] {
      BootIsSound(now);
    } else {
      RunIsSound(now, moves[..|moves| - 1]);
      ApplyKeepsSound(now, Run(now, moves[..|moves| - 1]), moves[|moves| - 1]);
    }
  }

  lemma BootIsSound(now: Time)
    ensures Sound(now, Boot(now))
  {
  }

  /**
   * However saves, loads and the clock interleave: no live record is overwritten,
   * a successful save wrote exactly its own record, a save that ran out of ids
   * wrote none, and every record is delivered at most once and in time.
   */
  lemma SavesAreUnique(now: Time, moves: seq<Move>, c: nat)
    requires c in Run(now, moves).calls
    ensures var s := Run(now, moves);
            NeverOverwrites(s.w.log) && AllServed(s.w.log) && Settled(s.w.log, c, s.calls[c])
  {
    hide Good, Settled, NeverOverwrites, Served, Run;
    var s := Run(now, moves);
    RunIsSound(now, moves);
    SetnxNeverOverwrites(now, s.trace);
    RunIsGood(now, s.trace);
    GoodServes(s.w);
  }

  lemma GoodServes(w: World)
    requires Good(w)
    ensures AllServed(w.log)
  {
  }
}
