/**
 * The lifetime policy of the HTTP handlers, and the key handlers as users of
 * the store. Durations are in nanoseconds, as `time.Duration` counts them.
 */
module Handlers {
  import opened Wrappers
  import opened Delivery
  import opened KeyStore

  const SECOND: nat := 1_000_000_000
  const MIN_TTL: nat := 60 * SECOND
  const MAX_ALLOWED_TTL: nat := 7 * 24 * 3600 * SECOND
  const DEFAULT_TTL: nat := 24 * 3600 * SECOND

  datatype CreateReply = Created(id: Id) | InvalidTtl | CreateError
  datatype FetchReply = Found(privPem: string) | NotFound | FetchError

  /** A ceiling a deployment may choose. */
  predicate IsCeiling(ttl: int) {
    MIN_TTL <= ttl <= MAX_ALLOWED_TTL
  }

  /** Seconds a request may ask for under a ceiling; zero asks for the default. */
  predicate IsAcceptable(seconds: int, maxTTL: int) {
    seconds == 0 || (60 <= seconds && seconds * SECOND <= maxTTL)
  }

  /** The lifetime granted to an acceptable request. */
  function Granted(seconds: int, maxTTL: int): int {
    if seconds != 0 then seconds * SECOND
    else if DEFAULT_TTL > maxTTL then maxTTL
    else DEFAULT_TTL
  }

  /** Every record written lives between a minute and a week. */
  predicate WithinPolicy(log: seq<Event>) {
    forall j | 0 <= j < |log| && log[j].Wrote? :: MIN_TTL <= log[j].expiry - log[j].at <= MAX_ALLOWED_TTL
  }

  /** Under any ceiling, an acceptable request is granted a lifetime between a minute and the ceiling. */
  lemma GrantedInPolicy(seconds: int, maxTTL: int)
    requires IsCeiling(maxTTL)
    ensures IsAcceptable(seconds, maxTTL) ==> MIN_TTL <= Granted(seconds, maxTTL) <= maxTTL
    ensures seconds != 0 ==>
      (IsAcceptable(seconds, maxTTL) <==> MIN_TTL / SECOND <= seconds <= maxTTL / SECOND)
  {
  }

  // The service as a state machine: the store, the clock and the configured ceiling.

  datatype Service = Service(w: World, maxTTL: int)

  /** A configuration, an HTTP request with what the environment gives to it, or the passing of time. */
  datatype Request =
    | Configure(ttl: int)
    | Create(seconds: int, priv: Option<string>, random: Option<Id>, encodes: bool, net: Network, caller: nat)
    | Fetch(id: Id, net: Network, decodes: bool)
    | Wait(span: nat)
    | Expire(ids: set<Id>)

  /** Only an acceptable request with a key, an id and a working store reaches it. */
  predicate Stores(r: Request, maxTTL: int) {
    && r.Create? && IsAcceptable(r.seconds, maxTTL)
    && r.priv.Some? && r.random.Some? && r.encodes && !r.net.RequestLost?
  }

  function Handle(s: Service, r: Request): (s': Service)
    requires IsCeiling(s.maxTTL)
    ensures IsCeiling(s'.maxTTL)
  {
    match r
    case Configure(ttl) => if IsCeiling(ttl) then s.(maxTTL := ttl) else s
    case Create(seconds, priv, random, _, _, caller) =>
      if !Stores(r, s.maxTTL) then s
      else
        GrantedInPolicy(seconds, s.maxTTL);
        s.(w := Step(s.w, Put(random.value, Record(priv.value, s.w.now), Granted(seconds, s.maxTTL), caller)))
    case Fetch(id, net, decodes) =>
      if net.RequestLost? then s else s.(w := Step(s.w, Take(id, net.Answered? && decodes)))
    case Wait(span) => s.(w := Step(s.w, Tick(span)))
    case Expire(ids) => s.(w := Step(s.w, Sweep(ids)))
  }

  class Handlers {
    const store: RedisKeyStore
    var maxTTL: int

    ghost predicate Valid()
      reads this
    {
      IsCeiling(maxTTL)
    }

    ghost function View(now: Time): Service
      reads this, store.client
    {
      Service(store.client.View(now), maxTTL)
    }

    constructor (store: RedisKeyStore)
      ensures this.store == store && maxTTL == 604_800_000_000_000 && Valid()
    {
      this.store := store;
      maxTTL := MAX_ALLOWED_TTL;
    }

    method SetMaxTTL(ttl: int, ghost now: Time)
      requires Valid()
      modifies this
      ensures Valid() && View(now) == Handle(old(View(now)), Configure(ttl))
    {
      if ttl >= MIN_TTL && ttl <= MAX_ALLOWED_TTL {
        maxTTL := ttl;
      }
    }

    /** `seconds` is the requested lifetime, `priv` the key of the fresh pair unless generating it failed. */
    method CreateKey(seconds: int, priv: Option<string>, now: Time, random: Option<Id>, encodes: bool, net: Network,
                     ghost caller: nat)
      returns (reply: CreateReply)
      requires Valid()
      modifies store.client
      ensures reply.InvalidTtl? <==> seconds != 0 && (seconds < 60 || maxTTL < seconds * 1_000_000_000)
      ensures reply.Created? <==>
        IsAcceptable(seconds, maxTTL) && priv.Some? && random.Some? && encodes && net.Answered?
      ensures reply.Created? ==> reply.id == random.value
      ensures View(now) == Handle(old(View(now)), Create(seconds, priv, random, encodes, net, caller))
      ensures old(WithinPolicy(store.client.log)) ==> WithinPolicy(store.client.log)
    {
      var ttl: nat;
      if seconds == 0 {
        ttl := DEFAULT_TTL;
        if ttl > maxTTL {
          ttl := maxTTL;
        }
      } else if seconds < MIN_TTL / SECOND || seconds > maxTTL / SECOND {
        return InvalidTtl;
      } else {
        ttl := seconds * SECOND;
      }
      GrantedInPolicy(seconds, maxTTL);
      if priv.None? {
        return CreateError;
      }
      var saved := store.Save(Record(priv.value, now), ttl, now, random, encodes, net, caller);
      reply := if saved.Success? then Created(saved.value) else CreateError;
    }

    method FetchKey(id: Id, now: Time, net: Network, decodes: bool) returns (reply: FetchReply)
      requires Valid()
      modifies store.client
      ensures reply == FetchOutcome(old(store.client.keys), id, now, net, decodes)
      ensures View(now) == Handle(old(View(now)), Fetch(id, net, decodes))
    {
      var loaded := store.Load(id, now, net, decodes);
      match loaded
      case Failure(_) => reply := FetchError;
      case Success(None) => reply := NotFound;
      case Success(Some(rec)) => reply := Found(rec.privPem);
    }
  }

  /** What a fetch answers: 200 with the key while a live record waits, 404 otherwise, 500 on a fault. */
  function FetchOutcome(keys: map<Id, Entry>, id: Id, now: Time, net: Network, decodes: bool): FetchReply {
    if !net.Answered? then FetchError
    else if !Live(keys, id, now) then NotFound
    else if decodes then Found(keys[id].rec.privPem)
    else FetchError
  }

  // Any history of settings and requests.

  function ServiceAfter(now: Time, requests: seq<Request>): (s: Service)
    ensures IsCeiling(s.maxTTL)
  {
    if requests == [] then Service(Start(now), MAX_ALLOWED_TTL)
    else Handle(ServiceAfter(now, requests[..|requests| - 1]), requests[|requests| - 1])
  }

  /** Whether a request for a lifetime in seconds is granted under a ceiling in nanoseconds. */
  predicate MayAsk(seconds: int, maxTTL: int) {
    seconds == 0 || (60 <= seconds && seconds * 1_000_000_000 <= maxTTL)
  }

  /** The lifetime asked for, or without one the lesser of a day and the ceiling. */
  predicate IsLifetime(span: int, seconds: int, maxTTL: int) {
    if seconds != 0 then span == seconds * 1_000_000_000
    else span <= 86_400_000_000_000 && span <= maxTTL && (span == 86_400_000_000_000 || span == maxTTL)
  }

  /** The write is what the creation asked for: its key under its id, for its lifetime. */
  predicate AsAsked(e: Event, before: Service, r: Request) {
    && r.Create? && MayAsk(r.seconds, before.maxTTL) && r.priv.Some? && r.random.Some? && r.encodes && !r.net.RequestLost?
    && e.Wrote? && e.id == r.random.value && e.caller == r.caller
    && e.at == before.w.now && e.rec == Record(r.priv.value, before.w.now)
    && IsLifetime(e.expiry - e.at, r.seconds, before.maxTTL)
  }

  /**
   * After any history, a request to create a key stores a record exactly when it asks for
   * a permitted lifetime and gets a key, an id and a reachable store. The record is the
   * new key, under the new id, and expires after the very lifetime asked for.
   */
  lemma CreationStores(now: Time, requests: seq<Request>, r: Request)
    requires r.Create?
    ensures var s, s' := ServiceAfter(now, requests), ServiceAfter(now, requests + [r]);
            var stores := MayAsk(r.seconds, s.maxTTL) && r.priv.Some? && r.random.Some? && r.encodes && !r.net.RequestLost?;
            && (!stores ==> s' == s)
            && (stores ==>
                  && s'.maxTTL == s.maxTTL && s'.w.now == s.w.now
                  && |s'.w.log| == |s.w.log| + 1 && s.w.log <= s'.w.log
                  && var e := s'.w.log[|s.w.log|];
                     && AsAsked(e, s, r)
                     && s'.w.store == s.w.store[e.id := Entry(e.rec, e.expiry)])
  {
    assert (requests + [r])[..|requests|] == requests;
  }

  /** The ceiling is a week until a setting between a minute and a week, and then the last such setting. */
  lemma {:induction false} CeilingIsLastSetting(now: Time, requests: seq<Request>, j: int)
    requires -1 <= j < |requests|
    requires j >= 0 ==> requests[j].Configure? && 60_000_000_000 <= requests[j].ttl <= 604_800_000_000_000
    requires forall i | j < i < |requests| && requests[i].Configure? ::
               !(60_000_000_000 <= requests[i].ttl <= 604_800_000_000_000)
    ensures ServiceAfter(now, requests).maxTTL == if j < 0 then 604_800_000_000_000 else requests[j].ttl
  {
    hide Step;
    if requests != [] && j < |requests| - 1 {
      CeilingIsLastSetting(now, requests[..|requests| - 1], j);
    }
  }

  /** Every record ever written was asked for: by creation i, with the lifetime it was granted then. */
  lemma {:induction false} EveryWriteWasAskedFor(now: Time, requests: seq<Request>, j: nat) returns (i: nat)
    requires j < |ServiceAfter(now, requests).w.log| && ServiceAfter(now, requests).w.log[j].Wrote?
    ensures i < |requests| && |ServiceAfter(now, requests[..i]).w.log| == j
    ensures AsAsked(ServiceAfter(now, requests).w.log[j], ServiceAfter(now, requests[..i]), requests[i])
  {
    hide MayAsk, AsAsked, Handle, Step;
    if requests == [] {
      assert false;
    }
    var front, r := requests[..|requests| - 1], requests[|requests| - 1];
    assert requests == front + [r];
    var s := ServiceAfter(now, front);
    LogGrows(s, r);
    if j < |s.w.log| {
      assert s.w.log[j] == Handle(s, r).w.log[j];
      i := EveryWriteWasAskedFor(now, front, j);
      assert requests[..i] == front[..i];
    } else {
      i := |front|;
      OnlyCreationsWrite(s, r);
      CreationStores(now, front, r);
    }
  }

  lemma LogGrows(s: Service, r: Request)
    requires IsCeiling(s.maxTTL)
    ensures s.w.log <= Handle(s, r).w.log && |Handle(s, r).w.log| <= |s.w.log| + 1
  {
  }

  lemma OnlyCreationsWrite(s: Service, r: Request)
    requires IsCeiling(s.maxTTL)
    ensures |Handle(s, r).w.log| <= |s.w.log| + 1
    ensures |Handle(s, r).w.log| > |s.w.log| && Handle(s, r).w.log[|s.w.log|].Wrote? ==> r.Create?
  {
  }

  lemma HandleKeepsPolicy(s: Service, r: Request)
    requires IsCeiling(s.maxTTL) && Good(s.w) && WithinPolicy(s.w.log)
    ensures Good(Handle(s, r).w) && WithinPolicy(Handle(s, r).w.log)
  {
    hide Good;
    match r
    case Configure(ttl) =>
    case Create(seconds, priv, random, _, _, caller) =>
      GrantedInPolicy(seconds, s.maxTTL);
      if Stores(r, s.maxTTL) {
        StepKeepsGood(s.w, Put(random.value, Record(priv.value, s.w.now), Granted(seconds, s.maxTTL), caller));
      }
    case Fetch(id, net, decodes) =>
      StepKeepsGood(s.w, Take(id, net.Answered? && decodes));
    case Wait(span) =>
      StepKeepsGood(s.w, Tick(span));
    case Expire(ids) =>
      StepKeepsGood(s.w, Sweep(ids));
  }

  lemma {:induction false} PolicyHolds(now: Time, requests: seq<Request>)
    ensures Good(ServiceAfter(now, requests).w) && WithinPolicy(ServiceAfter(now, requests).w.log)
  {
    hide Good, WithinPolicy, Handle;
    if requests == [] {
      NothingWritten(now);
    } else {
      PolicyHolds(now, requests[..|requests| - 1]);
      HandleKeepsPolicy(ServiceAfter(now, requests[..|requests| - 1]), requests[|requests| - 1]);
    }
  }

  lemma NothingWritten(now: Time)
    ensures Good(Start(now)) && WithinPolicy(Start(now).log)
  {
  }

  /**
   * Over every history of settings, creations, fetches and waiting: every record
   * stored expires 60 seconds to 7 days after its save, and every delivery comes
   * at most 7 days after the save it answers.
   */
  lemma LifetimesBounded(now: Time, requests: seq<Request>, j: nat)
    requires j < |ServiceAfter(now, requests).w.log|
    ensures var log := ServiceAfter(now, requests).w.log;
            && (log[j].Wrote? ==>
                  log[j].at + 60_000_000_000 <= log[j].expiry <= log[j].at + 604_800_000_000_000)
            && (log[j].Delivered? ==>
                  var k := WriteOf(log, j);
                  && 0 <= k < j && log[k].Wrote? && log[k].id == log[j].id && log[k].rec == log[j].rec
                  && log[k].at <= log[j].at <= log[k].at + 604_800_000_000_000)
  {
    hide ServiceAfter, Last;
    PolicyHolds(now, requests);
    var log := ServiceAfter(now, requests).w.log;
    if log[j].Delivered? {
      ServedWrite(log, j);
    }
  }

  lemma ServedWrite(log: seq<Event>, j: nat)
    requires AllServed(log) && j < |log| && log[j].Delivered?
    ensures var k := WriteOf(log, j);
            && 0 <= k < j && log[k].Wrote? && log[k].id == log[j].id && log[k].rec == log[j].rec
            && log[k].at <= log[j].at <= log[k].expiry
  {
    assert Served(log, j);
  }
}
