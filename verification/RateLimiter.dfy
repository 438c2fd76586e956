/**
 * The fixed-window limiter of ratelimit.go: one counter per bucket and address,
 * whose expiry is set only by the request that opens a window. Times are in
 * milliseconds.
 */
module RateLimiter {
  import opened Wrappers
  import opened Sets
  import opened KeyStore

  type Time = int

  const HOUR: nat := 3600 * 1000

  datatype Counter = Counter(count: int, expiry: Option<Time>)

  predicate IsLive(c: Option<Counter>, now: Time) {
    c.Some? && (c.value.expiry.Some? ==> now <= c.value.expiry.value)
  }

  /** INCR: a missing or expired key counts from zero and has no expiry. */
  function Incr(c: Option<Counter>, now: Time): Counter {
    if IsLive(c, now) then c.value.(count := c.value.count + 1) else Counter(1, None)
  }

  /** The script: INCR, then EXPIRE on the first use. */
  function Script(c: Option<Counter>, now: Time): Counter {
    var counted := Incr(c, now);
    if counted.count == 1 then counted.(expiry := Some(now + HOUR)) else counted
  }

  function Lookup(counters: map<string, Counter>, key: string): Option<Counter> {
    if key in counters then Some(counters[key]) else None
  }

  function KeyOf(bucket: string, ip: string): string {
    "rl:" + bucket + ":" + ip
  }

  class CounterServer {
    var counters: map<string, Counter>

    constructor ()
      ensures counters == map[]
    {
      counters := map[];
    }

    /** None when the exchange failed; a lost reply leaves the count behind. */
    method RunScript(key: string, now: Time, net: Network) returns (count: Option<int>)
      modifies this
      ensures counters == if net.RequestLost? then old(counters)
                          else old(counters)[key := Script(Lookup(old(counters), key), now)]
      ensures count == if net.Answered? then Some(Script(Lookup(old(counters), key), now).count) else None
    {
      if net.RequestLost? {
        return None;
      }
      var n := 1;
      if key in counters && (counters[key].expiry.Some? ==> now <= counters[key].expiry.value) {
        n := counters[key].count + 1;
        counters := counters[key := counters[key].(count := n)];
      } else {
        counters := counters[key := Counter(n, None)];
      }
      if n == 1 {
        counters := counters[key := counters[key].(expiry := Some(now + HOUR))];
      }
      count := if net.Answered? then Some(n) else None;
    }
  }

  class RedisRateLimiter {
    const server: CounterServer
    const bucket: string
    const limit: int

    constructor (server: CounterServer, bucket: string, limit: int)
      ensures this.server == server && this.bucket == bucket && this.limit == limit
    {
      this.server, this.bucket, this.limit := server, bucket, limit;
    }

    /** Fails closed. Only the counter of this bucket and address changes. */
    method Allow(ip: string, now: Time, net: Network) returns (ok: bool)
      modifies server
      ensures server.counters == if net.RequestLost? then old(server.counters)
                                 else old(server.counters)[KeyOf(bucket, ip) :=
                                        Script(Lookup(old(server.counters), KeyOf(bucket, ip)), now)]
      ensures ok <==> net.Answered? && Script(Lookup(old(server.counters), KeyOf(bucket, ip)), now).count <= limit
    {
      var key := KeyOf(bucket, ip);
      var count := server.RunScript(key, now, net);
      if count.None? {
        return false;
      }
      ok := count.value <= limit;
    }
  }

  // The requests of one bucket and address.

  function CounterAfter(times: seq<Time>, n: nat): Option<Counter>
    requires n <= |times|
  {
    if n == 0 then None else Some(Script(CounterAfter(times, n - 1), times[n - 1]))
  }

  predicate Allowed(times: seq<Time>, limit: int, k: nat)
    requires k < |times|
  {
    CounterAfter(times, k + 1).value.count <= limit
  }

  /** The request that opened the window of request k: a window lasts an hour from its first request. */
  function Opener(times: seq<Time>, k: nat): (o: nat)
    requires k < |times|
    ensures o <= k
  {
    if k > 0 && times[k] <= times[Opener(times, k - 1)] + 3_600_000 then Opener(times, k - 1) else k
  }

  /** The stored counter is the position in the window, and its expiry is never moved. */
  lemma {:induction false} CounterIsPosition(times: seq<Time>, k: nat)
    requires k < |times|
    ensures var o := Opener(times, k);
            CounterAfter(times, k + 1) == Some(Counter(k - o + 1, Some(times[o] + 3_600_000)))
  {
    if k > 0 {
      CounterIsPosition(times, k - 1);
    }
  }

  /** In each window exactly the first `limit` requests are allowed. */
  lemma FirstOfWindow(times: seq<Time>, limit: int, k: nat)
    requires k < |times|
    ensures Allowed(times, limit, k) <==> k < Opener(times, k) + limit
  {
    CounterIsPosition(times, k);
  }

  predicate Ordered(times: seq<Time>) {
    forall i, j | 0 <= i <= j < |times| :: times[i] <= times[j]
  }

  lemma {:induction false} OpenerOfOpener(times: seq<Time>, i: nat, k: nat)
    requires k < |times| && Opener(times, k) <= i <= k
    ensures Opener(times, i) == Opener(times, k)
  {
    if i < k {
      OpenerOfOpener(times, i, k - 1);
    }
  }

  /** Later windows open more than an hour later. */
  lemma {:induction false} WindowsApart(times: seq<Time>, i: nat, k: nat)
    requires Ordered(times) && i <= k < |times| && Opener(times, i) < Opener(times, k)
    ensures i < Opener(times, k)
    ensures times[Opener(times, k)] > times[Opener(times, i)] + 3_600_000
  {
    var o := Opener(times, k);
    if o <= i {
      OpenerOfOpener(times, i, k);
      assert false;
    }
    OpenerOfOpener(times, o, k);
    if Opener(times, o - 1) > Opener(times, i) {
      WindowsApart(times, i, o - 1);
    } else if Opener(times, o - 1) < Opener(times, i) {
      if Opener(times, o - 1) <= i {
        OpenerOfOpener(times, i, o - 1);
        assert false;
      }
    }
  }

  // The bound for any hour, not only for windows.

  function AllowedIn(times: seq<Time>, limit: int, start: Time): set<int> {
    set k | 0 <= k < |times| && start <= times[k] < start + 3_600_000 && Allowed(times, limit, k)
  }

  /** First request at or after a time. */
  function FirstFrom(times: seq<Time>, start: Time, n: nat): (a: nat)
    requires n <= |times|
    ensures a <= n
    ensures forall i | 0 <= i < a :: times[i] < start
    ensures a < n ==> times[a] >= start
  {
    if n == 0 then 0
    else
      var a := FirstFrom(times, start, n - 1);
      if a < n - 1 || times[n - 1] >= start then a else n
  }

  /** First request after a that opens a window. */
  function NextOpener(times: seq<Time>, a: nat, n: nat): (b: nat)
    requires a < n <= |times|
    ensures a < b <= n
    ensures forall i | a < i < b :: Opener(times, i) != i
    ensures b < n ==> Opener(times, b) == b
    decreases n
  {
    if n == a + 1 then n
    else
      var b := NextOpener(times, a, n - 1);
      if b < n - 1 || Opener(times, n - 1) == n - 1 then b else n
  }

  /** Requests of one hour belong to the window in progress at its start or to the next one. */
  lemma TwoWindows(times: seq<Time>, start: Time, k: nat)
    requires Ordered(times) && k < |times| && start <= times[k] < start + 3_600_000
    ensures var a := FirstFrom(times, start, |times|);
            && a <= k
            && var b := NextOpener(times, a, |times|);
               || Opener(times, k) == Opener(times, a)
               || (Opener(times, k) == b && times[Opener(times, a)] < start)
  {
    var a := FirstFrom(times, start, |times|);
    var b := NextOpener(times, a, |times|);
    var o := Opener(times, k);
    if o <= a {
      OpenerOfOpener(times, a, k);
    } else {
      OpenerOfOpener(times, o, k);
      WindowsApart(times, a, k);
      if b < o {
        WindowsApart(times, b, k);
        assert false;
      }
    }
  }

  /** Positions an allowed request of the hour can have. */
  function Cover(times: seq<Time>, limit: int, start: Time): set<int> {
    var a := FirstFrom(times, start, |times|);
    if limit <= 0 || a == |times| then {}
    else
      var o, b := Opener(times, a), NextOpener(times, a, |times|);
      if times[o] < start then Interval(o + 1, o + limit) + Interval(b, b + limit) else Interval(o, o + limit)
  }

  lemma AllowedInCover(times: seq<Time>, limit: int, start: Time, k: nat)
    requires Ordered(times) && k in AllowedIn(times, limit, start)
    ensures k in Cover(times, limit, start)
  {
    hide Allowed;
    FirstOfWindow(times, limit, k);
    TwoWindows(times, start, k);
  }

  lemma CoverSize(times: seq<Time>, limit: int, start: Time)
    ensures |Cover(times, limit, start)| <= if limit <= 0 then 0 else 2 * limit - 1
  {
    hide Interval;
    var a := FirstFrom(times, start, |times|);
    if limit > 0 && a < |times| {
      var o, b := Opener(times, a), NextOpener(times, a, |times|);
      IntervalSize(o, o + limit);
      IntervalSize(o + 1, o + limit);
      IntervalSize(b, b + limit);
      UnionSize(Interval(o + 1, o + limit), Interval(b, b + limit));
    }
  }

  /** Any half-open hour allows at most 2 * limit - 1 requests of one bucket and address. */
  lemma HourBound(times: seq<Time>, limit: int, start: Time)
    requires Ordered(times)
    ensures |AllowedIn(times, limit, start)| <= if limit <= 0 then 0 else 2 * limit - 1
  {
    hide Allowed, Cover, Ordered;
    forall k | k in AllowedIn(times, limit, start) ensures k in Cover(times, limit, start) {
      AllowedInCover(times, limit, start, k);
    }
    SubsetSize(AllowedIn(times, limit, start), Cover(times, limit, start));
    CoverSize(times, limit, start);
  }

  lemma UnionSize(a: set<int>, b: set<int>)
    ensures |a + b| <= |a| + |b|
  {
    DisjointSize(a, b - a);
    assert a + b == a + (b - a);
    SubsetSize(b - a, b);
  }

  /** One request, the rest of the quota just before the window ends, the next quota just after. */
  function Burst(limit: nat): seq<Time> {
    seq(2 * limit, k => if k == 0 then 0 else if k < limit then 3_600_000 else 3_600_000 + 1)
  }

  lemma {:induction false} BurstOpener(limit: nat, k: nat)
    requires k < 2 * limit
    ensures Opener(Burst(limit), k) == if k < limit then 0 else limit
  {
    if k > 0 {
      BurstOpener(limit, k - 1);
    }
  }

  /** The bound is attained for every limit. */
  lemma HourBoundIsTight(limit: nat)
    requires limit > 0
    ensures Ordered(Burst(limit)) && |AllowedIn(Burst(limit), limit, 3_600_000)| == 2 * limit - 1
  {
    hide Allowed, Opener;
    var times := Burst(limit);
    forall k: nat | k < 2 * limit ensures Allowed(times, limit, k) {
      BurstOpener(limit, k);
      FirstOfWindow(times, limit, k);
    }
    assert AllowedIn(times, limit, 3_600_000) == Interval(1, 2 * limit);
    IntervalSize(1, 2 * limit);
  }

  // Many buckets and addresses, on the server that also holds the keys.

  /**
   * A request of an address, or a load: GETDEL removes whatever is stored under
   * the id it is given, and the id comes from the path of the request.
   */
  datatype Command =
    | Hit(bucket: string, ip: string, at: Time, net: Network)
    | Load(id: string, at: Time)

  predicate Reaches(c: Command, bucket: string, ip: string) {
    c.Hit? && !c.net.RequestLost? && c.bucket == bucket && c.ip == ip
  }

  predicate Removes(c: Command, bucket: string, ip: string) {
    c.Load? && c.id == KeyOf(bucket, ip)
  }

  function ServerAfter(commands: seq<Command>): map<string, Counter> {
    if commands == [] then map[]
    else
      var counters, c := ServerAfter(commands[..|commands| - 1]), commands[|commands| - 1];
      match c
      case Hit(bucket, ip, at, net) =>
        if net.RequestLost? then counters
        else counters[KeyOf(bucket, ip) := Script(Lookup(counters, KeyOf(bucket, ip)), at)]
      case Load(id, at) => counters - {id}
  }

  /** The stored counter of a bucket and address. */
  function CounterOf(commands: seq<Command>, bucket: string, ip: string): Option<Counter> {
    Lookup(ServerAfter(commands), KeyOf(bucket, ip))
  }

  /** Times of all requests of a bucket and address that reached the server. */
  function AllTimes(commands: seq<Command>, bucket: string, ip: string): seq<Time> {
    if commands == [] then []
    else
      var times, c := AllTimes(commands[..|commands| - 1], bucket, ip), commands[|commands| - 1];
      if Reaches(c, bucket, ip) then times + [c.at] else times
  }

  /** Those since the counter was last removed. */
  function TimesSince(commands: seq<Command>, bucket: string, ip: string): seq<Time> {
    if commands == [] then []
    else
      var times, c := TimesSince(commands[..|commands| - 1], bucket, ip), commands[|commands| - 1];
      if Reaches(c, bucket, ip) then times + [c.at]
      else if Removes(c, bucket, ip) then []
      else times
  }

  predicate PlainBucket(bucket: string) {
    ':' !in bucket
  }

  predicate PlainBuckets(commands: seq<Command>) {
    forall i | 0 <= i < |commands| && commands[i].Hit? :: PlainBucket(commands[i].bucket)
  }

  lemma BucketEnds(bucket: string, ip: string)
    requires PlainBucket(bucket)
    ensures var s := KeyOf(bucket, ip);
            s[3 + |bucket|] == ':' && forall i | 3 <= i < 3 + |bucket| :: s[i] != ':'
  {
    var s := KeyOf(bucket, ip);
    assert s[..3] == "rl:" && s[3..3 + |bucket|] == bucket && s[3 + |bucket|..] == ":" + ip;
    forall i | 3 <= i < 3 + |bucket| ensures s[i] != ':' {
      assert s[i] == bucket[i - 3];
    }
  }

  /** Distinct buckets or addresses have distinct counters. */
  lemma KeysDiffer(b1: string, ip1: string, b2: string, ip2: string)
    requires PlainBucket(b1) && PlainBucket(b2) && KeyOf(b1, ip1) == KeyOf(b2, ip2)
    ensures b1 == b2 && ip1 == ip2
  {
    hide KeyOf;
    BucketEnds(b1, ip1);
    BucketEnds(b2, ip2);
    assert |b1| == |b2|;
    KeyParts(b1, ip1);
    KeyParts(b2, ip2);
  }

  lemma KeyParts(bucket: string, ip: string)
    ensures var s := KeyOf(bucket, ip);
            |s| >= 4 + |bucket| && s[3..3 + |bucket|] == bucket && s[4 + |bucket|..] == ip
  {
  }

  /** Without that restriction two counters can coincide. */
  lemma ColonsCollide(a: string, b: string, ip: string)
    ensures KeyOf(a, b + ":" + ip) == KeyOf(a + ":" + b, ip)
  {
  }

  lemma CounterAppend(times: seq<Time>, t: Time, n: nat)
    requires n <= |times|
    ensures CounterAfter(times + [t], n) == CounterAfter(times, n)
    decreases n
  {
    if n > 0 {
      CounterAppend(times, t, n - 1);
    }
  }

  lemma CounterNext(times: seq<Time>, t: Time)
    ensures CounterAfter(times + [t], |times| + 1) == Some(Script(CounterAfter(times, |times|), t))
  {
    hide Script;
    CounterAppend(times, t, |times|);
  }

  /** In every run a counter depends only on the requests of its own bucket and address since it was last removed. */
  lemma {:induction false} CountersIndependent(commands: seq<Command>, bucket: string, ip: string)
    requires PlainBuckets(commands) && PlainBucket(bucket)
    ensures var times := TimesSince(commands, bucket, ip);
            CounterOf(commands, bucket, ip) == CounterAfter(times, |times|)
  {
    hide KeyOf, Script;
    if commands != [] {
      var front, c := commands[..|commands| - 1], commands[|commands| - 1];
      CountersIndependent(front, bucket, ip);
      if Reaches(c, bucket, ip) {
        CounterNext(TimesSince(front, bucket, ip), c.at);
      } else if c.Hit? && KeyOf(c.bucket, c.ip) == KeyOf(bucket, ip) {
        KeysDiffer(c.bucket, c.ip, bucket, ip);
      }
    }
  }

  /** What the limiter of the request's bucket answers to the last command of a run. */
  predicate Answer(commands: seq<Command>, limit: int)
    requires commands != [] && commands[|commands| - 1].Hit?
  {
    var c := commands[|commands| - 1];
    c.net.Answered? && Script(CounterOf(commands[..|commands| - 1], c.bucket, c.ip), c.at).count <= limit
  }

  /**
   * In every run, an answered request is allowed exactly when it is among the first
   * `limit` of its window, windows being counted from the last removal of the counter.
   */
  lemma AnswerIsFirstOfWindow(commands: seq<Command>, limit: int)
    requires PlainBuckets(commands) && commands != [] && commands[|commands| - 1].Hit?
    ensures var c := commands[|commands| - 1];
            var times := TimesSince(commands, c.bucket, c.ip);
            c.net.Answered? ==>
              times != [] && (Answer(commands, limit) <==> |times| - 1 < Opener(times, |times| - 1) + limit)
    ensures !commands[|commands| - 1].net.Answered? ==> !Answer(commands, limit)
  {
    hide KeyOf, Script, Opener, ServerAfter;
    var front, c := commands[..|commands| - 1], commands[|commands| - 1];
    if c.net.Answered? {
      CountersIndependent(front, c.bucket, c.ip);
      var before := TimesSince(front, c.bucket, c.ip);
      var times := TimesSince(commands, c.bucket, c.ip);
      assert times == before + [c.at];
      CounterNext(before, c.at);
      FirstOfWindow(times, limit, |times| - 1);
    }
  }

  // Loads under the key of a counter.

  /** A load of the counter's key reopens the quota: the second request of the same window is allowed under limit 1. */
  lemma LoadReopensWindow(bucket: string, ip: string)
    ensures var commands := [Hit(bucket, ip, 0, Answered), Load(KeyOf(bucket, ip), 0), Hit(bucket, ip, 1, Answered)];
            var times := AllTimes(commands, bucket, ip);
            && Answer(commands, 1)
            && times == [0, 1] && !(1 < Opener(times, 1) + 1)
  {
    var a, b, c := Hit(bucket, ip, 0, Answered), Load(KeyOf(bucket, ip), 0), Hit(bucket, ip, 1, Answered);
    assert [a, b, c][..2] == [a, b] && [a, b][..1] == [a] && [a][..0] == [];
    assert CounterOf([a, b], bucket, ip) == None;
    assert AllTimes([a], bucket, ip) == [0] == AllTimes([a, b], bucket, ip);
    assert AllTimes([a, b, c], bucket, ip) == [0] + [1];
    assert Opener([0, 1], 0) == 0;
  }

  predicate OrderedCommands(commands: seq<Command>) {
    forall i, j | 0 <= i <= j < |commands| :: commands[i].at <= commands[j].at
  }

  /** Time of the last command. */
  function Clock(commands: seq<Command>): Time {
    if commands == [] then 0 else commands[|commands| - 1].at
  }

  /** From now on the limiter answers as if no load had ever touched the counter. */
  ghost predicate Undisturbed(commands: seq<Command>, bucket: string, ip: string) {
    var times := AllTimes(commands, bucket, ip);
    forall t: Time | t >= Clock(commands) ::
      Script(CounterOf(commands, bucket, ip), t) == Script(CounterAfter(times, |times|), t)
  }

  /** No load names the counter while it is live. */
  predicate NeverNamedLive(commands: seq<Command>, bucket: string, ip: string) {
    forall i | 0 <= i < |commands| && Removes(commands[i], bucket, ip) ::
      !IsLive(CounterOf(commands[..i], bucket, ip), commands[i].at)
  }

  /** Two counters that no later request can tell apart. */
  predicate Alike(c: Option<Counter>, d: Option<Counter>, now: Time) {
    c == d || (!IsLive(c, now) && !IsLive(d, now))
  }

  /** A counter as the script leaves it. */
  predicate Proper(c: Option<Counter>) {
    c.Some? ==> c.value.count >= 1 && c.value.expiry.Some?
  }

  lemma CountersProper(times: seq<Time>)
    ensures Proper(CounterAfter(times, |times|))
  {
    hide Opener;
    if times != [] {
      CounterIsPosition(times, |times| - 1);
    }
  }

  lemma AlikeStays(c: Option<Counter>, d: Option<Counter>, now: Time, later: Time)
    requires Alike(c, d, now) && Proper(c) && Proper(d) && now <= later
    ensures Alike(c, d, later) && Script(c, later) == Script(d, later)
  {
  }

  lemma FrontNeverNamed(commands: seq<Command>, bucket: string, ip: string)
    requires commands != [] && NeverNamedLive(commands, bucket, ip)
    ensures NeverNamedLive(commands[..|commands| - 1], bucket, ip)
  {
    hide CounterOf, Removes, IsLive;
    var front := commands[..|commands| - 1];
    forall i | 0 <= i < |front| && Removes(front[i], bucket, ip)
      ensures !IsLive(CounterOf(front[..i], bucket, ip), front[i].at)
    {
      assert commands[i] == front[i] && commands[..i] == front[..i];
    }
  }

  lemma FrontOrdered(commands: seq<Command>)
    requires commands != [] && OrderedCommands(commands)
    ensures OrderedCommands(commands[..|commands| - 1])
    ensures |commands| > 1 ==> Clock(commands[..|commands| - 1]) <= Clock(commands)
  {
  }

  /** Without such a load the stored counter stays as good as the undisturbed one. */
  lemma {:induction false} StaysAlike(commands: seq<Command>, bucket: string, ip: string)
    requires PlainBuckets(commands) && PlainBucket(bucket)
    requires OrderedCommands(commands) && NeverNamedLive(commands, bucket, ip)
    ensures var times := AllTimes(commands, bucket, ip);
            && Proper(CounterOf(commands, bucket, ip)) && Proper(CounterAfter(times, |times|))
            && Alike(CounterOf(commands, bucket, ip), CounterAfter(times, |times|), Clock(commands))
  {
    hide KeyOf, Script, IsLive, ServerAfter, CounterAfter, Alike, OrderedCommands, NeverNamedLive, Proper, Removes;
    var times := AllTimes(commands, bucket, ip);
    CountersIndependent(commands, bucket, ip);
    CountersProper(TimesSince(commands, bucket, ip));
    CountersProper(times);
    if commands == [] {
      SameAlike(CounterOf([], bucket, ip), Clock([]));
      NoCounterYet(bucket, ip);
    } else {
      var front, c := commands[..|commands| - 1], commands[|commands| - 1];
      FrontOrdered(commands);
      FrontNeverNamed(commands, bucket, ip);
      StaysAlike(front, bucket, ip);
      assert commands == front + [c];
      AlikeNext(front, c, bucket, ip);
    }
  }

  lemma SameAlike(c: Option<Counter>, now: Time)
    ensures Alike(c, c, now)
  {
  }

  lemma NoCounterYet(bucket: string, ip: string)
    ensures CounterOf([], bucket, ip) == None == CounterAfter(AllTimes([], bucket, ip), 0)
    ensures |AllTimes([], bucket, ip)| == 0
  {
  }

  lemma CounterOfNext(front: seq<Command>, c: Command, bucket: string, ip: string)
    requires PlainBucket(bucket) && (c.Hit? ==> PlainBucket(c.bucket))
    ensures CounterOf(front + [c], bucket, ip)
         == if Reaches(c, bucket, ip) then Some(Script(CounterOf(front, bucket, ip), c.at))
            else if Removes(c, bucket, ip) then None
            else CounterOf(front, bucket, ip)
    ensures AllTimes(front + [c], bucket, ip)
         == if Reaches(c, bucket, ip) then AllTimes(front, bucket, ip) + [c.at] else AllTimes(front, bucket, ip)
  {
    hide KeyOf, Script;
    assert (front + [c])[..|front|] == front;
    if c.Hit? && KeyOf(c.bucket, c.ip) == KeyOf(bucket, ip) {
      KeysDiffer(c.bucket, c.ip, bucket, ip);
    }
  }

  lemma AlikeNext(front: seq<Command>, c: Command, bucket: string, ip: string)
    requires PlainBucket(bucket) && (c.Hit? ==> PlainBucket(c.bucket))
    requires front == [] || Clock(front) <= c.at
    requires NeverNamedLive(front + [c], bucket, ip)
    requires var times := AllTimes(front, bucket, ip);
             && Proper(CounterOf(front, bucket, ip)) && Proper(CounterAfter(times, |times|))
             && Alike(CounterOf(front, bucket, ip), CounterAfter(times, |times|), Clock(front))
    ensures var times := AllTimes(front + [c], bucket, ip);
            Alike(CounterOf(front + [c], bucket, ip), CounterAfter(times, |times|), Clock(front + [c]))
  {
    hide KeyOf, Script, ServerAfter, CounterAfter, AllTimes, CounterOf, IsLive, Proper, Reaches, Removes;
    var times := AllTimes(front, bucket, ip);
    var stored, ideal := CounterOf(front, bucket, ip), CounterAfter(times, |times|);
    CounterOfNext(front, c, bucket, ip);
    assert (front + [c])[..|front|] == front && (front + [c])[|front|] == c;
    if front == [] {
      NoCounterYet(bucket, ip);
    }
    AlikeStays(stored, ideal, if front == [] then c.at else Clock(front), c.at);
    if Reaches(c, bucket, ip) {
      CounterNext(times, c.at);
    } else if Removes(c, bucket, ip) {
      assert !IsLive(stored, c.at);
      NothingIsLive(c.at);
    }
  }

  lemma NothingIsLive(now: Time)
    ensures !IsLive(None, now)
  {
  }

  lemma NamedLiveDisturbs(commands: seq<Command>, i: nat, bucket: string, ip: string)
    requires PlainBuckets(commands) && PlainBucket(bucket) && OrderedCommands(commands)
    requires i < |commands| && Removes(commands[i], bucket, ip)
    requires IsLive(CounterOf(commands[..i], bucket, ip), commands[i].at)
    requires Undisturbed(commands[..i], bucket, ip)
    ensures !Undisturbed(commands[..i + 1], bucket, ip)
  {
    hide KeyOf, ServerAfter, CounterAfter, AllTimes, Removes, Reaches;
    var front, c := commands[..i], commands[i];
    assert commands[..i + 1] == front + [c];
    CounterOfNext(front, c, bucket, ip);
    OnlyHitsReach(c, bucket, ip);
    CountersIndependent(front, bucket, ip);
    CountersProper(TimesSince(front, bucket, ip));
    if i == 0 {
      NoCounterYet(bucket, ip);
    } else {
      assert front[i - 1] == commands[i - 1];
      assert Clock(front) <= c.at;
    }
    var times := AllTimes(front, bucket, ip);
    assert Script(CounterOf(front, bucket, ip), c.at).count >= 2;
    assert Script(CounterOf(front, bucket, ip), c.at) == Script(CounterAfter(times, |times|), c.at);
    assert Script(CounterOf(front + [c], bucket, ip), c.at).count == 1;
    assert Clock(front + [c]) == c.at;
  }

  lemma OnlyHitsReach(c: Command, bucket: string, ip: string)
    ensures Removes(c, bucket, ip) ==> !Reaches(c, bucket, ip)
  {
  }

  /**
   * At every moment of a run the limiter treats a bucket and address as if there were
   * no loads, exactly when no load of the run names their counter while it is live.
   */
  lemma UndisturbedExactly(commands: seq<Command>, bucket: string, ip: string)
    requires PlainBuckets(commands) && PlainBucket(bucket) && OrderedCommands(commands)
    ensures (forall n | 0 <= n <= |commands| :: Undisturbed(commands[..n], bucket, ip))
        <==> NeverNamedLive(commands, bucket, ip)
  {
    hide Undisturbed, CounterOf, IsLive, Removes;
    if NeverNamedLive(commands, bucket, ip) {
      forall n | 0 <= n <= |commands| ensures Undisturbed(commands[..n], bucket, ip) {
        PrefixUndisturbed(commands, n, bucket, ip);
      }
    } else {
      var i :| 0 <= i < |commands| && Removes(commands[i], bucket, ip)
               && IsLive(CounterOf(commands[..i], bucket, ip), commands[i].at);
      if Undisturbed(commands[..i], bucket, ip) {
        NamedLiveDisturbs(commands, i, bucket, ip);
      }
    }
  }

  lemma PrefixUndisturbed(commands: seq<Command>, n: nat, bucket: string, ip: string)
    requires PlainBuckets(commands) && PlainBucket(bucket) && OrderedCommands(commands)
    requires NeverNamedLive(commands, bucket, ip) && n <= |commands|
    ensures Undisturbed(commands[..n], bucket, ip)
  {
    hide KeyOf, Script, ServerAfter, CounterAfter, AllTimes, CounterOf, IsLive, Proper, Removes, Alike;
    var prefix := commands[..n];
    forall i | 0 <= i < n && Removes(prefix[i], bucket, ip)
      ensures !IsLive(CounterOf(prefix[..i], bucket, ip), prefix[i].at)
    {
      assert commands[i] == prefix[i] && commands[..i] == prefix[..i];
    }
    assert OrderedCommands(prefix);
    StaysAlike(prefix, bucket, ip);
    var times := AllTimes(prefix, bucket, ip);
    forall t: Time | t >= Clock(prefix)
      ensures Script(CounterOf(prefix, bucket, ip), t) == Script(CounterAfter(times, |times|), t)
    {
      AlikeStays(CounterOf(prefix, bucket, ip), CounterAfter(times, |times|), Clock(prefix), t);
    }
  }

  /** Ids as `randomID` makes them never name a counter. */
  lemma HexIdsNeverDisturb(commands: seq<Command>, bucket: string, ip: string)
    requires forall i | 0 <= i < |commands| && commands[i].Load? :: IsHexId(commands[i].id)
    ensures NeverNamedLive(commands, bucket, ip)
  {
    hide CounterOf, IsLive;
    assert KeyOf(bucket, ip)[0] == 'r';
  }

  // The bound for any hour of a run.

  predicate AllowedHit(commands: seq<Command>, bucket: string, ip: string, limit: int, start: Time, i: nat)
    requires i < |commands|
  {
    var c := commands[i];
    c.Hit? && c.bucket == bucket && c.ip == ip && start <= c.at < start + 3_600_000 && Answer(commands[..i + 1], limit)
  }

  /** The requests of one bucket and address that were answered and allowed within an hour. */
  function AllowedHits(commands: seq<Command>, bucket: string, ip: string, limit: int, start: Time): set<int> {
    set i | 0 <= i < |commands| && AllowedHit(commands, bucket, ip, limit, start, i)
  }

  lemma AllowedBefore(front: seq<Command>, c: Command, bucket: string, ip: string, limit: int, start: Time, i: nat)
    requires i < |front|
    ensures AllowedHit(front + [c], bucket, ip, limit, start, i) == AllowedHit(front, bucket, ip, limit, start, i)
  {
    hide Answer;
    assert (front + [c])[i] == front[i] && (front + [c])[..i + 1] == front[..i + 1];
  }

  lemma AllowedInGrows(times: seq<Time>, t: Time, limit: int, start: Time)
    ensures AllowedIn(times, limit, start) <= AllowedIn(times + [t], limit, start)
    ensures |times| in AllowedIn(times + [t], limit, start)
        <==> start <= t < start + 3_600_000 && Script(CounterAfter(times, |times|), t).count <= limit
  {
    hide CounterAfter, Script, Allowed;
    forall k: nat | k < |times| ensures Allowed(times + [t], limit, k) == Allowed(times, limit, k) {
      AllowedAppend(times, t, limit, k);
    }
    AllowedLast(times, t, limit);
  }

  lemma AllowedAppend(times: seq<Time>, t: Time, limit: int, k: nat)
    requires k < |times|
    ensures Allowed(times + [t], limit, k) == Allowed(times, limit, k)
  {
    hide CounterAfter, Script;
    CounterAppend(times, t, k + 1);
  }

  lemma AllowedLast(times: seq<Time>, t: Time, limit: int)
    ensures Allowed(times + [t], limit, |times|) == (Script(CounterAfter(times, |times|), t).count <= limit)
  {
    hide CounterAfter, Script;
    CounterNext(times, t);
  }

  /** The last request of a run, as a request in the list of times. */
  lemma LastAllowed(front: seq<Command>, c: Command, bucket: string, ip: string, limit: int, start: Time)
    requires Undisturbed(front, bucket, ip) && (front == [] || Clock(front) <= c.at)
    requires AllowedHit(front + [c], bucket, ip, limit, start, |front|)
    ensures Reaches(c, bucket, ip)
    ensures var times := AllTimes(front, bucket, ip);
            start <= c.at < start + 3_600_000 && Script(CounterAfter(times, |times|), c.at).count <= limit
  {
    hide CounterAfter, Script, CounterOf, AllTimes;
    assert (front + [c])[..|front| + 1] == front + [c];
    assert (front + [c])[..|front|] == front;
    var times := AllTimes(front, bucket, ip);
    if front == [] {
      NoCounterYet(bucket, ip);
    }
    assert Script(CounterOf(front, bucket, ip), c.at) == Script(CounterAfter(times, |times|), c.at);
  }

  /** Allowed requests of the run are allowed requests of the list of times, one for one. */
  lemma {:induction false} HitsCounted(commands: seq<Command>, bucket: string, ip: string, limit: int, start: Time)
    requires PlainBuckets(commands) && PlainBucket(bucket)
    requires OrderedCommands(commands) && NeverNamedLive(commands, bucket, ip)
    ensures |AllowedHits(commands, bucket, ip, limit, start)|
         <= |AllowedIn(AllTimes(commands, bucket, ip), limit, start)|
  {
    hide AllowedHit, AllowedIn, AllTimes, Reaches, NeverNamedLive, Undisturbed, Script, CounterAfter;
    if commands == [] {
      assert AllowedHits(commands, bucket, ip, limit, start) == {};
    } else {
      var n := |commands| - 1;
      var front, c := commands[..n], commands[n];
      assert commands == front + [c];
      FrontOrdered(commands);
      FrontNeverNamed(commands, bucket, ip);
      HitsCounted(front, bucket, ip, limit, start);
      PrefixUndisturbed(commands, n, bucket, ip);
      CounterOfNext(front, c, bucket, ip);
      forall i: nat | i < n
        ensures AllowedHit(commands, bucket, ip, limit, start, i) == AllowedHit(front, bucket, ip, limit, start, i)
      {
        AllowedBefore(front, c, bucket, ip, limit, start, i);
      }
      var hits := AllowedHits(front, bucket, ip, limit, start);
      var times := AllTimes(front, bucket, ip);
      AllowedInGrows(times, c.at, limit, start);
      if AllowedHit(commands, bucket, ip, limit, start, n) {
        LastAllowed(front, c, bucket, ip, limit, start);
        assert AllowedHits(commands, bucket, ip, limit, start) == hits + {n};
        OneMoreAllowed(times, c.at, limit, start);
      } else {
        assert AllowedHits(commands, bucket, ip, limit, start) == hits;
        SubsetSize(AllowedIn(times, limit, start), AllowedIn(times + [c.at], limit, start));
      }
    }
  }

  lemma OneMoreAllowed(times: seq<Time>, t: Time, limit: int, start: Time)
    requires |times| in AllowedIn(times + [t], limit, start)
    ensures |AllowedIn(times, limit, start)| + 1 <= |AllowedIn(times + [t], limit, start)|
  {
    AllowedInGrows(times, t, limit, start);
    var before := AllowedIn(times, limit, start);
    assert |times| !in before;
    SubsetSize(before + {|times|}, AllowedIn(times + [t], limit, start));
  }

  lemma {:induction false} TimesOrdered(commands: seq<Command>, bucket: string, ip: string)
    requires OrderedCommands(commands)
    ensures Ordered(AllTimes(commands, bucket, ip))
    ensures forall i | 0 <= i < |AllTimes(commands, bucket, ip)| :: AllTimes(commands, bucket, ip)[i] <= Clock(commands)
  {
    if commands != [] {
      FrontOrdered(commands);
      TimesOrdered(commands[..|commands| - 1], bucket, ip);
      if |commands| == 1 {
        assert AllTimes(commands[..0], bucket, ip) == [];
      }
    }
  }

  /**
   * In every run with a clock that never goes back, any half-open hour sees at most
   * 2 * limit - 1 allowed requests of a bucket and address whose live counter no
   * load names.
   */
  lemma HourBoundInRuns(commands: seq<Command>, bucket: string, ip: string, limit: int, start: Time)
    requires PlainBuckets(commands) && PlainBucket(bucket)
    requires OrderedCommands(commands) && NeverNamedLive(commands, bucket, ip)
    ensures |AllowedHits(commands, bucket, ip, limit, start)| <= if limit <= 0 then 0 else 2 * limit - 1
  {
    hide AllowedHits, AllowedIn, AllTimes, NeverNamedLive, OrderedCommands, Ordered;
    HitsCounted(commands, bucket, ip, limit, start);
    TimesOrdered(commands, bucket, ip);
    HourBound(AllTimes(commands, bucket, ip), limit, start);
  }
}
