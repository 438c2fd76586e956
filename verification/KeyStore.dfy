/**
 * The key stores of store.go: a mutex-guarded map with lazy expiry, and a
 * client of Redis. Clocks, random ids and network faults are parameters.
 */
module KeyStore {
  import opened Wrappers
  import opened Delivery

  /** A store in memory, for tests. */
  class MemKeyStore {
    var data: map<Id, Entry>
    ghost var log: seq<Event>

    constructor ()
      ensures data == map[] && log == []
    {
      data, log := map[], [];
    }

    ghost function View(now: Time): World
      reads this
    {
      World(now, data, log)
    }

    method Save(rec: Record, ttl: nat, now: Time, random: Option<Id>, ghost caller: nat) returns (r: Result<Id>)
      modifies this
      ensures random.None? ==> r.Failure? && View(now) == old(View(now))
      ensures random.Some? ==>
        && r == Success(random.value)
        && View(now) == Step(old(View(now)), Put(random.value, rec, ttl, caller))
    {
      if random.None? {
        return Failure("rand");
      }
      var id := random.value;
      data := data[id := Entry(rec, now + ttl)];
      log := log + [Wrote(id, now, rec, now + ttl, caller)];
      r := Success(id);
    }

    /** Deletes first, looks at the expiry afterwards. */
    method Load(id: Id, now: Time) returns (r: Option<Record>)
      modifies this
      ensures View(now) == Step(old(View(now)), Take(id, true))
      ensures r == if Live(old(data), id, now) then Some(old(data)[id].rec) else None
    {
      if id !in data {
        assert data - {id} == data;
        return None;
      }
      var entry := data[id];
      data := data - {id};
      if now > entry.expiry {
        return None;
      }
      log := log + [Delivered(id, now, entry.rec)];
      r := Some(entry.rec);
    }
  }

  /** What happens to one exchange with the server. */
  datatype Network = Answered | RequestLost | ReplyLost

  /** The server's keyspace. A key is gone once its expiry has passed, whenever it is removed. */
  class Redis {
    var keys: map<Id, Entry>
    ghost var log: seq<Event>

    constructor ()
      ensures keys == map[] && log == []
    {
      keys, log := map[], [];
    }

    ghost function View(now: Time): World
      reads this
    {
      World(now, keys, log)
    }

    method Set(id: Id, rec: Record, ttl: nat, now: Time, net: Network, ghost caller: nat) returns (ok: bool)
      modifies this
      ensures ok <==> net.Answered?
      ensures View(now) == if net.RequestLost? then old(View(now)) else Step(old(View(now)), Put(id, rec, ttl, caller))
    {
      if !net.RequestLost? {
        keys := keys[id := Entry(rec, now + ttl)];
        log := log + [Wrote(id, now, rec, now + ttl, caller)];
      }
      ok := net.Answered?;
    }

    /** None when the exchange failed; otherwise whether the key was set. */
    method SetNX(id: Id, rec: Record, ttl: nat, now: Time, net: Network, ghost caller: nat) returns (ok: Option<bool>)
      modifies this
      ensures ok == if net.Answered? then Some(!Live(old(keys), id, now)) else None
      ensures View(now) == if net.RequestLost? then old(View(now)) else Step(old(View(now)), PutNew(id, rec, ttl, caller))
    {
      var taken := id in keys && now <= keys[id].expiry;
      if !net.RequestLost? && !taken {
        keys := keys[id := Entry(rec, now + ttl)];
        log := log + [Wrote(id, now, rec, now + ttl, caller)];
      }
      ok := if net.Answered? then Some(!taken) else None;
    }

    /** A value its reader cannot use is dropped as one whose reply is lost. */
    method GetDel(id: Id, now: Time, net: Network, ghost usable: bool) returns (r: Result<Option<Record>>)
      modifies this
      ensures !net.Answered? ==> r.Failure?
      ensures net.Answered? ==> r == Success(if Live(old(keys), id, now) then Some(old(keys)[id].rec) else None)
      ensures View(now) == if net.RequestLost? then old(View(now))
                           else Step(old(View(now)), Take(id, net.Answered? && usable))
    {
      if net.RequestLost? {
        return Failure("redis");
      }
      var found: Option<Record> := None;
      if id in keys && now <= keys[id].expiry {
        found := Some(keys[id].rec);
        log := log + [if net.Answered? && usable then Delivered(id, now, keys[id].rec) else Dropped(id, now)];
      }
      keys := keys - {id};
      r := if net.Answered? then Success(found) else Failure("redis");
    }

    /** Commands of other clients, and the time they take. */
    method Elsewhere(now: Time, actions: seq<Action>) returns (later: Time)
      modifies this
      ensures View(later) == After(old(View(now)), actions)
    {
      hide After, Step;
      ghost var start := View(now);
      later := now;
      assert actions[..0] == [];
      AfterNothing(start);
      for i := 0 to |actions|
        invariant View(later) == After(start, actions[..i])
      {
        AfterNext(start, actions, i);
        later := Perform(later, actions[i]);
      }
      assert actions[..|actions|] == actions;
    }

    method Perform(now: Time, a: Action) returns (later: Time)
      modifies this
      ensures View(later) == Step(old(View(now)), a)
    {
      later := now;
      match a
      case Tick(span) =>
        later := now + span;
      case Put(id, rec, ttl, caller) =>
        var ok := Set(id, rec, ttl, now, Answered, caller);
      case PutNew(id, rec, ttl, caller) =>
        var ok := SetNX(id, rec, ttl, now, Answered, caller);
      case Take(id, answered) =>
        var r := GetDel(id, now, Answered, answered);
      case Sweep(ids) =>
        keys := map id | id in keys && (id in ids ==> now <= keys[id].expiry) :: keys[id];
    }
  }

  class RedisKeyStore {
    const client: Redis

    constructor (client: Redis)
      ensures this.client == client
    {
      this.client := client;
    }

    /** An error may leave the record behind when only the reply was lost. `encodes`: the record becomes JSON. */
    method Save(rec: Record, ttl: nat, now: Time, random: Option<Id>, encodes: bool, net: Network, ghost caller: nat)
      returns (r: Result<Id>)
      modifies client
      ensures r.Success? <==> random.Some? && encodes && net.Answered?
      ensures r.Success? ==> r.value == random.value
      ensures client.View(now) == if random.None? || !encodes || net.RequestLost? then old(client.View(now))
                                  else Step(old(client.View(now)), Put(random.value, rec, ttl, caller))
    {
      if random.None? {
        return Failure("rand");
      }
      if !encodes {
        return Failure("json");
      }
      var ok := client.Set(random.value, rec, ttl, now, net, caller);
      r := if ok then Success(random.value) else Failure("redis");
    }

    /** `decodes`: the stored value is a record. One that is not is gone all the same. */
    method Load(id: Id, now: Time, net: Network, decodes: bool) returns (r: Result<Option<Record>>)
      modifies client
      ensures r == LoadAnswer(old(client.keys), id, now, net, decodes)
      ensures client.View(now) == if net.RequestLost? then old(client.View(now))
                                  else Step(old(client.View(now)), Take(id, net.Answered? && decodes))
    {
      var val := client.GetDel(id, now, net, decodes);
      if val.Failure? {
        return Failure("redis");
      }
      if val.value == None {
        return Success(None);
      }
      r := if decodes then val else Failure("json");
    }
  }

  /** What a load of either Redis store answers. */
  function LoadAnswer(keys: map<Id, Entry>, id: Id, now: Time, net: Network, decodes: bool): Result<Option<Record>> {
    if !net.Answered? then Failure("redis")
    else if !Live(keys, id, now) then Success(None)
    else if decodes then Success(Some(keys[id].rec))
    else Failure("json")
  }

  // Random ids.

  function HexByte(b: nat): string
    requires b < 256
  {
    [HexNibble(b / 16), HexNibble(b % 16)]
  }

  function HexNibble(n: nat): (c: char)
    requires n < 16
    ensures '0' <= c <= '9' || 'a' <= c <= 'f'
  {
    if n < 10 then '0' + n as char else 'a' + (n - 10) as char
  }

  predicate AreBytes(b: seq<nat>) {
    forall i | 0 <= i < |b| :: b[i] < 256
  }

  function HexText(b: seq<nat>): string
    requires AreBytes(b)
  {
    if b == [] then "" else HexText(b[..|b| - 1]) + HexByte(b[|b| - 1])
  }

  predicate IsHexId(id: Id) {
    |id| == 32 && forall i | 0 <= i < |id| :: '0' <= id[i] <= '9' || 'a' <= id[i] <= 'f'
  }

  lemma {:induction false} HexTextShape(b: seq<nat>)
    requires AreBytes(b)
    ensures |HexText(b)| == 2 * |b|
    ensures forall i | 0 <= i < |HexText(b)| :: '0' <= HexText(b)[i] <= '9' || 'a' <= HexText(b)[i] <= 'f'
  {
    if b != [] {
      HexTextShape(b[..|b| - 1]);
    }
  }

  lemma NibbleDigit(n: nat)
    requires n < 16
    ensures HexNibble(n) == "0123456789abcdef"[n]
  {
  }

  /** Digit k of the text is the high or the low half of byte k / 2. */
  lemma {:induction false} HexDigits(b: seq<nat>, k: nat)
    requires AreBytes(b) && k < 2 * |b|
    ensures |HexText(b)| == 2 * |b|
    ensures HexText(b)[k] == "0123456789abcdef"[if k % 2 == 0 then b[k / 2] / 16 else b[k / 2] % 16]
  {
    hide HexNibble;
    var n := |b| - 1;
    HexTextShape(b);
    HexTextShape(b[..n]);
    if k < 2 * n {
      HexDigits(b[..n], k);
    } else {
      NibbleDigit(b[n] / 16);
      NibbleDigit(b[n] % 16);
    }
  }

  lemma HexByteInjective(x: nat, y: nat)
    requires x < 256 && y < 256 && HexByte(x) == HexByte(y)
    ensures x == y
  {
    assert HexByte(x)[0] == HexByte(y)[0] && HexByte(x)[1] == HexByte(y)[1];
    NibbleInjective(x / 16, y / 16);
    NibbleInjective(x % 16, y % 16);
  }

  lemma NibbleInjective(m: nat, n: nat)
    requires m < 16 && n < 16 && HexNibble(m) == HexNibble(n)
    ensures m == n
  {
  }

  /** Different random bytes give different ids: the printer loses nothing. */
  lemma {:induction false} HexTextInjective(a: seq<nat>, b: seq<nat>)
    requires AreBytes(a) && AreBytes(b) && HexText(a) == HexText(b)
    ensures a == b
  {
    hide HexByte, HexNibble;
    HexTextShape(a);
    HexTextShape(b);
    if a != [] {
      var n := |a| - 1;
      HexTextShape(a[..n]);
      HexTextShape(b[..n]);
      SplitEqual(HexText(a[..n]), HexByte(a[n]), HexText(b[..n]), HexByte(b[n]));
      HexByteInjective(a[n], b[n]);
      HexTextInjective(a[..n], b[..n]);
      assert a == a[..n] + [a[n]] && b == b[..n] + [b[n]];
    }
  }

  lemma SplitEqual(a: string, b: string, c: string, d: string)
    requires a + b == c + d && |a| == |c|
    ensures a == c && b == d
  {
    assert a == (a + b)[..|a|] && b == (a + b)[|a|..];
    assert c == (c + d)[..|c|] && d == (c + d)[|c|..];
  }

  /** Sixteen random bytes, or the failure of the random source, as an id. */
  method RandomID(bytes: Option<seq<nat>>) returns (r: Option<Id>)
    requires bytes.Some? ==> |bytes.value| == 16 && AreBytes(bytes.value)
    ensures r.Some? <==> bytes.Some?
    ensures r.Some? ==> r.value == HexText(bytes.value) && IsHexId(r.value)
  {
    if bytes.None? {
      return None;
    }
    HexTextShape(bytes.value);
    r := Some(HexText(bytes.value));
  }
}
