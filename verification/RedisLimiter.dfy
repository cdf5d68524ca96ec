/** The Redis rate limiter: a script that keeps each key's bucket in a hash with an expiry. */
module RedisLimiter {
  import opened KeyedLog
  import opened Prelude
  import opened TokenBucket
  import Text

  const MINUTE := 60_000_000_000
  const NANOS_PER_MS := 1_000_000

  /** The hash of one key; Redis drops it once the server's clock has passed `deadline`. */
  datatype Hash = Hash(tokens: Option<real>, last: Option<int>, deadline: int)

  /** What the network does to one call. */
  datatype Delivery = Delivered | RequestLost | ReplyLost

  function Max(a: int, b: int): int {
    if a < b then b else a
  }

  /** The time an empty bucket takes to fill, in nanoseconds, cut to a whole number. */
  function RefillDuration(perMinute: real, burst: int): int
    requires perMinute > 0.0
  {
    (burst as real / perMinute * 60.0 * 1_000_000_000.0).Floor
  }

  /** How long a key's state is kept. */
  function StateTTL(ttl: int, perMinute: real, burst: int): int
    requires perMinute > 0.0
  {
    Max(Max(ttl, RefillDuration(perMinute, burst)), MINUTE)
  }

  /** The bucket the configuration asks for, on a clock of milliseconds. */
  function Configured(perMinute: real, burst: int): Limit {
    Limit(perMinute / 60.0 / 1000.0, burst)
  }

  // ---------------------------------------------------------------- two clocks

  /** How far the server's clock was ahead of its callers' clocks when it ran their scripts: never
      less than `low`, never more than `high`. */
  datatype Skew = Unseen | Between(low: int, high: int)

  function Seen(skew: Skew, ahead: int): Skew {
    match skew
    case Unseen => Between(ahead, ahead)
    case Between(low, high) => Between(if ahead < low then ahead else low, Max(high, ahead))
  }

  /** By how much the difference of the clocks, network delay included, has varied. */
  function Jitter(skew: Skew): int {
    match skew
    case Unseen => 0
    case Between(low, high) => high - low
  }

  // ---------------------------------------------------------------- one key

  /** What the server still has of a key. */
  function Surviving(hash: Option<Hash>, server: int): Option<Hash> {
    if hash.Some? && server > hash.value.deadline then None else hash
  }

  /** The bucket a hash stands for; a missing time of the last call counts as now. */
  function BucketIn(hash: Option<Hash>, now: int): Option<Bucket> {
    match hash
    case None => None
    case Some(Hash(None, _, _)) => None
    case Some(Hash(Some(tokens), last, _)) => Some(Bucket(tokens, if last.Some? then last.value else now))
  }

  /** The hash that holds a bucket. */
  function HashOf(b: Bucket, deadline: int): Hash {
    Hash(Some(b.tokens), Some(b.last), deadline)
  }

  /** What a run of the script makes of the hash it finds, and whether it admits its caller. */
  function ScriptStep(lim: Limit, ttl: int, found: Option<Hash>, now: int, server: int): (Hash, bool) {
    var held := BucketIn(found, now);
    var admit := Allows(lim, held, now);
    (HashOf(Spend(lim, held, now, admit), server + ttl), admit)
  }

  /** A key's hash holds the bucket its calls `es` leave, and its deadline is a TTL after the last
      of them on the server's clock. */
  ghost predicate HoldsLatest(lim: Limit, ttl: int, skew: Skew, hash: Option<Hash>, es: seq<Entry>) {
    if es == [] then hash.None?
    else
      && skew.Between? && hash.Some? && hash.value == HashOf(Latest(lim, es), hash.value.deadline)
      && skew.low <= hash.value.deadline - ttl - Latest(lim, es).last <= skew.high
  }

  /** The key answers like a bucket of its own, dropped only when more than the TTL, less the
      jitter of the clocks, has passed since its last call. */
  ghost predicate KeyReflects(lim: Limit, ttl: int, skew: Skew, hash: Option<Hash>, es: seq<Entry>) {
    && HoldsLatest(lim, ttl, skew, hash, es)
    && OwnBucket(lim, es)
    && ForgetsAfter(Requests(es), ttl + 1 - Jitter(skew))
  }

  ghost predicate Reflects(lim: Limit, ttl: int, skew: Skew, db: map<string, Hash>, log: seq<Entry>) {
    forall name {:trigger KeyReflects(lim, ttl, skew, Lookup(db, name), Of(log, name))} ::
      KeyReflects(lim, ttl, skew, Lookup(db, name), Of(log, name))
  }

  /** Every call is recorded under the name of the key its client gave. */
  ghost predicate Named(prefix: string, log: seq<Entry>, asked: seq<string>) {
    |asked| == |log| && forall i :: 0 <= i < |log| ==> log[i].key == NameOf(prefix, asked[i])
  }

  function NameOf(prefix: string, key: string): string {
    prefix + ":" + Canonical(key)
  }

  lemma NamedAppend(prefix: string, log: seq<Entry>, asked: seq<string>, e: Entry, client: string)
    requires Named(prefix, log, asked) && e.key == NameOf(prefix, client)
    ensures Named(prefix, log + [e], asked + [client])
  {
  }

  class RedisLimiter {
    const ratePerSec: real
    const burst: int
    const stateTTL: int
    const keyPrefix: string

    var db: map<string, Hash>      // the key space of the Redis server

    ghost var log: seq<Entry>      // every run of the script so far
    ghost var asked: seq<string>   // the keys that clients gave for them
    ghost var skew: Skew           // the clocks of those runs

    constructor (ratePerSec: real, burst: int, stateTTL: int, keyPrefix: string)
      ensures this.ratePerSec == ratePerSec && this.burst == burst
      ensures this.stateTTL == stateTTL && this.keyPrefix == keyPrefix
      ensures Valid() && log == [] && asked == [] && skew == Unseen
    {
      this.ratePerSec := ratePerSec;
      this.burst := burst;
      this.stateTTL := stateTTL;
      this.keyPrefix := keyPrefix;
      db := map[];
      log := [];
      asked := [];
      skew := Unseen;
    }

    ghost function Rate(): Limit {
      Limit(ratePerSec / 1000.0, burst)
    }

    function TTLMillis(): int {
      stateTTL / NANOS_PER_MS
    }

    function Name(key: string): string {
      NameOf(keyPrefix, key)
    }

    ghost predicate Valid()
      reads this
    {
      && Reflects(Rate(), TTLMillis(), skew, db, log)
      && Named(keyPrefix, log, asked)
    }

    /** The key had state, which the server has dropped by the time it runs the script. */
    predicate Gone(name: string, server: int)
      reads this
    {
      name in db && server > db[name].deadline
    }

    /** The start of the script: a missing bucket is full; any other gets what has flowed back since
        its last call, or nothing when the time of that call is missing. */
    method Refill(values: Hash, now: int) returns (tokens: real)
      ensures tokens == Available(Rate(), BucketIn(Some(values), now), now)
    {
      if values.tokens == None {
        tokens := burst as real;
      } else {
        var last := if values.last == None then now else values.last.value;
        tokens := Refilled(values.tokens.value, last, now, ratePerSec, burst);
        RefillIsCredit(values.tokens.value, last, now, ratePerSec, burst);
      }
    }

    /** The end of the script: HSET stores what is left, PEXPIRE sets the deadline. */
    method Keep(name: string, tokens: real, now: int, server: int, ghost e: Entry, ghost client: string)
      requires Valid() && name == Name(client)
      requires e.key == name && e.now == now && (e.gone <==> Gone(name, server))
      requires var held := Found(Rate(), Of(log, name), e.gone);
               && (e.allowed <==> Allows(Rate(), held, now))
               && Bucket(tokens, now) == Spend(Rate(), held, now, e.allowed)
      modifies this
      ensures Valid() && log == old(log) + [e] && skew == Seen(old(skew), server - now)
      ensures asked == old(asked) + [client]
      ensures db == old(db)[name := HashOf(Bucket(tokens, now), server + TTLMillis())]
    {
      StoreStep(Rate(), TTLMillis(), skew, keyPrefix, db, log, asked, e, server, client);
      db := db[name := Hash(Some(tokens), Some(now), server + TTLMillis())];
      log, asked, skew := log + [e], asked + [client], Seen(skew, server - now);
    }

    /** The script, run by Redis as one atomic step when the server's clock shows `server`. */
    method RunScript(name: string, now: int, server: int, ghost client: string) returns (allowed: int)
      requires Valid() && name == Name(client)
      modifies this
      ensures Valid() && skew == Seen(old(skew), server - now) && asked == old(asked) + [client]
      // the key's own history
      ensures var gone := old(Gone(name, server));
              && (allowed == 1 <==> Allows(Rate(), Found(Rate(), Of(old(log), name), gone), now))
              && (allowed == 0 || allowed == 1)
              && log == old(log) + [Entry(name, now, gone, allowed == 1)]
      // the key space
      ensures var (hash, admit) :=
                ScriptStep(Rate(), TTLMillis(), Surviving(Lookup(old(db), name), server), now, server);
              db == old(db)[name := hash] && (allowed == 1 <==> admit)
    {
      ghost var gone := Gone(name, server);
      ghost var held := Found(Rate(), Of(log, name), gone);
      assert KeyReflects(Rate(), TTLMillis(), skew, Lookup(db, name), Of(log, name));
      FoundInHash(Rate(), TTLMillis(), skew, Lookup(db, name), Of(log, name), now, server);

      var values := if name in db && !Gone(name, server) then db[name] else Hash(None, None, 0);
      var tokens := Refill(values, now);
      assert tokens == Available(Rate(), held, now);

      allowed := 0;
      if tokens >= 1.0 {
        tokens := tokens - 1.0;
        allowed := 1;
      }
      Keep(name, tokens, now, server, Entry(name, now, gone, allowed == 1), client);
    }

    /** One call of the limiter by a client. */
    method Allow(key: string, now: int, server: int, delivery: Delivery) returns (result: Result<bool, string>)
      requires Valid()
      modifies this
      ensures Valid()
      ensures skew == if delivery.RequestLost? then old(skew) else Seen(old(skew), server - now)
      ensures asked == if delivery.RequestLost? then old(asked) else old(asked) + [key]
      ensures var name := Name(key);
              var gone := old(Gone(name, server));
              var admit := Allows(Rate(), Found(Rate(), OfClient(old(log), old(asked), key), gone), now);
              && log == (if delivery.RequestLost? then old(log) else old(log) + [Entry(name, now, gone, admit)])
              && (delivery.Delivered? ==> result == Ok(admit))
              && (!delivery.Delivered? ==> result.Err?)
    {
      if delivery.RequestLost? {
        return Err("redis rate limit");
      }
      ClientsHaveNames(this, key);
      var reply := RunScript(Name(key), now, server, key);
      if delivery.ReplyLost? {
        return Err("redis rate limit");
      }
      return Ok(reply == 1);
    }
  }

  /** The names of two keys are equal only if the keys stand for one client. */
  lemma NamesTellClientsApart(limiter: RedisLimiter, a: string, b: string)
    ensures limiter.Name(a) == limiter.Name(b) <==> SameClient(a, b)
    ensures a != "" ==> limiter.Name(a) == limiter.keyPrefix + ":" + a
    ensures limiter.Name("") == limiter.keyPrefix + ":unknown"
  {
    var prefix := limiter.keyPrefix + ":";
    CanonicalIff(a, b);
    PrefixTellsApart(prefix, Canonical(a), Canonical(b));
    assert prefix + "unknown" == limiter.keyPrefix + ":unknown";
  }

  lemma PrefixTellsApart(prefix: string, a: string, b: string)
    ensures prefix + a == prefix + b <==> a == b
  {
    assert (prefix + a)[|prefix|..] == a && (prefix + b)[|prefix|..] == b;
  }

  lemma ClientsHaveNames(limiter: RedisLimiter, client: string)
    requires limiter.Valid()
    ensures OfClient(limiter.log, limiter.asked, client) == Of(limiter.log, limiter.Name(client))
  {
    var log, asked := limiter.log, limiter.asked;
    forall i | 0 <= i < |log| ensures log[i].key == limiter.Name(client) <==> SameClient(asked[i], client) {
      NamesTellClientsApart(limiter, asked[i], client);
    }
    OfClientIsOf(log, asked, client, limiter.Name(client));
  }

  /** However calls of clients interleave, each client is answered like a bucket of its own that is
      fed exactly the calls made under its key, and dropped only after the TTL less the jitter. */
  lemma ClientHasItsOwnBucket(limiter: RedisLimiter, client: string)
    requires limiter.Valid()
    ensures var es := OfClient(limiter.log, limiter.asked, client);
            && OwnBucket(limiter.Rate(), es)
            && ForgetsAfter(Requests(es), limiter.TTLMillis() + 1 - Jitter(limiter.skew))
  {
    var name := limiter.Name(client);
    ClientsHaveNames(limiter, client);
    assert KeyReflects(
             limiter.Rate(), limiter.TTLMillis(), limiter.skew, Lookup(limiter.db, name), Of(limiter.log, name));
  }

  /** Storing what one call leaves keeps the key space in step with the calls. */
  lemma StoreStep(
    lim: Limit, ttl: int, skew: Skew, prefix: string, db: map<string, Hash>, log: seq<Entry>, asked: seq<string>,
    e: Entry, server: int, client: string)
    requires Reflects(lim, ttl, skew, db, log) && Named(prefix, log, asked) && e.key == NameOf(prefix, client)
    requires e.gone ==> e.key in db && server > db[e.key].deadline
    requires e.allowed <==> Allows(lim, Found(lim, Of(log, e.key), e.gone), e.now)
    ensures var left := Spend(lim, Found(lim, Of(log, e.key), e.gone), e.now, e.allowed);
            Reflects(lim, ttl, Seen(skew, server - e.now), db[e.key := HashOf(left, server + ttl)], log + [e])
    ensures Named(prefix, log + [e], asked + [client])
  {
    var es := Of(log, e.key);
    var left := Spend(lim, Found(lim, es, e.gone), e.now, e.allowed);
    assert KeyReflects(lim, ttl, skew, Lookup(db, e.key), es);
    KeyStep(lim, ttl, skew, Lookup(db, e.key), es, e, server);
    ReflectsStep(lim, ttl, skew, db, log, e, server, HashOf(left, server + ttl));
    NamedAppend(prefix, log, asked, e, client);
  }

  /** What the script counts: elapsed time is in seconds, and never negative. */
  function Refilled(tokens: real, last: int, now: int, ratePerSec: real, burst: int): real {
    var elapsed := Positive(now - last) as real / 1000.0;
    Min(burst as real, tokens + elapsed * ratePerSec)
  }

  /** The bucket counts in milliseconds and finds the same. */
  lemma RefillIsCredit(tokens: real, last: int, now: int, ratePerSec: real, burst: int)
    ensures Refilled(tokens, last, now, ratePerSec, burst)
         == Available(Limit(ratePerSec / 1000.0, burst), Some(Bucket(tokens, last)), now)
  {
    Rescale(Positive(now - last) as real, ratePerSec);
  }

  lemma Rescale(ticks: real, ratePerSec: real)
    ensures ticks / 1000.0 * ratePerSec == ticks * (ratePerSec / 1000.0)
  {
  }

  /** The hash gives the script the bucket that the key's history leaves. */
  lemma FoundInHash(
    lim: Limit, ttl: int, skew: Skew, hash: Option<Hash>, es: seq<Entry>, now: int, server: int)
    requires KeyReflects(lim, ttl, skew, hash, es)
    ensures BucketIn(Surviving(hash, server), now)
         == Found(lim, es, hash.Some? && server > hash.value.deadline)
  {
  }

  /** One more call of a key, as the script answers it. */
  lemma KeyStep(lim: Limit, ttl: int, skew: Skew, hash: Option<Hash>, es: seq<Entry>, e: Entry, server: int)
    requires KeyReflects(lim, ttl, skew, hash, es)
    requires e.gone ==> hash.Some? && server > hash.value.deadline
    requires e.allowed <==> Allows(lim, Found(lim, es, e.gone), e.now)
    ensures var after := HashOf(Spend(lim, Found(lim, es, e.gone), e.now, e.allowed), server + ttl);
            KeyReflects(lim, ttl, Seen(skew, server - e.now), Some(after), es + [e])
  {
    OwnBucketAppend(lim, es, e);
    var rs := Requests(es + [e]);
    forall i | 0 <= i < |rs| && rs[i].forget
      ensures i > 0 && rs[i].now - rs[i - 1].now >= ttl + 1 - Jitter(Seen(skew, server - e.now))
    {
      if i < |es| {
        assert rs[i] == Requests(es)[i];
      }
    }
  }

  /** The other keys, when the clocks may have drifted further apart. */
  lemma KeyRests(lim: Limit, ttl: int, skew: Skew, ahead: int, hash: Option<Hash>, es: seq<Entry>)
    requires KeyReflects(lim, ttl, skew, hash, es)
    ensures KeyReflects(lim, ttl, Seen(skew, ahead), hash, es)
  {
  }

  /** Storing what the script computes keeps every key's hash in step with its history. */
  lemma ReflectsStep(
    lim: Limit, ttl: int, skew: Skew, db: map<string, Hash>, log: seq<Entry>, e: Entry, server: int, hash: Hash)
    requires Reflects(lim, ttl, skew, db, log)
    requires KeyReflects(lim, ttl, Seen(skew, server - e.now), Some(hash), Of(log, e.key) + [e])
    ensures Reflects(lim, ttl, Seen(skew, server - e.now), db[e.key := hash], log + [e])
  {
    forall name
      ensures KeyReflects(lim, ttl, Seen(skew, server - e.now), Lookup(db[e.key := hash], name), Of(log + [e], name))
    {
      OfAppend(log, e, name);
      if name != e.key {
        assert Lookup(db[e.key := hash], name) == Lookup(db, name);
        assert KeyReflects(lim, ttl, skew, Lookup(db, name), Of(log, name));
        KeyRests(lim, ttl, skew, server - e.now, Lookup(db, name), Of(log, name));
      }
    }
  }

  /** Computes the time to keep state, as the constructor of the limiter does. */
  method ComputeStateTTL(ttl: int, perMinute: real, burst: int) returns (stateTTL: int)
    ensures perMinute > 0.0 && burst > 0 ==> stateTTL == StateTTL(ttl, perMinute, burst)
    ensures !(perMinute > 0.0 && burst > 0) ==> stateTTL == Max(ttl, MINUTE)
  {
    stateTTL := ttl;
    if perMinute > 0.0 && burst > 0 {
      var refillDuration := RefillDuration(perMinute, burst);
      if refillDuration > stateTTL {
        stateTTL := refillDuration;
      }
    }
    if stateTTL < MINUTE {
      stateTTL := MINUTE;
    }
  }

  method NewRedis(addr: string, perMinute: real, burst: int, ttl: int, keyPrefix: string)
    returns (result: Result<RedisLimiter, string>)
    ensures result.Ok? <==> Text.TrimSpace(addr) != ""
    ensures result.Ok? ==>
              && fresh(result.value) && result.value.Valid()
              && result.value.log == [] && result.value.asked == [] && result.value.skew == Unseen
              && result.value.Rate() == Configured(perMinute, burst)
              && (perMinute > 0.0 && burst > 0 ==> result.value.stateTTL == StateTTL(ttl, perMinute, burst))
              && result.value.keyPrefix == if Text.TrimSpace(keyPrefix) == "" then "i8sl:rate_limit" else keyPrefix
  {
    if Text.TrimSpace(addr) == "" {
      return Err("redis addr is required");
    }
    var prefix := keyPrefix;
    if Text.TrimSpace(keyPrefix) == "" {
      prefix := "i8sl:rate_limit";
    }
    var stateTTL := ComputeStateTTL(ttl, perMinute, burst);
    var limiter := new RedisLimiter(perMinute / 60.0, burst, stateTTL, prefix);
    return Ok(limiter);
  }

  // ---------------------------------------------------------------- when expiry is invisible

  /** The time an empty bucket takes to fill, in milliseconds. */
  function RefillMillis(perMinute: real, burst: int): real
    requires perMinute > 0.0
  {
    burst as real * 60_000.0 / perMinute
  }

  /** The whole-millisecond TTL handed to PEXPIRE. */
  function ExpiryMillis(ttl: int, perMinute: real, burst: int): int
    requires perMinute > 0.0
  {
    StateTTL(ttl, perMinute, burst) / NANOS_PER_MS
  }

  lemma CutTwice(x: real)
    ensures (x * 1_000_000.0).Floor / NANOS_PER_MS == x.Floor
  {
    var n := (x * 1_000_000.0).Floor;
    var q := n / NANOS_PER_MS;
    assert q * NANOS_PER_MS <= n < (q + 1) * NANOS_PER_MS;
    assert q as real <= x;
    assert n + 1 <= (q + 1) * NANOS_PER_MS;
    assert (n + 1) as real <= ((q + 1) * NANOS_PER_MS) as real == (q + 1) as real * 1_000_000.0;
    assert x < (q + 1) as real;
  }

  lemma RefillScales(perMinute: real, burst: int)
    requires perMinute > 0.0
    ensures burst as real / perMinute * 60.0 * 1_000_000_000.0 == RefillMillis(perMinute, burst) * 1_000_000.0
  {
    var b := burst as real / perMinute;
    assert burst as real * 60_000.0 / perMinute == b * 60_000.0;
  }

  lemma DivMonotone(a: int, b: int)
    ensures Max(a, b) / NANOS_PER_MS == Max(a / NANOS_PER_MS, b / NANOS_PER_MS)
  {
  }

  /** The expiry is the largest of the configured TTL, the refill time cut to a whole
      millisecond, and one minute. */
  lemma ExpiryIs(ttl: int, perMinute: real, burst: int)
    requires perMinute > 0.0
    ensures ExpiryMillis(ttl, perMinute, burst)
         == Max(Max(ttl / NANOS_PER_MS, RefillMillis(perMinute, burst).Floor), 60_000)
  {
    RefillScales(perMinute, burst);
    CutTwice(RefillMillis(perMinute, burst));
    DivMonotone(ttl, RefillDuration(perMinute, burst));
    DivMonotone(Max(ttl, RefillDuration(perMinute, burst)), MINUTE);
  }

  lemma RefillsWithin(perMinute: real, burst: int, gap: int)
    requires perMinute > 0.0
    ensures Credit(Configured(perMinute, burst), gap) * 60_000.0 == gap as real * perMinute
    ensures RefillMillis(perMinute, burst) * perMinute == burst as real * 60_000.0
    ensures Credit(Configured(perMinute, burst), gap) >= burst as real
            <==> gap as real >= RefillMillis(perMinute, burst)
  {
    CreditPerMinute(perMinute, burst, gap);
    QuotientTimes(burst as real * 60_000.0, perMinute);
    TimesPositive(gap as real, RefillMillis(perMinute, burst), perMinute);
  }

  lemma QuotientTimes(a: real, b: real)
    requires b > 0.0
    ensures a / b * b == a
  {
  }

  /** A bucket refills before its key can be dropped. */
  predicate ExpiryIsLongEnough(ttl: int, perMinute: real, burst: int, jitter: int)
    requires perMinute > 0.0
  {
    RefillMillis(perMinute, burst) <= (ExpiryMillis(ttl, perMinute, burst) + 1 - jitter) as real
  }

  lemma LongEnoughRefills(ttl: int, perMinute: real, burst: int, jitter: int)
    requires perMinute > 0.0
    ensures ExpiryIsLongEnough(ttl, perMinute, burst, jitter)
            <==> Credit(Configured(perMinute, burst), ExpiryMillis(ttl, perMinute, burst) + 1 - jitter) >= burst as real
  {
    RefillsWithin(perMinute, burst, ExpiryMillis(ttl, perMinute, burst) + 1 - jitter);
  }

  /** On clocks that keep step every configuration is long enough.  When they vary by a millisecond,
      those are whose refill time is whole milliseconds, or within the configured TTL or one minute. */
  lemma LongEnoughWithLittleJitter(ttl: int, perMinute: real, burst: int)
    requires perMinute > 0.0
    ensures ExpiryIsLongEnough(ttl, perMinute, burst, 0)
    ensures var refill := RefillMillis(perMinute, burst);
            ExpiryIsLongEnough(ttl, perMinute, burst, 1)
            <==> refill == refill.Floor as real || refill <= Max(ttl / NANOS_PER_MS, 60_000) as real
  {
    ExpiryIs(ttl, perMinute, burst);
  }

  /** One call of one key: what its caller's clock shows, and the server's when the script runs. */
  datatype Call = Call(now: int, server: int)

  function SkewOf(calls: seq<Call>): Skew {
    if calls == [] then Unseen
    else
      var c := calls[|calls| - 1];
      Seen(SkewOf(calls[..|calls| - 1]), c.server - c.now)
  }

  /** Runs of the script for one key, from the key space without it: the hash they leave, and the
      calls with their answers.  `expires` says whether the server honours deadlines. */
  function Script(lim: Limit, ttl: int, key: string, calls: seq<Call>, expires: bool): (Option<Hash>, seq<Entry>) {
    if calls == [] then (None, [])
    else
      var (hash, es) := Script(lim, ttl, key, calls[..|calls| - 1], expires);
      var c := calls[|calls| - 1];
      var found := if expires then Surviving(hash, c.server) else hash;
      var (after, admit) := ScriptStep(lim, ttl, found, c.now, c.server);
      (Some(after), es + [Entry(key, c.now, found != hash, admit)])
  }

  function ScriptAnswers(lim: Limit, ttl: int, key: string, calls: seq<Call>, expires: bool): seq<bool> {
    Answers(Script(lim, ttl, key, calls, expires).1)
  }

  lemma ScriptReflectsNext(
    lim: Limit, ttl: int, skew: Skew, key: string, hash: Option<Hash>, es: seq<Entry>, c: Call, expires: bool)
    requires KeyReflects(lim, ttl, skew, hash, es)
    ensures var found := if expires then Surviving(hash, c.server) else hash;
            var (after, admit) := ScriptStep(lim, ttl, found, c.now, c.server);
            KeyReflects(
              lim, ttl, Seen(skew, c.server - c.now), Some(after), es + [Entry(key, c.now, found != hash, admit)])
  {
    var found := if expires then Surviving(hash, c.server) else hash;
    assert BucketIn(found, c.now) == Found(lim, es, found != hash);
    var admit := Allows(lim, Found(lim, es, found != hash), c.now);
    KeyStep(lim, ttl, skew, hash, es, Entry(key, c.now, found != hash, admit), c.server);
  }

  /** Whatever calls a key gets, its runs of the script answer like a bucket of the key's own. */
  lemma {:induction false} ScriptReflects(lim: Limit, ttl: int, key: string, calls: seq<Call>, expires: bool)
    ensures var (hash, es) := Script(lim, ttl, key, calls, expires);
            KeyReflects(lim, ttl, SkewOf(calls), hash, es)
  {
    if calls != [] {
      var front, c := calls[..|calls| - 1], calls[|calls| - 1];
      var (hash, es) := Script(lim, ttl, key, front, expires);
      ScriptReflects(lim, ttl, key, front, expires);
      ScriptReflectsNext(lim, ttl, SkewOf(front), key, hash, es, c, expires);
    }
  }

  /** The deadline and the call that one more run of the script leaves behind. */
  lemma ScriptNext(lim: Limit, ttl: int, key: string, calls: seq<Call>, expires: bool)
    requires calls != []
    ensures var c := calls[|calls| - 1];
            var (hash, es) := Script(lim, ttl, key, calls[..|calls| - 1], expires);
            var (after, all) := Script(lim, ttl, key, calls, expires);
            && after.Some? && after.value.deadline == c.server + ttl
            && |all| == |es| + 1 && all[..|es|] == es && all[|es|].now == c.now
            && (all[|es|].gone <==> expires && hash.Some? && c.server > hash.value.deadline)
  {
    var es := Script(lim, ttl, key, calls[..|calls| - 1], expires).1;
    assert Script(lim, ttl, key, calls, expires).1[..|es|] == es;
  }

  /** A call finds the key dropped when it was idle for longer than the TTL on the server's clock. */
  predicate DropsIdle(ttl: int, calls: seq<Call>, es: seq<Entry>, expires: bool, i: nat)
    requires i < |calls| == |es|
  {
    && es[i].now == calls[i].now
    && (es[i].gone <==> expires && i > 0 && calls[i].server > calls[i - 1].server + ttl)
  }

  lemma {:induction false} ScriptForgets(lim: Limit, ttl: int, key: string, calls: seq<Call>, expires: bool)
    ensures var (hash, es) := Script(lim, ttl, key, calls, expires);
            && |es| == |calls|
            && (calls == [] ==> hash.None?)
            && (calls != [] ==> hash.Some? && hash.value.deadline == calls[|calls| - 1].server + ttl)
            && forall i :: 0 <= i < |calls| ==> DropsIdle(ttl, calls, es, expires, i)
  {
    if calls != [] {
      var front, last := calls[..|calls| - 1], |calls| - 1;
      ScriptForgets(lim, ttl, key, front, expires);
      ScriptNext(lim, ttl, key, calls, expires);
      var es := Script(lim, ttl, key, front, expires).1;
      var all := Script(lim, ttl, key, calls, expires).1;
      forall i | 0 <= i < |calls|
        ensures DropsIdle(ttl, calls, all, expires, i)
      {
        if i < last {
          assert DropsIdle(ttl, front, es, expires, i);
          assert all[i] == all[..last][i];
        }
      }
    }
  }

  /** No sequence of calls shows whether the server honours deadlines, as long as the clocks vary by
      no more than `jitter`. */
  ghost predicate ExpiryNeverShows(lim: Limit, ttl: int, jitter: int) {
    forall key, calls {:trigger ScriptAnswers(lim, ttl, key, calls, true)} :: Jitter(SkewOf(calls)) <= jitter ==>
      ScriptAnswers(lim, ttl, key, calls, true) == ScriptAnswers(lim, ttl, key, calls, false)
  }

  lemma KeptRequests(lim: Limit, ttl: int, key: string, calls: seq<Call>)
    ensures Requests(Script(lim, ttl, key, calls, false).1)
         == Remembering(Requests(Script(lim, ttl, key, calls, true).1))
  {
    var dropping := Script(lim, ttl, key, calls, true).1;
    var keeping := Script(lim, ttl, key, calls, false).1;
    ScriptForgets(lim, ttl, key, calls, true);
    ScriptForgets(lim, ttl, key, calls, false);
    forall i | 0 <= i < |calls|
      ensures Requests(keeping)[i] == Remembering(Requests(dropping))[i]
    {
      assert DropsIdle(ttl, calls, dropping, true, i) && DropsIdle(ttl, calls, keeping, false, i);
    }
  }

  lemma ExpiryHides(lim: Limit, ttl: int, key: string, calls: seq<Call>, jitter: nat)
    requires lim.perTick >= 0.0 && lim.burst >= 0 && jitter <= ttl + 1
    requires Credit(lim, ttl + 1 - jitter) >= lim.burst as real
    requires Jitter(SkewOf(calls)) <= jitter
    ensures ScriptAnswers(lim, ttl, key, calls, true) == ScriptAnswers(lim, ttl, key, calls, false)
  {
    var dropping := Script(lim, ttl, key, calls, true).1;
    var keeping := Script(lim, ttl, key, calls, false).1;
    ScriptReflects(lim, ttl, key, calls, true);
    ScriptReflects(lim, ttl, key, calls, false);
    KeptRequests(lim, ttl, key, calls);
    ForgettingInvisible(lim, Requests(dropping), Answers(dropping), ttl + 1 - jitter);
    GreedyIsUnique(lim, Requests(keeping), Answers(keeping), Answers(dropping));
  }

  /** A burst of calls, and another `gap` later, when the server's clock has run ahead. */
  function DrainCalls(burst: nat, gap: nat, jitter: nat): seq<Call> {
    seq(2 * burst, i => if i < burst then Call(0, 0) else Call(gap, gap + jitter))
  }

  lemma {:induction false} DrainSkew(burst: nat, gap: nat, jitter: nat, n: nat)
    requires n <= 2 * burst
    ensures SkewOf(DrainCalls(burst, gap, jitter)[..n])
         == if n == 0 then Unseen else if n <= burst then Between(0, 0) else Between(0, jitter)
  {
    if n > 0 {
      DrainSkew(burst, gap, jitter, n - 1);
      var calls := DrainCalls(burst, gap, jitter);
      assert calls[..n][..n - 1] == calls[..n - 1];
    }
  }

  lemma DrainRequests(lim: Limit, ttl: nat, key: string, gap: nat, jitter: nat)
    requires lim.burst >= 1 && gap + jitter > ttl
    ensures var calls := DrainCalls(lim.burst, gap, jitter);
            Requests(Script(lim, ttl, key, calls, true).1) == Drain(lim.burst, gap)
  {
    var calls := DrainCalls(lim.burst, gap, jitter);
    ScriptForgets(lim, ttl, key, calls, true);
    var es := Script(lim, ttl, key, calls, true).1;
    forall i | 0 <= i < 2 * lim.burst
      ensures Requests(es)[i] == Drain(lim.burst, gap)[i]
    {
      assert DropsIdle(ttl, calls, es, true, i);
    }
  }

  /** The calls that show an early drop: the second burst finds a full bucket although `gap` has
      not refilled it. */
  lemma ExpiryShows(lim: Limit, ttl: nat, key: string, gap: nat, jitter: nat)
    requires lim.burst >= 1 && Credit(lim, gap) < lim.burst as real && gap + jitter > ttl
    ensures var calls := DrainCalls(lim.burst, gap, jitter);
            && ScriptAnswers(lim, ttl, key, calls, true) == AllAdmitted(2 * lim.burst)
            && ScriptAnswers(lim, ttl, key, calls, false) != AllAdmitted(2 * lim.burst)
  {
    var calls := DrainCalls(lim.burst, gap, jitter);
    ScriptReflects(lim, ttl, key, calls, true);
    ScriptReflects(lim, ttl, key, calls, false);
    KeptRequests(lim, ttl, key, calls);
    DrainRequests(lim, ttl, key, gap, jitter);
    ForgettingVisible(lim, gap);
    var answers := Answers(Script(lim, ttl, key, calls, true).1);
    GreedyIsUnique(lim, Drain(lim.burst, gap), answers, AllAdmitted(2 * lim.burst));
  }

  /** No calls show that keys expire exactly when a bucket refills within the expiry and one
      millisecond, less the jitter of the clocks. */
  lemma ExpiryIsInvisibleIff(ttl: int, perMinute: real, burst: int, jitter: nat)
    requires perMinute > 0.0 && burst > 0
    ensures ExpiryNeverShows(Configured(perMinute, burst), ExpiryMillis(ttl, perMinute, burst), jitter)
            <==> ExpiryIsLongEnough(ttl, perMinute, burst, jitter)
  {
    var lim, expiry := Configured(perMinute, burst), ExpiryMillis(ttl, perMinute, burst);
    ExpiryIs(ttl, perMinute, burst);
    LongEnoughRefills(ttl, perMinute, burst, jitter);
    RefillIsPositive(perMinute, burst);
    if ExpiryIsLongEnough(ttl, perMinute, burst, jitter) {
      forall key, calls | Jitter(SkewOf(calls)) <= jitter
        ensures ScriptAnswers(lim, expiry, key, calls, true) == ScriptAnswers(lim, expiry, key, calls, false)
      {
        ExpiryHides(lim, expiry, key, calls, jitter);
      }
    } else {
      var gap := Positive(expiry + 1 - jitter);
      assert gap == 0 ==> Credit(lim, gap) == 0.0;
      ExpiryShows(lim, expiry, "", gap, jitter);
      DrainSkew(burst, gap, jitter, 2 * burst);
      var calls := DrainCalls(burst, gap, jitter);
      assert calls[..2 * burst] == calls;
      assert ScriptAnswers(lim, expiry, "", calls, true) != ScriptAnswers(lim, expiry, "", calls, false);
    }
  }

  lemma RefillIsPositive(perMinute: real, burst: int)
    requires perMinute > 0.0 && burst > 0
    ensures RefillMillis(perMinute, burst) > 0.0
  {
  }

  /** End to end for one key: across expiries and whatever other keys do, the script answers as
      the stateless window test does. */
  lemma ScriptDecidesByWindows(
    ttl: int, perMinute: real, burst: int, skew: Skew, db: map<string, Hash>, log: seq<Entry>, name: string)
    requires perMinute > 0.0 && burst > 0 && ExpiryIsLongEnough(ttl, perMinute, burst, Jitter(skew))
    requires Reflects(Configured(perMinute, burst), ExpiryMillis(ttl, perMinute, burst), skew, db, log)
    ensures var es := Of(log, name);
            WindowLimited(Configured(perMinute, burst), Remembering(Requests(es)), Answers(es))
  {
    var lim, expiry := Configured(perMinute, burst), ExpiryMillis(ttl, perMinute, burst);
    var es := Of(log, name);
    assert KeyReflects(lim, expiry, skew, Lookup(db, name), es);
    LongEnoughRefills(ttl, perMinute, burst, Jitter(skew));
    RefillIsPositive(perMinute, burst);
    ForgettingInvisible(lim, Requests(es), Answers(es), expiry + 1 - Jitter(skew));
    BucketDecidesByWindows(lim, Remembering(Requests(es)), Answers(es));
  }

  /** Any one name is admitted at most burst + rate * T times in any window of length T. */
  lemma AdmissionsOfName(
    ttl: int, perMinute: real, burst: int, skew: Skew, db: map<string, Hash>, log: seq<Entry>,
    name: string, from: int, to: int)
    requires perMinute > 0.0 && burst > 0 && from <= to
    requires ExpiryIsLongEnough(ttl, perMinute, burst, Jitter(skew))
    requires Reflects(Configured(perMinute, burst), ExpiryMillis(ttl, perMinute, burst), skew, db, log)
    requires Nondecreasing(log)
    ensures AllowedIn(log, name, from, to) as real <= burst as real + Credit(Configured(perMinute, burst), to - from)
  {
    var lim, expiry := Configured(perMinute, burst), ExpiryMillis(ttl, perMinute, burst);
    LongEnoughRefills(ttl, perMinute, burst, Jitter(skew));
    RefillIsPositive(perMinute, burst);
    assert KeyReflects(lim, expiry, skew, Lookup(db, name), Of(log, name));
    AdmissionsPerWindow(lim, log, name, expiry + 1 - Jitter(skew), from, to);
  }

  lemma CreditPerMinute(perMinute: real, burst: int, ticks: int)
    ensures Credit(Configured(perMinute, burst), ticks) == ticks as real * perMinute / 60_000.0
  {
  }

  /** What an expiry gives away: less than one millisecond's refill for every millisecond of
      jitter, and nothing on clocks that keep step. */
  lemma ExpiryGivesAway(ttl: int, perMinute: real, burst: int, jitter: nat, gap: nat)
    requires perMinute > 0.0 && burst > 0 && gap >= ExpiryMillis(ttl, perMinute, burst) + 1 - jitter
    ensures var over := OverCredit(Configured(perMinute, burst), gap);
            if jitter == 0 then over == 0.0 else over < jitter as real * perMinute / 60_000.0
  {
    ExpiryIs(ttl, perMinute, burst);
    RefillsWithin(perMinute, burst, gap);
    var r, c := RefillMillis(perMinute, burst), Credit(Configured(perMinute, burst), gap);
    Shortfall(burst as real, c, gap as real, r, perMinute, jitter as real);
    ShareOfMinute(burst as real - c, jitter as real * perMinute);
    if jitter > 0 {
      ShareIsPositive(jitter as real, perMinute);
    }
  }

  /** In every configuration, a request whose hash was dropped gains less than one millisecond's
      refill for every millisecond of jitter, and nothing on clocks that keep step. */
  lemma ExpiryOverCredits(ttl: int, perMinute: real, burst: int, jitter: nat, b: Bucket, now: int)
    requires perMinute > 0.0 && burst > 0 && b.tokens >= 0.0
    requires now - b.last >= ExpiryMillis(ttl, perMinute, burst) + 1 - jitter
    ensures var lim := Configured(perMinute, burst);
            var gain := Available(lim, None, now) - Available(lim, Some(b), now);
            if jitter == 0 then gain == 0.0 else gain < jitter as real * perMinute / 60_000.0
  {
    var gap := Positive(now - b.last);
    ExpiryGivesAway(ttl, perMinute, burst, jitter, gap);
    ExpiryGain(Configured(perMinute, burst), b, now, gap);
  }

  lemma ShareIsPositive(j: real, perMinute: real)
    requires j > 0.0 && perMinute > 0.0
    ensures j * perMinute / 60_000.0 > 0.0
  {
  }

  lemma Shortfall(b: real, c: real, g: real, r: real, p: real, j: real)
    requires c * 60_000.0 == g * p && r * p == b * 60_000.0 && r < g + j && p > 0.0
    ensures (b - c) * 60_000.0 < j * p
  {
    TimesPositive(r, g + j, p);
    assert (g + j) * p == g * p + j * p;
  }

  lemma TimesPositive(a: real, b: real, c: real)
    requires c > 0.0
    ensures a < b <==> a * c < b * c
  {
    assert (b - a) * c == b * c - a * c;
    if a < b {
      assert (b - a) * c > 0.0;
    } else {
      assert (a - b) * c >= 0.0;
    }
  }

  lemma ShareOfMinute(x: real, perMinute: real)
    requires x * 60_000.0 < perMinute
    ensures x < perMinute / 60_000.0
  {
  }
}
