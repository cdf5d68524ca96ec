/** The in-memory rate limiter: a map of clients, swept of idle ones on every call. */
module MemoryLimiter {
  import opened KeyedLog
  import opened Prelude
  import opened TokenBucket

  const NANOS_PER_SECOND := 1_000_000_000

  /** A client's token bucket and the time of its last call, in nanoseconds. */
  datatype Client = Client(limiter: Bucket, lastSeen: int)

  /** The bucket the configuration asks for, on a clock of nanoseconds. */
  function Configured(perMinute: real, burst: int): Limit {
    Limit(perMinute / 60.0 / NANOS_PER_SECOND as real, burst)
  }

  /** Clients that a sweep at `now` keeps. */
  function Swept(clients: map<string, Client>, now: int, ttl: int): map<string, Client> {
    map key | key in clients && now - clients[key].lastSeen <= ttl :: clients[key]
  }

  /** The bucket a call finds among the clients that are kept. */
  function BucketOf(clients: map<string, Client>, key: string): Option<Bucket> {
    if key in clients then Some(clients[key].limiter) else None
  }

  /** The clients after a call, and whether it is admitted. */
  function Served(lim: Limit, kept: map<string, Client>, key: string, now: int): (map<string, Client>, bool) {
    var held := BucketOf(kept, key);
    var admit := Allows(lim, held, now);
    (kept[key := Client(Spend(lim, held, now, admit), now)], admit)
  }

  /** What the limiter holds for a key agrees with the key's own calls `es`: the answers are those
      of a bucket of its own and, when the clock never ran backwards over the whole `log`, the
      bucket was dropped after exactly the gaps longer than the TTL. */
  ghost predicate KeyHeld(lim: Limit, ttl: int, held: Option<Client>, es: seq<Entry>, log: seq<Entry>) {
    && OwnBucket(lim, es)
    && (held.Some? ==> es != [] && held.value == Client(Latest(lim, es), Latest(lim, es).last))
    && (Nondecreasing(log) ==>
          && ForgetsExactlyAfter(Requests(es), ttl + 1)
          && (held.None? && es != [] ==> log != [] && log[|log| - 1].now - Latest(lim, es).last > ttl))
  }

  ghost predicate Reflects(lim: Limit, ttl: int, clients: map<string, Client>, log: seq<Entry>) {
    forall key {:trigger KeyHeld(lim, ttl, Lookup(clients, key), Of(log, key), log)} ::
      KeyHeld(lim, ttl, Lookup(clients, key), Of(log, key), log)
  }

  class MemoryLimiter {
    const limit: real     // tokens per second
    const burst: int
    const ttl: int        // nanoseconds

    var clients: map<string, Client>

    ghost var log: seq<Entry>
    ghost var asked: seq<string>    // the keys that clients gave

    constructor (perMinute: real, burst: int, ttl: int)
      ensures Rate() == Configured(perMinute, burst) && this.ttl == ttl
      ensures Valid() && log == [] && asked == [] && clients == map[]
    {
      limit := perMinute / 60.0;
      this.burst := burst;
      this.ttl := ttl;
      clients := map[];
      log := [];
      asked := [];
    }

    ghost function Rate(): Limit {
      Limit(limit / NANOS_PER_SECOND as real, burst)
    }

    ghost predicate Valid()
      reads this
    {
      && Reflects(Rate(), ttl, clients, log)
      && |asked| == |log| && forall i :: 0 <= i < |log| ==> log[i].key == Canonical(asked[i])
    }

    /** Deletes every client that has been idle for longer than the TTL. */
    method Cleanup(now: int)
      modifies this`clients
      ensures clients == Swept(old(clients), now, ttl)
    {
      var todo := clients.Keys;
      while todo != {}
        invariant todo <= old(clients).Keys
        invariant forall k :: k in clients <==>
                    k in old(clients) && (k in todo || now - old(clients)[k].lastSeen <= ttl)
        invariant forall k :: k in clients ==> clients[k] == old(clients)[k]
        decreases todo
      {
        var key :| key in todo;
        if key in clients && now - clients[key].lastSeen > ttl {
          clients := clients - {key};
        }
        todo := todo - {key};
      }
    }

    /** One call of the limiter by a client. */
    method Allow(key: string, now: int) returns (result: Result<bool, string>)
      requires Valid()
      modifies this
      ensures Valid() && asked == old(asked) + [key]
      ensures var name := Canonical(key);
              var swept := Swept(old(clients), now, ttl);
              var es := OfClient(old(log), old(asked), key);
              var gone := es != [] && name !in swept;
              && result == Ok(Allows(Rate(), Found(Rate(), es, gone), now))
              && log == old(log) + [Entry(name, now, gone, result.value)]
              && (clients, result.value) == Served(Rate(), swept, name, now)
    {
      var name := Canonical(key);
      assert KeyHeld(Rate(), ttl, Lookup(clients, name), Of(log, name), log);
      ClientsHaveNames(this, key);
      Cleanup(now);

      ghost var es := Of(log, name);
      ghost var gone := es != [] && name !in clients;
      var held := BucketOf(clients, name);
      assert held == Found(Rate(), es, gone);

      var lim := Limit(limit / NANOS_PER_SECOND as real, burst);
      var admit := Allows(lim, held, now);
      clients := clients[name := Client(Spend(lim, held, now, admit), now)];

      ghost var e := Entry(name, now, gone, admit);
      ReflectsStep(Rate(), ttl, old(clients), log, e, clients);
      log := log + [e];
      asked := asked + [key];
      return Ok(admit);
    }
  }

  lemma ClientsHaveNames(limiter: MemoryLimiter, client: string)
    requires limiter.Valid()
    ensures OfClient(limiter.log, limiter.asked, client) == Of(limiter.log, Canonical(client))
  {
    var log, asked := limiter.log, limiter.asked;
    forall i | 0 <= i < |log| ensures log[i].key == Canonical(client) <==> SameClient(asked[i], client) {
      CanonicalIff(asked[i], client);
    }
    OfClientIsOf(log, asked, client, Canonical(client));
  }

  /** However calls of clients interleave, each client is answered like a bucket of its own that is
      fed exactly the calls made under its key; when the clock never ran backwards, it was dropped
      after exactly the gaps longer than the TTL. */
  lemma ClientHasItsOwnBucket(limiter: MemoryLimiter, client: string)
    requires limiter.Valid()
    ensures var es := OfClient(limiter.log, limiter.asked, client);
            && OwnBucket(limiter.Rate(), es)
            && (Nondecreasing(limiter.log) ==> ForgetsExactlyAfter(Requests(es), limiter.ttl + 1))
  {
    var name := Canonical(client);
    ClientsHaveNames(limiter, client);
    assert KeyHeld(limiter.Rate(), limiter.ttl, Lookup(limiter.clients, name), Of(limiter.log, name), limiter.log);
  }

  lemma OrderedFront(log: seq<Entry>, e: Entry)
    requires Nondecreasing(log + [e])
    ensures Nondecreasing(log)
    ensures log != [] ==> log[|log| - 1].now <= e.now
  {
    var all := log + [e];
    forall i, j | 0 <= i <= j < |log|
      ensures log[i].now <= log[j].now
    {
      assert all[i].now <= all[j].now;
    }
    if log != [] {
      assert all[|log| - 1].now <= all[|log|].now;
    }
  }

  /** A sweep treats an idle key as if it had been dropped at that moment. */
  lemma KeySwept(lim: Limit, ttl: int, held: Option<Client>, es: seq<Entry>, log: seq<Entry>, e: Entry)
    requires KeyHeld(lim, ttl, held, es, log)
    ensures var kept := if held.Some? && e.now - held.value.lastSeen <= ttl then held else None;
            KeyHeld(lim, ttl, kept, es, log + [e])
  {
    if Nondecreasing(log + [e]) {
      OrderedFront(log, e);
    }
  }

  /** The called key: its bucket is found unless it was idle for longer than the TTL. */
  lemma KeyCalled(lim: Limit, ttl: int, held: Option<Client>, es: seq<Entry>, log: seq<Entry>, e: Entry)
    requires KeyHeld(lim, ttl, held, es, log)
    requires e.gone <==> es != [] && !(held.Some? && e.now - held.value.lastSeen <= ttl)
    requires e.allowed <==> Allows(lim, Found(lim, es, e.gone), e.now)
    ensures var b := Spend(lim, Found(lim, es, e.gone), e.now, e.allowed);
            KeyHeld(lim, ttl, Some(Client(b, e.now)), es + [e], log + [e])
  {
    OwnBucketAppend(lim, es, e);
    if Nondecreasing(log + [e]) {
      OrderedFront(log, e);
      var rs := Requests(es + [e]);
      forall i | 0 <= i < |rs|
        ensures rs[i].forget <==> i > 0 && rs[i].now - rs[i - 1].now >= ttl + 1
      {
        if i < |es| {
          assert rs[i] == Requests(es)[i];
          assert i > 0 ==> rs[i - 1] == Requests(es)[i - 1];
        } else if i > 0 {
          assert rs[i - 1].now == Latest(lim, es).last;
        }
      }
    }
  }

  lemma ReflectsStep(
    lim: Limit, ttl: int, clients: map<string, Client>, log: seq<Entry>, e: Entry, after: map<string, Client>)
    requires Reflects(lim, ttl, clients, log)
    requires var es := Of(log, e.key);
             && (e.gone <==> es != [] && e.key !in Swept(clients, e.now, ttl))
             && (e.allowed <==> Allows(lim, Found(lim, es, e.gone), e.now))
             && after == Swept(clients, e.now, ttl)[
                  e.key := Client(Spend(lim, Found(lim, es, e.gone), e.now, e.allowed), e.now)]
    ensures Reflects(lim, ttl, after, log + [e])
  {
    forall key
      ensures KeyHeld(lim, ttl, Lookup(after, key), Of(log + [e], key), log + [e])
    {
      OfAppend(log, e, key);
      var held := Lookup(clients, key);
      assert KeyHeld(lim, ttl, held, Of(log, key), log);
      if key == e.key {
        KeyCalled(lim, ttl, held, Of(log, key), log, e);
      } else {
        KeySwept(lim, ttl, held, Of(log, key), log, e);
      }
    }
  }

  // ---------------------------------------------------------------- what clients can rely on

  /** Keys do not interfere: however calls of different keys interleave, with a sweep of all
      clients on every call, a key's answers are those of a bucket that only it uses and that is
      never evicted, when the TTL refills a bucket. */
  lemma KeysDoNotInterfere(lim: Limit, ttl: nat, clients: map<string, Client>, log: seq<Entry>, key: string)
    requires Reflects(lim, ttl, clients, log) && Nondecreasing(log)
    requires lim.perTick >= 0.0 && lim.burst >= 0 && Credit(lim, ttl + 1) >= lim.burst as real
    ensures var es := Of(log, key);
            Greedy(lim, Remembering(Requests(es)), Answers(es))
  {
    assert KeyHeld(lim, ttl, Lookup(clients, key), Of(log, key), log);
    ForgettingInvisible(lim, Requests(Of(log, key)), Answers(Of(log, key)), ttl + 1);
  }

  /** With no condition on the TTL, a key's admissions in any window of length T stay within
      burst * (1 + floor(T / TTL)) + rate * T. */
  lemma AdmissionsDespiteSweeps(
    lim: Limit, ttl: nat, clients: map<string, Client>, log: seq<Entry>, key: string, from: int, to: int)
    requires Reflects(lim, ttl, clients, log) && Nondecreasing(log)
    requires lim.perTick >= 0.0 && lim.burst >= 0 && ttl > 0 && from <= to
    ensures AllowedIn(log, key, from, to) as real
         <= (lim.burst * (1 + (to - from) / ttl)) as real + Credit(lim, to - from)
  {
    assert KeyHeld(lim, ttl, Lookup(clients, key), Of(log, key), log);
    AdmissionsPerWindowForgetting(lim, log, key, ttl, from, to);
  }

  // ---------------------------------------------------------------- when the sweep is invisible

  datatype Call = Call(key: string, now: int)

  /** Calls answered one after the other, from no clients; `sweeps` says whether idle clients are
      evicted. */
  function Run(lim: Limit, ttl: int, calls: seq<Call>, sweeps: bool): (map<string, Client>, seq<Entry>) {
    if calls == [] then (map[], [])
    else
      var (clients, log) := Run(lim, ttl, calls[..|calls| - 1], sweeps);
      var c := calls[|calls| - 1];
      var kept := if sweeps then Swept(clients, c.now, ttl) else clients;
      var (after, admit) := Served(lim, kept, c.key, c.now);
      (after, log + [Entry(c.key, c.now, Of(log, c.key) != [] && c.key !in kept, admit)])
  }

  function RunAnswers(lim: Limit, ttl: int, calls: seq<Call>, sweeps: bool): seq<bool> {
    Answers(Run(lim, ttl, calls, sweeps).1)
  }

  ghost predicate InOrder(calls: seq<Call>) {
    forall i, j :: 0 <= i <= j < |calls| ==> calls[i].now <= calls[j].now
  }

  lemma {:induction false} RunReflects(lim: Limit, ttl: int, calls: seq<Call>)
    ensures var (clients, log) := Run(lim, ttl, calls, true);
            Reflects(lim, ttl, clients, log)
  {
    if calls == [] {
      forall key ensures KeyHeld(lim, ttl, Lookup(map[], key), Of([], key), []) {
      }
    } else {
      var (clients, log) := Run(lim, ttl, calls[..|calls| - 1], true);
      RunReflects(lim, ttl, calls[..|calls| - 1]);
      ReflectsCall(lim, ttl, clients, log, calls[|calls| - 1]);
    }
  }

  lemma ReflectsCall(lim: Limit, ttl: int, clients: map<string, Client>, log: seq<Entry>, c: Call)
    requires Reflects(lim, ttl, clients, log)
    ensures var kept := Swept(clients, c.now, ttl);
            var (after, admit) := Served(lim, kept, c.key, c.now);
            Reflects(lim, ttl, after, log + [Entry(c.key, c.now, Of(log, c.key) != [] && c.key !in kept, admit)])
  {
    var kept := Swept(clients, c.now, ttl);
    var (after, admit) := Served(lim, kept, c.key, c.now);
    var e := Entry(c.key, c.now, Of(log, c.key) != [] && c.key !in kept, admit);
    assert KeyHeld(lim, ttl, Lookup(clients, c.key), Of(log, c.key), log);
    assert BucketOf(kept, c.key) == Found(lim, Of(log, c.key), e.gone);
    ReflectsStep(lim, ttl, clients, log, e, after);
  }

  /** A key that is never evicted. */
  ghost predicate KeyKept(lim: Limit, held: Option<Client>, es: seq<Entry>) {
    && OwnBucket(lim, es) && (forall i :: 0 <= i < |es| ==> !es[i].gone)
    && held == if es == [] then None else Some(Client(Latest(lim, es), Latest(lim, es).last))
  }

  lemma KeptNext(lim: Limit, held: Option<Client>, es: seq<Entry>, e: Entry)
    requires KeyKept(lim, held, es) && !e.gone
    requires e.allowed <==> Allows(lim, Found(lim, es, false), e.now)
    ensures KeyKept(lim, Some(Client(Spend(lim, Found(lim, es, false), e.now, e.allowed), e.now)), es + [e])
  {
    OwnBucketAppend(lim, es, e);
  }

  lemma KeptCall(lim: Limit, clients: map<string, Client>, log: seq<Entry>, c: Call, key: string)
    requires KeyKept(lim, Lookup(clients, key), Of(log, key))
    ensures var (after, admit) := Served(lim, clients, c.key, c.now);
            var e := Entry(c.key, c.now, Of(log, c.key) != [] && c.key !in clients, admit);
            KeyKept(lim, Lookup(after, key), Of(log + [e], key))
  {
    var (after, admit) := Served(lim, clients, c.key, c.now);
    var es := Of(log, key);
    var e := Entry(c.key, c.now, Of(log, c.key) != [] && c.key !in clients, admit);
    OfAppend(log, e, key);
    if c.key == key {
      assert BucketOf(clients, key) == Found(lim, es, false);
      KeptNext(lim, Lookup(clients, key), es, e);
    } else {
      assert Lookup(after, key) == Lookup(clients, key);
    }
  }

  lemma {:induction false} RunKeeps(lim: Limit, ttl: int, calls: seq<Call>, key: string)
    ensures var (clients, log) := Run(lim, ttl, calls, false);
            KeyKept(lim, Lookup(clients, key), Of(log, key))
  {
    if calls != [] {
      var (clients, log) := Run(lim, ttl, calls[..|calls| - 1], false);
      RunKeeps(lim, ttl, calls[..|calls| - 1], key);
      KeptCall(lim, clients, log, calls[|calls| - 1], key);
    }
  }

  /** The log names the calls. */
  lemma {:induction false} RunNames(lim: Limit, ttl: int, calls: seq<Call>, sweeps: bool)
    ensures var log := Run(lim, ttl, calls, sweeps).1;
            && |log| == |calls|
            && forall i :: 0 <= i < |calls| ==> log[i].key == calls[i].key && log[i].now == calls[i].now
  {
    if calls != [] {
      RunNames(lim, ttl, calls[..|calls| - 1], sweeps);
    }
  }

  lemma {:induction false} SameRequests(a: seq<Entry>, b: seq<Entry>, key: string)
    requires |a| == |b| && forall i :: 0 <= i < |a| ==> a[i].key == b[i].key && a[i].now == b[i].now
    ensures |Of(a, key)| == |Of(b, key)|
    ensures forall i :: 0 <= i < |Of(a, key)| ==> Of(a, key)[i].now == Of(b, key)[i].now
  {
    if a != [] {
      SameRequests(a[..|a| - 1], b[..|b| - 1], key);
    }
  }

  /** Every key is answered the same with and without sweeps when just over a TTL refills it. */
  lemma KeyAnswersAgree(lim: Limit, ttl: nat, calls: seq<Call>, key: string)
    requires lim.perTick >= 0.0 && lim.burst >= 0 && Credit(lim, ttl + 1) >= lim.burst as real && InOrder(calls)
    ensures Answers(Of(Run(lim, ttl, calls, true).1, key)) == Answers(Of(Run(lim, ttl, calls, false).1, key))
  {
    var (clients, swept) := Run(lim, ttl, calls, true);
    var kept := Run(lim, ttl, calls, false).1;
    RunNames(lim, ttl, calls, true);
    RunNames(lim, ttl, calls, false);
    RunReflects(lim, ttl, calls);
    RunKeeps(lim, ttl, calls, key);
    KeysDoNotInterfere(lim, ttl, clients, swept, key);
    SameRequests(swept, kept, key);
    var es, fs := Of(swept, key), Of(kept, key);
    assert Requests(fs) == Remembering(Requests(es));
    GreedyIsUnique(lim, Requests(fs), Answers(es), Answers(fs));
  }

  lemma {:induction false} SweepsHide(lim: Limit, ttl: nat, calls: seq<Call>)
    requires lim.perTick >= 0.0 && lim.burst >= 0 && Credit(lim, ttl + 1) >= lim.burst as real && InOrder(calls)
    ensures RunAnswers(lim, ttl, calls, true) == RunAnswers(lim, ttl, calls, false)
  {
    if calls != [] {
      var front, c := calls[..|calls| - 1], calls[|calls| - 1];
      SweepsHide(lim, ttl, front);
      KeyAnswersAgree(lim, ttl, calls, c.key);
      LastAnswer(lim, ttl, calls, true);
      LastAnswer(lim, ttl, calls, false);
    }
  }

  lemma RunNext(lim: Limit, ttl: int, calls: seq<Call>, sweeps: bool) returns (e: Entry)
    requires calls != []
    ensures e.key == calls[|calls| - 1].key
    ensures Run(lim, ttl, calls, sweeps).1 == Run(lim, ttl, calls[..|calls| - 1], sweeps).1 + [e]
  {
    var log := Run(lim, ttl, calls, sweeps).1;
    e := log[|log| - 1];
  }

  lemma LastAnswer(lim: Limit, ttl: int, calls: seq<Call>, sweeps: bool)
    requires calls != []
    ensures var answers := RunAnswers(lim, ttl, calls, sweeps);
            var own := Answers(Of(Run(lim, ttl, calls, sweeps).1, calls[|calls| - 1].key));
            && own != [] && answers == RunAnswers(lim, ttl, calls[..|calls| - 1], sweeps) + [own[|own| - 1]]
  {
    var e := RunNext(lim, ttl, calls, sweeps);
    AnswersAppend(Run(lim, ttl, calls[..|calls| - 1], sweeps).1, e);
  }

  lemma AnswersAppend(log: seq<Entry>, e: Entry)
    ensures Answers(log + [e]) == Answers(log) + [e.allowed]
    ensures var own := Answers(Of(log + [e], e.key));
            own != [] && own[|own| - 1] == e.allowed
  {
    OfAppend(log, e, e.key);
  }

  /** One client drains its bucket and comes back just over a TTL later. */
  function DrainCalls(burst: nat, ttl: nat): seq<Call> {
    seq(2 * burst, i => Call("unknown", if i < burst then 0 else ttl + 1))
  }

  lemma {:induction false} OfOnly(log: seq<Entry>, key: string)
    requires forall i :: 0 <= i < |log| ==> log[i].key == key
    ensures Of(log, key) == log
  {
    if log != [] {
      OfOnly(log[..|log| - 1], key);
    }
  }

  /** Calls of one client at the times of a drain. */
  lemma DrainTimes(log: seq<Entry>, burst: nat, ttl: nat)
    requires burst >= 1 && |log| == 2 * burst
    requires forall i :: 0 <= i < |log| ==> log[i].now == DrainCalls(burst, ttl)[i].now
    ensures ForgetsExactlyAfter(Requests(log), ttl + 1) ==> Requests(log) == Drain(burst, ttl + 1)
    ensures (forall i :: 0 <= i < |log| ==> !log[i].gone) ==> Requests(log) == Remembering(Drain(burst, ttl + 1))
  {
    var rs := Requests(log);
    if ForgetsExactlyAfter(rs, ttl + 1) {
      forall i | 0 <= i < |rs| ensures rs[i] == Drain(burst, ttl + 1)[i] {
        assert rs[i].now == DrainCalls(burst, ttl)[i].now;
        assert i > 0 ==> rs[i - 1].now == DrainCalls(burst, ttl)[i - 1].now;
      }
    }
  }

  lemma DrainIsSwept(lim: Limit, ttl: nat)
    requires lim.burst >= 1
    ensures Greedy(lim, Drain(lim.burst, ttl + 1), RunAnswers(lim, ttl, DrainCalls(lim.burst, ttl), true))
  {
    var calls := DrainCalls(lim.burst, ttl);
    var (clients, log) := Run(lim, ttl, calls, true);
    RunReflects(lim, ttl, calls);
    RunNames(lim, ttl, calls, true);
    OfOnly(log, "unknown");
    assert KeyHeld(lim, ttl, Lookup(clients, "unknown"), Of(log, "unknown"), log);
    DrainTimes(log, lim.burst, ttl);
  }

  lemma DrainIsKept(lim: Limit, ttl: nat)
    requires lim.burst >= 1
    ensures Greedy(
              lim, Remembering(Drain(lim.burst, ttl + 1)), RunAnswers(lim, ttl, DrainCalls(lim.burst, ttl), false))
  {
    var calls := DrainCalls(lim.burst, ttl);
    var log := Run(lim, ttl, calls, false).1;
    RunKeeps(lim, ttl, calls, "unknown");
    RunNames(lim, ttl, calls, false);
    OfOnly(log, "unknown");
    DrainTimes(log, lim.burst, ttl);
  }

  /** Otherwise these calls show the sweep: they are all admitted, and would not be without it. */
  lemma SweepShows(lim: Limit, ttl: nat)
    requires lim.burst >= 1 && Credit(lim, ttl + 1) < lim.burst as real
    ensures InOrder(DrainCalls(lim.burst, ttl))
    ensures RunAnswers(lim, ttl, DrainCalls(lim.burst, ttl), true) == AllAdmitted(2 * lim.burst)
    ensures RunAnswers(lim, ttl, DrainCalls(lim.burst, ttl), false) != AllAdmitted(2 * lim.burst)
  {
    ForgettingVisible(lim, ttl + 1);
    DrainIsSwept(lim, ttl);
    DrainIsKept(lim, ttl);
    var answers := RunAnswers(lim, ttl, DrainCalls(lim.burst, ttl), true);
    GreedyIsUnique(lim, Drain(lim.burst, ttl + 1), answers, AllAdmitted(2 * lim.burst));
  }

  /** No calls of any clients, under a clock that does not run backwards, show that idle clients are
      evicted. */
  ghost predicate SweepsNeverShow(lim: Limit, ttl: int) {
    forall calls {:trigger RunAnswers(lim, ttl, calls, true)} :: InOrder(calls) ==>
      RunAnswers(lim, ttl, calls, true) == RunAnswers(lim, ttl, calls, false)
  }

  /** The sweep is invisible exactly when just over a TTL refills a bucket. */
  lemma SweepIsInvisibleIff(perMinute: real, burst: int, ttl: nat)
    requires perMinute > 0.0 && burst > 0
    ensures SweepsNeverShow(Configured(perMinute, burst), ttl)
            <==> (ttl + 1) as real * perMinute >= burst as real * 60_000_000_000.0
  {
    var lim := Configured(perMinute, burst);
    assert Credit(lim, ttl + 1) * 60_000_000_000.0 == (ttl + 1) as real * perMinute;
    if Credit(lim, ttl + 1) >= burst as real {
      forall calls | InOrder(calls) ensures RunAnswers(lim, ttl, calls, true) == RunAnswers(lim, ttl, calls, false) {
        SweepsHide(lim, ttl, calls);
      }
    } else {
      SweepShows(lim, ttl);
      var calls := DrainCalls(burst, ttl);
      assert RunAnswers(lim, ttl, calls, true) != RunAnswers(lim, ttl, calls, false);
    }
  }
}
