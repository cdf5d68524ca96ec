/** Histories of a limiter that serves many keys, and the part each key sees. */
module KeyedLog {
  import opened TokenBucket
  import opened Prelude

  /** One answered call: `gone` says that the key had state which the backend dropped first. */
  datatype Entry = Entry(key: string, now: int, gone: bool, allowed: bool)

  /** Calls without a key share one. */
  function Canonical(key: string): string {
    if key == "" then "unknown" else key
  }

  /** Two keys that clients may give stand for one client: only an absent key and "unknown" do. */
  predicate SameClient(a: string, b: string) {
    a == b || (a == "" && b == "unknown") || (a == "unknown" && b == "")
  }

  lemma CanonicalIff(a: string, b: string)
    ensures Canonical(a) == Canonical(b) <==> SameClient(a, b)
    ensures a != "" ==> Canonical(a) == a
  {
  }

  /** The calls that a client has made, when `asked` has the key that each call was made under. */
  function OfClient(log: seq<Entry>, asked: seq<string>, client: string): (es: seq<Entry>)
    requires |log| == |asked|
  {
    if log == [] then []
    else
      var n := |log| - 1;
      var rest := OfClient(log[..n], asked[..n], client);
      if SameClient(asked[n], client) then rest + [log[n]] else rest
  }

  /** When calls are recorded under names that tell clients apart, the calls of a client are those
      under its name. */
  lemma {:induction false} OfClientIsOf(log: seq<Entry>, asked: seq<string>, client: string, name: string)
    requires |log| == |asked|
    requires forall i :: 0 <= i < |log| ==> (log[i].key == name <==> SameClient(asked[i], client))
    ensures OfClient(log, asked, client) == Of(log, name)
  {
    if log != [] {
      OfClientIsOf(log[..|log| - 1], asked[..|log| - 1], client, name);
    }
  }

  lemma OfClientAppend(log: seq<Entry>, asked: seq<string>, e: Entry, key: string, client: string)
    requires |log| == |asked|
    ensures OfClient(log + [e], asked + [key], client)
         == if SameClient(key, client) then OfClient(log, asked, client) + [e] else OfClient(log, asked, client)
  {
    assert (log + [e])[..|log|] == log && (asked + [key])[..|log|] == asked;
  }

  /** The calls of one key, in order. */
  function Of(log: seq<Entry>, key: string): (es: seq<Entry>)
    ensures forall i :: 0 <= i < |es| ==> es[i].key == key
  {
    if log == [] then []
    else
      var rest := Of(log[..|log| - 1], key);
      if log[|log| - 1].key == key then rest + [log[|log| - 1]] else rest
  }

  function Requests(es: seq<Entry>): (rs: seq<Request>)
    ensures |rs| == |es| && forall i :: 0 <= i < |es| ==> rs[i] == Request(es[i].now, es[i].gone)
  {
    seq(|es|, i requires 0 <= i < |es| => Request(es[i].now, es[i].gone))
  }

  function Answers(es: seq<Entry>): (ds: seq<bool>)
    ensures |ds| == |es| && forall i :: 0 <= i < |es| ==> ds[i] == es[i].allowed
  {
    seq(|es|, i requires 0 <= i < |es| => es[i].allowed)
  }

  ghost predicate Nondecreasing(log: seq<Entry>) {
    forall i, j :: 0 <= i <= j < |log| ==> log[i].now <= log[j].now
  }

  /** What a key's calls amount to: the answers are those of one bucket of its own. */
  ghost predicate OwnBucket(lim: Limit, es: seq<Entry>) {
    Greedy(lim, Requests(es), Answers(es))
  }

  /** The bucket after a key's last call. */
  function Latest(lim: Limit, es: seq<Entry>): Bucket
    requires es != []
  {
    Left(lim, Requests(es), Answers(es), |es| - 1)
  }

  /** The bucket the next call finds. */
  function Found(lim: Limit, es: seq<Entry>, gone: bool): Option<Bucket> {
    if es == [] || gone then None else Some(Latest(lim, es))
  }

  lemma OfAppend(log: seq<Entry>, e: Entry, key: string)
    ensures Of(log + [e], key) == if e.key == key then Of(log, key) + [e] else Of(log, key)
  {
    assert (log + [e])[..|log|] == log;
  }

  /** Earlier requests do not depend on later ones. */
  lemma {:induction false} LevelIsLocal(
    lim: Limit, rs: seq<Request>, ds: seq<bool>, r: Request, d: bool, n: nat)
    requires n < |rs| == |ds|
    ensures Level(lim, rs + [r], ds + [d], n) == Level(lim, rs, ds, n)
    ensures Left(lim, rs + [r], ds + [d], n) == Left(lim, rs, ds, n)
  {
    if n > 0 {
      LevelIsLocal(lim, rs, ds, r, d, n - 1);
    }
  }

  /** Answering the next call from the stored bucket extends a key's history by one bucket step. */
  lemma OwnBucketAppend(lim: Limit, es: seq<Entry>, e: Entry)
    requires OwnBucket(lim, es)
    requires e.allowed <==> Allows(lim, Found(lim, es, e.gone), e.now)
    ensures OwnBucket(lim, es + [e])
    ensures Latest(lim, es + [e]) == Spend(lim, Found(lim, es, e.gone), e.now, e.allowed)
  {
    var rs, ds := Requests(es), Answers(es);
    var r := Request(e.now, e.gone);
    assert Requests(es + [e]) == rs + [r];
    assert Answers(es + [e]) == ds + [e.allowed];
    forall n | 0 <= n < |rs|
      ensures Level(lim, rs + [r], ds + [e.allowed], n) == Level(lim, rs, ds, n)
    {
      LevelIsLocal(lim, rs, ds, r, e.allowed, n);
    }
    if es != [] {
      LevelIsLocal(lim, rs, ds, r, e.allowed, |es| - 1);
    }
    assert Held(lim, rs + [r], ds + [e.allowed], |es|) == Found(lim, es, e.gone);
  }

  lemma {:induction false} OfUpTo(log: seq<Entry>, key: string, t: int)
    requires forall i :: 0 <= i < |log| ==> log[i].now <= t
    ensures forall i :: 0 <= i < |Of(log, key)| ==> Of(log, key)[i].now <= t
  {
    if log != [] {
      OfUpTo(log[..|log| - 1], key, t);
    }
  }

  lemma {:induction false} OfNondecreasing(log: seq<Entry>, key: string)
    requires Nondecreasing(log)
    ensures Nondecreasing(Of(log, key))
  {
    if log != [] {
      var front, last := log[..|log| - 1], log[|log| - 1];
      OfNondecreasing(front, key);
      OfUpTo(front, key, last.now);
    }
  }

  // ---------------------------------------------------------------- windows of wall-clock time

  /** Calls of `key` admitted at times from `from` to `to`. */
  function AllowedIn(log: seq<Entry>, key: string, from: int, to: int): nat {
    if log == [] then 0
    else
      var e := log[|log| - 1];
      AllowedIn(log[..|log| - 1], key, from, to)
      + (if e.key == key && e.allowed && from <= e.now <= to then 1 else 0)
  }

  /** Where in the log those calls are. */
  ghost function AllowedAt(log: seq<Entry>, key: string, from: int, to: int): set<int> {
    set i | 0 <= i < |log| && log[i].key == key && log[i].allowed && from <= log[i].now <= to
  }

  lemma AllowedAtNext(log: seq<Entry>, key: string, from: int, to: int)
    requires log != []
    ensures var n := |log| - 1;
            AllowedAt(log, key, from, to)
            == AllowedAt(log[..n], key, from, to)
               + (if log[n].key == key && log[n].allowed && from <= log[n].now <= to then {n} else {})
  {
  }

  lemma {:induction false} AllowedInCounts(log: seq<Entry>, key: string, from: int, to: int)
    ensures AllowedIn(log, key, from, to) == |AllowedAt(log, key, from, to)|
  {
    if log != [] {
      AllowedInCounts(log[..|log| - 1], key, from, to);
      AllowedAtNext(log, key, from, to);
    }
  }

  lemma {:induction false} AllowedInOf(log: seq<Entry>, key: string, from: int, to: int)
    ensures AllowedIn(log, key, from, to) == AllowedIn(Of(log, key), key, from, to)
  {
    if log != [] {
      var front, last := log[..|log| - 1], log[|log| - 1];
      AllowedInOf(front, key, from, to);
      if last.key == key {
        assert (Of(front, key) + [last])[..|Of(front, key)|] == Of(front, key);
      }
    }
  }

  lemma {:induction false} AdmittedIsLocal(ds: seq<bool>, d: bool, k: nat, n: nat)
    requires k <= n <= |ds|
    ensures Admitted(ds + [d], k, n) == Admitted(ds, k, n)
  {
    if k < n {
      AdmittedIsLocal(ds, d, k, n - 1);
    }
  }

  /** In time order, the calls of a window of time are consecutive. */
  lemma {:induction false} WindowIsConsecutive(es: seq<Entry>, key: string, from: int, to: int)
    returns (k: nat, n: nat)
    requires Nondecreasing(es) && forall i :: 0 <= i < |es| ==> es[i].key == key
    ensures k <= n <= |es|
    ensures n < |es| ==> es[n].now > to
    ensures forall i :: k <= i < n ==> from <= es[i].now <= to
    ensures AllowedIn(es, key, from, to) == Admitted(Answers(es), k, n)
  {
    if es == [] {
      k, n := 0, 0;
    } else {
      var front, e := es[..|es| - 1], es[|es| - 1];
      k, n := WindowIsConsecutive(front, key, from, to);
      assert Answers(es) == Answers(front) + [e.allowed];
      AdmittedIsLocal(Answers(front), e.allowed, k, n);
      assert forall i :: 0 <= i < |front| ==> front[i].now <= e.now;
      if from <= e.now <= to {
        n := n + 1;
      } else if e.now < from {
        k, n := |es|, |es|;
      }
    }
  }

  lemma {:induction false} ElapsedInOrder(es: seq<Entry>, k: nat, n: nat)
    requires k <= n < |es| && Nondecreasing(es)
    ensures Elapsed(Requests(es), k, n) == es[n].now - es[k].now
  {
    if k < n {
      ElapsedInOrder(es, k, n - 1);
      assert es[n - 1].now <= es[n].now;
    }
  }

  lemma WindowSpan(es: seq<Entry>, k: nat, n: nat, from: int, to: int)
    requires k < n <= |es| && Nondecreasing(es)
    requires from <= es[k].now && es[n - 1].now <= to
    ensures Elapsed(Requests(es), k, n - 1) <= to - from
  {
    ElapsedInOrder(es, k, n - 1);
  }

  lemma WindowAsRequests(log: seq<Entry>, key: string, from: int, to: int) returns (k: nat, n: nat)
    requires Nondecreasing(log)
    ensures k <= n <= |Of(log, key)|
    ensures AllowedIn(log, key, from, to) == Admitted(Answers(Of(log, key)), k, n)
    ensures k < n ==> Elapsed(Requests(Of(log, key)), k, n - 1) <= to - from
  {
    var es := Of(log, key);
    AllowedInOf(log, key, from, to);
    OfNondecreasing(log, key);
    k, n := WindowIsConsecutive(es, key, from, to);
    if k < n {
      WindowSpan(es, k, n, from, to);
    }
  }

  /** A key with a bucket of its own, forgotten only after gaps that refill it, is admitted at
      most burst + rate * T times in any window of length T. */
  lemma AdmissionsPerWindow(lim: Limit, log: seq<Entry>, key: string, gap: nat, from: int, to: int)
    requires lim.perTick >= 0.0 && lim.burst >= 0 && from <= to
    requires Nondecreasing(log) && OwnBucket(lim, Of(log, key))
    requires ForgetsAfter(Requests(Of(log, key)), gap) && Credit(lim, gap) >= lim.burst as real
    ensures AllowedIn(log, key, from, to) as real <= lim.burst as real + Credit(lim, to - from)
  {
    var k, n := WindowAsRequests(log, key, from, to);
    var es := Of(log, key);
    GreedyIsFeasible(lim, Requests(es), Answers(es));
    if k < n {
      AdmissionsWithRefill(lim, Requests(es), Answers(es), gap, k, n - 1, to - from);
    } else {
      CreditNonnegative(lim, to - from);
    }
  }

  /** Without that condition, every whole gap in the window may add one burst. */
  lemma AdmissionsPerWindowForgetting(
    lim: Limit, log: seq<Entry>, key: string, gap: nat, from: int, to: int)
    requires lim.perTick >= 0.0 && lim.burst >= 0 && from <= to && gap >= 1
    requires Nondecreasing(log) && OwnBucket(lim, Of(log, key))
    requires ForgetsAfter(Requests(Of(log, key)), gap)
    ensures AllowedIn(log, key, from, to) as real
         <= (lim.burst * (1 + (to - from) / gap)) as real + Credit(lim, to - from)
  {
    var k, n := WindowAsRequests(log, key, from, to);
    var es := Of(log, key);
    GreedyIsFeasible(lim, Requests(es), Answers(es));
    if k < n {
      AdmissionsWithForgetting(lim, Requests(es), Answers(es), gap, k, n - 1, to - from);
    } else {
      AllowanceNonnegative(lim, to - from, gap);
    }
  }

  lemma AllowanceNonnegative(lim: Limit, t: nat, gap: nat)
    requires lim.perTick >= 0.0 && lim.burst >= 0 && gap >= 1
    ensures 0.0 <= (lim.burst * (1 + t / gap)) as real + Credit(lim, t)
  {
    CreditNonnegative(lim, t);
    assert lim.burst * (1 + t / gap) >= 0;
  }
}
