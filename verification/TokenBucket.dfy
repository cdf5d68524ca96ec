/** The token bucket both rate-limiter backends run, as a pure specification.

    A bucket keeps two numbers: the tokens left and the time of the last request.  A request
    may find that its bucket has been forgotten; it then starts from a full one.  The clock
    may step backwards, in which case no time has elapsed. */
module TokenBucket {
  import opened Prelude

  /** `perTick` tokens flow back on every tick of the clock, up to `burst`. */
  datatype Limit = Limit(perTick: real, burst: int)

  datatype Bucket = Bucket(tokens: real, last: int)

  /** One request for one key; `forget` says that the backend had dropped the key's state. */
  datatype Request = Request(now: int, forget: bool)

  function Positive(ticks: int): nat {
    if ticks > 0 then ticks else 0
  }

  function Min(a: real, b: real): real {
    if a < b then a else b
  }

  /** Tokens that flow back in a stretch of time. */
  function Credit(lim: Limit, ticks: int): real {
    ticks as real * lim.perTick
  }

  /** Tokens a request finds. */
  function Available(lim: Limit, held: Option<Bucket>, now: int): real {
    match held
    case None => lim.burst as real
    case Some(b) => Min(lim.burst as real, b.tokens + Credit(lim, Positive(now - b.last)))
  }

  predicate Allows(lim: Limit, held: Option<Bucket>, now: int) {
    Available(lim, held, now) >= 1.0
  }

  /** The state a request leaves behind; time moves to `now` even when the clock went back. */
  function Spend(lim: Limit, held: Option<Bucket>, now: int, admit: bool): Bucket {
    Bucket(Available(lim, held, now) - (if admit then 1.0 else 0.0), now)
  }

  // ---------------------------------------------------------------- runs of one bucket

  /** The bucket request `n` finds, when the earlier requests were answered by `ds`. */
  function Held(lim: Limit, rs: seq<Request>, ds: seq<bool>, n: nat): Option<Bucket>
    requires n < |rs| && n <= |ds|
    decreases n, 0
  {
    if n == 0 || rs[n].forget then None else Some(Left(lim, rs, ds, n - 1))
  }

  /** The bucket request `n` leaves. */
  function Left(lim: Limit, rs: seq<Request>, ds: seq<bool>, n: nat): Bucket
    requires n < |rs| && n < |ds|
    decreases n, 1
  {
    Spend(lim, Held(lim, rs, ds, n), rs[n].now, ds[n])
  }

  /** Tokens request `n` finds. */
  function Level(lim: Limit, rs: seq<Request>, ds: seq<bool>, n: nat): real
    requires n < |rs| && n <= |ds|
  {
    Available(lim, Held(lim, rs, ds, n), rs[n].now)
  }

  /** How the level moves from one request to the next. */
  lemma LevelStep(lim: Limit, rs: seq<Request>, ds: seq<bool>, n: nat)
    requires 0 < n < |rs| && n <= |ds|
    ensures Level(lim, rs, ds, n)
         == if rs[n].forget then lim.burst as real
            else Min(lim.burst as real,
                     Level(lim, rs, ds, n - 1) - (if ds[n - 1] then 1.0 else 0.0)
                     + Credit(lim, Positive(rs[n].now - rs[n - 1].now)))
  {
    var left := Left(lim, rs, ds, n - 1);
    assert left.last == rs[n - 1].now;
    assert left.tokens == Level(lim, rs, ds, n - 1) - (if ds[n - 1] then 1.0 else 0.0);
    assert Held(lim, rs, ds, n) == if rs[n].forget then None else Some(left);
  }

  /** `ds` are the answers the limiter gives: a request is admitted exactly when a token is left. */
  ghost predicate Greedy(lim: Limit, rs: seq<Request>, ds: seq<bool>) {
    && |ds| == |rs|
    && forall n :: 0 <= n < |rs| ==> (ds[n] <==> Level(lim, rs, ds, n) >= 1.0)
  }

  /** `ds` never spends a token that is not there, but may turn requests away at will. */
  ghost predicate Feasible(lim: Limit, rs: seq<Request>, ds: seq<bool>) {
    && |ds| == |rs|
    && forall n :: 0 <= n < |rs| && ds[n] ==> Level(lim, rs, ds, n) >= 1.0
  }

  lemma GreedyIsFeasible(lim: Limit, rs: seq<Request>, ds: seq<bool>)
    requires Greedy(lim, rs, ds)
    ensures Feasible(lim, rs, ds)
  {
  }

  /** Requests admitted among `k`, ..., `n - 1`. */
  function Admitted(ds: seq<bool>, k: nat, n: nat): nat
    requires k <= n <= |ds|
  {
    if k == n then 0 else Admitted(ds, k, n - 1) + (if ds[n - 1] then 1 else 0)
  }

  /** Time elapsed from request `k` to request `n`: the sum of the positive clock steps. */
  function Elapsed(rs: seq<Request>, k: nat, n: nat): nat
    requires k <= n < |rs|
  {
    if k == n then 0 else Elapsed(rs, k, n - 1) + Positive(rs[n].now - rs[n - 1].now)
  }

  /** Admitted requests are counted one by one. */
  lemma {:induction false} AdmittedCounts(ds: seq<bool>, k: nat, n: nat)
    requires k <= n <= |ds|
    ensures Admitted(ds, k, n) == |set i | k <= i < n && ds[i]|
  {
    var counted := set i | k <= i < n && ds[i];
    if k < n {
      AdmittedCounts(ds, k, n - 1);
      var before := set i | k <= i < n - 1 && ds[i];
      assert counted == if ds[n - 1] then before + {n - 1} else before;
    } else {
      assert counted == {};
    }
  }

  /** A step of the clock counts as it is when it goes forward, and not at all otherwise; so time
      elapsed is the time between the requests when the clock never runs backwards, and never less. */
  lemma {:induction false} ElapsedIs(rs: seq<Request>, k: nat, n: nat)
    requires k <= n < |rs|
    ensures k == n ==> Elapsed(rs, k, n) == 0
    ensures k < n ==> Elapsed(rs, k, n) - Elapsed(rs, k, n - 1)
                      == if rs[n].now > rs[n - 1].now then rs[n].now - rs[n - 1].now else 0
    ensures Elapsed(rs, k, n) >= rs[n].now - rs[k].now
    ensures (forall i :: k < i <= n ==> rs[i - 1].now <= rs[i].now) ==> Elapsed(rs, k, n) == rs[n].now - rs[k].now
  {
    if k < n {
      ElapsedIs(rs, k, n - 1);
    }
  }

  /** The arithmetic of one request, in numbers. */
  lemma RequestIs(perTick: real, burst: int, tokens: real, last: int, now: int)
    ensures var elapsed := if now > last then now - last else 0;
            var sum := tokens + elapsed as real * perTick;
            var found := if sum < burst as real then sum else burst as real;
            var lim, held := Limit(perTick, burst), Some(Bucket(tokens, last));
            && Available(lim, held, now) == found && Available(lim, None, now) == burst as real
            && (Allows(lim, held, now) <==> found >= 1.0)
            && (Allows(lim, None, now) <==> burst >= 1)
            && Spend(lim, held, now, true) == Bucket(found - 1.0, now)
            && Spend(lim, held, now, false) == Bucket(found, now)
  {
  }

  ghost predicate NeverForgets(rs: seq<Request>) {
    forall i :: 0 <= i < |rs| ==> !rs[i].forget
  }

  // ---------------------------------------------------------------- the window test

  /** What the window from request `k` leaves for request `n`. */
  function Headroom(lim: Limit, rs: seq<Request>, ds: seq<bool>, k: nat, n: nat): real
    requires k <= n < |rs| && n <= |ds|
  {
    lim.burst as real + Credit(lim, Elapsed(rs, k, n)) - Admitted(ds, k, n) as real
  }

  /** The stateless limit: no window ending at request `n` would hold more than its allowance. */
  ghost predicate WindowTest(lim: Limit, rs: seq<Request>, ds: seq<bool>, n: nat)
    requires n < |rs| && n <= |ds|
  {
    forall k :: 0 <= k <= n ==>
      (Admitted(ds, k, n) + 1) as real <= lim.burst as real + Credit(lim, Elapsed(rs, k, n))
  }

  ghost predicate WindowLimited(lim: Limit, rs: seq<Request>, ds: seq<bool>) {
    && |ds| == |rs|
    && forall n :: 0 <= n < |rs| ==> (ds[n] <==> WindowTest(lim, rs, ds, n))
  }

  lemma CreditAdds(lim: Limit, a: int, b: int)
    ensures Credit(lim, a + b) == Credit(lim, a) + Credit(lim, b)
  {
    assert (a + b) as real == a as real + b as real;
  }

  lemma HeadroomStep(lim: Limit, rs: seq<Request>, ds: seq<bool>, k: nat, n: nat)
    requires k < n < |rs| && n <= |ds|
    ensures Headroom(lim, rs, ds, k, n)
         == Headroom(lim, rs, ds, k, n - 1) - (if ds[n - 1] then 1.0 else 0.0)
            + Credit(lim, Positive(rs[n].now - rs[n - 1].now))
  {
    CreditAdds(lim, Elapsed(rs, k, n - 1), Positive(rs[n].now - rs[n - 1].now));
  }

  /** The number in the bucket is the least headroom over all windows. */
  lemma {:induction false} LevelIsLeastHeadroom(lim: Limit, rs: seq<Request>, ds: seq<bool>, n: nat)
    requires n < |rs| && n <= |ds| && NeverForgets(rs)
    ensures forall k :: 0 <= k <= n ==> Level(lim, rs, ds, n) <= Headroom(lim, rs, ds, k, n)
    ensures exists k :: 0 <= k <= n && Level(lim, rs, ds, n) == Headroom(lim, rs, ds, k, n)
  {
    assert Headroom(lim, rs, ds, n, n) == lim.burst as real;
    if n > 0 {
      LevelIsLeastHeadroom(lim, rs, ds, n - 1);
      var step := Credit(lim, Positive(rs[n].now - rs[n - 1].now));
      var cost := if ds[n - 1] then 1.0 else 0.0;
      LevelStep(lim, rs, ds, n);
      forall k | 0 <= k < n
        ensures Headroom(lim, rs, ds, k, n) == Headroom(lim, rs, ds, k, n - 1) - cost + step
      {
        HeadroomStep(lim, rs, ds, k, n);
      }
      var j :| 0 <= j <= n - 1 && Level(lim, rs, ds, n - 1) == Headroom(lim, rs, ds, j, n - 1);
      var w := if Level(lim, rs, ds, n) == lim.burst as real then n else j;
      assert Level(lim, rs, ds, n) == Headroom(lim, rs, ds, w, n);
    }
  }

  /** The two-number bucket decides like the test over every past window: the answers the
      bucket gives are exactly the answers the stateless test gives. */
  lemma BucketDecidesByWindows(lim: Limit, rs: seq<Request>, ds: seq<bool>)
    requires NeverForgets(rs)
    ensures Greedy(lim, rs, ds) <==> WindowLimited(lim, rs, ds)
  {
    if |ds| == |rs| {
      forall n | 0 <= n < |rs|
        ensures Level(lim, rs, ds, n) >= 1.0 <==> WindowTest(lim, rs, ds, n)
      {
        LevelIsLeastHeadroom(lim, rs, ds, n);
        if WindowTest(lim, rs, ds, n) {
          var j :| 0 <= j <= n && Level(lim, rs, ds, n) == Headroom(lim, rs, ds, j, n);
          assert (Admitted(ds, j, n) + 1) as real <= lim.burst as real + Credit(lim, Elapsed(rs, j, n));
        }
        if Level(lim, rs, ds, n) >= 1.0 {
          forall k | 0 <= k <= n
            ensures (Admitted(ds, k, n) + 1) as real <= lim.burst as real + Credit(lim, Elapsed(rs, k, n))
          {
            assert Level(lim, rs, ds, n) <= Headroom(lim, rs, ds, k, n);
          }
        }
      }
    }
  }

  // ---------------------------------------------------------------- optimality

  /** However admissions are chosen, the chooser's bucket is ahead of the limiter's by at most
      the number of admissions the limiter is ahead, and the limiter is never behind. */
  lemma {:induction false} LeadBoundsTokenGap(
    lim: Limit, rs: seq<Request>, greedy: seq<bool>, other: seq<bool>, n: nat)
    requires n < |rs| && Greedy(lim, rs, greedy) && Feasible(lim, rs, other)
    ensures Admitted(other, 0, n) <= Admitted(greedy, 0, n)
    ensures Level(lim, rs, other, n) - Level(lim, rs, greedy, n)
         <= (Admitted(greedy, 0, n) - Admitted(other, 0, n)) as real
  {
    if n > 0 {
      LeadBoundsTokenGap(lim, rs, greedy, other, n - 1);
      LevelStep(lim, rs, greedy, n);
      LevelStep(lim, rs, other, n);
      assert other[n - 1] ==> Level(lim, rs, other, n - 1) >= 1.0;
      assert greedy[n - 1] <==> Level(lim, rs, greedy, n - 1) >= 1.0;
    }
  }

  /** Greedy is optimal at every prefix of every request sequence. */
  lemma GreedyAdmitsMost(lim: Limit, rs: seq<Request>, greedy: seq<bool>, other: seq<bool>, n: nat)
    requires n <= |rs| && Greedy(lim, rs, greedy) && Feasible(lim, rs, other)
    ensures Admitted(other, 0, n) <= Admitted(greedy, 0, n)
  {
    if n > 0 {
      LeadBoundsTokenGap(lim, rs, greedy, other, n - 1);
      assert other[n - 1] ==> Level(lim, rs, other, n - 1) >= 1.0;
      assert greedy[n - 1] <==> Level(lim, rs, greedy, n - 1) >= 1.0;
    }
  }

  /** There is only one way to answer greedily. */
  lemma GreedyIsUnique(lim: Limit, rs: seq<Request>, ds: seq<bool>, others: seq<bool>)
    requires Greedy(lim, rs, ds) && Greedy(lim, rs, others)
    ensures ds == others
  {
    forall n | 0 <= n < |rs|
      ensures ds[n] == others[n]
    {
      GreedyAdmitsMost(lim, rs, ds, others, n);
      GreedyAdmitsMost(lim, rs, others, ds, n);
      GreedyAdmitsMost(lim, rs, ds, others, n + 1);
      GreedyAdmitsMost(lim, rs, others, ds, n + 1);
    }
  }

  // ---------------------------------------------------------------- forgetting

  /** State is dropped only after a gap of at least `gap` ticks between two requests. */
  ghost predicate ForgetsAfter(rs: seq<Request>, gap: int) {
    forall i :: 0 <= i < |rs| && rs[i].forget ==> i > 0 && rs[i].now - rs[i - 1].now >= gap
  }

  /** State is dropped after every gap of at least `gap` ticks, and never otherwise. */
  ghost predicate ForgetsExactlyAfter(rs: seq<Request>, gap: int) {
    && ForgetsAfter(rs, gap)
    && forall i :: 0 < i < |rs| && rs[i].now - rs[i - 1].now >= gap ==> rs[i].forget
  }

  /** The same requests to a limiter that keeps its state for ever. */
  function Remembering(rs: seq<Request>): (r: seq<Request>)
    ensures |r| == |rs| && NeverForgets(r)
    ensures forall i :: 0 <= i < |rs| ==> r[i].now == rs[i].now
  {
    seq(|rs|, i requires 0 <= i < |rs| => Request(rs[i].now, false))
  }

  /** What one expiry can give away: tokens that `gap` ticks of refill would not have returned. */
  function OverCredit(lim: Limit, gap: int): real {
    var missing := lim.burst as real - Credit(lim, gap);
    if missing > 0.0 then missing else 0.0
  }

  /** Times the state was dropped at requests `k + 1`, ..., `n`. */
  function Forgotten(rs: seq<Request>, k: nat, n: nat): nat
    requires k <= n < |rs|
  {
    if k == n then 0 else Forgotten(rs, k, n - 1) + (if rs[n].forget then 1 else 0)
  }

  lemma CreditMonotone(lim: Limit, a: int, b: int)
    requires a <= b && lim.perTick >= 0.0
    ensures Credit(lim, a) <= Credit(lim, b)
  {
    CreditAdds(lim, a, b - a);
    CreditNonnegative(lim, b - a);
  }

  lemma CreditNonnegative(lim: Limit, a: nat)
    requires lim.perTick >= 0.0
    ensures Credit(lim, a) >= 0.0
  {
  }

  lemma {:induction false} LevelNonnegative(lim: Limit, rs: seq<Request>, ds: seq<bool>, n: nat)
    requires n < |rs| && lim.perTick >= 0.0 && lim.burst >= 0 && Feasible(lim, rs, ds)
    ensures Level(lim, rs, ds, n) >= 0.0
  {
    if n > 0 && !rs[n].forget {
      LevelNonnegative(lim, rs, ds, n - 1);
      LevelStep(lim, rs, ds, n);
      assert ds[n - 1] ==> Level(lim, rs, ds, n - 1) >= 1.0;
      CreditNonnegative(lim, Positive(rs[n].now - rs[n - 1].now));
    }
  }

  /** A request that finds its bucket forgotten gains at most `OverCredit` over one that does not. */
  lemma ExpiryGain(lim: Limit, b: Bucket, now: int, gap: nat)
    requires lim.perTick >= 0.0 && b.tokens >= 0.0 && Positive(now - b.last) >= gap
    ensures 0.0 <= Available(lim, None, now) - Available(lim, Some(b), now) <= OverCredit(lim, gap)
  {
    CreditMonotone(lim, gap, Positive(now - b.last));
  }

  /** What a window from request `k` to request `n` may admit: the burst, the refill over the
      window, and what the expiries inside the window give away. */
  function Allowance(lim: Limit, rs: seq<Request>, gap: int, k: nat, n: nat): real
    requires k <= n < |rs|
  {
    lim.burst as real + Credit(lim, Elapsed(rs, k, n))
      + Forgotten(rs, k, n) as real * OverCredit(lim, gap)
  }

  lemma AllowanceStep(lim: Limit, rs: seq<Request>, gap: int, k: nat, n: nat)
    requires k < n < |rs|
    ensures Allowance(lim, rs, gap, k, n)
         == Allowance(lim, rs, gap, k, n - 1) + Credit(lim, Positive(rs[n].now - rs[n - 1].now))
            + (if rs[n].forget then OverCredit(lim, gap) else 0.0)
  {
    CreditAdds(lim, Elapsed(rs, k, n - 1), Positive(rs[n].now - rs[n - 1].now));
    TimesNext(Forgotten(rs, k, n - 1), OverCredit(lim, gap));
  }

  lemma TimesNext(f: nat, x: real)
    ensures (f + 1) as real * x == f as real * x + x
  {
    assert (f + 1) as real == f as real + 1.0;
  }

  /** One step of `ForgetfulWindow`. */
  lemma LevelRise(lim: Limit, rs: seq<Request>, ds: seq<bool>, gap: nat, n: nat)
    requires lim.perTick >= 0.0 && lim.burst >= 0
    requires 0 < n < |rs| && ForgetsAfter(rs, gap) && Feasible(lim, rs, ds)
    ensures Level(lim, rs, ds, n) + (if ds[n - 1] then 1.0 else 0.0)
         <= Level(lim, rs, ds, n - 1) + Credit(lim, Positive(rs[n].now - rs[n - 1].now))
            + (if rs[n].forget then OverCredit(lim, gap) else 0.0)
  {
    LevelStep(lim, rs, ds, n);
    if rs[n].forget {
      LevelNonnegative(lim, rs, ds, n - 1);
      assert ds[n - 1] ==> Level(lim, rs, ds, n - 1) >= 1.0;
      CreditMonotone(lim, gap, Positive(rs[n].now - rs[n - 1].now));
    }
  }

  /** Every window of every run that forgets stays within its allowance. */
  lemma {:induction false} ForgetfulWindow(
    lim: Limit, rs: seq<Request>, ds: seq<bool>, gap: nat, k: nat, n: nat)
    requires lim.perTick >= 0.0 && lim.burst >= 0
    requires k <= n < |rs| && ForgetsAfter(rs, gap) && Feasible(lim, rs, ds)
    ensures Admitted(ds, k, n) as real + Level(lim, rs, ds, n) <= Allowance(lim, rs, gap, k, n)
  {
    if k == n {
      assert Allowance(lim, rs, gap, k, k) == lim.burst as real;
    } else {
      ForgetfulWindow(lim, rs, ds, gap, k, n - 1);
      LevelRise(lim, rs, ds, gap, n);
      AllowanceStep(lim, rs, gap, k, n);
    }
  }

  /** Every expiry inside a window costs the window a whole gap. */
  lemma {:induction false} ForgettingTakesTime(rs: seq<Request>, gap: nat, k: nat, n: nat)
    requires k <= n < |rs| && ForgetsAfter(rs, gap)
    ensures Forgotten(rs, k, n) * gap <= Elapsed(rs, k, n)
  {
    if k < n {
      ForgettingTakesTime(rs, gap, k, n - 1);
      var f := Forgotten(rs, k, n - 1);
      assert (f + 1) * gap == f * gap + gap;
    }
  }

  /** Admissions in a window, both ends included. */
  lemma AdmissionsWithinAllowance(
    lim: Limit, rs: seq<Request>, ds: seq<bool>, gap: nat, k: nat, n: nat)
    requires lim.perTick >= 0.0 && lim.burst >= 0
    requires k <= n < |rs| && ForgetsAfter(rs, gap) && Feasible(lim, rs, ds)
    ensures Admitted(ds, k, n + 1) as real <= Allowance(lim, rs, gap, k, n)
  {
    ForgetfulWindow(lim, rs, ds, gap, k, n);
    LevelNonnegative(lim, rs, ds, n);
    assert ds[n] ==> Level(lim, rs, ds, n) >= 1.0;
  }

  lemma LessCancels(a: nat, b: nat, g: nat)
    requires a * g < b * g
    ensures a < b
  {
    if a >= b {
      assert false;
    }
  }

  lemma QuotientBounds(f: nat, gap: nat, t: nat)
    requires gap >= 1 && f * gap <= t
    ensures f <= t / gap
  {
    assert (t / gap + 1) * gap > t;
    LessCancels(f, t / gap + 1, gap);
  }

  lemma ProductMonotone(a: real, b: real, x: real, y: real)
    requires 0.0 <= a <= b && 0.0 <= x <= y
    ensures a * x <= b * y
  {
    assert a * x <= a * y;
    assert a * y <= b * y;
  }

  lemma BurstPerGap(burst: nat, f: nat, q: nat, over: real)
    requires f <= q && 0.0 <= over <= burst as real
    ensures burst as real + f as real * over <= (burst * (1 + q)) as real
  {
    ProductMonotone(f as real, q as real, over, burst as real);
    assert (burst * (1 + q)) == burst + q * burst;
    assert (q * burst) as real == q as real * burst as real;
  }

  lemma ExpiriesPerWindow(rs: seq<Request>, gap: nat, k: nat, n: nat, t: nat)
    requires gap >= 1 && k <= n < |rs| && ForgetsAfter(rs, gap) && Elapsed(rs, k, n) <= t
    ensures Forgotten(rs, k, n) <= t / gap
  {
    ForgettingTakesTime(rs, gap, k, n);
    QuotientBounds(Forgotten(rs, k, n), gap, t);
  }

  lemma OverCreditBounds(lim: Limit, gap: nat)
    requires lim.perTick >= 0.0 && lim.burst >= 0
    ensures 0.0 <= OverCredit(lim, gap) <= lim.burst as real
  {
    CreditNonnegative(lim, gap);
  }

  lemma AllowanceBound(lim: Limit, rs: seq<Request>, gap: nat, k: nat, n: nat, q: nat, t: nat)
    requires lim.perTick >= 0.0 && lim.burst >= 0
    requires k <= n < |rs| && Forgotten(rs, k, n) <= q && Elapsed(rs, k, n) <= t
    ensures Allowance(lim, rs, gap, k, n) <= (lim.burst * (1 + q)) as real + Credit(lim, t)
  {
    OverCreditBounds(lim, gap);
    CreditMonotone(lim, Elapsed(rs, k, n), t);
    BurstPerGap(lim.burst, Forgotten(rs, k, n), q, OverCredit(lim, gap));
  }

  /** Whatever the gap, a window no longer than T holds at most burst * (1 + floor(T / gap))
      admissions beyond its refill. */
  lemma AdmissionsWithForgetting(
    lim: Limit, rs: seq<Request>, ds: seq<bool>, gap: nat, k: nat, n: nat, t: nat)
    requires lim.perTick >= 0.0 && lim.burst >= 0 && gap >= 1
    requires k <= n < |rs| && ForgetsAfter(rs, gap) && Feasible(lim, rs, ds) && Elapsed(rs, k, n) <= t
    ensures Admitted(ds, k, n + 1) as real <= (lim.burst * (1 + t / gap)) as real + Credit(lim, t)
  {
    AdmissionsWithinAllowance(lim, rs, ds, gap, k, n);
    ExpiriesPerWindow(rs, gap, k, n, t);
    AllowanceBound(lim, rs, gap, k, n, t / gap, t);
  }

  /** When a gap refills the bucket, a window no longer than T holds at most one burst beyond its
      refill, however often the state was dropped. */
  lemma AdmissionsWithRefill(
    lim: Limit, rs: seq<Request>, ds: seq<bool>, gap: nat, k: nat, n: nat, t: nat)
    requires lim.perTick >= 0.0 && lim.burst >= 0 && Credit(lim, gap) >= lim.burst as real
    requires k <= n < |rs| && ForgetsAfter(rs, gap) && Feasible(lim, rs, ds) && Elapsed(rs, k, n) <= t
    ensures Admitted(ds, k, n + 1) as real <= lim.burst as real + Credit(lim, t)
  {
    AdmissionsWithinAllowance(lim, rs, ds, gap, k, n);
    CreditMonotone(lim, Elapsed(rs, k, n), t);
    assert OverCredit(lim, gap) == 0.0;
  }

  /** Forgetting changes nothing when a gap refills the whole bucket. */
  lemma {:induction false} ForgettingInvisibleAt(
    lim: Limit, rs: seq<Request>, ds: seq<bool>, gap: nat, n: nat)
    requires lim.perTick >= 0.0 && lim.burst >= 0 && Credit(lim, gap) >= lim.burst as real
    requires n < |rs| && ForgetsAfter(rs, gap)
    requires |ds| == |rs| && forall i :: 0 <= i < n && ds[i] ==> Level(lim, rs, ds, i) >= 1.0
    ensures Level(lim, rs, ds, n) == Level(lim, Remembering(rs), ds, n) >= 0.0
  {
    var plain := Remembering(rs);
    if n > 0 {
      ForgettingInvisibleAt(lim, rs, ds, gap, n - 1);
      var kept := Left(lim, plain, ds, n - 1);
      assert kept == Left(lim, rs, ds, n - 1);
      assert Held(lim, plain, ds, n) == Some(kept);
      CreditNonnegative(lim, Positive(rs[n].now - rs[n - 1].now));
      if rs[n].forget {
        CreditMonotone(lim, gap, rs[n].now - rs[n - 1].now);
      }
    }
  }

  lemma ForgettingInvisible(lim: Limit, rs: seq<Request>, ds: seq<bool>, gap: nat)
    requires lim.perTick >= 0.0 && lim.burst >= 0 && Credit(lim, gap) >= lim.burst as real
    requires ForgetsAfter(rs, gap) && Greedy(lim, rs, ds)
    ensures Greedy(lim, Remembering(rs), ds)
  {
    forall n | 0 <= n < |rs|
      ensures ds[n] <==> Level(lim, Remembering(rs), ds, n) >= 1.0
    {
      ForgettingInvisibleAt(lim, rs, ds, gap, n);
    }
  }

  /** Drain the bucket at time 0 and come back for as much at time `gap`. */
  function Drain(burst: nat, gap: nat): seq<Request> {
    seq(2 * burst, i => if i < burst then Request(0, false) else Request(gap, i == burst))
  }

  function AllAdmitted(n: nat): seq<bool> {
    seq(n, i => true)
  }

  lemma {:induction false} DrainLevel(lim: Limit, gap: nat, n: nat)
    requires lim.burst >= 1 && n < 2 * lim.burst
    ensures Level(lim, Drain(lim.burst, gap), AllAdmitted(2 * lim.burst), n)
         == (lim.burst - (if n < lim.burst then n else n - lim.burst)) as real
  {
    if n > 0 {
      DrainLevel(lim, gap, n - 1);
      LevelStep(lim, Drain(lim.burst, gap), AllAdmitted(2 * lim.burst), n);
      assert Credit(lim, 0) == 0.0;
    }
  }

  lemma {:induction false} AdmittedAll(n: nat, m: nat)
    requires m <= n
    ensures Admitted(AllAdmitted(n), 0, m) == m
  {
    if m > 0 {
      AdmittedAll(n, m - 1);
    }
  }

  lemma {:induction false} DrainElapsed(burst: nat, gap: nat, n: nat)
    requires n < 2 * burst
    ensures Elapsed(Remembering(Drain(burst, gap)), 0, n) <= gap
    ensures n < burst ==> Elapsed(Remembering(Drain(burst, gap)), 0, n) == 0
    ensures n >= burst ==> Elapsed(Remembering(Drain(burst, gap)), 0, n) == gap
  {
    if n > 0 {
      DrainElapsed(burst, gap, n - 1);
    }
  }

  /** When a gap does not refill the bucket, draining it on both sides of the gap is a run in
      which forgetting changes an answer. */
  lemma ForgettingVisible(lim: Limit, gap: nat)
    requires lim.burst >= 1 && Credit(lim, gap) < lim.burst as real
    ensures gap >= 1 ==> ForgetsExactlyAfter(Drain(lim.burst, gap), gap)
    ensures Greedy(lim, Drain(lim.burst, gap), AllAdmitted(2 * lim.burst))
    ensures !Greedy(lim, Remembering(Drain(lim.burst, gap)), AllAdmitted(2 * lim.burst))
  {
    var b := lim.burst;
    var rs, ds := Drain(b, gap), AllAdmitted(2 * b);
    forall n | 0 <= n < |rs|
      ensures Level(lim, rs, ds, n) >= 1.0
    {
      DrainLevel(lim, gap, n);
    }
    var plain := Remembering(rs);
    var n := 2 * b - 1;
    LevelIsLeastHeadroom(lim, plain, ds, n);
    assert Level(lim, plain, ds, n) <= Headroom(lim, plain, ds, 0, n);
    AdmittedAll(2 * b, n);
    DrainElapsed(b, gap, n);
  }

  /** No run shows whether state older than `gap` is kept or dropped. */
  ghost predicate ForgettingNeverShows(lim: Limit, gap: int) {
    forall rs, ds :: ForgetsAfter(rs, gap) && Greedy(lim, rs, ds) ==> Greedy(lim, Remembering(rs), ds)
  }

  /** The same for backends that drop state after every such gap. */
  ghost predicate PromptForgettingNeverShows(lim: Limit, gap: int) {
    forall rs, ds :: ForgetsExactlyAfter(rs, gap) && Greedy(lim, rs, ds) ==> Greedy(lim, Remembering(rs), ds)
  }

  /** Dropping state after `gap` ticks is invisible exactly when `gap` ticks refill the bucket. */
  lemma ForgettingIsInvisibleIff(lim: Limit, gap: nat)
    requires lim.perTick >= 0.0 && lim.burst >= 1 && gap >= 1
    ensures ForgettingNeverShows(lim, gap) <==> Credit(lim, gap) >= lim.burst as real
    ensures PromptForgettingNeverShows(lim, gap) <==> Credit(lim, gap) >= lim.burst as real
  {
    if Credit(lim, gap) >= lim.burst as real {
      forall rs, ds | ForgetsAfter(rs, gap) && Greedy(lim, rs, ds)
        ensures Greedy(lim, Remembering(rs), ds)
      {
        ForgettingInvisible(lim, rs, ds, gap);
      }
      forall rs, ds | ForgetsExactlyAfter(rs, gap) && Greedy(lim, rs, ds)
        ensures Greedy(lim, Remembering(rs), ds)
      {
        ForgettingInvisible(lim, rs, ds, gap);
      }
    } else {
      ForgettingVisible(lim, gap);
    }
  }
}
