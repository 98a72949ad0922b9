/** The fixed-window rate limiter of the HTTP layer: one bucket for each client address. */
module RateLimit {
  import opened Entities

  // One minute in nanoseconds, the resolution of the clock.
  const WINDOW := 60_000_000_000

  datatype Bucket = Bucket(count: nat, until: int)

  // A request against one bucket: a window that has passed, or none, starts a new one.
  function Check(limit: int, b: Option<Bucket>, now: int): (Bucket, bool) {
    if b.None? || now > b.value.until then (Bucket(1, now + WINDOW), true)
    else (Bucket(b.value.count + 1, b.value.until), b.value.count + 1 <= limit)
  }

  function Lookup(buckets: map<string, Bucket>, key: string): Option<Bucket> {
    if key in buckets then Some(buckets[key]) else None
  }

  class Limiter {
    const limit: int
    var buckets: map<string, Bucket>

    constructor (limit: int)
      ensures this.limit == limit && buckets == map[]
    {
      this.limit := limit;
      buckets := map[];
    }

    method Allow(key: string, now: int) returns (pass: bool)
      modifies this`buckets
      ensures var (bucket, ok) := Check(limit, Lookup(old(buckets), key), now);
              pass == ok && buckets == old(buckets)[key := bucket]
    {
      if key !in buckets || now > buckets[key].until {
        buckets := buckets[key := Bucket(1, now + WINDOW)];
        return true;
      }
      buckets := buckets[key := buckets[key].(count := buckets[key].count + 1)];
      pass := buckets[key].count <= limit;
    }
  }

  // ----- one client -----

  // The outcomes of a client's requests, made at the given times.
  function Outcomes(limit: int, b: Option<Bucket>, times: seq<int>): seq<bool>
    decreases times
  {
    if times == [] then []
    else
      var (next, ok) := Check(limit, b, times[0]);
      [ok] + Outcomes(limit, Some(next), times[1..])
  }

  // How many of them pass at a time between lo and hi.
  function Passed(limit: int, b: Option<Bucket>, times: seq<int>, lo: int, hi: int): nat
    decreases times
  {
    if times == [] then 0
    else
      var (next, ok) := Check(limit, b, times[0]);
      (if ok && lo <= times[0] <= hi then 1 else 0) + Passed(limit, Some(next), times[1..], lo, hi)
  }

  // A stamp lies at most `d` behind any stamp served before it. The times of a client do not run backwards when d is 0.
  predicate LateBy(times: seq<int>, d: nat) {
    forall i, j :: 0 <= i < j < |times| ==> times[i] - times[j] <= d
  }

  lemma {:induction false} NoneLater(limit: int, b: Option<Bucket>, times: seq<int>, lo: int, hi: int)
    requires forall i :: 0 <= i < |times| ==> hi < times[i]
    ensures Passed(limit, b, times, lo, hi) == 0
    decreases times
  {
    if times != [] {
      NoneLater(limit, Some(Check(limit, b, times[0]).0), times[1..], lo, hi);
    }
  }

  // How many requests a window lets through: the one that opens it always passes.
  function Quota(limit: int): (quota: nat)
    ensures quota >= 1
  {
    if limit < 1 then 1 else limit
  }

  function Left(limit: int, b: Bucket): nat {
    if b.count < Quota(limit) then Quota(limit) - b.count else 0
  }

  // How many windows can open from `first` to `last`: each outlasts a minute.
  function Openings(first: int, last: int): nat {
    if last < first then 0 else (last - first) / (WINDOW + 1) + 1
  }

  function Max(a: int, b: int): int {
    if a < b then b else a
  }

  // The windows that can open after the bucket's and still let requests through between lo and lo + WINDOW.
  function OpeningsAfter(b: Option<Bucket>, lo: int, d: nat): nat {
    Openings(if b.None? then lo - WINDOW else Max(b.value.until + 1, lo - WINDOW), lo + WINDOW + d)
  }

  // What can still pass in that minute: the rest of the current window, the requests after the first of each further
  // window, and one of the requests that open a window, which lie more than a minute apart.
  function Budget(limit: int, b: Option<Bucket>, lo: int, d: nat): int {
    (if b.Some? && b.value.until >= lo then Left(limit, b.value) else 0)
    + OpeningsAfter(b, lo, d) * (Quota(limit) - 1)
    + (if b.None? || b.value.until < lo + WINDOW then 1 else 0)
  }

  lemma TimesMonotone(a: nat, b: nat, c: nat)
    requires a <= b
    ensures a * c <= b * c
  {
  }

  lemma OneOpeningLess(b: Option<Bucket>, now: int, lo: int, d: nat)
    requires (b.None? || now > b.value.until) && now <= lo + WINDOW + d
    ensures OpeningsAfter(Some(Bucket(1, now + WINDOW)), lo, d) + (if now + WINDOW >= lo then 1 else 0) <= OpeningsAfter(b, lo, d)
  {
  }

  // One request spends what it takes from the budget.
  lemma CheckSpends(limit: int, b: Option<Bucket>, now: int, lo: int, d: nat)
    requires (b.Some? ==> b.value.count >= 1) && now <= lo + WINDOW + d
    ensures var (next, ok) := Check(limit, b, now);
            Budget(limit, Some(next), lo, d) + (if ok && lo <= now <= lo + WINDOW then 1 else 0) <= Budget(limit, b, lo, d)
  {
    if b.None? || now > b.value.until {
      var n, left, all := Quota(limit) - 1, OpeningsAfter(Some(Bucket(1, now + WINDOW)), lo, d), OpeningsAfter(b, lo, d);
      OneOpeningLess(b, now, lo, d);
      hide OpeningsAfter;
      TimesMonotone(left + (if now + WINDOW >= lo then 1 else 0), all, n);
      assert (left + 1) * n == left * n + n;
    }
  }

  lemma CheckCounts(limit: int, b: Option<Bucket>, now: int)
    requires b.Some? ==> b.value.count >= 1
    ensures Check(limit, b, now).0.count >= 1
  {
  }

  lemma BudgetIsNat(limit: int, b: Option<Bucket>, lo: int, d: nat)
    ensures Budget(limit, b, lo, d) >= 0
  {
    TimesMonotone(0, OpeningsAfter(b, lo, d), Quota(limit) - 1);
  }

  lemma {:induction false} PassedWithinBudget(limit: int, b: Option<Bucket>, times: seq<int>, lo: int, d: nat)
    requires LateBy(times, d) && (b.Some? ==> b.value.count >= 1)
    ensures Passed(limit, b, times, lo, lo + WINDOW) <= Budget(limit, b, lo, d)
    decreases times
  {
    hide Budget, Check;
    if times != [] {
      if times[0] > lo + WINDOW + d {
        NoneLater(limit, b, times, lo, lo + WINDOW);
        BudgetIsNat(limit, b, lo, d);
      } else {
        CheckSpends(limit, b, times[0], lo, d);
        CheckCounts(limit, b, times[0]);
        PassedWithinBudget(limit, Some(Check(limit, b, times[0]).0), times[1..], lo, d);
      }
    } else {
      BudgetIsNat(limit, b, lo, d);
    }
  }

  // The windows that can let requests through in one minute.
  function WindowsInReach(d: nat): nat {
    (2 * WINDOW + d) / (WINDOW + 1) + 1
  }

  // The most that can pass in one minute: all but the first request of each of these windows, and one first request.
  function Peak(limit: int, d: nat): nat {
    WindowsInReach(d) * (Quota(limit) - 1) + 1
  }

  /** In any closed minute at most a peak of a client's requests pass, when its stamps are at most `d` late. */
  lemma IntervalBound(limit: int, times: seq<int>, d: nat, lo: int)
    requires LateBy(times, d)
    ensures Passed(limit, None, times, lo, lo + WINDOW) <= Peak(limit, d)
  {
    PassedWithinBudget(limit, None, times, lo, d);
  }

  /** In the minute from a request that opens a window a quota of requests pass, and more only in windows that open
      later and receive stamps that are late. */
  lemma WindowBound(limit: int, b: Option<Bucket>, times: seq<int>, d: nat)
    requires LateBy(times, d) && times != []
    requires b.None? || times[0] > b.value.until
    ensures Passed(limit, b, times, times[0], times[0] + WINDOW) <= Quota(limit) + Openings(1, d) * (Quota(limit) - 1)
  {
    PassedWithinBudget(limit, Some(Check(limit, b, times[0]).0), times[1..], times[0], d);
  }

  // ----- the bound is exact -----

  lemma {:induction false} BurstPasses(limit: int, b: Bucket, n: nat, at: int, rest: seq<int>, lo: int, hi: int)
    requires (n > 0 ==> b.count + n <= limit) && at <= b.until && lo <= at <= hi
    ensures Passed(limit, Some(b), seq(n, _ => at) + rest, lo, hi) ==
            n + Passed(limit, Some(b.(count := b.count + n)), rest, lo, hi)
    decreases n
  {
    if n == 0 {
      assert seq(n, _ => at) + rest == rest;
    } else {
      var times := seq(n, _ => at) + rest;
      assert times[1..] == seq(n - 1, _ => at) + rest;
      BurstPasses(limit, b.(count := b.count + 1), n - 1, at, rest, lo, hi);
    }
  }

  // Window k opens as early as it can, and its burst is stamped within the minute from WINDOW to 2 * WINDOW.
  function OpensAt(k: nat): int {
    k * (WINDOW + 1)
  }

  function BurstAt(k: nat): int {
    if k == 0 then WINDOW else 2 * WINDOW
  }

  // The windows from k up to m.
  function WorstFrom(limit: int, k: nat, m: nat): seq<int>
    decreases m - k
  {
    if k >= m then [] else [OpensAt(k)] + (seq(Quota(limit) - 1, _ => BurstAt(k)) + WorstFrom(limit, k + 1, m))
  }

  lemma {:induction false} WorstPasses(limit: int, b: Option<Bucket>, k: nat, m: nat)
    requires k <= m && (b.Some? ==> b.value.until < OpensAt(k))
    ensures Passed(limit, b, WorstFrom(limit, k, m), WINDOW, 2 * WINDOW) ==
            (m - k) * (Quota(limit) - 1) + if k <= 1 < m then 1 else 0
    decreases m - k
  {
    if k < m {
      var n, rest := Quota(limit) - 1, WorstFrom(limit, k + 1, m);
      WindowPasses(limit, b, OpensAt(k), BurstAt(k), rest, WINDOW, 2 * WINDOW);
      WorstPasses(limit, Some(Bucket(1 + n, OpensAt(k) + WINDOW)), k + 1, m);
      hide Passed;
      assert (m - k) * n == (m - k - 1) * n + n;
    }
  }

  lemma WindowPasses(limit: int, b: Option<Bucket>, opens: int, at: int, rest: seq<int>, lo: int, hi: int)
    requires (b.Some? ==> b.value.until < opens) && at <= opens + WINDOW && lo <= at <= hi
    ensures var n := Quota(limit) - 1;
            Passed(limit, b, [opens] + (seq(n, _ => at) + rest), lo, hi) ==
            (if lo <= opens <= hi then 1 else 0) + n + Passed(limit, Some(Bucket(1 + n, opens + WINDOW)), rest, lo, hi)
  {
    var n := Quota(limit) - 1;
    assert ([opens] + (seq(n, _ => at) + rest))[1..] == seq(n, _ => at) + rest;
    BurstPasses(limit, Bucket(1, opens + WINDOW), n, at, rest, lo, hi);
  }

  lemma LateConcat(a: seq<int>, b: seq<int>, d: nat)
    requires LateBy(a, d) && LateBy(b, d)
    requires forall x, y :: x in a && y in b ==> x - y <= d
    ensures LateBy(a + b, d)
    ensures forall x :: x in a + b <==> x in a || x in b
  {
    forall i, j | 0 <= i < j < |a + b| ensures (a + b)[i] - (a + b)[j] <= d {
      if i < |a| <= j {
        assert a[i] in a && b[j - |a|] in b;
      }
    }
  }

  lemma AllAtOnce(times: seq<int>, at: int, d: nat)
    requires forall i :: 0 <= i < |times| ==> times[i] == at
    ensures LateBy(times, d)
  {
  }

  // The stamps of a suffix lie between its first burst or opening and the last opening.
  lemma {:induction false} WorstIsLate(limit: int, k: nat, m: nat, d: nat)
    requires k <= m && OpensAt(m) <= 3 * WINDOW + 1 + d
    ensures LateBy(WorstFrom(limit, k, m), d)
    ensures forall x :: x in WorstFrom(limit, k, m) ==> Earliest(k) <= x <= 2 * WINDOW + d
    decreases m - k
  {
    if k < m {
      WorstIsLate(limit, k + 1, m, d);
      var opens, at, low := OpensAt(k), BurstAt(k), Earliest(k + 1);
      assert Earliest(k) <= opens <= 2 * WINDOW + d && Earliest(k) <= at <= low;
      assert opens <= at + d && opens <= low + d;
      hide BurstAt, Earliest, OpensAt, LateBy, Quota;
      WindowIsLate(opens, Quota(limit) - 1, at, low, WorstFrom(limit, k + 1, m), d);
    }
  }

  lemma WindowIsLate(opens: int, n: nat, at: int, low: int, rest: seq<int>, d: nat)
    requires LateBy(rest, d) && (forall x :: x in rest ==> low <= x)
    requires opens <= at + d && opens <= low + d && at <= low
    ensures LateBy([opens] + (seq(n, _ => at) + rest), d)
    ensures forall x :: x in [opens] + (seq(n, _ => at) + rest) ==> x == opens || x == at || x in rest
  {
    var burst := seq(n, _ => at);
    AllAtOnce(burst, at, d);
    AllAtOnce([opens], opens, d);
    hide LateBy;
    LateConcat(burst, rest, d);
    LateConcat([opens], burst + rest, d);
  }

  function Earliest(k: nat): int {
    if k == 0 then 0 else if k == 1 then WINDOW + 1 else 2 * WINDOW
  }

  function WorstCase(limit: int, d: nat): seq<int> {
    WorstFrom(limit, 0, WindowsInReach(d))
  }

  /** The peak is reached, for every limit and every lateness. */
  lemma IntervalBoundIsTight(limit: int, d: nat)
    ensures LateBy(WorstCase(limit, d), d)
    ensures Passed(limit, None, WorstCase(limit, d), WINDOW, 2 * WINDOW) == Peak(limit, d)
  {
    WorstPasses(limit, None, 0, WindowsInReach(d));
    WorstIsLate(limit, 0, WindowsInReach(d), d);
  }

  function PassedInMinute(limit: int, times: seq<int>, lo: int): nat {
    Passed(limit, None, times, lo, lo + WINDOW)
  }

  // At most `most` requests of a client pass in any minute, in all traces at most `d` late.
  ghost predicate Bounds(limit: int, d: nat, most: nat) {
    forall times, lo :: LateBy(times, d) ==> PassedInMinute(limit, times, lo) <= most
  }

  /** A number bounds what passes in a minute exactly when the peak does not exceed it. */
  lemma BoundsIff(limit: int, d: nat, most: nat)
    ensures Bounds(limit, d, most) <==> Peak(limit, d) <= most
  {
    IntervalBoundIsTight(limit, d);
    assert PassedInMinute(limit, WorstCase(limit, d), WINDOW) == Peak(limit, d);
    hide Peak, WorstCase, LateBy, Passed;
    forall times, lo | LateBy(times, d) ensures PassedInMinute(limit, times, lo) <= Peak(limit, d) {
      IntervalBound(limit, times, d, lo);
    }
  }

  /** Two windows less one request bound a minute exactly for stamps at most one nanosecond late, or for a quota of
      one; up to a minute of lateness lets a third window in, so twice the limit bounds it up to a limit of 2 only. */
  lemma TwoWindowsIff(limit: int, d: nat)
    ensures Bounds(limit, d, 2 * Quota(limit) - 1) <==> d <= 1 || limit <= 1
    ensures 1 <= limit && 2 <= d <= WINDOW ==> Peak(limit, d) == 3 * limit - 2
    ensures 1 <= limit && 2 <= d <= WINDOW ==> (Bounds(limit, d, 2 * limit) <==> limit <= 2)
  {
    BoundsIff(limit, d, 2 * Quota(limit) - 1);
    BoundsIff(limit, d, 2 * Quota(limit));
    hide Bounds;
    var k, n := WindowsInReach(d), Quota(limit) - 1;
    assert k >= 2 && (k == 2 <==> d <= 1);
    if k >= 3 {
      TimesMonotone(3, k, n);
    }
  }

  // ----- the outcomes, from the times alone -----

  // The outcomes that let a request through at a time between lo and hi.
  function CountPassed(outcomes: seq<bool>, times: seq<int>, lo: int, hi: int): nat
    requires |outcomes| == |times|
  {
    if times == [] then 0
    else (if outcomes[0] && lo <= times[0] <= hi then 1 else 0) + CountPassed(outcomes[1..], times[1..], lo, hi)
  }

  lemma {:induction false} PassedCountsOutcomes(limit: int, b: Option<Bucket>, times: seq<int>, lo: int, hi: int)
    ensures |Outcomes(limit, b, times)| == |times|
    ensures CountPassed(Outcomes(limit, b, times), times, lo, hi) == Passed(limit, b, times, lo, hi)
    decreases times
  {
    if times != [] {
      var next := Check(limit, b, times[0]).0;
      PassedCountsOutcomes(limit, Some(next), times[1..], lo, hi);
      assert Outcomes(limit, b, times)[1..] == Outcomes(limit, Some(next), times[1..]);
    }
  }

  // The request that opened the window in which request i falls: the first one opens a window, and so does each one
  // made more than a minute after the latest opening.
  function Opening(times: seq<int>, i: nat): (opening: nat)
    requires i < |times|
    ensures opening <= i
  {
    if i == 0 then 0
    else
      var o := Opening(times, i - 1);
      if times[i] > times[o] + 60_000_000_000 then i else o
  }

  // The bucket that request i meets.
  function BucketAt(limit: int, b: Option<Bucket>, times: seq<int>, i: nat): Option<Bucket>
    requires i <= |times|
  {
    if i == 0 then b else Some(Check(limit, BucketAt(limit, b, times, i - 1), times[i - 1]).0)
  }

  lemma {:induction false} BucketShifts(limit: int, b: Option<Bucket>, times: seq<int>, i: nat)
    requires i < |times|
    ensures BucketAt(limit, b, times, i + 1) == BucketAt(limit, Some(Check(limit, b, times[0]).0), times[1..], i)
  {
    if i > 0 {
      BucketShifts(limit, b, times, i - 1);
    }
  }

  lemma {:induction false} OutcomeAt(limit: int, b: Option<Bucket>, times: seq<int>, i: nat)
    requires i < |times|
    ensures |Outcomes(limit, b, times)| == |times|
    ensures Outcomes(limit, b, times)[i] == Check(limit, BucketAt(limit, b, times, i), times[i]).1
    decreases i
  {
    PassedCountsOutcomes(limit, b, times, 0, 0);
    if i > 0 {
      OutcomeAt(limit, Some(Check(limit, b, times[0]).0), times[1..], i - 1);
      BucketShifts(limit, b, times, i - 1);
    }
  }

  // After request i the bucket counts the requests since the opening, refused ones too, and lasts a minute from it.
  lemma {:induction false} BucketCounts(limit: int, times: seq<int>, i: nat)
    requires i < |times|
    ensures var o := Opening(times, i);
            BucketAt(limit, None, times, i + 1) == Some(Bucket(i - o + 1, times[o] + WINDOW))
  {
    if i > 0 {
      BucketCounts(limit, times, i - 1);
    }
  }

  /** A request is refused exactly when it opens no window and at least a quota of requests were made in its window
      before it. */
  lemma RefusedIff(limit: int, times: seq<int>, i: nat)
    requires i < |times|
    ensures |Outcomes(limit, None, times)| == |times|
    ensures !Outcomes(limit, None, times)[i] <==>
              Opening(times, i) < i && i - Opening(times, i) >= (if limit < 1 then 1 else limit)
  {
    OutcomeAt(limit, None, times, i);
    if i > 0 {
      BucketCounts(limit, times, i - 1);
    }
  }

  // ----- many clients -----

  datatype Request = Request(key: string, now: int)

  function Serve(limit: int, buckets: map<string, Bucket>, reqs: seq<Request>): (outcomes: seq<bool>)
    ensures |outcomes| == |reqs|
    decreases reqs
  {
    if reqs == [] then []
    else
      var (next, ok) := Check(limit, Lookup(buckets, reqs[0].key), reqs[0].now);
      [ok] + Serve(limit, buckets[reqs[0].key := next], reqs[1..])
  }

  // One client's part of a trace, and of its outcomes.
  function TimesOf(reqs: seq<Request>, key: string): seq<int> {
    if reqs == [] then [] else (if reqs[0].key == key then [reqs[0].now] else []) + TimesOf(reqs[1..], key)
  }

  function PartOf(outcomes: seq<bool>, reqs: seq<Request>, key: string): seq<bool>
    requires |outcomes| == |reqs|
  {
    if reqs == [] then []
    else (if reqs[0].key == key then [outcomes[0]] else []) + PartOf(outcomes[1..], reqs[1..], key)
  }

  /** What a client sees depends on its own requests only. */
  lemma {:induction false} ClientsAreIndependent(limit: int, buckets: map<string, Bucket>, reqs: seq<Request>, key: string)
    ensures PartOf(Serve(limit, buckets, reqs), reqs, key) == Outcomes(limit, Lookup(buckets, key), TimesOf(reqs, key))
    decreases reqs
  {
    if reqs != [] {
      var (next, ok) := Check(limit, Lookup(buckets, reqs[0].key), reqs[0].now);
      var rest := buckets[reqs[0].key := next];
      ClientsAreIndependent(limit, rest, reqs[1..], key);
      assert Serve(limit, buckets, reqs)[1..] == Serve(limit, rest, reqs[1..]);
      if reqs[0].key == key {
        assert TimesOf(reqs, key)[1..] == TimesOf(reqs[1..], key);
      } else {
        assert Lookup(rest, key) == Lookup(buckets, key);
        assert TimesOf(reqs, key) == TimesOf(reqs[1..], key);
      }
    }
  }

  /** Whatever the other clients do: in any trace of requests served from the start, at most a peak of a client's pass
      within one minute, when its own stamps are at most `d` late. */
  lemma EveryClientIsBounded(limit: int, reqs: seq<Request>, key: string, d: nat, lo: int)
    requires LateBy(TimesOf(reqs, key), d)
    ensures |PartOf(Serve(limit, map[], reqs), reqs, key)| == |TimesOf(reqs, key)|
    ensures CountPassed(PartOf(Serve(limit, map[], reqs), reqs, key), TimesOf(reqs, key), lo, lo + WINDOW) <= Peak(limit, d)
  {
    ClientsAreIndependent(limit, map[], reqs, key);
    PassedCountsOutcomes(limit, None, TimesOf(reqs, key), lo, lo + WINDOW);
    IntervalBound(limit, TimesOf(reqs, key), d, lo);
  }

  /** And so each answer of the limiter follows from the times of the client's own requests. */
  lemma AnswersFollowTimes(limit: int, reqs: seq<Request>, key: string, i: nat)
    requires i < |TimesOf(reqs, key)|
    ensures |PartOf(Serve(limit, map[], reqs), reqs, key)| == |TimesOf(reqs, key)|
    ensures var times := TimesOf(reqs, key);
            !PartOf(Serve(limit, map[], reqs), reqs, key)[i] <==>
              Opening(times, i) < i && i - Opening(times, i) >= (if limit < 1 then 1 else limit)
  {
    ClientsAreIndependent(limit, map[], reqs, key);
    RefusedIff(limit, TimesOf(reqs, key), i);
  }
}
