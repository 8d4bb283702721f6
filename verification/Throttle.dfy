/**
 * The per-address login throttle (app/modules/auth/throttle.py): pruned buckets against the full
 * history of failures. Times are seconds.
 */
module Throttle {
  import opened Wrappers
  import opened Sequences

  const MAX_TRACKED_IPS := 10_000

  type Buckets = map<string, seq<real>>

  datatype Limits = Limits(maxAttempts: nat, window: real)

  type Keep = real -> bool

  function Newer(cutoff: real): Keep {
    (t: real) => t > cutoff
  }

  /** `_prune`. */
  function Recent(attempts: seq<real>, limits: Limits, now: real): seq<real> {
    Filter(attempts, Newer(now - limits.window))
  }

  function AttemptsOf(b: Buckets, ip: string): seq<real> {
    if ip in b then b[ip] else []
  }

  function Pruned(b: Buckets, ip: string, limits: Limits, now: real): Buckets {
    if ip in b then b[ip := Recent(b[ip], limits, now)] else b
  }

  // ---------------------------------------------------------------- calls

  datatype Call =
    | Check(ip: string, now: real)
    | RecordFailure(ip: string, now: real)
    | Reset(ip: string, now: real)
    | RetryAfter(ip: string, now: real)

  /** Recording for an untracked address when the table is full drops everything first. */
  function Evicted(b: Buckets, ip: string): Buckets {
    if |b| >= MAX_TRACKED_IPS && ip !in b then map[] else b
  }

  /** The buckets after a call: asking prunes too, unless there is nothing to prune. */
  function Apply(b: Buckets, limits: Limits, call: Call): Buckets {
    match call
    case Check(ip, now) => Pruned(b, ip, limits, now)
    case RecordFailure(ip, now) =>
      var kept := Evicted(b, ip);
      kept[ip := Recent(AttemptsOf(kept, ip), limits, now) + [now]]
    case Reset(ip, _) => b - {ip}
    case RetryAfter(ip, now) => Pruned(b, ip, limits, now)
  }

  /** The same calls on a history that never forgets a failure before a reset or an eviction. */
  function Remember(history: Buckets, call: Call): Buckets {
    match call
    case RecordFailure(ip, now) =>
      var kept := Evicted(history, ip);
      kept[ip := AttemptsOf(kept, ip) + [now]]
    case Reset(ip, _) => history - {ip}
    case _ => history
  }

  function Run(limits: Limits, calls: seq<Call>): Buckets {
    if calls == [] then map[] else Apply(Run(limits, calls[..|calls| - 1]), limits, calls[|calls| - 1])
  }

  function History(calls: seq<Call>): Buckets {
    if calls == [] then map[] else Remember(History(calls[..|calls| - 1]), calls[|calls| - 1])
  }

  /** `is_limited`. */
  predicate Limited(b: Buckets, limits: Limits, ip: string, now: real) {
    ip in b && |Recent(b[ip], limits, now)| >= limits.maxAttempts
  }

  function Least(s: seq<real>): real
    requires s != []
  {
    if |s| == 1 then s[0]
    else
      var rest := Least(s[..|s| - 1]);
      if s[|s| - 1] < rest then s[|s| - 1] else rest
  }

  /** `int(x)`, toward zero. */
  function Truncate(x: real): int {
    if x >= 0.0 then x.Floor else -((-x).Floor)
  }

  /** What is announced for these failures in the window; None where `min` is asked for the least of none. */
  function WaitFor(recent: seq<real>, limits: Limits, now: real): Option<int> {
    if |recent| < limits.maxAttempts then Some(0)
    else if recent == [] then None
    else
      var seconds := Truncate(limits.window - (now - Least(recent)));
      Some(if seconds < 1 then 1 else seconds)
  }

  /** `retry_after`. */
  function Wait(b: Buckets, limits: Limits, ip: string, now: real): (r: Option<int>)
    ensures r.None? <==> limits.maxAttempts == 0 && ip in b && b[ip] != [] && Recent(b[ip], limits, now) == []
  {
    if ip !in b || b[ip] == [] then Some(0) else WaitFor(Recent(b[ip], limits, now), limits, now)
  }

  /** The announced moment, for a limit of one attempt or more. */
  function Announced(b: Buckets, limits: Limits, ip: string, now: real): real
    requires limits.maxAttempts > 0
  {
    now + Wait(b, limits, ip, now).value as real
  }

  /** How many failures are newer than `cutoff`. */
  function CountAfter(attempts: seq<real>, cutoff: real): nat {
    if attempts == [] then 0 else (if attempts[0] > cutoff then 1 else 0) + CountAfter(attempts[1..], cutoff)
  }

  lemma {:induction false} RecentCounts(attempts: seq<real>, cutoff: real)
    ensures |Filter(attempts, Newer(cutoff))| == CountAfter(attempts, cutoff)
  {
    if attempts != [] {
      RecentCounts(attempts[1..], cutoff);
    }
  }

  /** The failure is the last of its address; the table was full of others and dropped, or the others stay. */
  predicate Records(before: Buckets, after: Buckets, ip: string, now: real) {
    && ip in after && after[ip] != [] && after[ip][|after[ip]| - 1] == now
    && if |before| >= 10_000 && ip !in before then
         after == map[ip := [now]]
       else
         after.Keys == before.Keys + {ip} && forall other :: other in before && other != ip ==> after[other] == before[other]
  }

  /** Dropping, adding an empty bucket, pruning and appending, one after the other. */
  lemma RecordedInSteps(b: Buckets, limits: Limits, ip: string, now: real)
    ensures var kept := Evicted(b, ip);
      var pruned := Pruned(if ip in kept then kept else kept[ip := []], ip, limits, now);
      pruned[ip := pruned[ip] + [now]] == Apply(b, limits, Call.RecordFailure(ip, now))
  {
  }

  lemma FailureRecorded(b: Buckets, limits: Limits, ip: string, now: real)
    ensures Records(b, Apply(b, limits, Call.RecordFailure(ip, now)), ip, now)
  {
    assert Recent([], limits, now) == [];
    var recent := Recent(AttemptsOf(Evicted(b, ip), ip), limits, now);
    AppendRecords(b, Evicted(b, ip), ip, recent, now);
  }

  lemma AppendRecords(b: Buckets, kept: Buckets, ip: string, recent: seq<real>, now: real)
    requires kept == if |b| >= 10_000 && ip !in b then map[] else b
    requires ip !in kept ==> recent == []
    ensures Records(b, kept[ip := recent + [now]], ip, now)
  {
    assert [] + [now] == [now];
  }

  class LoginThrottle {
    const limits: Limits
    var buckets: Buckets

    constructor (maxAttempts: nat, window: real)
      ensures limits == Limits(maxAttempts, window) && buckets == map[]
    {
      limits, buckets := Limits(maxAttempts, window), map[];
    }

    method Prune(ip: string, now: real)
      requires ip in buckets
      modifies this
      ensures buckets == Pruned(old(buckets), ip, limits, now)
    {
      var cutoff := now - limits.window;
      buckets := buckets[ip := Filter(buckets[ip], Newer(cutoff))];
    }

    method IsLimited(ip: string, now: real) returns (r: bool)
      modifies this
      ensures r == Limited(old(buckets), limits, ip, now)
      ensures r <==> ip in old(buckets) && CountAfter(old(buckets)[ip], now - limits.window) >= limits.maxAttempts
      ensures buckets == Apply(old(buckets), limits, Call.Check(ip, now))
      ensures buckets.Keys == old(buckets).Keys && buckets - {ip} == old(buckets) - {ip}
    {
      if ip in buckets {
        RecentCounts(buckets[ip], now - limits.window);
      }
      if ip !in buckets {
        return false;
      }
      Prune(ip, now);
      return |buckets[ip]| >= limits.maxAttempts;
    }

    method RecordFailure(ip: string, now: real)
      modifies this
      ensures buckets == Apply(old(buckets), limits, Call.RecordFailure(ip, now))
      ensures Records(old(buckets), buckets, ip, now)
    {
      if |buckets| >= MAX_TRACKED_IPS && ip !in buckets {
        buckets := map[];
      }
      if ip !in buckets {
        buckets := buckets[ip := []];
      }
      Prune(ip, now);
      buckets := buckets[ip := buckets[ip] + [now]];
      RecordedInSteps(old(buckets), limits, ip, now);
      FailureRecorded(old(buckets), limits, ip, now);
    }

    /** The clock is not read here; `now` only places the call in a run. */
    method Reset(ip: string, ghost now: real)
      modifies this
      ensures buckets == Apply(old(buckets), limits, Call.Reset(ip, now))
      ensures buckets.Keys == old(buckets).Keys - {ip} && forall other :: other in buckets ==> buckets[other] == old(buckets)[other]
    {
      buckets := buckets - {ip};
    }

    /** None stands for the exception of `min`, raised after the bucket was pruned. */
    method RetryAfter(ip: string, now: real) returns (r: Option<int>)
      modifies this
      ensures r == Wait(old(buckets), limits, ip, now)
      ensures limits.maxAttempts > 0 ==>
        (r == Some(0) <==> !(ip in old(buckets) && CountAfter(old(buckets)[ip], now - limits.window) >= limits.maxAttempts))
      ensures buckets == Apply(old(buckets), limits, Call.RetryAfter(ip, now))
    {
      if ip in buckets {
        RecentCounts(buckets[ip], now - limits.window);
      }
      if ip !in buckets || buckets[ip] == [] {
        return Some(0);
      }
      Prune(ip, now);
      var recent := buckets[ip];
      if |recent| < limits.maxAttempts {
        return Some(0);
      }
      if recent == [] {
        return None;
      }
      var seconds := Truncate(limits.window - (now - Least(recent)));
      return Some(if seconds < 1 then 1 else seconds);
    }
  }

  // ---------------------------------------------------------------- pruning loses nothing that counts

  lemma {:induction false} RecentOfRecent(s: seq<real>, limits: Limits, earlier: real, now: real)
    requires earlier <= now
    ensures Recent(Recent(s, limits, earlier), limits, now) == Recent(s, limits, now)
  {
    if s != [] {
      RecentOfRecent(s[1..], limits, earlier, now);
      var rest := Recent(s[1..], limits, earlier);
      if s[0] > earlier - limits.window {
        assert ([s[0]] + rest)[1..] == rest;
      } else {
        assert [] + rest == rest;
      }
    }
  }

  /** At `now` and later the buckets hold what the history holds, as far as the window sees. */
  predicate Agree(b: Buckets, history: Buckets, limits: Limits, now: real) {
    b.Keys == history.Keys && forall ip :: ip in b ==> Recent(b[ip], limits, now) == Recent(history[ip], limits, now)
  }

  lemma AgreeLater(b: Buckets, history: Buckets, limits: Limits, earlier: real, now: real)
    requires Agree(b, history, limits, earlier) && earlier <= now
    ensures Agree(b, history, limits, now)
  {
    forall ip | ip in b ensures Recent(b[ip], limits, now) == Recent(history[ip], limits, now) {
      RecentOfRecent(b[ip], limits, earlier, now);
      RecentOfRecent(history[ip], limits, earlier, now);
    }
  }

  lemma AgreePruned(b: Buckets, history: Buckets, limits: Limits, ip: string, now: real)
    requires Agree(b, history, limits, now)
    ensures Agree(Pruned(b, ip, limits, now), history, limits, now)
  {
    if ip in b {
      RecentOfRecent(b[ip], limits, now, now);
    }
  }

  lemma AgreeEvicted(b: Buckets, history: Buckets, limits: Limits, ip: string, now: real)
    requires Agree(b, history, limits, now)
    ensures Agree(Evicted(b, ip), Evicted(history, ip), limits, now)
    ensures Recent(AttemptsOf(Evicted(b, ip), ip), limits, now) == Recent(AttemptsOf(Evicted(history, ip), ip), limits, now)
  {
    assert |b| == |b.Keys| && |history| == |history.Keys|;
  }

  lemma RecentAppend(pruned: seq<real>, full: seq<real>, limits: Limits, now: real)
    requires Recent(pruned, limits, now) == Recent(full, limits, now)
    ensures Recent(Recent(pruned, limits, now) + [now], limits, now) == Recent(full + [now], limits, now)
  {
    RecentOfRecent(pruned, limits, now, now);
    FilterConcat(Recent(pruned, limits, now), [now], Newer(now - limits.window));
    FilterConcat(full, [now], Newer(now - limits.window));
  }

  lemma AgreeSet(b: Buckets, history: Buckets, limits: Limits, now: real, ip: string, pruned: seq<real>, full: seq<real>)
    requires Agree(b, history, limits, now) && Recent(pruned, limits, now) == Recent(full, limits, now)
    ensures Agree(b[ip := pruned], history[ip := full], limits, now)
  {
  }

  lemma AgreeRecorded(b: Buckets, history: Buckets, limits: Limits, ip: string, now: real)
    requires Agree(b, history, limits, now)
    ensures Agree(Apply(b, limits, Call.RecordFailure(ip, now)), Remember(history, Call.RecordFailure(ip, now)), limits, now)
  {
    var kept, all := Evicted(b, ip), Evicted(history, ip);
    AgreeEvicted(b, history, limits, ip, now);
    RecentAppend(AttemptsOf(kept, ip), AttemptsOf(all, ip), limits, now);
    AgreeSet(kept, all, limits, now, ip, Recent(AttemptsOf(kept, ip), limits, now) + [now], AttemptsOf(all, ip) + [now]);
  }

  lemma AgreeStep(b: Buckets, history: Buckets, limits: Limits, call: Call)
    requires Agree(b, history, limits, call.now)
    ensures Agree(Apply(b, limits, call), Remember(history, call), limits, call.now)
  {
    match call {
      case Check(ip, now) => AgreePruned(b, history, limits, ip, now);
      case RecordFailure(ip, now) => AgreeRecorded(b, history, limits, ip, now);
      case Reset(_, _) =>
      case RetryAfter(ip, now) => AgreePruned(b, history, limits, ip, now);
    }
  }

  predicate ClockRuns(calls: seq<Call>) {
    forall i, j :: 0 <= i < j < |calls| ==> calls[i].now <= calls[j].now
  }

  lemma {:induction false} RunAgrees(limits: Limits, calls: seq<Call>, now: real)
    requires ClockRuns(calls) && forall i :: 0 <= i < |calls| ==> calls[i].now <= now
    ensures Agree(Run(limits, calls), History(calls), limits, now)
  {
    if calls != [] {
      var before, last := calls[..|calls| - 1], calls[|calls| - 1];
      RunAgrees(limits, before, last.now);
      AgreeStep(Run(limits, before), History(before), limits, last);
      AgreeLater(Run(limits, calls), History(calls), limits, last.now, now);
    }
  }

  lemma WaitDependsOnRecent(b: Buckets, limits: Limits, ip: string, now: real)
    requires limits.maxAttempts > 0 && ip in b
    ensures Wait(b, limits, ip, now) == WaitFor(Recent(b[ip], limits, now), limits, now)
  {
    if b[ip] == [] {
      assert Recent([], limits, now) == [];
    }
  }

  lemma AgreeingAnswers(b: Buckets, history: Buckets, limits: Limits, ip: string, now: real)
    requires Agree(b, history, limits, now)
    ensures Limited(b, limits, ip, now) <==> Limited(history, limits, ip, now)
    ensures limits.maxAttempts > 0 ==> Wait(b, limits, ip, now) == Wait(history, limits, ip, now)
  {
    if ip in b && limits.maxAttempts > 0 {
      WaitDependsOnRecent(b, limits, ip, now);
      WaitDependsOnRecent(history, limits, ip, now);
    }
  }

  /**
   * After any calls under a clock that never runs back, pruning makes no difference: an address is
   * limited exactly when all its failures since its last reset or the last eviction put enough of
   * them in the window.
   */
  lemma PruningIsInvisible(limits: Limits, calls: seq<Call>, ip: string, now: real)
    requires ClockRuns(calls) && forall i :: 0 <= i < |calls| ==> calls[i].now <= now
    ensures Limited(Run(limits, calls), limits, ip, now) <==> Limited(History(calls), limits, ip, now)
    ensures limits.maxAttempts > 0 ==> Wait(Run(limits, calls), limits, ip, now) == Wait(History(calls), limits, ip, now)
  {
    RunAgrees(limits, calls, now);
    AgreeingAnswers(Run(limits, calls), History(calls), limits, ip, now);
  }

  /** No more addresses are tracked than the cap allows. */
  lemma {:induction false} TrackedIsBounded(limits: Limits, calls: seq<Call>)
    ensures |Run(limits, calls)| <= MAX_TRACKED_IPS
  {
    if calls != [] {
      var b, call := Run(limits, calls[..|calls| - 1]), calls[|calls| - 1];
      TrackedIsBounded(limits, calls[..|calls| - 1]);
      match call {
        case RecordFailure(ip, now) => OneMoreKey(Evicted(b, ip), ip, Recent(AttemptsOf(Evicted(b, ip), ip), limits, now) + [now]);
        case Reset(ip, _) => FewerKeys(b, ip);
        case _ =>
          if call.ip in b {
            OneMoreKey(b, call.ip, Recent(b[call.ip], limits, call.now));
          }
      }
    }
  }

  lemma OneMoreKey(b: Buckets, ip: string, attempts: seq<real>)
    ensures |b[ip := attempts]| == |b| + if ip in b then 0 else 1
  {
    var next := b[ip := attempts];
    assert |b| == |b.Keys| && |next| == |next.Keys|;
    assert next.Keys == b.Keys + {ip};
  }

  lemma FewerKeys(b: Buckets, ip: string)
    ensures |b - {ip}| <= |b|
  {
    var next := b - {ip};
    assert |b| == |b.Keys| && |next| == |next.Keys|;
    assert next.Keys == b.Keys - {ip};
  }

  // ---------------------------------------------------------------- counted from the calls

  /** The table has no room for a new address, and is dropped for it. */
  predicate Drops(tracked: set<string>, ip: string) {
    |tracked| >= 10_000 && ip !in tracked
  }

  /** The addresses tracked after the calls. */
  function Tracked(calls: seq<Call>): set<string> {
    if calls == [] then {}
    else
      var before := Tracked(calls[..|calls| - 1]);
      match calls[|calls| - 1]
      case RecordFailure(ip, _) => if Drops(before, ip) then {ip} else before + {ip}
      case Reset(ip, _) => before - {ip}
      case _ => before
  }

  /** The failures of `ip` after `cutoff`, counted since its last reset or the last time the table was dropped. */
  function Failures(calls: seq<Call>, ip: string, cutoff: real): nat {
    if calls == [] then 0
    else
      var before, tracked := Failures(calls[..|calls| - 1], ip, cutoff), Tracked(calls[..|calls| - 1]);
      match calls[|calls| - 1]
      case RecordFailure(other, now) =>
        (if Drops(tracked, other) then 0 else before) + if other == ip && now > cutoff then 1 else 0
      case Reset(other, _) => if other == ip then 0 else before
      case _ => before
  }

  lemma {:induction false} CountAppend(attempts: seq<real>, t: real, cutoff: real)
    ensures CountAfter(attempts + [t], cutoff) == CountAfter(attempts, cutoff) + if t > cutoff then 1 else 0
  {
    if attempts == [] {
      assert attempts + [t] == [t] && [t][1..] == [];
    } else {
      assert (attempts + [t])[1..] == attempts[1..] + [t];
      CountAppend(attempts[1..], t, cutoff);
    }
  }

  lemma {:induction false} HistoryTracks(calls: seq<Call>)
    ensures History(calls).Keys == Tracked(calls)
  {
    if calls != [] {
      var before := History(calls[..|calls| - 1]);
      HistoryTracks(calls[..|calls| - 1]);
      assert |before| == |before.Keys|;
    }
  }

  lemma RememberCounts(history: Buckets, call: Call, ip: string, cutoff: real)
    ensures var before, after := CountAfter(AttemptsOf(history, ip), cutoff), CountAfter(AttemptsOf(Remember(history, call), ip), cutoff);
      match call
      case RecordFailure(other, now) =>
        after == (if Drops(history.Keys, other) then 0 else before) + if other == ip && now > cutoff then 1 else 0
      case Reset(other, _) => after == if other == ip then 0 else before
      case _ => after == before
  {
    assert |history| == |history.Keys|;
    if call.RecordFailure? {
      CountAppend(AttemptsOf(Evicted(history, call.ip), call.ip), call.now, cutoff);
    }
  }

  lemma {:induction false} HistoryCounts(calls: seq<Call>, ip: string, cutoff: real)
    ensures CountAfter(AttemptsOf(History(calls), ip), cutoff) == Failures(calls, ip, cutoff)
  {
    if calls != [] {
      HistoryCounts(calls[..|calls| - 1], ip, cutoff);
      HistoryTracks(calls[..|calls| - 1]);
      RememberCounts(History(calls[..|calls| - 1]), calls[|calls| - 1], ip, cutoff);
    }
  }

  /**
   * After any calls under a clock that never runs back, an address is limited exactly when it is
   * tracked and enough of its failures since its last reset, or the last time the table was dropped,
   * are in the window.
   */
  lemma LimitedIff(limits: Limits, calls: seq<Call>, ip: string, now: real)
    requires ClockRuns(calls) && forall i :: 0 <= i < |calls| ==> calls[i].now <= now
    ensures Limited(Run(limits, calls), limits, ip, now) <==>
      ip in Tracked(calls) && Failures(calls, ip, now - limits.window) >= limits.maxAttempts
  {
    PruningIsInvisible(limits, calls, ip, now);
    HistoryTracks(calls);
    HistoryCounts(calls, ip, now - limits.window);
    RecentCounts(AttemptsOf(History(calls), ip), now - limits.window);
  }

  // ---------------------------------------------------------------- retry_after

  predicate Whole(x: real) {
    x.Floor as real == x
  }

  lemma {:induction false} LeastIsLeast(s: seq<real>)
    requires s != []
    ensures Least(s) in s && forall t :: t in s ==> Least(s) <= t
  {
    if |s| > 1 {
      LeastIsLeast(s[..|s| - 1]);
      InitLast(s);
    }
  }

  lemma RecentIn(s: seq<real>, limits: Limits, now: real, t: real)
    ensures t in Recent(s, limits, now) <==> t in s && t > now - limits.window
  {
  }

  /** Failures drop out of the window one by one; before the oldest does, all are still there. */
  lemma BeforeTheOldestLeaves(s: seq<real>, limits: Limits, now: real, later: real)
    requires Recent(s, limits, now) != [] && now <= later < Least(Recent(s, limits, now)) + limits.window
    ensures Recent(s, limits, later) == Recent(s, limits, now)
  {
    var recent := Recent(s, limits, now);
    LeastIsLeast(recent);
    RecentOfRecent(s, limits, now, later);
    FilterAll(recent, Newer(later - limits.window));
  }

  /** How long until the oldest failure in the window leaves it. */
  function Left(b: Buckets, limits: Limits, ip: string, now: real): real
    requires ip in b && Recent(b[ip], limits, now) != []
  {
    limits.window - (now - Least(Recent(b[ip], limits, now)))
  }

  lemma AnnouncedAt(b: Buckets, limits: Limits, ip: string, now: real)
    requires limits.maxAttempts > 0 && Limited(b, limits, ip, now)
    ensures Recent(b[ip], limits, now) != [] && Left(b, limits, ip, now) > 0.0
    ensures var left := Left(b, limits, ip, now);
      Announced(b, limits, ip, now) == now + if left < 1.0 then 1.0 else left.Floor as real
  {
    var recent := Recent(b[ip], limits, now);
    LeastIsLeast(recent);
    RecentIn(b[ip], limits, now, Least(recent));
    WaitDependsOnRecent(b, limits, ip, now);
  }

  /**
   * Whether a limited address is still limited at the announced moment. A fraction beyond whole
   * seconds is cut off, so the moment comes too early; after whole seconds the oldest failures have
   * just left; and less than a second is rounded up to one.
   */
  lemma LimitedWhenAnnounced(b: Buckets, limits: Limits, ip: string, now: real)
    requires limits.maxAttempts > 0 && Limited(b, limits, ip, now)
    ensures var recent, left := Recent(b[ip], limits, now), Left(b, limits, ip, now);
      var still := Limited(b, limits, ip, Announced(b, limits, ip, now));
      && left > 0.0
      && (left > 1.0 && !Whole(left) ==> still)
      && (Whole(left) ==> (still <==> |Filter(recent, Newer(Least(recent)))| >= limits.maxAttempts))
      && (left < 1.0 ==> (still <==> |Filter(recent, Newer(now + 1.0 - limits.window))| >= limits.maxAttempts))
  {
    var until, left := Announced(b, limits, ip, now), Left(b, limits, ip, now);
    AnnouncedAt(b, limits, ip, now);
    RecentOfRecent(b[ip], limits, now, until);
    if left > 1.0 && !Whole(left) {
      BeforeTheOldestLeaves(b[ip], limits, now, until);
    }
  }

  lemma WholeDifference(window: real, now: real, oldest: real)
    requires Whole(window) && Whole(now) && Whole(oldest)
    ensures Whole(window - (now - oldest))
  {
    assert window - (now - oldest) == (window.Floor - (now.Floor - oldest.Floor)) as real;
  }

  /**
   * With whole-second times, a limited address stays limited until the announced moment; at that
   * moment it is free exactly when fewer than the limit of its failures are newer than the oldest.
   */
  lemma WaitIsExact(b: Buckets, limits: Limits, ip: string, now: real)
    requires limits.maxAttempts > 0 && Whole(limits.window) && Whole(now)
    requires forall x :: x in b ==> forall t :: t in b[x] ==> Whole(t) && t <= now
    requires Limited(b, limits, ip, now)
    ensures var recent := Recent(b[ip], limits, now);
      var until := Announced(b, limits, ip, now);
      && (forall later: real :: now <= later < until ==> Limited(b, limits, ip, later))
      && (!Limited(b, limits, ip, until) <==> |Filter(recent, Newer(Least(recent)))| < limits.maxAttempts)
  {
    var recent := Recent(b[ip], limits, now);
    LeastIsLeast(recent);
    var oldest := Least(recent);
    RecentIn(b[ip], limits, now, oldest);
    WholeDifference(limits.window, now, oldest);
    LimitedWhenAnnounced(b, limits, ip, now);
    forall later: real | now <= later < oldest + limits.window ensures Limited(b, limits, ip, later) {
      BeforeTheOldestLeaves(b[ip], limits, now, later);
    }
  }

  /** With exactly the limit of failures in the window, it is the fraction alone that decides. */
  lemma AnnouncedEarlyIff(b: Buckets, limits: Limits, ip: string, now: real)
    requires limits.maxAttempts > 0 && Limited(b, limits, ip, now) && |Recent(b[ip], limits, now)| == limits.maxAttempts
    ensures Limited(b, limits, ip, Announced(b, limits, ip, now)) <==> Left(b, limits, ip, now) > 1.0 && !Whole(Left(b, limits, ip, now))
  {
    var recent := Recent(b[ip], limits, now);
    LimitedWhenAnnounced(b, limits, ip, now);
    LeastIsLeast(recent);
    DropsSome(recent, Newer(Least(recent)), Least(recent));
    if Left(b, limits, ip, now) < 1.0 {
      DropsSome(recent, Newer(now + 1.0 - limits.window), Least(recent));
    }
  }

  /** Half a second after the one failure allowed, 299 of the 299.5 seconds left are announced. */
  lemma EarlyExample()
    ensures var b: Buckets := map["10.0.0.9" := [0.0]];
      var limits := Limits(1, 300.0);
      && Limited(b, limits, "10.0.0.9", 0.5) && Wait(b, limits, "10.0.0.9", 0.5) == Some(299)
      && Limited(b, limits, "10.0.0.9", Announced(b, limits, "10.0.0.9", 0.5))
  {
    var attempts := [0.0];
    assert attempts[1..] == [];
    assert Recent(attempts, Limits(1, 300.0), 0.5) == [0.0];
    assert Recent(attempts, Limits(1, 300.0), 299.5) == [0.0];
  }

  lemma {:induction false} DropsSome(s: seq<real>, p: Keep, x: real)
    requires x in s && !p(x)
    ensures |Filter(s, p)| < |s|
  {
    if s[0] != x {
      assert x in s[1..];
      DropsSome(s[1..], p, x);
    }
  }
}
