/** The in-memory sliding-window rate limiter: per-key deques of attempt times, pruned in place. */
module RateLimit {

  // ----- what one call computes -----------------------------------------------------------

  datatype Verdict = Verdict(allowed: bool, remaining: int, retryAfter: int)

  /** int(x): truncation toward zero. */
  function Truncate(x: real): int {
    if x >= 0.0 then x.Floor else -((-x).Floor)
  }

  function Report(bucket: seq<real>, limit: int, window: int, now: real, allowed: bool): Verdict {
    var remaining := if limit - |bucket| > 0 then limit - |bucket| else 0;
    var wait := if bucket == [] then 0 else Truncate(bucket[0] + window as real - now) + 1;
    Verdict(allowed, remaining, if allowed || bucket == [] then 0 else if wait > 1 then wait else 1)
  }

  /** What is left of a deque once everything at or before the cutoff is popped from the left. */
  function Prune(bucket: seq<real>, cutoff: real): seq<real> {
    if bucket != [] && bucket[0] <= cutoff then Prune(bucket[1..], cutoff) else bucket
  }

  // ----- the backend ----------------------------------------------------------------------

  datatype Call =
    | Hit(key: string, limit: int, window: int, now: real)
    | Peek(key: string, limit: int, window: int, now: real)
    | Clear(key: string)
    | Reset

  function BucketOf(hits: map<string, seq<real>>, key: string): seq<real> {
    if key in hits then hits[key] else []
  }

  function Apply(hits: map<string, seq<real>>, call: Call): map<string, seq<real>> {
    match call
    case Hit(k, _, w, t) => hits[k := Prune(BucketOf(hits, k), t - w as real) + [t]]
    case Peek(k, _, w, t) => hits[k := Prune(BucketOf(hits, k), t - w as real)]
    case Clear(k) => hits - {k}
    case Reset => map[]
  }

  /** The backend's dictionary after a sequence of calls. */
  function Replay(log: seq<Call>): map<string, seq<real>> {
    if log == [] then map[] else Apply(Replay(log[..|log| - 1]), log[|log| - 1])
  }

  function Pruned(log: seq<Call>, key: string, window: int, now: real): seq<real> {
    Prune(BucketOf(Replay(log), key), now - window as real)
  }

  /** The answer to a hit made after the calls in log. */
  function HitVerdict(log: seq<Call>, key: string, limit: int, window: int, now: real): Verdict {
    var bucket := Pruned(log, key, window, now) + [now];
    Report(bucket, limit, window, now, |bucket| <= limit)
  }

  /** The answer to a peek made after the calls in log. */
  function PeekVerdict(log: seq<Call>, key: string, limit: int, window: int, now: real): Verdict {
    var bucket := Pruned(log, key, window, now);
    Report(bucket, limit, window, now, |bucket| < limit)
  }

  /** The answer to a timed call made after the calls in log. */
  function VerdictOf(log: seq<Call>, call: Call): Verdict
    requires call.Hit? || call.Peek?
  {
    if call.Hit? then HitVerdict(log, call.key, call.limit, call.window, call.now)
    else PeekVerdict(log, call.key, call.limit, call.window, call.now)
  }

  class SlidingWindowBackend {
    var hits: map<string, seq<real>>
    ghost var log: seq<Call>  // every call so far

    ghost predicate Valid()
      reads this
    {
      hits == Replay(log)
    }

    constructor ()
      ensures Valid() && log == []
    {
      hits := map[];
      log := [];
    }

    method PruneBucket(key: string, window: int, now: real) returns (bucket: seq<real>)
      modifies this`hits
      ensures bucket == Prune(BucketOf(old(hits), key), now - window as real)
      ensures hits == old(hits)[key := bucket]
    {
      bucket := BucketOf(hits, key);
      var cutoff := now - window as real;
      ghost var whole := bucket;
      while bucket != [] && bucket[0] <= cutoff
        invariant Prune(bucket, cutoff) == Prune(whole, cutoff)
      {
        bucket := bucket[1..];
      }
      hits := hits[key := bucket];
    }

    method Hit(key: string, limit: int, window: int, now: real) returns (v: Verdict)
      requires Valid()
      modifies this
      ensures Valid()
      ensures log == old(log) + [Call.Hit(key, limit, window, now)]
      ensures v == HitVerdict(old(log), key, limit, window, now)
    {
      var bucket := PruneBucket(key, window, now);
      bucket := bucket + [now];
      hits := hits[key := bucket];
      v := Report(bucket, limit, window, now, |bucket| <= limit);
      ghost var before := log;
      log := log + [Call.Hit(key, limit, window, now)];
      assert log[..|log| - 1] == before;
    }

    method Peek(key: string, limit: int, window: int, now: real) returns (v: Verdict)
      requires Valid()
      modifies this
      ensures Valid()
      ensures log == old(log) + [Call.Peek(key, limit, window, now)]
      ensures v == PeekVerdict(old(log), key, limit, window, now)
    {
      var bucket := PruneBucket(key, window, now);
      v := Report(bucket, limit, window, now, |bucket| < limit);
      ghost var before := log;
      log := log + [Call.Peek(key, limit, window, now)];
      assert log[..|log| - 1] == before;
    }

    method Clear(key: string)
      requires Valid()
      modifies this
      ensures Valid() && log == old(log) + [Call.Clear(key)]
    {
      hits := hits - {key};
      ghost var before := log;
      log := log + [Call.Clear(key)];
      assert log[..|log| - 1] == before;
    }

    method Reset()
      requires Valid()
      modifies this
      ensures Valid() && log == old(log) + [Call.Reset]
    {
      hits := map[];
      ghost var before := log;
      log := log + [Call.Reset];
      assert log[..|log| - 1] == before;
    }
  }

  // ----- the full attempt history ---------------------------------------------------------

  /** The times of every hit on the key since it was last cleared: nothing is ever pruned. */
  function Attempts(log: seq<Call>, key: string): seq<real> {
    if log == [] then [] else Record(Attempts(log[..|log| - 1], key), log[|log| - 1], key)
  }

  function Record(times: seq<real>, call: Call, key: string): seq<real> {
    match call
    case Hit(k, _, _, t) => if k == key then times + [t] else times
    case Peek(_, _, _, _) => times
    case Clear(k) => if k == key then [] else times
    case Reset => []
  }

  /** The times of the hits on the key that were allowed, since it was last cleared. */
  function AllowedHits(log: seq<Call>, key: string): seq<real> {
    if log == [] then []
    else
      var prefix := log[..|log| - 1];
      var before := AllowedHits(prefix, key);
      match log[|log| - 1]
      case Hit(k, l, w, t) => if k == key && HitVerdict(prefix, k, l, w, t).allowed then before + [t] else before
      case Peek(_, _, _, _) => before
      case Clear(k) => if k == key then [] else before
      case Reset => []
  }

  /** The attempts newer than the cutoff. */
  function Live(times: seq<real>, cutoff: real): seq<real> {
    if times == [] then []
    else
      Live(times[..|times| - 1], cutoff)
      + if times[|times| - 1] > cutoff then [times[|times| - 1]] else []
  }

  /** How many of the times fall in the half-open interval [from, to). */
  function CountIn(times: seq<real>, from: real, to: real): nat {
    if times == [] then 0
    else CountIn(times[..|times| - 1], from, to) + if from <= times[|times| - 1] < to then 1 else 0
  }

  /** The clock never runs backwards, and the last reading is at most now. */
  predicate Ordered(log: seq<Call>, now: real) {
    log == [] ||
    var last := log[|log| - 1];
    if last.Hit? || last.Peek? then last.now <= now && Ordered(log[..|log| - 1], last.now)
    else Ordered(log[..|log| - 1], now)
  }

  /** Since the key was last cleared, every call on it used this window. */
  predicate FixedWindow(log: seq<Call>, key: string, window: int) {
    log == [] ||
    var last := log[|log| - 1];
    match last
    case Hit(k, _, w, _) => (k == key ==> w == window) && FixedWindow(log[..|log| - 1], key, window)
    case Peek(k, _, w, _) => (k == key ==> w == window) && FixedWindow(log[..|log| - 1], key, window)
    case Clear(k) => k == key || FixedWindow(log[..|log| - 1], key, window)
    case Reset => true
  }

  /** Since the key was last cleared, every hit on it used this limit. */
  predicate FixedLimit(log: seq<Call>, key: string, limit: int) {
    log == [] ||
    var last := log[|log| - 1];
    match last
    case Hit(k, l, _, _) => (k == key ==> l == limit) && FixedLimit(log[..|log| - 1], key, limit)
    case Peek(_, _, _, _) => FixedLimit(log[..|log| - 1], key, limit)
    case Clear(k) => k == key || FixedLimit(log[..|log| - 1], key, limit)
    case Reset => true
  }

  /** The calls contain no clear of the key. */
  predicate NoClear(calls: seq<Call>, key: string) {
    forall i :: 0 <= i < |calls| ==> calls[i] != Clear(key) && calls[i] != Reset
  }

  predicate NoHit(calls: seq<Call>, key: string) {
    forall i :: 0 <= i < |calls| ==> !(calls[i].Hit? && calls[i].key == key)
  }

  // ----- the pruned deque refines the history ---------------------------------------------

  predicate Ascending(times: seq<real>) {
    forall i, j :: 0 <= i < j < |times| ==> times[i] <= times[j]
  }

  lemma {:induction false} LiveOfTail(times: seq<real>, cutoff: real)
    requires times != [] && times[0] <= cutoff
    ensures Live(times, cutoff) == Live(times[1..], cutoff)
  {
    if |times| > 1 {
      LiveOfTail(times[..|times| - 1], cutoff);
      assert times[..|times| - 1][1..] == times[1..][..|times| - 2];
    } else {
      assert times[..0] == [] && times[1..] == [];
    }
  }

  lemma {:induction false} LiveOfAllLive(times: seq<real>, cutoff: real)
    requires forall i :: 0 <= i < |times| ==> times[i] > cutoff
    ensures Live(times, cutoff) == times
  {
    if times != [] {
      LiveOfAllLive(times[..|times| - 1], cutoff);
    }
  }

  /** On times in order, popping from the left is filtering. */
  lemma {:induction false} PruneIsLive(times: seq<real>, cutoff: real)
    requires Ascending(times)
    ensures Prune(times, cutoff) == Live(times, cutoff)
  {
    if times != [] && times[0] <= cutoff {
      PruneIsLive(times[1..], cutoff);
      LiveOfTail(times, cutoff);
    } else {
      LiveOfAllLive(times, cutoff);
    }
  }

  lemma {:induction false} LiveOfLive(times: seq<real>, early: real, late: real)
    requires early <= late
    ensures Live(Live(times, early), late) == Live(times, late)
  {
    if times != [] {
      var front, t := times[..|times| - 1], times[|times| - 1];
      LiveOfLive(front, early, late);
      var l := Live(front, early);
      if t > early {
        LiveAppend(l, t, late);
      } else {
        assert Live(times, early) == l;
      }
    }
  }

  lemma {:induction false} LiveAscending(times: seq<real>, cutoff: real)
    requires Ascending(times)
    ensures Ascending(Live(times, cutoff))
    ensures forall x :: x in Live(times, cutoff) ==> x in times && x > cutoff
  {
    if times != [] {
      var front, t := times[..|times| - 1], times[|times| - 1];
      LiveAscending(front, cutoff);
      assert forall x :: x in front ==> x <= t;
      AscendingAppend(Live(front, cutoff), t);
      if t <= cutoff {
        assert Live(times, cutoff) == Live(front, cutoff);
      }
    }
  }

  lemma {:induction false} AttemptsOrdered(log: seq<Call>, key: string, now: real)
    requires Ordered(log, now)
    ensures Ascending(Attempts(log, key))
    ensures forall x :: x in Attempts(log, key) ==> x <= now
  {
    if log != [] {
      var prefix, last := log[..|log| - 1], log[|log| - 1];
      AttemptsOrdered(prefix, key, if last.Hit? || last.Peek? then last.now else now);
      if last.Hit? && last.key == key {
        AscendingAppend(Attempts(prefix, key), last.now);
      }
    }
  }

  lemma AscendingAppend(times: seq<real>, t: real)
    requires Ascending(times) && forall x :: x in times ==> x <= t
    ensures Ascending(times + [t])
  {
    forall i, j | 0 <= i < j < |times + [t]| ensures (times + [t])[i] <= (times + [t])[j] {
      if j == |times| {
        assert times[i] in times;
      }
    }
  }

  lemma LiveAppend(times: seq<real>, t: real, cutoff: real)
    ensures Live(times + [t], cutoff) == Live(times, cutoff) + if t > cutoff then [t] else []
  {
    assert (times + [t])[..|times|] == times;
  }

  lemma PruneOfLive(times: seq<real>, early: real, late: real)
    requires Ascending(times) && early <= late
    ensures Prune(Live(times, early), late) == Live(times, late)
  {
    LiveAscending(times, early);
    LiveOfLive(times, early, late);
    PruneIsLive(Live(times, early), late);
  }

  lemma PruneAfterHit(times: seq<real>, t: real, early: real, late: real)
    requires Ascending(times) && early <= late && forall x :: x in times ==> x <= t
    ensures Prune(Live(times, early) + [t], late) == Live(times + [t], late)
  {
    var live := Live(times, early);
    LiveAscending(times, early);
    LiveOfLive(times, early, late);
    AscendingAppend(live, t);
    PruneIsLive(live + [t], late);
    LiveAppend(live, t, late);
    LiveAppend(times, t, late);
  }

  lemma AfterCall(log: seq<Call>, call: Call, key: string)
    ensures Replay(log + [call]) == Apply(Replay(log), call)
    ensures Attempts(log + [call], key) == Record(Attempts(log, key), call, key)
  {
    assert (log + [call])[..|log|] == log;
  }

  lemma PrunedAfterTimed(log: seq<Call>, call: Call, early: real, late: real)
    requires call.Hit? || call.Peek?
    requires early == call.now - call.window as real <= late
    requires var times := Attempts(log, call.key);
      && Ascending(times) && (forall x :: x in times ==> x <= call.now)
      && Prune(BucketOf(Replay(log), call.key), early) == Live(times, early)
    ensures Prune(BucketOf(Replay(log + [call]), call.key), late) == Live(Attempts(log + [call], call.key), late)
  {
    AfterCall(log, call, call.key);
    if call.Hit? {
      PruneAfterHit(Attempts(log, call.key), call.now, early, late);
    } else {
      PruneOfLive(Attempts(log, call.key), early, late);
    }
  }

  /** Whatever was called before, the deque pruned at now holds exactly the attempts since the
      last clear that are newer than now - window. */
  lemma {:induction false} PrunedIsLiveHistory(log: seq<Call>, key: string, window: int, now: real)
    requires Ordered(log, now) && FixedWindow(log, key, window)
    ensures Pruned(log, key, window, now) == Live(Attempts(log, key), now - window as real)
  {
    if log != [] {
      var prefix, last := log[..|log| - 1], log[|log| - 1];
      assert log == prefix + [last];
      if (last.Hit? || last.Peek?) && last.key == key {
        PrunedIsLiveHistory(prefix, key, window, last.now);
        AttemptsOrdered(prefix, key, last.now);
        PrunedAfterTimed(prefix, last, last.now - window as real, now - window as real);
      } else {
        AfterCall(prefix, last, key);
        if last != Clear(key) && last != Reset {
          if !last.Clear? {
            OrderedLater(prefix, last.now, now);
          }
          PrunedIsLiveHistory(prefix, key, window, now);
        }
      }
    }
  }

  lemma {:induction false} OrderedLater(log: seq<Call>, t: real, now: real)
    requires Ordered(log, t) && t <= now
    ensures Ordered(log, now)
  {
    if log != [] && !log[|log| - 1].Hit? && !log[|log| - 1].Peek? {
      OrderedLater(log[..|log| - 1], t, now);
    }
  }

  /** The stored deque itself is the live history right after a timed call - except after a hit with
      a window of zero or less, whose own attempt is kept although it is already out of the window. */
  lemma StoredIsLiveHistory(log: seq<Call>, call: Call)
    requires call.Hit? || call.Peek?
    requires Ordered(log, call.now) && FixedWindow(log, call.key, call.window)
    ensures Replay(log + [call])[call.key] == Live(Attempts(log + [call], call.key), call.now - call.window as real)
       <==> call.Peek? || call.window > 0
  {
    var cutoff := call.now - call.window as real;
    AfterCall(log, call, call.key);
    PrunedIsLiveHistory(log, call.key, call.window, call.now);
    LiveAppend(Attempts(log, call.key), call.now, cutoff);
  }

  // ----- the sliding bound ----------------------------------------------------------------

  lemma {:induction false} AllowedWithinLive(log: seq<Call>, key: string, cutoff: real, from: real, to: real)
    requires cutoff < from
    ensures CountIn(AllowedHits(log, key), from, to) <= |Live(Attempts(log, key), cutoff)|
  {
    if log != [] {
      var prefix, last := log[..|log| - 1], log[|log| - 1];
      AllowedWithinLive(prefix, key, cutoff, from, to);
      if last.Hit? && last.key == key {
        LiveAppend(Attempts(prefix, key), last.now, cutoff);
        CountAppend(AllowedHits(prefix, key), last.now, from, to);
      }
    }
  }

  lemma CountAppend(times: seq<real>, t: real, from: real, to: real)
    ensures CountIn(times + [t], from, to) == CountIn(times, from, to) + if from <= t < to then 1 else 0
  {
    assert (times + [t])[..|times|] == times;
  }

  lemma HitWithinBound(log: seq<Call>, key: string, limit: int, window: int, now: real, from: real)
    requires Ordered(log, now) && FixedWindow(log, key, window)
    requires from <= now < from + window as real && HitVerdict(log, key, limit, window, now).allowed
    ensures CountIn(AllowedHits(log, key), from, from + window as real) + 1 <= limit
  {
    PeekPredictsHit(log, key, limit, window, now);
    AllowedWithinLive(log, key, now - window as real, from, from + window as real);
  }

  /** Between two clears of a key no half-open interval of one window's length, wherever it
      starts, holds more than limit allowed hits. */
  lemma {:induction false} SlidingBound(log: seq<Call>, key: string, limit: int, window: int, now: real, from: real)
    requires Ordered(log, now) && FixedWindow(log, key, window) && FixedLimit(log, key, limit)
    ensures CountIn(AllowedHits(log, key), from, from + window as real) <= if limit > 0 then limit else 0
  {
    if log != [] {
      var prefix, last := log[..|log| - 1], log[|log| - 1];
      var to := from + window as real;
      if last == Clear(key) || last == Reset {
      } else if last.Hit? && last.key == key {
        SlidingBound(prefix, key, limit, window, last.now, from);
        CountAppend(AllowedHits(prefix, key), last.now, from, to);
        if from <= last.now < to && HitVerdict(prefix, key, limit, window, last.now).allowed {
          HitWithinBound(prefix, key, limit, window, last.now, from);
        }
      } else if last.Hit? || last.Peek? {
        SlidingBound(prefix, key, limit, window, last.now, from);
      } else {
        SlidingBound(prefix, key, limit, window, now, from);
      }
    }
  }

  // ----- peek, hit and retry_after --------------------------------------------------------

  /** A hit is allowed exactly when it and the live attempts fit in the limit, and a peek at the
      same moment says so beforehand. */
  lemma PeekPredictsHit(log: seq<Call>, key: string, limit: int, window: int, now: real)
    requires Ordered(log, now) && FixedWindow(log, key, window)
    ensures HitVerdict(log, key, limit, window, now).allowed
       <==> |Live(Attempts(log, key), now - window as real)| + 1 <= limit
    ensures var peeked := log + [Peek(key, limit, window, now)];
      PeekVerdict(log, key, limit, window, now).allowed
      <==> HitVerdict(peeked, key, limit, window, now).allowed
  {
    var peeked := log + [Peek(key, limit, window, now)];
    assert peeked[..|log|] == log;
    PrunedIsLiveHistory(log, key, window, now);
    PrunedIsLiveHistory(peeked, key, window, now);
  }

  /** All of an answer, from the live attempts: it is allowed exactly when they and one more fit in the limit;
      what remains is what the limit leaves over the attempts counted, a hit's own among them; and a refusal's
      wait goes past the expiry of the oldest attempt counted by at most one second. */
  predicate AnswerIs(v: Verdict, live: seq<real>, call: Call)
    requires call.Hit? || call.Peek?
  {
    var counted := live + if call.Hit? then [call.now] else [];
    && (v.allowed <==> |live| + 1 <= call.limit)
    && v.remaining == (if call.limit > |counted| then call.limit - |counted| else 0)
    && (v.allowed || counted == [] ==> v.retryAfter == 0)
    && (!v.allowed && counted != [] && call.window >= 0 ==>
          var expiry := counted[0] + call.window as real - call.now;
          expiry < v.retryAfter as real <= expiry + 1.0)
    && (!v.allowed && counted != [] && call.window < 0 ==> v.retryAfter == 1)
  }

  lemma ReportMeans(live: seq<real>, call: Call)
    requires call.Hit? || call.Peek?
    requires forall x :: x in live ==> call.now - call.window as real < x <= call.now
    ensures var counted := live + if call.Hit? then [call.now] else [];
      AnswerIs(Report(counted, call.limit, call.window, call.now, |live| + 1 <= call.limit), live, call)
  {
    assert live != [] ==> live[0] in live;
  }

  lemma LiveSpan(log: seq<Call>, key: string, cutoff: real, now: real)
    requires Ordered(log, now)
    ensures forall x :: x in Live(Attempts(log, key), cutoff) ==> cutoff < x <= now
  {
    AttemptsOrdered(log, key, now);
    LiveAscending(Attempts(log, key), cutoff);
  }

  /** Every answer is that, on every log of calls with an ordered clock and one window. */
  lemma AnswerMeans(log: seq<Call>, call: Call)
    requires call.Hit? || call.Peek?
    requires Ordered(log, call.now) && FixedWindow(log, call.key, call.window)
    ensures AnswerIs(VerdictOf(log, call), Live(Attempts(log, call.key), call.now - call.window as real), call)
  {
    LiveSpan(log, call.key, call.now - call.window as real, call.now);
    PrunedIsLiveHistory(log, call.key, call.window, call.now);
    PrunedAnswers(log, call);
  }

  lemma PrunedAnswers(log: seq<Call>, call: Call)
    requires call.Hit? || call.Peek?
    requires var live := Pruned(log, call.key, call.window, call.now);
      forall x :: x in live ==> call.now - call.window as real < x <= call.now
    ensures AnswerIs(VerdictOf(log, call), Pruned(log, call.key, call.window, call.now), call)
  {
    var live := Pruned(log, call.key, call.window, call.now);
    ReportMeans(live, call);
    assert live + [] == live;
  }

  lemma {:induction false} LiveMembers(times: seq<real>, cutoff: real)
    ensures forall x :: x in Live(times, cutoff) ==> x > cutoff
  {
    if times != [] {
      LiveMembers(times[..|times| - 1], cutoff);
    }
  }

  lemma {:induction false} LiveGrows(log: seq<Call>, more: seq<Call>, key: string, cutoff: real)
    requires NoClear(more, key)
    ensures |Live(Attempts(log, key), cutoff)| <= |Live(Attempts(log + more, key), cutoff)|
    ensures NoHit(more, key) ==> Attempts(log + more, key) == Attempts(log, key)
    decreases |more|
  {
    if more == [] {
      assert log + more == log;
    } else {
      var front := more[..|more| - 1];
      LiveGrows(log, front, key, cutoff);
      assert (log + more)[..|log + more| - 1] == log + front;
      assert (log + more)[|log + more| - 1] == more[|more| - 1];
      if more[|more| - 1].Hit? && more[|more| - 1].key == key {
        LiveAppend(Attempts(log + front, key), more[|more| - 1].now, cutoff);
      }
    }
  }

  /** retry_after of a refused call: it exceeds the time until the oldest live attempt leaves the
      window, by at most one second. */
  lemma RetryAfterBounds(log: seq<Call>, key: string, limit: int, window: nat, now: real, hit: bool)
    requires Ordered(log, now) && FixedWindow(log, key, window)
    requires var live := Live(Attempts(log, key), now - window as real);
      live != [] && |live| >= limit
    ensures
      var v := if hit then HitVerdict(log, key, limit, window, now) else PeekVerdict(log, key, limit, window, now);
      var expiry := Live(Attempts(log, key), now - window as real)[0] + window as real - now;
      !v.allowed && expiry < v.retryAfter as real <= expiry + 1.0
  {
    PrunedIsLiveHistory(log, key, window, now);
    LiveMembers(Attempts(log, key), now - window as real);
    var live := Live(Attempts(log, key), now - window as real);
    assert live[0] in live;
  }

  lemma {:induction false} NothingExpires(times: seq<real>, early: real, late: real)
    requires early <= late
    requires forall x :: x in Live(times, early) ==> x > late
    ensures Live(times, late) == Live(times, early)
  {
    if times != [] {
      var front, t := times[..|times| - 1], times[|times| - 1];
      assert forall x :: x in Live(front, early) ==> x in Live(times, early);
      if t > early {
        assert t in Live(times, early);
      }
      NothingExpires(front, early, late);
    }
  }

  lemma FullDenies(log: seq<Call>, key: string, limit: int, window: int, now: real)
    requires Ordered(log, now) && FixedWindow(log, key, window)
    requires |Live(Attempts(log, key), now - window as real)| >= limit
    ensures !HitVerdict(log, key, limit, window, now).allowed
  {
    PrunedIsLiveHistory(log, key, window, now);
  }

  lemma LiveUntilExpiry(log: seq<Call>, more: seq<Call>, key: string, now: real, early: real, late: real)
    requires Ordered(log, now) && NoClear(more, key) && early <= late
    requires Live(Attempts(log, key), early) != [] && late < Live(Attempts(log, key), early)[0]
    ensures |Live(Attempts(log, key), early)| <= |Live(Attempts(log + more, key), late)|
  {
    AttemptsOrdered(log, key, now);
    LiveAscending(Attempts(log, key), early);
    NothingExpires(Attempts(log, key), early, late);
    LiveGrows(log, more, key, late);
  }

  /** Once a key is full, every hit made before its oldest live attempt leaves the window is
      refused, whatever else is called in between short of a clear. */
  lemma DeniedUntilExpiry(log: seq<Call>, more: seq<Call>, key: string, limit: int, window: int, now: real, later: real)
    requires Ordered(log, now) && FixedWindow(log, key, window)
    requires Ordered(log + more, later) && FixedWindow(log + more, key, window) && NoClear(more, key)
    requires var live := Live(Attempts(log, key), now - window as real);
      live != [] && |live| >= limit && now <= later < live[0] + window as real
    ensures !HitVerdict(log + more, key, limit, window, later).allowed
  {
    LiveUntilExpiry(log, more, key, now, now - window as real, later - window as real);
    FullDenies(log + more, key, limit, window, later);
  }

  /** The first hit after a refusal is allowed exactly when, of the live attempts counted at the
      refusal, all but the newest limit - 1 have left the window. */
  lemma FirstHitAfterRefusal(log: seq<Call>, more: seq<Call>, key: string, limit: int, window: int, now: real,
                             later: real)
    requires Ordered(log, now) && FixedWindow(log, key, window) && now <= later
    requires Ordered(log + more, later) && FixedWindow(log + more, key, window)
    requires NoClear(more, key) && NoHit(more, key)
    requires |Live(Attempts(log, key), now - window as real)| >= limit >= 1
    ensures var live := Live(Attempts(log, key), now - window as real);
      HitVerdict(log + more, key, limit, window, later).allowed
      <==> live[|live| - limit] + window as real <= later
  {
    var early, late := now - window as real, later - window as real;
    var times := Attempts(log, key);
    var live := Live(times, early);
    AttemptsOrdered(log, key, now);
    LiveAscending(times, early);
    LiveGrows(log, more, key, late);
    PrunedIsLiveHistory(log + more, key, window, later);
    PruneOfLive(times, early, late);
    PruneLength(live, late, |live| - limit);
  }

  lemma {:induction false} PruneLength(times: seq<real>, cutoff: real, k: nat)
    requires Ascending(times) && k < |times|
    ensures |Prune(times, cutoff)| < |times| - k <==> times[k] <= cutoff
  {
    if times[0] <= cutoff && k > 0 {
      PruneLength(times[1..], cutoff, k - 1);
    } else if times[0] <= cutoff {
      PruneShrinks(times[1..], cutoff);
    }
  }

  lemma {:induction false} PruneShrinks(times: seq<real>, cutoff: real)
    ensures |Prune(times, cutoff)| <= |times|
  {
    if times != [] {
      PruneShrinks(times[1..], cutoff);
    }
  }

  /** A peek refused with exactly limit live attempts promises the truth: wait its retry_after and
      the first hit is allowed. */
  lemma WaitThenHit(log: seq<Call>, more: seq<Call>, key: string, limit: int, window: nat, now: real, later: real)
    requires Ordered(log, now) && FixedWindow(log, key, window)
    requires Ordered(log + more, later) && FixedWindow(log + more, key, window)
    requires NoClear(more, key) && NoHit(more, key)
    requires |Live(Attempts(log, key), now - window as real)| == limit >= 1
    requires now + PeekVerdict(log, key, limit, window, now).retryAfter as real <= later
    ensures HitVerdict(log + more, key, limit, window, later).allowed
  {
    RetryAfterBounds(log, key, limit, window, now, false);
    FirstHitAfterRefusal(log, more, key, limit, window, now, later);
  }

  /** After such a peek the first hit is allowed from the oldest live attempt's expiry on, and that is
      strictly before now + retry_after: the answer is never the earliest moment either. */
  lemma AllowedBeforeRetryAfter(log: seq<Call>, more: seq<Call>, key: string, limit: int, window: nat, now: real,
                                later: real)
    requires Ordered(log, now) && FixedWindow(log, key, window) && now <= later
    requires Ordered(log + more, later) && FixedWindow(log + more, key, window)
    requires NoClear(more, key) && NoHit(more, key)
    requires |Live(Attempts(log, key), now - window as real)| == limit >= 1
    ensures var expiry := Live(Attempts(log, key), now - window as real)[0] + window as real;
      && now < expiry < now + PeekVerdict(log, key, limit, window, now).retryAfter as real
      && (HitVerdict(log + more, key, limit, window, later).allowed <==> expiry <= later)
  {
    RetryAfterBounds(log, key, limit, window, now, false);
    FirstHitAfterRefusal(log, more, key, limit, window, now, later);
    LiveMembers(Attempts(log, key), now - window as real);
    var live := Live(Attempts(log, key), now - window as real);
    assert live[0] in live;
  }

  /** A refusal leaves at least limit live attempts, the refused hit's own among them. */
  lemma RefusedMeansFull(log: seq<Call>, refused: Call)
    requires (refused.Hit? || refused.Peek?) && refused.window >= 0 && refused.limit >= 1
    requires Ordered(log, refused.now) && FixedWindow(log, refused.key, refused.window)
    requires !VerdictOf(log, refused).allowed
    ensures |Live(Attempts(log + [refused], refused.key), refused.now - refused.window as real)| >= refused.limit
    ensures Ordered(log + [refused], refused.now) && FixedWindow(log + [refused], refused.key, refused.window)
  {
    PrunedIsLiveHistory(log, refused.key, refused.window, refused.now);
    AfterCall(log, refused, refused.key);
    LiveAppend(Attempts(log, refused.key), refused.now, refused.now - refused.window as real);
    assert (log + [refused])[..|log|] == log;
  }

  /** Whether waiting out retry_after is enough, for any refused peek or hit: exactly if the attempt
      that must leave the window - counted with the refused hit itself - has left it by then. */
  lemma RetryAfterSuffices(log: seq<Call>, refused: Call, more: seq<Call>, again: real)
    requires (refused.Hit? || refused.Peek?) && refused.window >= 0 && refused.limit >= 1
    requires Ordered(log, refused.now) && FixedWindow(log, refused.key, refused.window)
    requires !VerdictOf(log, refused).allowed
    requires again == refused.now + VerdictOf(log, refused).retryAfter as real
    requires Ordered(log + [refused] + more, again) && FixedWindow(log + [refused] + more, refused.key, refused.window)
    requires NoClear(more, refused.key) && NoHit(more, refused.key)
    ensures var live := Live(Attempts(log + [refused], refused.key), refused.now - refused.window as real);
      && |live| >= refused.limit
      && (HitVerdict(log + [refused] + more, refused.key, refused.limit, refused.window, again).allowed
          <==> live[|live| - refused.limit] + refused.window as real <= again)
  {
    RefusedMeansFull(log, refused);
    FirstHitAfterRefusal(log + [refused], more, refused.key, refused.limit, refused.window, refused.now, again);
  }

  /** After a refused hit retry_after can be too short: with limit 1 and a 10 second window, hits
      at 0 and 5 leave 6 seconds to wait, and a hit at 11 is refused all the same. */
  lemma RetryAfterTooShortAfterHit(key: string)
    ensures var log := [Hit(key, 1, 10, 0.0)];
      var v := HitVerdict(log, key, 1, 10, 5.0);
      !v.allowed && v.retryAfter == 6
      && !HitVerdict(log + [Hit(key, 1, 10, 5.0)], key, 1, 10, 5.0 + 6.0).allowed
  {
    var first, second := Hit(key, 1, 10, 0.0), Hit(key, 1, 10, 5.0);
    ReplayHit([], key, 1, 10, 0.0);
    assert [] + [first] == [first];
    ReplayHit([first], key, 1, 10, 5.0);
    assert [first] + [second] == [first, second];
    assert Prune([0.0, 5.0], 1.0) == [5.0] by {
      assert [0.0, 5.0][1..] == [5.0];
    }
  }

  lemma ReplayHit(log: seq<Call>, key: string, limit: int, window: int, now: real)
    ensures BucketOf(Replay(log + [Hit(key, limit, window, now)]), key) == Pruned(log, key, window, now) + [now]
  {
    AfterCall(log, Hit(key, limit, window, now), key);
  }
}
