/** The per-client token bucket of the API: every client may make up to
    `MaxTokens` requests in a burst, and earns one request back for every
    `RefillInterval` milliseconds that pass. The buckets live in one map from
    client id to the time of the client's last request and its tokens left.

    The clock is a parameter: every operation that reads the current time
    takes it as `now` (milliseconds since the epoch). */
module RateLimit {
  import opened Common
  import opened Runs

  const RateLimitWindow: int := 60000
  const MaxTokens: int := 60
  /** Milliseconds that earn back one token. */
  const RefillInterval: int := RateLimitWindow / MaxTokens

  /** What the limiter remembers about one client. */
  datatype Bucket = Bucket(timestamp: int, tokens: int)

  /** `Math.floor(elapsed / RefillInterval)`: the whole intervals in `elapsed`.
      A clock that went backwards gives a negative count. */
  function RestoredTokens(elapsed: int): (r: int)
    ensures r * RefillInterval <= elapsed < (r + 1) * RefillInterval
  {
    elapsed / RefillInterval
  }

  /** `Math.min(MaxTokens, tokens + restored)`. */
  function RefilledTokens(b: Bucket, now: int): (n: int)
    ensures n <= MaxTokens && n <= b.tokens + RestoredTokens(now - b.timestamp)
    ensures n == MaxTokens || n == b.tokens + RestoredTokens(now - b.timestamp)
  {
    var sum := b.tokens + RestoredTokens(now - b.timestamp);
    if sum < MaxTokens then sum else MaxTokens
  }

  /** The answer to one request and the bucket stored afterwards. */
  datatype Outcome = Outcome(limited: bool, bucket: Bucket)

  /** One request at time `now` from a client whose bucket is `entry`
      (`None` for a client never seen). Every request, refused or not, moves
      the bucket's time to `now`, and the bucket always ends with between 0 and
      `MaxTokens - 1` tokens. */
  function Admit(entry: Option<Bucket>, now: int): (o: Outcome)
    ensures o.bucket.timestamp == now
    ensures 0 <= o.bucket.tokens < MaxTokens
    ensures entry.None? ==> o == Outcome(false, Bucket(now, MaxTokens - 1))
    ensures o.limited ==> o.bucket.tokens == 0
  {
    match entry
    case None => Outcome(false, Bucket(now, MaxTokens - 1))
    case Some(b) =>
      var n := RefilledTokens(b, now);
      if n < 1 then Outcome(true, Bucket(now, 0)) else Outcome(false, Bucket(now, n - 1))
  }

  /** The tokens a client has left: a full bucket for an unknown client. */
  function RemainingTokens(entry: Option<Bucket>): (n: int)
    ensures entry.None? ==> n == MaxTokens
    ensures entry.Some? ==> n == entry.value.tokens
  {
    if entry.Some? then entry.value.tokens else MaxTokens
  }

  /** Milliseconds until a full window has passed since the client's last
      request; 0 for an unknown client. */
  function TimeUntilReset(entry: Option<Bucket>, now: int): (ms: int)
    ensures ms >= 0
    ensures entry.None? ==> ms == 0
    ensures entry.Some? ==> (ms == 0 <==> now - entry.value.timestamp >= RateLimitWindow)
    ensures entry.Some? && now >= entry.value.timestamp ==> ms <= RateLimitWindow
    ensures entry.Some? && ms > 0 ==> ms + (now - entry.value.timestamp) == RateLimitWindow
  {
    match entry
    case None => 0
    case Some(b) =>
      var remaining := RateLimitWindow - (now - b.timestamp);
      if remaining > 0 then remaining else 0
  }

  /** A known client is refused exactly when its stored tokens plus the
      tokens earned since its last request make less than one. */
  lemma LimitedIffNoTokens(b: Bucket, now: int)
    ensures Admit(Some(b), now).limited <==> b.tokens + RestoredTokens(now - b.timestamp) < 1
    ensures !Admit(Some(b), now).limited ==>
      Admit(Some(b), now).bucket.tokens == RefilledTokens(b, now) - 1
  {
    var n := RefilledTokens(b, now);
    assert n == MaxTokens || n == b.tokens + RestoredTokens(now - b.timestamp);
  }

  /** A client whose stored tokens are at least one is served next, however
      little time has passed. */
  lemma RemainingTokenAdmits(entry: Option<Bucket>, now: int)
    requires entry.Some? ==> now >= entry.value.timestamp
    requires RemainingTokens(entry) >= 1
    ensures !Admit(entry, now).limited
  {
    if entry.Some? {
      LimitedIffNoTokens(entry.value, now);
      assert RestoredTokens(now - entry.value.timestamp) >= 0;
    }
  }

  /** Once `TimeUntilReset` reports 0, the next request is served from a full
      bucket. */
  lemma ResetRefillsBucket(b: Bucket, now: int)
    requires b.tokens >= 0
    requires TimeUntilReset(Some(b), now) == 0
    ensures Admit(Some(b), now) == Outcome(false, Bucket(now, MaxTokens - 1))
  {
    assert RestoredTokens(now - b.timestamp) >= MaxTokens;
    assert RefilledTokens(b, now) == MaxTokens;
  }

  /** An empty bucket stays empty, and the request is refused, while less
      than one interval has passed. */
  lemma EmptyBucketRefuses(b: Bucket, now: int)
    requires b.tokens == 0
    requires now - b.timestamp < RefillInterval
    ensures Admit(Some(b), now) == Outcome(true, Bucket(now, 0))
  {
    assert RestoredTokens(now - b.timestamp) <= 0;
  }

  /** A served request spends one token: the tokens left plus the request
      served never exceed the tokens stored plus those earned in between. */
  lemma AdmitSpends(b: Bucket, now: int)
    requires b.tokens >= 0 && b.timestamp <= now
    ensures var o := Admit(Some(b), now);
      (if o.limited then 0 else 1) + o.bucket.tokens <= b.tokens + RestoredTokens(now - b.timestamp)
  {
    LimitedIffNoTokens(b, now);
  }

  /** Earned tokens are never lost by splitting a stretch of time in two:
      `floor(x / I) + floor(y / I) <= floor((x + y) / I)`. */
  lemma RestoredSuperadditive(x: int, y: int)
    ensures RestoredTokens(x) + RestoredTokens(y) <= RestoredTokens(x + y)
  {
    var a, b, c := RestoredTokens(x), RestoredTokens(y), RestoredTokens(x + y);
    assert (a + b) * RefillInterval <= x + y < (c + 1) * RefillInterval;
  }

  /** The requests served and the bucket left after a client makes requests
      at the given times, one after another. */
  datatype Replayed = Replayed(served: nat, entry: Option<Bucket>)

  function Replay(entry: Option<Bucket>, times: seq<int>): (r: Replayed)
    ensures |times| > 0 ==> r.entry.Some? && r.entry.value.timestamp == Last(times)
    ensures |times| == 0 ==> r == Replayed(0, entry)
    ensures r.served <= |times|
    decreases |times|
  {
    if |times| == 0 then Replayed(0, entry)
    else
      var before := Replay(entry, AllButLast(times));
      var o := Admit(before.entry, Last(times));
      Replayed(before.served + (if o.limited then 0 else 1), Some(o.bucket))
  }

  /** The time before the `i`th request: the previous request, or `start`
      before the first. */
  function Gap(start: int, times: seq<int>, i: int): int
    requires 0 <= i < |times|
  {
    times[i] - (if i == 0 then start else times[i - 1])
  }

  /** The requests come in time order, none before `start`. */
  predicate Chronological(start: int, times: seq<int>)
  {
    forall i :: 0 <= i < |times| ==> Gap(start, times, i) >= 0
  }

  function LastTime(start: int, times: seq<int>): int
  {
    if |times| == 0 then start else Last(times)
  }

  lemma GapsOfPrefix(start: int, times: seq<int>)
    requires |times| > 0
    ensures forall i :: 0 <= i < |times| - 1 ==> Gap(start, AllButLast(times), i) == Gap(start, times, i)
    ensures Gap(start, times, |times| - 1) == Last(times) - LastTime(start, AllButLast(times))
  {
  }

  /** The token-bucket guarantee: from a bucket with `tokens` left at time
      `start`, requests in time order are served at most `tokens` plus the
      whole intervals elapsed up to the last of them, counting the tokens
      still left at the end. */
  lemma {:induction false} ServedWithinBudget(b: Bucket, times: seq<int>)
    requires b.tokens >= 0
    requires Chronological(b.timestamp, times)
    ensures var r := Replay(Some(b), times);
      && r.entry.Some? && r.entry.value.tokens >= 0
      && r.served + r.entry.value.tokens
         <= b.tokens + RestoredTokens(LastTime(b.timestamp, times) - b.timestamp)
    decreases |times|
  {
    if |times| > 0 {
      var init := AllButLast(times);
      var t := Last(times);
      GapsOfPrefix(b.timestamp, times);
      ServedWithinBudget(b, init);
      var before := Replay(Some(b), init);
      var prev := before.entry.value;
      var t0 := LastTime(b.timestamp, init);
      assert prev.timestamp == t0;
      assert Gap(b.timestamp, times, |times| - 1) >= 0;
      AdmitSpends(prev, t);
      RestoredSuperadditive(t0 - b.timestamp, t - t0);
    }
  }

  /** A client never seen before gets at most a full bucket plus one request
      per interval elapsed after its first request. */
  lemma {:induction false} NewClientServedWithinBudget(times: seq<int>)
    requires |times| > 0
    requires Chronological(times[0], times)
    ensures var r := Replay(None, times);
      r.served <= MaxTokens + RestoredTokens(Last(times) - times[0])
    decreases |times|
  {
    NewClientInvariant(times);
  }

  lemma {:induction false} NewClientInvariant(times: seq<int>)
    requires |times| > 0
    requires Chronological(times[0], times)
    ensures var r := Replay(None, times);
      && r.entry.Some? && r.entry.value.tokens >= 0
      && r.served + r.entry.value.tokens <= MaxTokens + RestoredTokens(Last(times) - times[0])
    decreases |times|
  {
    if |times| > 1 {
      var init := AllButLast(times);
      var t := Last(times);
      GapsOfPrefix(times[0], times);
      assert init[0] == times[0];
      NewClientInvariant(init);
      var before := Replay(None, init);
      var prev := before.entry.value;
      var t0 := Last(init);
      assert Gap(times[0], times, |times| - 1) >= 0;
      AdmitSpends(prev, t);
      RestoredSuperadditive(t0 - times[0], t - t0);
    } else {
      assert AllButLast(times) == [];
    }
  }

  /** A client that has run out of tokens and keeps asking less than one
      interval apart is refused every time: each refusal restarts the clock. */
  lemma {:induction false} EmptyBucketLocksOut(b: Bucket, times: seq<int>)
    requires b.tokens == 0
    requires forall i :: 0 <= i < |times| ==> Gap(b.timestamp, times, i) < RefillInterval
    ensures var r := Replay(Some(b), times);
      r.served == 0 && r.entry == Some(Bucket(LastTime(b.timestamp, times), 0))
    decreases |times|
  {
    if |times| > 0 {
      var init := AllButLast(times);
      GapsOfPrefix(b.timestamp, times);
      EmptyBucketLocksOut(b, init);
      assert Gap(b.timestamp, times, |times| - 1) < RefillInterval;
      EmptyBucketRefuses(Bucket(LastTime(b.timestamp, init), 0), Last(times));
    }
  }

  /** The limiter: one bucket per client id. */
  class RateLimiter {
    var buckets: map<string, Bucket>

    /** Every stored bucket holds between 0 and `MaxTokens - 1` tokens. */
    ghost predicate Valid()
      reads this
    {
      forall id :: id in buckets ==> 0 <= buckets[id].tokens < MaxTokens
    }

    function Lookup(clientId: string): (entry: Option<Bucket>)
      reads this
      ensures entry.Some? <==> clientId in buckets
      ensures entry.Some? ==> entry.value == buckets[clientId]
    {
      if clientId in buckets then Some(buckets[clientId]) else None
    }

    constructor()
      ensures buckets == map[] && Valid()
    {
      buckets := map[];
    }

    /** `isRateLimited(clientId)` at time `now`: answers whether the request
        is refused and stores the client's new bucket; no other client's
        bucket changes. */
    method IsRateLimited(clientId: string, now: int) returns (limited: bool)
      modifies this
      ensures var o := Admit(old(Lookup(clientId)), now);
        limited == o.limited && buckets == old(buckets)[clientId := o.bucket]
      ensures old(Valid()) ==> Valid()
    {
      if clientId !in buckets {
        buckets := buckets[clientId := Bucket(now, MaxTokens - 1)];
        return false;
      }
      var limiter := buckets[clientId];
      var timeElapsed := now - limiter.timestamp;
      var tokensToRestore := timeElapsed / RefillInterval;
      var newTokens := if limiter.tokens + tokensToRestore < MaxTokens
        then limiter.tokens + tokensToRestore else MaxTokens;
      if newTokens < 1 {
        buckets := buckets[clientId := Bucket(now, 0)];
        return true;
      }
      buckets := buckets[clientId := Bucket(now, newTokens - 1)];
      return false;
    }

    /** `getRemainingTokens(clientId)`. */
    method GetRemainingTokens(clientId: string) returns (n: int)
      ensures n == RemainingTokens(Lookup(clientId))
      ensures Valid() ==> 0 <= n <= MaxTokens
    {
      if clientId in buckets {
        n := buckets[clientId].tokens;
      } else {
        n := MaxTokens;
      }
    }

    /** `getTimeUntilReset(clientId)` at time `now`. */
    method GetTimeUntilReset(clientId: string, now: int) returns (ms: int)
      ensures ms == TimeUntilReset(Lookup(clientId), now)
    {
      if clientId !in buckets {
        return 0;
      }
      var timeElapsed := now - buckets[clientId].timestamp;
      ms := if RateLimitWindow - timeElapsed > 0 then RateLimitWindow - timeElapsed else 0;
    }
  }
}
