/**
 The limit on incoming requests: a bucket of at most 400 tokens that is refilled, at
 100 tokens a second, only when a request finds it empty.
 */
module RateLimiter {

  const MAX_TOKENS: nat := 400
  const RATE: nat := 100

  datatype Bucket = Bucket(tokens: int, time: int)

  function Min(a: int, b: int): int { if a <= b then a else b }

  /** The bucket when a request at `now` is about to draw from it. */
  function Refilled(b: Bucket, now: int): Bucket
  {
    if b.tokens == 0 then Bucket(Min(MAX_TOKENS, RATE * (now - b.time)), now) else b
  }

  predicate Admits(b: Bucket, now: int) { Refilled(b, now).tokens != 0 }

  function AfterRequest(b: Bucket, now: int): Bucket
  {
    var r := Refilled(b, now);
    if r.tokens == 0 then r else r.(tokens := r.tokens - 1)
  }

  function AfterRequests(b: Bucket, times: seq<int>): Bucket
    decreases |times|
  {
    if times == [] then b else AfterRequests(AfterRequest(b, times[0]), times[1..])
  }

  /** How many of the requests arriving at the given times are admitted. */
  function Admitted(b: Bucket, times: seq<int>): nat
    decreases |times|
  {
    if times == [] then 0
    else (if Admits(b, times[0]) then 1 else 0) + Admitted(AfterRequest(b, times[0]), times[1..])
  }

  /** Times do not go backwards from `start` on. */
  ghost predicate Ordered(start: int, times: seq<int>)
    decreases |times|
  {
    times != [] ==> start <= times[0] && Ordered(times[0], times[1..])
  }

  ghost function Last(start: int, times: seq<int>): int
    ensures Ordered(start, times) ==> Last(start, times) >= start
    decreases |times|
  {
    if times == [] then start else Last(times[0], times[1..])
  }

  ghost predicate Sound(b: Bucket, now: int)
  {
    0 <= b.tokens <= MAX_TOKENS && b.time <= now
  }

  /** A request is turned away exactly when the bucket is empty and was last refilled within the current second. */
  lemma {:induction false} RejectedExactly(b: Bucket, now: int)
    requires Sound(b, now)
    ensures !Admits(b, now) <==> b.tokens == 0 && b.time == now
  {
  }

  lemma {:induction false} RequestSound(b: Bucket, now: int)
    requires Sound(b, now)
    ensures Sound(AfterRequest(b, now), now)
  {
  }

  lemma {:induction false} RequestsSound(b: Bucket, start: int, times: seq<int>)
    requires Sound(b, start) && Ordered(start, times)
    ensures Sound(AfterRequests(b, times), Last(start, times))
    decreases |times|
  {
    if times != [] {
      RequestSound(b, times[0]);
      RequestsSound(AfterRequest(b, times[0]), times[0], times[1..]);
    }
  }

  /** Every refill is paid for by the time that has passed since the one before. */
  lemma {:induction false} AdmittedFrom(b: Bucket, start: int, times: seq<int>)
    requires Sound(b, start) && Ordered(start, times)
    ensures Admitted(b, times) <= b.tokens + RATE * (Last(start, times) - b.time)
    decreases |times|
  {
    if times != [] {
      var now := times[0];
      RequestSound(b, now);
      AdmittedFrom(AfterRequest(b, now), now, times[1..]);
    }
  }

  /** `n` requests at the same moment. */
  function AtOnce(now: int, n: nat): seq<int> { if n == 0 then [] else [now] + AtOnce(now, n - 1) }

  /** Requests at one moment are admitted until what is left and what one refill then brings are used up. */
  lemma {:induction false} BurstExactly(b: Bucket, now: int, n: nat)
    requires Sound(b, now)
    ensures Admitted(b, AtOnce(now, n)) == Min(n, b.tokens + Min(400, 100 * (now - b.time)))
    decreases n
  {
    if n > 0 {
      var times := AtOnce(now, n);
      assert times[0] == now && times[1..] == AtOnce(now, n - 1);
      RequestSound(b, now);
      BurstExactly(AfterRequest(b, now), now, n - 1);
    }
  }

  /** Since the start, at most 400 requests plus 100 a second have been admitted. */
  lemma {:induction false} AdmittedSinceStart(start: int, times: seq<int>)
    requires Ordered(start, times)
    ensures Admitted(Bucket(MAX_TOKENS, start), times) <= 400 + 100 * (Last(start, times) - start)
  {
    AdmittedFrom(Bucket(MAX_TOKENS, start), start, times);
  }

  lemma {:induction false} WindowFrom(b: Bucket, t1: int, times: seq<int>)
    requires Sound(b, t1) && Ordered(t1, times)
    ensures Admitted(b, times) <= b.tokens + MAX_TOKENS + RATE * (Last(t1, times) - t1)
    decreases |times|
  {
    if times != [] {
      var now := times[0];
      var r := Refilled(b, now);
      RequestSound(b, now);
      if b.tokens == 0 {
        AdmittedFrom(AfterRequest(b, now), now, times[1..]);
      } else {
        WindowFrom(AfterRequest(b, now), now, times[1..]);
      }
    }
  }

  /** In any window of a run, whatever came before, at most 800 requests plus 100 a second are admitted. */
  lemma {:induction false} AdmittedInWindow(start: int, before: seq<int>, window: seq<int>, t1: int)
    requires Ordered(start, before) && Last(start, before) <= t1 && Ordered(t1, window)
    ensures var b := AfterRequests(Bucket(MAX_TOKENS, start), before);
            Admitted(b, window) <= 800 + 100 * (Last(t1, window) - t1)
  {
    var b := AfterRequests(Bucket(MAX_TOKENS, start), before);
    RequestsSound(Bucket(MAX_TOKENS, start), start, before);
    WindowFrom(b, t1, window);
  }

  class RequestLimiter {
    var tokens: int
    var time: int

    ghost function State(): Bucket
      reads this
    {
      Bucket(tokens, time)
    }

    constructor (now: int)
      ensures State() == Bucket(MAX_TOKENS, now)
    {
      tokens, time := MAX_TOKENS, now;
    }

    method TokenBucket(now: int) returns (admitted: bool)
      modifies this
      ensures admitted <==> Admits(old(State()), now)
      ensures State() == AfterRequest(old(State()), now)
      ensures old(tokens) > 0 ==> admitted && tokens == old(tokens) - 1 && time == old(time)
      ensures old(tokens) == 0 && now > old(time) ==> admitted && tokens == Min(400, 100 * (now - old(time))) - 1 && time == now
      ensures old(tokens) == 0 && now == old(time) ==> !admitted && tokens == 0 && time == now
    {
      if tokens == 0 {
        tokens := Min(MAX_TOKENS, 100 * (now - time));
        time := now;
      }
      if tokens == 0 {
        return false;
      }
      tokens := tokens - 1;
      return true;
    }
  }
}
