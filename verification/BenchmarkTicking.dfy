/** Polling frequency is unobservable: intermediate ticks leave no trace. */
module BenchmarkTicking {
  import opened Machine
  import opened BenchmarkSpec

  /** Two refills credit exactly the periods that one later refill would, and keep its phase. */
  lemma RefillTwice(s: State, a: u64, b: u64)
    requires s.tokens <= 10 && s.tokenTime <= a <= b
    ensures Refill(Refill(s, a), b) == Refill(s, b)
  {
    var first, second := (a - s.tokenTime) / TOKEN_PERIOD, (b - s.tokenTime) / TOKEN_PERIOD;
    var kept := a - (a - s.tokenTime) % TOKEN_PERIOD;
    assert kept == s.tokenTime + first * TOKEN_PERIOD;
    assert (b - kept) / TOKEN_PERIOD == second - first;
    assert (b - kept) % TOKEN_PERIOD == (b - s.tokenTime) % TOKEN_PERIOD;
  }

  lemma RefillLeavesTheLease(s: State, a: u64, b: u64)
    requires s.tokenTime <= a <= b
    ensures Expire(Refill(s, a).(lastTime := b), b) == Refill(Expire(s.(lastTime := b), b), a)
  {
  }

  lemma ExpireTwice(s: State, a: u64, b: u64)
    requires a <= b
    ensures Expire(Expire(s.(lastTime := a), a).(lastTime := b), b) == Expire(s.(lastTime := b), b)
  {
  }

  lemma TickTwice(s: State, a: u64, b: u64)
    requires Wf(s) && s.lastTime <= a <= b
    ensures Tick(Tick(s, a), b) == Tick(s, b)
  {
    var once := Expire(s.(lastTime := a), a);
    assert Tick(s, a) == Refill(once, a);
    TickWf(s, a);
    RefillLeavesTheLease(once, a, b);
    ExpireTwice(s, a, b);
    RefillTwice(Expire(s.(lastTime := b), b), a, b);
  }

  function TickAll(s: State, times: seq<u64>): State
    decreases |times|
  {
    if times == [] then s else TickAll(Tick(s, times[0]), times[1..])
  }

  /** Any nondecreasing series of ticks equals one tick at its last time. */
  lemma {:induction false} TickingIsPathIndependent(s: State, times: seq<u64>)
    requires Wf(s) && times != [] && s.lastTime <= times[0]
    requires forall i :: 1 <= i < |times| ==> times[i - 1] <= times[i]
    ensures TickAll(s, times) == Tick(s, times[|times| - 1])
    decreases |times|
  {
    TickWf(s, times[0]);
    var rest := times[1..];
    if rest != [] {
      TickingIsPathIndependent(Tick(s, times[0]), rest);
      Ordered(times, 0, |times| - 1);
      TickTwice(s, times[0], times[|times| - 1]);
    }
  }

  lemma {:induction false} Ordered(times: seq<u64>, i: nat, j: nat)
    requires i <= j < |times| && forall k :: 1 <= k < |times| ==> times[k - 1] <= times[k]
    ensures times[i] <= times[j]
  {
    if i < j {
      Ordered(times, i, j - 1);
    }
  }

  /** A clock that steps back ends the run at once, and the run cannot come back. */
  lemma RollbackEndsTheRun(s: State, now: u64)
    requires Wf(s) && s.lease.Some? && now < s.lastTime
    ensures Tick(s, now).lease.None? && Tick(s, now).tokens == s.tokens && Tick(s, now).tokenTime == now
    ensures if s.epoch == U32_MAX then Tick(s, now).exhausted else Tick(s, now).epoch == s.epoch + 1
  {
  }
}
