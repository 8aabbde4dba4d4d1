/** Publication schedules that skip missed slots, against the loop that would visit every slot. */
module PublicationSchedule {
  import opened Machine
  import BenchmarkSpec

  datatype Due = Due(sequence: u32, skipped: u64)

  datatype Slots = Slots(period: u64, next: u64, sequence: u32)

  function SaturatingMul64(a: nat, b: nat): u64 {
    if a * b > U64_MAX then U64_MAX else a * b
  }

  function Started(period: u64, start: u64): Slots {
    Slots(period, SaturatingAdd64(start, period), 0)
  }

  function Take(s: Slots, now: u64): (Slots, Option<Due>)
    requires s.period > 0
  {
    if now < s.next then (s, None)
    else
      DivisionBounds(now - s.next, s.period);
      var skipped := (now - s.next) / s.period;
      var sequence := Wrap32(s.sequence + Wrap32(skipped));
      (Slots(s.period, SaturatingAdd64(s.next, SaturatingMul64(SaturatingAdd64(skipped, 1), s.period)),
             Wrap32(sequence + 1)),
       Some(Due(sequence, skipped)))
  }

  class Schedule {
    const periodMs: u64
    var nextMs: u64
    var sequence: u32

    ghost function Snapshot(): Slots
      reads this
    {
      Slots(periodMs, nextMs, sequence)
    }

    constructor (periodMs: u64, startedMs: u64)
      requires periodMs > 0
      ensures Snapshot() == Started(periodMs, startedMs)
    {
      this.periodMs := periodMs;
      nextMs := SaturatingAdd64(startedMs, periodMs);
      sequence := 0;
    }

    /** No schedule has period zero. */
    static method New(periodMs: u64, startedMs: u64) returns (schedule: Option<Schedule>)
      ensures schedule.Some? <==> periodMs > 0
      ensures schedule.Some? ==> fresh(schedule.value) && schedule.value.Snapshot() == Started(periodMs, startedMs)
    {
      if periodMs == 0 {
        return None;
      }
      var created := new Schedule(periodMs, startedMs);
      schedule := Some(created);
    }

    method TakeDue(nowMs: u64) returns (due: Option<Due>)
      requires periodMs > 0
      modifies this
      ensures Snapshot() == old(Take(Snapshot(), nowMs)).0 && due == old(Take(Snapshot(), nowMs)).1
    {
      if nowMs < nextMs {
        return None;
      }
      DivisionBounds(nowMs - nextMs, periodMs);
      var skipped := (nowMs - nextMs) / periodMs;
      var taken: nat := Wrap32(sequence + Wrap32(skipped));
      sequence := Wrap32(taken + 1);
      nextMs := SaturatingAdd64(nextMs, SaturatingMul64(SaturatingAdd64(skipped, 1), periodMs));
      due := Some(Due(taken, skipped));
    }
  }

  // ---------------------------------------------------------------------
  // Where a schedule stands.

  /** n slots of a schedule started at start are behind; slot k falls due at start + (k + 1) periods. */
  predicate Position(s: Slots, start: nat, n: nat) {
    s.period > 0 && s.next == start + (n + 1) * s.period && s.sequence == Wrap32(n)
  }

  /** Whole periods since the start. */
  function Elapsed(period: nat, start: nat, now: nat): (n: nat)
    requires period > 0 && start <= now
    ensures n * period <= now - start < n * period + period
  {
    DivisionBounds(now - start, period);
    (now - start) / period
  }

  /** A new schedule stands at the start of its grid, exactly when its first boundary fits the clock. */
  lemma StartsOnGrid(period: u64, start: u64)
    requires period > 0
    ensures Position(Started(period, start), start, 0) <==> start + period <= U64_MAX
  {
  }

  lemma Products(p: nat, n: nat, m: nat)
    ensures (n + 1) * p == n * p + p >= 0 && (m + 1) * p == m * p + p
    ensures (m - n) * p == m * p - n * p && (m - n - 1) * p == m * p - n * p - p
  {
  }

  lemma SlotsBehind(p: nat, start: nat, n: nat, now: nat)
    requires p > 0 && start + (n + 1) * p <= now
    ensures start <= now && n < Elapsed(p, start, now)
    ensures var m := Elapsed(p, start, now);
            (now - (start + (n + 1) * p)) / p == m - n - 1 && (n + 1) * p + (m - n) * p == (m + 1) * p
  {
    var m := Elapsed(p, start, now);
    Products(p, n, m);
    if m <= n {
      Monotone(m + 1, n + 1, p);
    }
    QuotientIs(now - (start + (n + 1) * p), p, m - n - 1);
  }

  /** The due slot published is the newest one, the slots in between are the ones skipped, and the schedule lands on
      the next boundary exactly when that boundary still fits the clock. */
  lemma TakingLands(s: Slots, start: nat, n: nat, now: u64)
    requires Position(s, start, n) && s.next <= now
    ensures start <= now && n < Elapsed(s.period, start, now)
    ensures var (after, due) := Take(s, now);
            var m := Elapsed(s.period, start, now);
            due.Some? && due.value.sequence == Wrap32(m - 1) && due.value.skipped == m - 1 - n &&
            after.period == s.period &&
            (Position(after, start, m) <==> start + (m + 1) * s.period <= U64_MAX)
  {
    SlotsBehind(s.period, start, n, now);
    var m := Elapsed(s.period, start, now);
    assert s.next + (m - n) * s.period == start + (m + 1) * s.period;
    Wraps(n, m - n - 1);
    DivisionBounds(now - s.next, s.period);
    hide Wrap32, Elapsed;
  }

  /** A schedule that does miss: its next boundary lies beyond the last millisecond of the clock. */
  lemma LastBoundaryIsMissed()
    ensures var (s, start) := (Slots(10, U64_MAX - 3, 0), U64_MAX - 13);
            var (after, due) := Take(s, U64_MAX);
            Position(s, start, 0) && Elapsed(10, start, U64_MAX) == 1 && !Position(after, start, 1) &&
            after.next == U64_MAX && due == Some(Due(0, 0)) &&
            Take(after, U64_MAX).1 == Some(Due(1, 0))
  {
  }

  lemma Monotone(a: nat, b: nat, p: nat)
    requires a <= b
    ensures a * p <= b * p
  {
    assert (b - a) * p >= 0;
    assert b * p == a * p + (b - a) * p;
  }

  lemma Wraps(n: nat, k: nat)
    ensures Wrap32(Wrap32(n) + Wrap32(k)) == Wrap32(n + k)
    ensures Wrap32(Wrap32(n + k) + 1) == Wrap32(n + k + 1)
  {
    hide Wrap32;
    WrapAdds(n, Wrap32(k));
    WrapAdds(k, n);
    WrapAdds(n + k, 1);
    assert Wrap32(k) + n == n + Wrap32(k) && k + n == n + k;
  }

  // ---------------------------------------------------------------------
  // Whole runs of polls.

  datatype Tally = Tally(end: Slots, published: nat, skipped: nat)

  function PollAll(s: Slots, times: seq<u64>): (t: Tally)
    requires s.period > 0
    ensures t.end.period == s.period
    decreases |times|
  {
    if times == [] then Tally(s, 0, 0)
    else
      var (after, due) := Take(s, times[0]);
      var rest := PollAll(after, times[1..]);
      match due
      case None => rest
      case Some(d) => Tally(rest.end, rest.published + 1, rest.skipped + d.skipped)
  }

  /** The polls come in order, and the deadline after the last one fits the clock. */
  predicate InOrder(period: u64, start: nat, times: seq<u64>)
    requires period > 0
  {
    (forall i :: 0 <= i < |times| ==> start <= times[i]) &&
    (forall i :: 0 < i < |times| ==> times[i - 1] <= times[i]) &&
    (forall i :: 0 <= i < |times| ==> start + (Elapsed(period, start, times[i]) + 1) * period <= U64_MAX)
  }

  lemma OnePoll(s: Slots, start: nat, n: nat, now: u64)
    requires Position(s, start, n) && start <= now && n <= Elapsed(s.period, start, now)
    requires start + (Elapsed(s.period, start, now) + 1) * s.period <= U64_MAX
    ensures var (after, due) := Take(s, now);
            var m := Elapsed(s.period, start, now);
            Position(after, start, m) && after.period == s.period &&
            (due.None? ==> m == n) &&
            (due.Some? ==> m > n && due.value.sequence == Wrap32(m - 1) && due.value.skipped == m - 1 - n)
  {
    if s.next <= now {
      TakingLands(s, start, n, now);
    } else {
      DivisionBounds(now - start, s.period);
      var m := (now - start) / s.period;
      if m > n {
        Monotone(n + 1, m, s.period);
      }
    }
  }

  lemma ElapsedGrows(period: nat, start: nat, a: nat, b: nat)
    requires period > 0 && start <= a <= b
    ensures Elapsed(period, start, a) <= Elapsed(period, start, b)
  {
    DivisionBounds(a - start, period);
    DivisionBounds(b - start, period);
    var x, y := (a - start) / period, (b - start) / period;
    if y < x {
      Monotone(y + 1, x, period);
    }
  }

  /** However a run was polled, published plus skipped slots are the elapsed slots, and the schedule is on time. */
  lemma {:induction false} PollingIsExact(s: Slots, start: nat, n: nat, times: seq<u64>)
    requires Position(s, start, n) && InOrder(s.period, start, times) && times != []
    requires n <= Elapsed(s.period, start, times[0])
    ensures var t := PollAll(s, times);
            var m := Elapsed(s.period, start, times[|times| - 1]);
            Position(t.end, start, m) && t.published + t.skipped == m - n
    decreases |times|
  {
    OnePoll(s, start, n, times[0]);
    var rest := times[1..];
    if rest != [] {
      assert rest[0] == times[1] && rest[|rest| - 1] == times[|times| - 1];
      ElapsedGrows(s.period, start, times[0], rest[0]);
      assert InOrder(s.period, start, rest) by {
        forall i | 0 < i < |rest|
          ensures rest[i - 1] <= rest[i]
        {
          assert rest[i - 1] == times[i] && rest[i] == times[i + 1];
        }
      }
      PollingIsExact(Take(s, times[0]).0, start, Elapsed(s.period, start, times[0]), rest);
    }
  }

  // ---------------------------------------------------------------------
  // The loop that visits every slot.

  datatype Visit = Visit(next: nat, sequence: u32, newest: Option<u32>, visited: nat)

  /** Visits the due slots one by one and remembers the newest. */
  function Walk(next: nat, period: nat, sequence: u32, now: nat): Visit
    requires period > 0
    decreases if next > now then 0 else now - next + 1
  {
    if next > now then Visit(next, sequence, None, 0)
    else
      var rest := Walk(next + period, period, Wrap32(sequence + 1), now);
      Visit(rest.next, rest.sequence, if rest.visited == 0 then Some(sequence) else rest.newest, rest.visited + 1)
  }

  /** After q + 1 visits. */
  function Walked(next: nat, period: nat, sequence: u32, q: nat): Visit {
    Visit(next + (q + 1) * period, Wrap32(sequence + q + 1), Some(Wrap32(sequence + q)), q + 1)
  }

  lemma WalkedOnce(next: nat, period: nat, sequence: u32, q: nat)
    requires q > 0
    ensures var later := Walked(next + period, period, Wrap32(sequence + 1), q - 1);
            Walked(next, period, sequence, q) == Visit(later.next, later.sequence, later.newest, later.visited + 1)
  {
    assert (q + 1) * period == q * period + period;
    WrapAdds(sequence + 1, q - 1);
    WrapAdds(sequence + 1, q);
    hide Wrap32;
  }

  lemma {:induction false} WalkCloses(next: nat, period: nat, sequence: u32, now: nat, q: nat)
    requires period > 0 && q * period <= now - next < q * period + period
    ensures Walk(next, period, sequence, now) == Walked(next, period, sequence, q)
    decreases q
  {
    hide Wrap32, Walked;
    if q == 0 {
      FirstVisit(next, period, sequence, now);
    } else {
      assert (q - 1) * period == q * period - period;
      Monotone(1, q, period);
      WalkCloses(next + period, period, Wrap32(sequence + 1), now, q - 1);
      WalkedOnce(next, period, sequence, q);
      assert Walked(next + period, period, Wrap32(sequence + 1), q - 1).visited > 0 by {
        VisitedSome(next + period, period, Wrap32(sequence + 1), q - 1);
      }
    }
  }

  lemma VisitedSome(next: nat, period: nat, sequence: u32, q: nat)
    ensures Walked(next, period, sequence, q).visited == q + 1
  {
  }

  lemma FirstVisit(next: nat, period: nat, sequence: u32, now: nat)
    requires next <= now < next + period
    ensures Walk(next, period, sequence, now) == Walked(next, period, sequence, 0)
  {
  }

  /** Skipping ahead publishes, counts and schedules what visiting every slot would. */
  lemma SkippingEqualsWalking(s: Slots, now: u64)
    requires s.period > 0
    ensures var ((after, due), v) := (Take(s, now), Walk(s.next, s.period, s.sequence, now));
            v.sequence == after.sequence && (v.next <= U64_MAX ==> v.next == after.next) &&
            v.newest == (if due.None? then None else Some(due.value.sequence)) &&
            v.visited == (if due.None? then 0 else due.value.skipped + 1)
  {
    if s.next <= now {
      DivisionBounds(now - s.next, s.period);
      var q := (now - s.next) / s.period;
      WalkCloses(s.next, s.period, s.sequence, now, q);
      WrapAdds(q, s.sequence);
      WrapAdds(s.sequence + q, 1);
      assert Wrap32(s.sequence + Wrap32(q)) == Wrap32(s.sequence + q);
      if s.next + (q + 1) * s.period <= U64_MAX {
        NextFits(s, now, q);
      }
      hide Walk, Wrap32, SaturatingAdd64, SaturatingMul64;
    }
  }

  lemma NextFits(s: Slots, now: u64, q: nat)
    requires s.period > 0 && s.next <= now && q == (now - s.next) / s.period
    requires s.next + (q + 1) * s.period <= U64_MAX
    ensures Take(s, now).0.next == s.next + (q + 1) * s.period
  {
    assert (q + 1) * s.period == q * s.period + s.period;
    Monotone(1, s.period, q + 1);
    hide Wrap32;
  }

  /** The benchmark streams and the ordinary publications take slots alike, at every reading of the clock. */
  lemma BothSchedulesAgree(p: BenchmarkSpec.Publication, now: u64)
    requires p.period > 0 && p.due <= now
    ensures var slot := BenchmarkSpec.TakeSlot(p, now);
            Take(Slots(p.period, p.due, p.sequence), now) ==
              (Slots(slot.next.period, slot.next.due, slot.next.sequence), Some(Due(slot.sequence, slot.skipped)))
  {
    var late := now - p.due;
    DivisionBounds(late, p.period);
    var q := late / p.period;
    assert (q + 1) * p.period == q * p.period + p.period;
    assert now + (p.period - late % p.period) == p.due + (q + 1) * p.period;
  }
}
