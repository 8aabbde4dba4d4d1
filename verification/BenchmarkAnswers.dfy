/** What the answers of the benchmark service say about limits, payloads and time. */
module BenchmarkAnswers {
  import opened Machine
  import opened Benchmark
  import opened BenchmarkSpec
  import opened BenchmarkRuns

  /** A complete configuration within the limits that a service advertises. */
  predicate Within(c: Configuration, l: Limits) {
    Complete(c) && l.maxPayloadBytes.Some? && l.minStatusPeriodUs.Some? && l.minHealthPeriodUs.Some? &&
    l.maxPeriodUs.Some? && l.minLeaseMs.Some? && l.maxLeaseMs.Some? &&
    c.payloadBytes.value <= l.maxPayloadBytes.value &&
    (c.statusPeriodUs.value != 0 ==> l.minStatusPeriodUs.value <= c.statusPeriodUs.value <= l.maxPeriodUs.value) &&
    (c.healthPeriodUs.value != 0 ==> l.minHealthPeriodUs.value <= c.healthPeriodUs.value <= l.maxPeriodUs.value) &&
    l.minLeaseMs.value <= c.leaseMs.value <= l.maxLeaseMs.value
  }

  /**
   * Once a discovery has advertised limits, a configure for the current epoch is refused for its configuration
   * exactly if it goes beyond them: wherever no owner, duplicate or older control comes first.
   */
  lemma RefusedExactlyBeyondTheLimits(s: State, d: Envelope, r: Envelope, peer: Peer, now: u64)
    requires Wf(s) && Judge(s, d, peer) == Discovery && Addressed(s, r) && r.kind == Some(2)
    ensures Respond(s, d, peer, now).1.Some? && Respond(s, d, peer, now).1.value.limits.Some?
    ensures var limits := Respond(s, d, peer, now).1.value.limits.value;
            var id := r.requestId.value;
            Assess(s, r, peer) == 4 <==>
            r.runEpoch == Some(s.epoch) && !s.exhausted &&
            (s.lease.Some? ==> s.Owner(peer, r.sessionId.value) && id > s.lease.value.last.id) &&
            !Within(r.configure.value, limits)
    ensures Respond(s, d, peer, now).1.value.limits.value.available == Some(s.lease.None? && !s.exhausted)
  {
  }

  // ---------------------------------------------------------------------
  // Payloads.

  const DIGITS := "0123456789"
  const CAPITALS := "ABCDEFGHIJKLMNOPQRSTUVWXYZ"
  const SMALL := "abcdefghijklmnopqrstuvwxyz"
  const ALPHABET := DIGITS + CAPITALS + SMALL

  lemma DigitIs(k: nat)
    requires k < 10
    ensures DIGITS[k] as int == Symbol(k)
  {
  }

  lemma CapitalIs(k: nat)
    requires k < 26
    ensures CAPITALS[k] as int == Symbol(10 + k)
  {
  }

  lemma SmallIs(k: nat)
    requires k < 26
    ensures SMALL[k] as int == Symbol(36 + k)
  {
  }

  function Letter(k: nat): int
    requires k < 62
  {
    ALPHABET[k] as int
  }

  lemma SymbolIsLetter(k: nat)
    requires k < 62
    ensures Symbol(k) == Letter(k)
  {
    hide Symbol;
    if k < 10 {
      DigitIs(k);
    } else if k < 36 {
      CapitalIs(k - 10);
    } else {
      SmallIs(k - 36);
    }
  }

  lemma WalkGoesAround(a: nat, b: nat, i: nat)
    ensures (a % 62 + b % 62 + i) % 62 == (a + b + i) % 62
  {
  }

  /** A payload walks through the alphabet from where seed and token put it, and none is longer than 512. */
  lemma PayloadWalksTheAlphabet(length: u32, seed: u32, token: u32)
    ensures Pattern(length, seed, token).Some? <==> length <= 512
    ensures length <= 512 ==>
              |Pattern(length, seed, token).value| == length &&
              forall i :: 0 <= i < length ==>
                Pattern(length, seed, token).value[i] == Letter((seed + token + i) % 62)
  {
    hide Symbol, Letter;
    if length <= 512 {
      forall i | 0 <= i < length
        ensures Pattern(length, seed, token).value[i] == Letter((seed + token + i) % 62)
      {
        WalkGoesAround(seed, token, i);
        SymbolIsLetter((seed + token + i) % 62);
      }
    }
  }

  // ---------------------------------------------------------------------
  // Time.

  predicate Dated(m: Envelope, now: u64) {
    m.uptimeMs.Some? && (now / 1000 - m.uptimeMs.value) % 0x1_0000_0000 == 0
  }

  /** Everything that is sent is dated with the milliseconds of its reading of the clock, modulo 2^32. */
  lemma EverythingIsDated(s: State, e: Event)
    requires Wf(s) && Step(s, e).1.Some?
    ensures e.Timed() && Dated(Step(s, e).1.value, e.now)
  {
    hide Tick, Judge, Perform, TakeSlot;
  }
}
