/** Runs of `unlock` on one Vesting record at a sequence of clock readings, and the
    schedule the runs follow: whatever the calling pattern, the amount released so far
    is the entitlement at the latest reading, measured from the ORIGINAL start. */
module Cumulative {
  import opened FixedWidth
  import opened Results
  import opened Unlocking
  import FloorDiv

  /** Where a run of unlocks leaves the record, and how much it released in all. */
  datatype Outcome = Outcome(schedule: Schedule, released: int)

  predicate AllI64(times: seq<int>)
  {
    forall i :: 0 <= i < |times| ==> IsI64(times[i])
  }

  /** Transactions are serialized, so the clock readings they see never go back. */
  predicate NonDecreasing(times: seq<int>)
  {
    forall i, j :: 0 <= i <= j < |times| ==> times[i] <= times[j]
  }

  /** Successive unlocks at `times`, each on the record the previous one left; the
      first failure aborts the run. Whatever the times, the releases and the pool
      that remains always add up to the original pool. */
  function UnlockTrace(s0: Schedule, times: seq<int>): (r: Result<Outcome>)
    requires WellTyped(s0) && AllI64(times)
    ensures r.Success? ==>
      && WellTyped(r.value.schedule)
      && r.value.schedule.unitTime == s0.unitTime
      && r.value.schedule.unitAmount == s0.unitAmount
      && 0 <= r.value.released
      && r.value.released + r.value.schedule.totalAmount == s0.totalAmount
    decreases |times|
  {
    if times == [] then Success(Outcome(s0, 0))
    else
      var before :- UnlockTrace(s0, times[..|times| - 1]);
      var step :- UnlockStep(before.schedule, times[|times| - 1]);
      Success(Outcome(step.next, before.released + step.amount))
  }

  /** The source's own step run the same way: successive `UnlockAsWritten` steps at
      `times`, the first failure aborting the run. The releases and the pool that
      remains add up to the original pool here too. */
  function UnlockTraceAsWritten(s0: Schedule, times: seq<int>): (r: Result<Outcome>)
    requires WellTyped(s0) && AllI64(times)
    ensures r.Success? ==>
      && WellTyped(r.value.schedule)
      && r.value.schedule.unitTime == s0.unitTime
      && r.value.schedule.unitAmount == s0.unitAmount
      && 0 <= r.value.released
      && r.value.released + r.value.schedule.totalAmount == s0.totalAmount
    decreases |times|
  {
    if times == [] then Success(Outcome(s0, 0))
    else
      var before :- UnlockTraceAsWritten(s0, times[..|times| - 1]);
      var step :- UnlockAsWritten(before.schedule, times[|times| - 1]);
      Success(Outcome(step.next, before.released + step.amount))
  }

  /** Whole periods elapsed at `t` since the original start: none before it, and
      none for a zero period (with which every unlock from the start on panics). */
  function Periods(s0: Schedule, t: int): (k: int)
    ensures 0 <= k
  {
    if t < s0.startTime || s0.unitTime <= 0 then 0 else (t - s0.startTime) / s0.unitTime
  }

  /** The entitlement at `t`: one tranche per whole period since the original
      start, capped at the original pool. */
  function Vested(s0: Schedule, t: int): int
  {
    Min(Periods(s0, t) * s0.unitAmount, s0.totalAmount)
  }

  /** The record once `k` periods have been paid out: start moved by `k` periods,
      the pool reduced by the capped payout. */
  function Settled(s0: Schedule, k: int): Schedule
  {
    s0.(startTime := s0.startTime + s0.unitTime * k,
        totalAmount := s0.totalAmount - Min(k * s0.unitAmount, s0.totalAmount))
  }

  /** A sufficient condition, measured from the original start, for a run to stay
      clear of the source's panics up to `t`: the period is not zero, the clock
      difference fits an `i64` and all the tranches accrued fit a `u64`. */
  predicate Tame(s0: Schedule, t: int)
  {
    (s0.startTime <= t ==> 0 < s0.unitTime && IsI64(t - s0.startTime))
    && Periods(s0, t) * s0.unitAmount <= U64_MAX
  }

  /** The periods the latest reading of a run has accrued. */
  function Horizon(s0: Schedule, times: seq<int>): int
  {
    if times == [] then 0 else Periods(s0, times[|times| - 1])
  }

  /** More time never means fewer periods or a smaller entitlement, and the
      entitlement never exceeds the pool. */
  lemma VestedMonotone(s0: Schedule, t1: int, t2: int)
    requires WellTyped(s0) && t1 <= t2
    ensures Periods(s0, t1) <= Periods(s0, t2)
    ensures 0 <= Vested(s0, t1) <= Vested(s0, t2) <= s0.totalAmount
  {
    if s0.startTime <= t1 && 0 < s0.unitTime {
      FloorDiv.Mono(t1 - s0.startTime, t2 - s0.startTime, s0.unitTime);
    }
    FloorDiv.MulMono(Periods(s0, t1), Periods(s0, t2), s0.unitAmount);
    FloorDiv.MulMono(0, Periods(s0, t1), s0.unitAmount);
  }

  /** Dropping the latest reading keeps a run's readings in range and in order,
      and the reading before the latest is no later than it. */
  lemma DropLast(times: seq<int>)
    requires times != [] && AllI64(times) && NonDecreasing(times)
    ensures AllI64(times[..|times| - 1]) && NonDecreasing(times[..|times| - 1])
    ensures 1 < |times| ==> times[..|times| - 1][|times| - 2] <= times[|times| - 1]
    ensures 1 < |times| ==> times[..|times| - 1][0] == times[0]
  {
  }

  /** A run tame up to `now` is tame at every earlier reading, and has accrued no
      more periods there. */
  lemma TameEarlier(s0: Schedule, t: int, now: int)
    requires WellTyped(s0) && t <= now
    requires Tame(s0, now)
    ensures Tame(s0, t) && Periods(s0, t) <= Periods(s0, now)
  {
    VestedMonotone(s0, t, now);
    FloorDiv.MulMono(Periods(s0, t), Periods(s0, now), s0.unitAmount);
  }

  /** Two capped payouts in a row pay the capped sum. */
  lemma MinSplit(a: int, b: int, total: int)
    requires 0 <= a <= b && 0 <= total
    ensures Min(a, total) + Min(b - a, total - Min(a, total)) == Min(b, total)
  {
  }

  /** The amounts of a step from `k` to `K` periods: the capped payout after `k`
      periods stays within the pool, and the capped payout of the new tranches
      from what is left is the difference of the two entitlements. */
  lemma SettledAmounts(s0: Schedule, k: int, K: int)
    requires WellTyped(s0) && 0 <= k <= K
    ensures 0 <= Min(k * s0.unitAmount, s0.totalAmount) <= s0.totalAmount
    ensures 0 <= (K - k) * s0.unitAmount
    ensures Min((K - k) * s0.unitAmount, s0.totalAmount - Min(k * s0.unitAmount, s0.totalAmount))
         == Min(K * s0.unitAmount, s0.totalAmount) - Min(k * s0.unitAmount, s0.totalAmount)
  {
    var A := s0.unitAmount;
    FloorDiv.MulMono(0, k, A);
    FloorDiv.MulMono(k, K, A);
    FloorDiv.MulMono(0, K - k, A);
    assert (K - k) * A == K * A - k * A;
    MinSplit(k * A, K * A, s0.totalAmount);
  }

  /** Where the record settled to `k` periods stands against the clock: inside
      the schedule, with `K - k` whole periods still to pay at `now`. */
  lemma SettledTiming(s0: Schedule, k: int, now: int)
    requires WellTyped(s0) && s0.unitTime > 0
    requires s0.startTime <= now
    requires 0 <= k <= Periods(s0, now)
    ensures s0.startTime <= Settled(s0, k).startTime <= now
    ensures (now - Settled(s0, k).startTime) / s0.unitTime == Periods(s0, now) - k
  {
    var T, K, x := s0.unitTime, Periods(s0, now), now - s0.startTime;
    FloorDiv.Bounds(x, T);
    FloorDiv.MulMono(k, K, T);
    FloorDiv.MulMono(0, k, T);
    assert k * T == T * k && K * T == T * K;
    FloorDiv.SubPeriods(x, T, k);
  }

  /** A record settled to no more periods than `now` has accrued holds values of
      the record's field types. */
  lemma SettledWellTyped(s0: Schedule, k: int, now: int)
    requires WellTyped(s0) && IsI64(now)
    requires 0 <= k <= Periods(s0, now)
    ensures WellTyped(Settled(s0, k))
  {
    if s0.startTime <= now && 0 < s0.unitTime {
      SettledTiming(s0, k, now);
    } else {
      assert k == 0 && Settled(s0, k) == s0;
    }
    SettledAmounts(s0, k, k);
  }

  /** The condition under which one unlock at `now` on the record settled to `k`
      periods goes through: nothing is due before the start; from the start on,
      the period is not zero, the clock difference from the settled start fits an
      `i64`, and the tranches accrued since then fit a `u64`. */
  predicate StepClear(s0: Schedule, k: int, now: int)
  {
    s0.startTime <= now ==>
      && 0 < s0.unitTime
      && IsI64(now - Settled(s0, k).startTime)
      && (Periods(s0, now) - k) * s0.unitAmount <= U64_MAX
  }

  /** One unlock at `now` on a record settled to `k` periods (no more than `now`
      has accrued) goes through exactly when `StepClear` holds. */
  lemma SettledStepClear(s0: Schedule, k: int, now: int)
    requires WellTyped(s0) && IsI64(now)
    requires 0 <= k <= Periods(s0, now)
    ensures WellTyped(Settled(s0, k))
    ensures UnlockStep(Settled(s0, k), now).Success? <==> StepClear(s0, k, now)
  {
    SettledWellTyped(s0, k, now);
    var s := Settled(s0, k);
    UnlockFailsExactly(s, now);
    assert s0.unitTime == 0 ==> k == 0 && s.startTime == s0.startTime;
    if s0.startTime <= now && 0 < s0.unitTime {
      SettledTiming(s0, k, now);
    }
  }

  /** When it goes through, that unlock settles the record to the periods at
      `now` and pays the difference of the two entitlements. */
  lemma SettledStep(s0: Schedule, k: int, now: int)
    requires WellTyped(s0) && IsI64(now)
    requires 0 <= k <= Periods(s0, now)
    requires StepClear(s0, k, now)
    ensures WellTyped(Settled(s0, k))
    ensures UnlockStep(Settled(s0, k), now)
         == Success(Step(Periods(s0, now) - k,
                         Vested(s0, now) - Min(k * s0.unitAmount, s0.totalAmount),
                         Settled(s0, Periods(s0, now))))
  {
    SettledWellTyped(s0, k, now);
    if now < s0.startTime {
      assert k == 0 && Periods(s0, now) == 0;
      assert Settled(s0, 0) == s0;
    } else {
      SettledStepFromStart(s0, k, now);
    }
  }

  /** `SettledStep` once the schedule has started. */
  lemma SettledStepFromStart(s0: Schedule, k: int, now: int)
    requires WellTyped(s0) && IsI64(now)
    requires s0.startTime <= now
    requires 0 <= k <= Periods(s0, now)
    requires StepClear(s0, k, now)
    requires WellTyped(Settled(s0, k))
    ensures UnlockStep(Settled(s0, k), now)
         == Success(Step(Periods(s0, now) - k,
                         Vested(s0, now) - Min(k * s0.unitAmount, s0.totalAmount),
                         Settled(s0, Periods(s0, now))))
  {
    var T, A, K := s0.unitTime, s0.unitAmount, Periods(s0, now);
    var s := Settled(s0, k);
    SettledTiming(s0, k, now);
    SettledAmounts(s0, k, K);
    UnlockFromStart(s, now);
    assert s.startTime + T * (K - k) == Settled(s0, K).startTime by {
      assert T * k + T * (K - k) == T * K;
    }
  }

  /** Path independence: every run of unlocks at non-decreasing readings that goes
      through leaves the record settled to the periods accrued at the latest
      reading and has released, in all, exactly the entitlement at that reading,
      measured from the ORIGINAL start. */
  lemma {:induction false} TraceFollowsSchedule(s0: Schedule, times: seq<int>)
    requires WellTyped(s0) && AllI64(times) && NonDecreasing(times)
    requires UnlockTrace(s0, times).Success?
    ensures UnlockTrace(s0, times)
         == Success(Outcome(Settled(s0, Horizon(s0, times)),
                            Min(Horizon(s0, times) * s0.unitAmount, s0.totalAmount)))
    ensures times != [] ==> UnlockTrace(s0, times).value.released == Vested(s0, times[|times| - 1])
    decreases |times|
  {
    if times == [] {
      assert Settled(s0, 0) == s0;
    } else {
      var n := |times|;
      var prefix, now := times[..n - 1], times[n - 1];
      DropLast(times);
      TraceFollowsSchedule(s0, prefix);
      var k := Horizon(s0, prefix);
      if prefix != [] {
        VestedMonotone(s0, prefix[|prefix| - 1], now);
      }
      SettledStepClear(s0, k, now);
      SettledStep(s0, k, now);
      assert Horizon(s0, times) == Periods(s0, now);
      var before := Outcome(Settled(s0, k), Min(k * s0.unitAmount, s0.totalAmount));
      assert UnlockTrace(s0, times)
          == Success(Outcome(UnlockStep(before.schedule, now).value.next,
                             before.released + UnlockStep(before.schedule, now).value.amount));
    }
  }

  /** A tame step: on a run tame up to `now`, the unlock at `now` on the record
      settled to the periods accrued so far goes through. */
  lemma TameStepClear(s0: Schedule, k: int, now: int)
    requires WellTyped(s0) && IsI64(now)
    requires 0 <= k <= Periods(s0, now)
    requires Tame(s0, now)
    ensures StepClear(s0, k, now)
  {
    if s0.startTime <= now {
      SettledTiming(s0, k, now);
      FloorDiv.MulMono(Periods(s0, now) - k, Periods(s0, now), s0.unitAmount);
    }
  }

  /** A run tame up to its latest reading goes through. */
  lemma {:induction false} TameTraceSucceeds(s0: Schedule, times: seq<int>)
    requires WellTyped(s0) && AllI64(times) && NonDecreasing(times)
    requires times != [] ==> Tame(s0, times[|times| - 1])
    ensures UnlockTrace(s0, times).Success?
    decreases |times|
  {
    if times != [] {
      var n := |times|;
      var prefix, now := times[..n - 1], times[n - 1];
      DropLast(times);
      if prefix != [] {
        TameEarlier(s0, prefix[|prefix| - 1], now);
      }
      TameTraceSucceeds(s0, prefix);
      TraceFollowsSchedule(s0, prefix);
      var k := Horizon(s0, prefix);
      TameStepClear(s0, k, now);
      SettledStepClear(s0, k, now);
    }
  }

  /** From the start on, the guard is never needed: on readings that are
      non-decreasing and no earlier than the original start, the run of the
      source's own step is the run of the guarded one, so path independence and
      conservation hold of the source as written. */
  lemma {:induction false} AsWrittenTraceAgrees(s0: Schedule, times: seq<int>)
    requires WellTyped(s0) && AllI64(times) && NonDecreasing(times)
    requires times != [] ==> s0.startTime <= times[0]
    ensures UnlockTraceAsWritten(s0, times) == UnlockTrace(s0, times)
    ensures times != [] && UnlockTrace(s0, times).Success? ==>
      UnlockTrace(s0, times).value.schedule.startTime <= times[|times| - 1]
    decreases |times|
  {
    if times != [] {
      var n := |times|;
      var prefix, now := times[..n - 1], times[n - 1];
      DropLast(times);
      AsWrittenTraceAgrees(s0, prefix);
      if UnlockTrace(s0, prefix).Success? {
        var s := UnlockTrace(s0, prefix).value.schedule;
        assert s.startTime <= now;
        AsWrittenAgreesFromStart(s, now);
        if UnlockStep(s, now).Success? {
          UnlockCarriesOver(s, now);
        }
      }
    }
  }

  /** A schedule paying a tranche of 2^63 every second, and the two records its
      unlocks at seconds 1 and 2 leave. */
  function BigTranche(start: int, total: int): Schedule
  {
    Schedule(start, total, 1, 0x8000_0000_0000_0000)
  }

  /** At second 1, one tranche of 2^63 is paid from the full `u64` pool. */
  lemma BigTrancheFirstStep()
    ensures UnlockStep(BigTranche(0, U64_MAX), 1)
         == Success(Step(1, 0x8000_0000_0000_0000, BigTranche(1, 0x7fff_ffff_ffff_ffff)))
  {
    assert UnitsAsWritten(BigTranche(0, U64_MAX), 1) == Success(1);
    AdvanceWithinRange(BigTranche(0, U64_MAX), 1);
  }

  /** At second 2, one more tranche is due and the rest of the pool is paid. */
  lemma BigTrancheSecondStep()
    ensures UnlockStep(BigTranche(1, 0x7fff_ffff_ffff_ffff), 2)
         == Success(Step(1, 0x7fff_ffff_ffff_ffff, BigTranche(2, 0)))
  {
    assert UnitsAsWritten(BigTranche(1, 0x7fff_ffff_ffff_ffff), 2) == Success(1);
    AdvanceWithinRange(BigTranche(1, 0x7fff_ffff_ffff_ffff), 1);
  }

  /** Unlocking first at second 2, two tranches are due and their product
      overflows a `u64`. */
  lemma BigTrancheLateStep()
    ensures UnlockStep(BigTranche(0, U64_MAX), 2) == Failure(ArithmeticOverflow)
  {
    assert UnitsAsWritten(BigTranche(0, U64_MAX), 2) == Success(2);
  }

  /** The tranches accrued since the LAST unlock must fit a `u64`, so whether a
      run panics depends on how often it unlocks. With a tranche of 2^63 per
      second, unlocks at seconds 1 and 2 release the whole pool, while a single
      unlock at second 2 panics, and by `FailurePersists` so does every unlock
      after it: the pool stays locked. */
  lemma PanicDependsOnPath()
    ensures UnlockTrace(BigTranche(0, U64_MAX), [1, 2]) == Success(Outcome(BigTranche(2, 0), U64_MAX))
    ensures UnlockTrace(BigTranche(0, U64_MAX), [2]) == Failure(ArithmeticOverflow)
  {
    BigTrancheFirstStep();
    BigTrancheSecondStep();
    BigTrancheLateStep();
    assert [1, 2][..1] == [1] && [1][..0] == [] && [2][..0] == [];
    assert UnlockTrace(BigTranche(0, U64_MAX), [1])
        == Success(Outcome(BigTranche(1, 0x7fff_ffff_ffff_ffff), 0x8000_0000_0000_0000));
  }

  /** The schedule of the repository's test: 3,000,000 base units, 1,000,000 every
      two seconds, starting at `t0`. */
  function TestSchedule(t0: int): Schedule
  {
    Schedule(t0, 3_000_000, 2, 1_000_000)
  }

  /** Before `start_time` the source's step can panic and then recover: on the
      test's schedule one second before the start the clock difference wraps to
      2^64 - 1, whose period count times the tranche overflows a `u64`, while at
      the start itself the same record unlocks nothing without a panic. */
  lemma AsWrittenPanicBeforeStartLifts(t0: int)
    requires IsI64(t0 - 1) && IsI64(t0)
    ensures UnlockAsWritten(TestSchedule(t0), t0 - 1) == Failure(ArithmeticOverflow)
    ensures UnlockAsWritten(TestSchedule(t0), t0) == Success(Step(0, 0, TestSchedule(t0)))
    ensures UnlockStep(TestSchedule(t0), t0 - 1).Success?
  {
    assert I64AsU64(-1) == U64_MAX;
    assert U64_MAX / 2 * 1_000_000 > U64_MAX;
  }

  /** On the test's schedule, any run of readings within 1,000,000 seconds of the
      start follows the schedule (the tranche product cannot overflow). */
  lemma TestRunFollowsSchedule(t0: int, times: seq<int>)
    requires IsI64(t0) && times != [] && AllI64(times) && NonDecreasing(times)
    requires t0 <= times[|times| - 1] <= t0 + 1_000_000
    ensures UnlockTrace(TestSchedule(t0), times).Success?
    ensures UnlockTrace(TestSchedule(t0), times).value
         == Outcome(Settled(TestSchedule(t0), Periods(TestSchedule(t0), times[|times| - 1])),
                    Vested(TestSchedule(t0), times[|times| - 1]))
  {
    var s0, t := TestSchedule(t0), times[|times| - 1];
    FloorDiv.Bounds(t - t0, 2);
    FloorDiv.MulMono(Periods(s0, t), 1_000_000, 1_000_000);
    TameTraceSucceeds(s0, times);
    TraceFollowsSchedule(s0, times);
  }

  /** The test's trace: unlocks two and four seconds after the start (each within
      the period it lands in) see 1,000,000 and then 2,000,000 released in all, and
      the record keeps the remaining pool and the start of the period in progress. */
  lemma UnlockOnScheduleTrace(t0: int, t1: int, t2: int)
    requires IsI64(t0) && IsI64(t2)
    requires t0 + 2 <= t1 < t0 + 4 <= t2 < t0 + 6
    ensures UnlockTrace(TestSchedule(t0), [t1]) == Success(Outcome(Schedule(t0 + 2, 2_000_000, 2, 1_000_000), 1_000_000))
    ensures UnlockTrace(TestSchedule(t0), [t1, t2]) == Success(Outcome(Schedule(t0 + 4, 1_000_000, 2, 1_000_000), 2_000_000))
  {
    var s0 := TestSchedule(t0);
    assert Periods(s0, t1) == 1 by {
      FloorDiv.Unique(t1 - t0, 2, 1);
    }
    assert Periods(s0, t2) == 2 by {
      FloorDiv.Unique(t2 - t0, 2, 2);
    }
    TestRunFollowsSchedule(t0, [t1]);
    TestRunFollowsSchedule(t0, [t1, t2]);
  }

  /** The rest of the test's trace: a third unlock six or more seconds after the
      start sees the whole 3,000,000 released, and a fourth, later one still sees
      3,000,000 (the pool is exhausted, so the cap holds the total). */
  lemma UnlockOnScheduleCapped(t0: int, t1: int, t2: int, t3: int, t4: int)
    requires IsI64(t0) && IsI64(t4)
    requires t0 + 2 <= t1 < t0 + 4 <= t2 < t0 + 6 <= t3 <= t4 <= t0 + 1_000_000
    ensures UnlockTrace(TestSchedule(t0), [t1, t2, t3]).Success?
    ensures UnlockTrace(TestSchedule(t0), [t1, t2, t3]).value.released == 3_000_000
    ensures UnlockTrace(TestSchedule(t0), [t1, t2, t3, t4]).Success?
    ensures UnlockTrace(TestSchedule(t0), [t1, t2, t3, t4]).value.released == 3_000_000
  {
    var s0 := TestSchedule(t0);
    assert 3 <= Periods(s0, t3) <= Periods(s0, t4) by {
      FloorDiv.Unique(6, 2, 3);
      FloorDiv.Mono(6, t3 - t0, 2);
      FloorDiv.Mono(t3 - t0, t4 - t0, 2);
    }
    assert Vested(s0, t3) == 3_000_000 by {
      FloorDiv.MulMono(3, Periods(s0, t3), 1_000_000);
    }
    assert Vested(s0, t4) == 3_000_000 by {
      FloorDiv.MulMono(3, Periods(s0, t4), 1_000_000);
    }
    TestRunFollowsSchedule(t0, [t1, t2, t3]);
    TestRunFollowsSchedule(t0, [t1, t2, t3, t4]);
  }
}
