/** The arithmetic of one `unlock` (programs/vesting/src/lib.rs, lines 47-50) on the
    schedule fields of the Vesting record, as pure functions of the record and the
    clock. `UnlockAsWritten` follows the source exactly; `UnlockStep` adds the guard
    the source misses (no period elapses before `start_time`) and is the step the
    rest of the model uses. */
module Unlocking {
  import opened FixedWidth
  import opened Results
  import FloorDiv

  /** The schedule part of the Vesting record: the two fields `unlock` rewrites
      (`start_time`, `total_amount`) and the two it only reads. */
  datatype Schedule = Schedule(startTime: int, totalAmount: int, unitTime: int, unitAmount: int)

  /** The record's field types: `i64` start, `u64` amounts and period. */
  predicate WellTyped(s: Schedule)
  {
    IsI64(s.startTime) && IsU64(s.totalAmount) && IsU64(s.unitTime) && IsU64(s.unitAmount)
  }

  /** What one unlock computed: the whole periods it counted, the amount it releases,
      and the schedule it leaves behind. */
  datatype Step = Step(units: int, amount: int, next: Schedule)

  /** `u64::min`. */
  function Min(a: int, b: int): int
  {
    if a <= b then a else b
  }

  /** Line 47 as written: `(cur_ts - start_time) as u64 / unit_time`. The subtraction
      is checked, the cast wraps, the division panics on a zero period. The result is
      the floor of the (reinterpreted) elapsed time over the period. */
  function UnitsAsWritten(s: Schedule, now: int): (r: Result<int>)
    requires WellTyped(s) && IsI64(now)
    ensures r.Success? <==> IsI64(now - s.startTime) && s.unitTime != 0
    ensures r.Success? ==> IsU64(r.value) && r.value == I64AsU64(now - s.startTime) / s.unitTime
  {
    var elapsed := now - s.startTime;
    if !IsI64(elapsed) then Failure(ArithmeticOverflow)
    else if s.unitTime == 0 then Failure(DivisionByZero)
    else
      var u := I64AsU64(elapsed);
      FloorDiv.Bounds(u, s.unitTime);
      Success(u / s.unitTime)
  }

  /** Lines 48-50 once `units` is known: release the lesser of `units * unit_amount`
      and the remaining pool, move `start_time` forward by `units` whole periods (the
      product cast to `i64`), and take the release off the pool. Every arithmetic
      step is checked; the pool decrement never underflows. */
  function Advance(s: Schedule, units: int): (r: Result<Step>)
    requires WellTyped(s) && IsU64(units)
    ensures r.Success? <==>
      && units * s.unitAmount <= U64_MAX
      && s.unitTime * units <= U64_MAX
      && IsI64(s.startTime + U64AsI64(s.unitTime * units))
    ensures r.Success? ==>
      && r.value.units == units
      && 0 <= r.value.amount <= s.totalAmount
      && r.value.amount <= units * s.unitAmount
      && (r.value.amount == s.totalAmount || r.value.amount == units * s.unitAmount)
      && r.value.amount + r.value.next.totalAmount == s.totalAmount
      && r.value.next.startTime == s.startTime + U64AsI64(s.unitTime * units)
      && r.value.next.unitTime == s.unitTime
      && r.value.next.unitAmount == s.unitAmount
      && WellTyped(r.value.next)
  {
    if U64_MAX < units * s.unitAmount then Failure(ArithmeticOverflow)
    else
      FloorDiv.MulMono(0, units, s.unitAmount);
      var amount := Min(units * s.unitAmount, s.totalAmount);
      if U64_MAX < s.unitTime * units then Failure(ArithmeticOverflow)
      else
        var start := s.startTime + U64AsI64(s.unitTime * units);
        if !IsI64(start) then Failure(ArithmeticOverflow)
        else if s.totalAmount < amount then Failure(ArithmeticOverflow)
        else Success(Step(units, amount, s.(startTime := start, totalAmount := s.totalAmount - amount)))
  }

  /** `unlock`'s arithmetic exactly as the source writes it: no guard for a clock
      still before `start_time`. */
  function UnlockAsWritten(s: Schedule, now: int): (r: Result<Step>)
    requires WellTyped(s) && IsI64(now)
    ensures r.Success? ==>
      && 0 <= r.value.amount <= s.totalAmount
      && r.value.amount + r.value.next.totalAmount == s.totalAmount
      && r.value.next.unitTime == s.unitTime
      && r.value.next.unitAmount == s.unitAmount
      && WellTyped(r.value.next)
  {
    var units :- UnitsAsWritten(s, now);
    Advance(s, units)
  }

  /** `unlock`'s arithmetic with the guard for a clock before `start_time`: no whole
      period has elapsed then, so nothing is released and nothing moves. Whatever
      it releases leaves the pool, and the period and tranche size stay. */
  function UnlockStep(s: Schedule, now: int): (r: Result<Step>)
    requires WellTyped(s) && IsI64(now)
    ensures now < s.startTime ==> r == Success(Step(0, 0, s))
    ensures r.Success? ==>
      && 0 <= r.value.amount
      && r.value.amount + r.value.next.totalAmount == s.totalAmount
      && r.value.next.unitTime == s.unitTime
      && r.value.next.unitAmount == s.unitAmount
      && WellTyped(r.value.next)
  {
    if now < s.startTime then
      AdvanceNothing(s);
      Advance(s, 0)
    else
      var units :- UnitsAsWritten(s, now);
      Advance(s, units)
  }

  /** Advancing by no period releases nothing and changes nothing. */
  lemma AdvanceNothing(s: Schedule)
    requires WellTyped(s)
    ensures Advance(s, 0) == Success(Step(0, 0, s))
  {
    assert 0 * s.unitAmount == 0 && s.unitTime * 0 == 0;
    assert U64AsI64(0) == 0;
  }

  /** Advancing by periods that fit an `i64` moves `start_time` by exactly their
      length and pays the capped tranches. */
  lemma AdvanceWithinRange(s: Schedule, units: int)
    requires WellTyped(s) && IsU64(units)
    requires units * s.unitAmount <= U64_MAX
    requires 0 <= s.unitTime * units <= I64_MAX && IsI64(s.startTime + s.unitTime * units)
    ensures Advance(s, units)
         == (var paid := Min(units * s.unitAmount, s.totalAmount);
             Success(Step(units, paid, s.(startTime := s.startTime + s.unitTime * units,
                                          totalAmount := s.totalAmount - paid))))
  {
    assert U64AsI64(s.unitTime * units) == s.unitTime * units;
  }

  /** The only ways the guarded step can fail: the clock difference overflows an
      `i64`, the period is zero, or the whole periods elapsed times the tranche
      overflow a `u64`. Before `start_time` the guarded step never fails; from
      `start_time` on it is the source's step (`AsWrittenAgreesFromStart`), which
      before `start_time` can also panic on the wrapped period count. */
  lemma UnlockFailsExactly(s: Schedule, now: int)
    requires WellTyped(s) && IsI64(now)
    ensures UnlockStep(s, now).Failure? <==>
      && s.startTime <= now
      && (!IsI64(now - s.startTime) || s.unitTime == 0
          || U64_MAX < ((now - s.startTime) / s.unitTime) * s.unitAmount)
  {
    if s.startTime <= now && IsI64(now - s.startTime) && s.unitTime != 0 {
      var units := UnitsAsWritten(s, now).value;
      assert units == (now - s.startTime) / s.unitTime;
      assert s.unitTime * units <= now - s.startTime;
    }
  }

  /** A panic of the guarded step is permanent: once it fails at some instant, it
      fails at every later one, because the elapsed time, and with it the period
      count and the tranche product, only grow. A failed transaction writes
      nothing, so the record, and the pool in the vault, stay as they are for good.
      The guarded step fails only from `start_time` on, where it is the source's
      step (`AsWrittenAgreesFromStart`); before `start_time` the source's wrapped
      count shrinks with time, so a panic there can go away. */
  lemma FailurePersists(s: Schedule, now: int, later: int)
    requires WellTyped(s) && IsI64(now) && IsI64(later) && now <= later
    requires UnlockStep(s, now).Failure?
    ensures UnlockStep(s, later).Failure?
  {
    UnlockFailsExactly(s, now);
    UnlockFailsExactly(s, later);
    if IsI64(later - s.startTime) && s.unitTime != 0 {
      var T := s.unitTime;
      FloorDiv.Mono(now - s.startTime, later - s.startTime, T);
      FloorDiv.MulMono((now - s.startTime) / T, (later - s.startTime) / T, s.unitAmount);
    }
  }

  /** Cap: the release is the lesser of the tranches accrued and the remaining pool,
      so it never exceeds the pool and the pool decrement never underflows. */
  lemma UnlockIsCapped(s: Schedule, now: int)
    requires WellTyped(s) && IsI64(now)
    requires UnlockStep(s, now).Success?
    ensures UnlockStep(s, now).value.amount <= s.totalAmount
    ensures UnlockStep(s, now).value.amount <= UnlockStep(s, now).value.units * s.unitAmount
    ensures UnlockStep(s, now).value.amount == s.totalAmount
         || UnlockStep(s, now).value.amount == UnlockStep(s, now).value.units * s.unitAmount
  {
  }

  /** Carry-over: `start_time` moves forward by exactly the whole periods counted, so
      afterwards it is at most `now` and the partial period in progress is kept. */
  lemma UnlockCarriesOver(s: Schedule, now: int)
    requires WellTyped(s) && IsI64(now)
    requires UnlockStep(s, now).Success?
    ensures 0 <= UnlockStep(s, now).value.units
    ensures UnlockStep(s, now).value.next.startTime == s.startTime + s.unitTime * UnlockStep(s, now).value.units
    ensures s.startTime <= now ==>
      UnlockStep(s, now).value.next.startTime <= now < UnlockStep(s, now).value.next.startTime + s.unitTime
  {
    if s.startTime <= now {
      var units := UnitsAsWritten(s, now).value;
      assert s.unitTime * units <= now - s.startTime;
    }
  }

  /** Once the schedule has started, an unlock that does not panic counts the whole
      periods elapsed, pays the lesser of their tranches and the pool, and moves
      `start_time` to the start of the period in progress. */
  lemma UnlockFromStart(s: Schedule, now: int)
    requires WellTyped(s) && IsI64(now) && 0 < s.unitTime
    requires s.startTime <= now && IsI64(now - s.startTime)
    requires ((now - s.startTime) / s.unitTime) * s.unitAmount <= U64_MAX
    ensures UnlockStep(s, now)
         == (var u := (now - s.startTime) / s.unitTime;
             var paid := Min(u * s.unitAmount, s.totalAmount);
             Success(Step(u, paid, s.(startTime := s.startTime + s.unitTime * u,
                                      totalAmount := s.totalAmount - paid))))
  {
    var u := (now - s.startTime) / s.unitTime;
    assert UnitsAsWritten(s, now) == Success(u);
    FloorDiv.Bounds(now - s.startTime, s.unitTime);
    FloorDiv.MulMono(0, u, s.unitTime);
    assert 0 <= s.unitTime * u <= now - s.startTime;
    AdvanceWithinRange(s, u);
  }

  /** Within the first period after `start_time` there is nothing to release: an
      unlock then succeeds and changes nothing. */
  lemma NoWholePeriodNoOp(t: Schedule, now: int)
    requires WellTyped(t) && IsI64(now)
    requires t.startTime <= now < t.startTime + t.unitTime && IsI64(now - t.startTime)
    ensures UnlockStep(t, now) == Success(Step(0, 0, t))
  {
    var elapsed := now - t.startTime;
    FloorDiv.Unique(elapsed, t.unitTime, 0);
    assert UnitsAsWritten(t, now) == Success(0);
    AdvanceNothing(t);
  }

  /** A second unlock at the same instant finds no whole period elapsed: it succeeds,
      releases nothing and leaves the schedule as the first one left it. */
  lemma UnlockIdempotent(s: Schedule, now: int)
    requires WellTyped(s) && IsI64(now)
    requires UnlockStep(s, now).Success?
    ensures UnlockStep(UnlockStep(s, now).value.next, now)
         == Success(Step(0, 0, UnlockStep(s, now).value.next))
  {
    var t := UnlockStep(s, now).value.next;
    UnlockCarriesOver(s, now);
    if s.startTime <= now {
      UnlockFailsExactly(s, now);
      var units := UnlockStep(s, now).value.units;
      FloorDiv.MulMono(0, units, s.unitTime);
      assert s.unitTime * units == units * s.unitTime;
      NoWholePeriodNoOp(t, now);
    }
  }

  /** From `start_time` on, the guard changes nothing: the corrected step and the
      source's step agree. */
  lemma AsWrittenAgreesFromStart(s: Schedule, now: int)
    requires WellTyped(s) && IsI64(now)
    requires s.startTime <= now
    ensures UnlockAsWritten(s, now) == UnlockStep(s, now)
  {
  }

  /** The source's step one second before `start_time`, on a schedule of one base
      unit per one-second period: `(cur_ts - start_time)` is -1, the cast makes it
      2^64 - 1 periods, no checked operation overflows, the whole pool is released
      and `start_time` is wound back to the current instant. The corrected step
      releases nothing at the same instant. */
  lemma AsWrittenReleasesPoolBeforeStart(s: Schedule)
    requires WellTyped(s) && IsI64(s.startTime - 1)
    requires s.unitTime == 1 && s.unitAmount == 1
    ensures UnlockAsWritten(s, s.startTime - 1)
         == Success(Step(U64_MAX, s.totalAmount, s.(startTime := s.startTime - 1, totalAmount := 0)))
    ensures UnlockStep(s, s.startTime - 1) == Success(Step(0, 0, s))
  {
    assert I64AsU64(-1) == U64_MAX;
    assert U64AsI64(U64_MAX) == -1;
  }

  /** The same discrepancy on the concrete schedule of the repository's test (3,000,000
      base units) with a one-unit, one-second tranche, unlocked at second 99 of a
      schedule that starts at second 100. */
  lemma AsWrittenEarlyUnlockExample()
    ensures UnlockAsWritten(Schedule(100, 3_000_000, 1, 1), 99)
         == Success(Step(U64_MAX, 3_000_000, Schedule(99, 0, 1, 1)))
  {
    AsWrittenReleasesPoolBeforeStart(Schedule(100, 3_000_000, 1, 1));
  }
}
