# Vesting program model

This project models the `vesting` Solana program, an Anchor program in
`programs/vesting/src/lib.rs`. A depositor locks a pool of SPL tokens in a vault
owned by a program-derived signer. Anyone can then call `unlock`, which pays one
tranche (`unit_amount`) per whole period (`unit_time`) elapsed since `start_time`
to a token account of the recorded owner. The pool caps the payment.

The model has eight modules:

- `FixedWidth`: Rust's `i64`, `u64` and `u8`, plus the two wrapping casts that
  `unlock` uses.
- `FloorDiv`: facts about floor division of non-negative integers (bounds,
  uniqueness of the quotient, monotonicity), which the period counting uses.
- `Results`: the program's outcomes. A failure is either an Anchor account
  constraint, a panic in checked arithmetic, or a refusal by the token program.
- `Token`: the part of the SPL token program that the vesting program uses. A
  `TokenLedger` class holds the token accounts, and its `Transfer` moves tokens all
  or nothing.
- `Unlocking`: the arithmetic of `unlock` (lines 47-50) as pure functions. There
  are two versions: exactly as written, and with the guard for a clock before
  `start_time` (see Findings). This module also holds the per-call properties.
- `Cumulative`: runs of unlocks at non-decreasing clock readings. It proves that
  every run that goes through has released the entitlement at its latest reading,
  whatever the calling pattern. From `start_time` on, the run of the source's own
  step is the same run. It also shows that whether a run panics does depend on
  the calling pattern, and it replays the repository's test trace.
- `VestingProgram`: the persisted `Vesting` record as a class whose `Unlock` method
  rewrites `start_time` and `total_amount` in place, and `Initialize`, which creates
  the record, opens the vault and funds it. Both methods perform the Anchor
  account validation before the handler runs.
- `Scenario`: the repository's end-to-end test, replayed on the class and the
  ledger as a verified method (not executed).

Arithmetic semantics follow the Rust source:

- `as u64` and `as i64` wrap (two's complement).
- `*`, `+`, `-` and `-=` are checked. An overflow is a panic (`ArithmeticOverflow`),
  as in a release build with `overflow-checks = true`.
- Division by a zero `unit_time` panics (`DivisionByZero`).
- A failed transaction changes nothing. Every failing path of `Initialize` and
  `Unlock` leaves both the record and the ledger unchanged.

The clock (`Clock::get()`) is the parameter `now`. Program-derived and associated
token addresses are symbolic `Pubkey` constructors: `ProgramAddress(seed, bump)`
and `AssociatedAddress(wallet, mint)`. The signatures a transaction carries are a
set of keys.

Two consequences of the code are worth stating:

- `units * unit_amount` is checked. An oversized product panics
  (`ArithmeticOverflow`); nothing caps it. From `start_time` on, the product only
  grows with time, so such a panic is permanent (`Unlocking.FailurePersists`).
  Before `start_time` the source's wrapped period count shrinks as the start
  approaches, so a panic there can go away.
- The record keeps a running `start_time` and `total_amount`. Nothing is derived
  from the vault balance.

## Model

| member | source | states |
|---|---|---|
| FixedWidth.I64AsU64 | programs/vesting/src/lib.rs:47 | `as u64` on an `i64` gives the `u64` congruent to it modulo 2^64: non-negative values are unchanged, and negative values land above `i64::MAX` |
| FixedWidth.U64AsI64 | programs/vesting/src/lib.rs:49 | `as i64` on a `u64` gives the `i64` congruent to it modulo 2^64: values up to `i64::MAX` are unchanged, and larger ones become negative |
| Unlocking.UnitsAsWritten | programs/vesting/src/lib.rs:47 | the period count fails exactly when the clock difference overflows an `i64` or `unit_time` is zero; otherwise it is a `u64` equal to the floor of the wrapped difference over the period |
| Unlocking.Advance | programs/vesting/src/lib.rs:48-50 | succeeds exactly when the tranche product, the period product and the new start are all in range; pays at most the pool and at most the tranches, and exactly one of the two; payment plus remaining pool equals the old pool; start moves by the wrapped period product; period and tranche are unchanged; the record stays well typed |
| Unlocking.UnlockAsWritten | programs/vesting/src/lib.rs:47-50 | the source's step pays a non-negative amount no more than the pool, conserves the pool, keeps period and tranche, and leaves a well-typed record |
| Unlocking.UnlockStep | programs/vesting/src/lib.rs:46-50 | before `start_time` it pays nothing and changes nothing; on success it pays a non-negative amount that leaves the pool, keeps period and tranche, and leaves a well-typed record |
| Unlocking.AdvanceNothing | programs/vesting/src/lib.rs:48-50 | advancing by zero periods succeeds, pays nothing and leaves the schedule as it was |
| Unlocking.AdvanceWithinRange | programs/vesting/src/lib.rs:48-50 | when the period product fits an `i64`, the step moves start by exactly that product and pays the lesser of the tranches and the pool |
| Unlocking.UnlockFailsExactly | programs/vesting/src/lib.rs:47-49 | the guarded step fails if and only if the schedule has started and either the clock difference overflows, the period is zero, or whole periods times tranche overflow a `u64`; from `start_time` on this is the source's step (`AsWrittenAgreesFromStart`) |
| Unlocking.FailurePersists | programs/vesting/src/lib.rs:47-48 | once the guarded step fails at some instant it fails at every later instant, so a failed record (which a panic leaves unchanged) stays locked; the guarded step fails only from `start_time` on, where it is the source's step (`AsWrittenAgreesFromStart`) |
| Unlocking.UnlockIsCapped | programs/vesting/src/lib.rs:48 | the payment is at most the pool, at most units times tranche, and equal to one of them |
| Unlocking.UnlockCarriesOver | programs/vesting/src/lib.rs:47-49 | start moves forward by exactly the whole periods counted; once the schedule has started, the new start is at most `now` and less than one period before it: the partial period is kept |
| Unlocking.UnlockFromStart | programs/vesting/src/lib.rs:47-50 | closed form once started: units is the floor of elapsed over period, the payment is `min(units * tranche, pool)`, start moves by `units * period`, and the pool drops by the payment |
| Unlocking.NoWholePeriodNoOp | programs/vesting/src/lib.rs:47-50 | within the first period after start, unlock succeeds, pays nothing and changes nothing |
| Unlocking.UnlockIdempotent | programs/vesting/src/lib.rs:43-50 | a second unlock at the same instant succeeds, pays nothing and leaves the record as the first left it |
| Unlocking.AsWrittenAgreesFromStart | programs/vesting/src/lib.rs:47-50 | from `start_time` on, the source's step and the guarded step give the same result |
| Unlocking.AsWrittenReleasesPoolBeforeStart | programs/vesting/src/lib.rs:47-49 | with a 1-second period and a 1-unit tranche, the source's unlock one second before start counts 2^64 - 1 periods, pays the whole pool and moves start back by one second; the guarded step pays nothing |
| Unlocking.AsWrittenEarlyUnlockExample | programs/vesting/src/lib.rs:47-50 | on a 3,000,000-unit pool starting at second 100, the source's unlock at second 99 releases all 3,000,000 |
| Cumulative.AsWrittenPanicBeforeStartLifts | programs/vesting/src/lib.rs:47-48 | on the test's schedule the source's step panics one second before `start_time` (the wrapped period count times the tranche overflows) and unlocks nothing without a panic at `start_time`; the guarded step does not panic before the start |
| Cumulative.UnlockTrace | programs/vesting/src/lib.rs:43-50 | across any run of unlocks, the total released plus the pool left equals the original pool; period and tranche never change; the record stays well typed |
| Cumulative.VestedMonotone | programs/vesting/src/lib.rs:47-48 | periods elapsed and the capped entitlement never decrease as time advances, and the entitlement never exceeds the pool |
| Cumulative.UnlockTraceAsWritten | programs/vesting/src/lib.rs:43-50 | a run of the source's own step conserves the pool: the total released plus the pool left equals the original pool; period and tranche never change; the record stays well typed |
| Cumulative.SettledStepClear | programs/vesting/src/lib.rs:47-49 | one unlock on a record settled to `k` periods goes through if and only if, from the start on, the period is non-zero, the clock difference from the settled start fits an `i64`, and the tranches accrued since then fit a `u64` |
| Cumulative.SettledStep | programs/vesting/src/lib.rs:47-50 | when it goes through, one unlock on a record settled to `k` periods settles it to the periods accrued at `now` and pays the difference of the two entitlements |
| Cumulative.TraceFollowsSchedule | programs/vesting/src/lib.rs:43-50 | path independence: every run of unlocks at non-decreasing readings that goes through leaves the record settled to the periods at the latest reading, and the total released equals the entitlement at that reading measured from the original start |
| Cumulative.TameTraceSucceeds | programs/vesting/src/lib.rs:47-49 | a run goes through when, measured from the original start, the period is non-zero, the clock difference fits an `i64` and all the tranches accrued fit a `u64` |
| Cumulative.AsWrittenTraceAgrees | programs/vesting/src/lib.rs:43-50 | on non-decreasing readings no earlier than the original start, the run of the source's own step equals the run of the guarded step, and the record's start never passes the latest reading |
| Cumulative.PanicDependsOnPath | programs/vesting/src/lib.rs:47-48 | with a 2^63 tranche every second, unlocks at seconds 1 and 2 release the whole `u64` pool, while a single unlock at second 2 panics: whether the tranche product overflows depends on how often the record is unlocked |
| Cumulative.TestRunFollowsSchedule | tests/vesting.ts:37-62 | on the test's schedule (3,000,000 units, 1,000,000 every 2 seconds), any run whose latest reading is within 1,000,000 seconds after start succeeds and follows the schedule |
| Cumulative.UnlockOnScheduleTrace | tests/vesting.ts:99-103 | unlocks after 2 and then 4 seconds release 1,000,000 and then 2,000,000 in total, leaving the exact records the source writes |
| Cumulative.UnlockOnScheduleCapped | tests/vesting.ts:104-107 | the third unlock brings the total to 3,000,000, and the fourth keeps it there because the pool caps it |
| Token.Moved | programs/vesting/src/lib.rs:52-61 | a transfer debits the source and credits the destination by exactly the amount; a self-transfer changes nothing; no other account changes |
| Token.TokenLedger.Open | programs/vesting/src/lib.rs:88-94 | opening the vault adds exactly one empty account with the given mint and owner |
| Token.TokenLedger.Transfer | programs/vesting/src/lib.rs:33-40 | succeeds exactly when both accounts exist, the source holds enough, the mints match and the source's owner signed; on success the balances are `Moved`; on failure nothing changes and the error names the first failed check |
| VestingProgram.Vesting.constructor | programs/vesting/src/lib.rs:24-31 | the new record holds exactly the given owner, vault, schedule and bump, each of its declared Rust type, so the record is valid from construction |
| VestingProgram.Vesting.Unlock | programs/vesting/src/lib.rs:43-62 | succeeds exactly when the vault address matches the record, the target exists and belongs to the record's owner, the guarded step `UnlockStep` does not panic and the vault can pay, signed by the derived signer; on failure nothing changes; on success the record takes the step's schedule, exactly the step's amount moves from vault to target, and owner, vault, bump, period and tranche stay; a vault that covers the pool keeps covering it and never refuses for insufficient funds |
| VestingProgram.Initialize | programs/vesting/src/lib.rs:13-41 | refuses a start time earlier than `now` (an equal one is accepted) exactly when the accounts are valid; succeeds exactly when the accounts are valid, start is not in the past and the depositor owns and holds the pool; on failure nothing changes; on success the fresh record holds the arguments, the ledger is `Deposited`, and the vault covers the pool |
| VestingProgram.Deposited | programs/vesting/src/lib.rs:33-40 | after initialization the vault is a new account of the derived signer holding exactly the pool, the depositor holds exactly the pool less, and every other account is unchanged |
| Scenario.TestSteps | tests/vesting.ts:99-107 | the test's four unlocks, step by step: 1,000,000, 1,000,000 and 1,000,000 are paid, then 0, with the records in between |
| Scenario.SetUp | tests/vesting.ts:40-82 | after the test's initialization the depositor's account is empty, the vault holds 3,000,000 and the record holds the test's schedule |
| Scenario.UnlockOnSchedule | tests/vesting.ts:84-108 | the depositor's balance after each of the test's four unlocks is 1,000,000, 2,000,000, 3,000,000 and 3,000,000 |

## Left out

- Rent, account space, the system program and the creation of the `vesting`
  account are not modelled. A new record is a fresh object.
- Initialize: does not model the `owner = system_program.key()` check on the
  beneficiary (lines 95-99); the beneficiary is any key.
- Program-derived and associated-token address derivation (hashing, bump search)
  is a symbolic, injective constructor. Seed collisions are not modelled.
- Token.TokenLedger.Transfer: does not model frozen accounts, delegates, or
  overflow of the destination balance. Only the checks that the vesting program
  can reach are modelled.
- The `vault_signer` account passed to `unlock` is unchecked in the source (lines
  110-111). The model passes it on as the transfer's authority, so it matters only
  through the token program's owner check.
- The build profile (`Cargo.toml`) is not part of this model. Checked arithmetic
  (`overflow-checks = true`) is assumed, and wrapping `*`, `+` and `-` are not
  modelled.
- Unlocking.UnlockFailsExactly: gives the failure set of the guarded step only.
  The source's step can also panic before `start_time`, and that panic can go
  away at a later reading (`Cumulative.AsWrittenPanicBeforeStartLifts`).
- Unlocking.UnlockStep: deliberately differs from the source before `start_time`.
  It pays nothing instead of wrapping (see Findings). `UnlockAsWritten` keeps the
  source's behaviour.
- VestingProgram.Vesting.Unlock: runs the guarded step `UnlockStep`, not the
  source's arithmetic. Before `start_time` it pays nothing and succeeds. The source
  instead either panics (on the test's schedule at `t0 - 1`, the wrapped period
  count times 1,000,000 overflows) or releases the pool (see Findings). From
  `start_time` on, the two steps are equal (`Unlocking.AsWrittenAgreesFromStart`).
- Cumulative.UnlockTrace: runs the guarded step, so a reading before `start_time`
  is a no-op where the source panics or pays early. For readings no earlier than
  the original start, `Cumulative.AsWrittenTraceAgrees` proves it equal to
  `UnlockTraceAsWritten`, the run of the source's step.
- Cumulative.TraceFollowsSchedule: is about the guarded run, like `UnlockTrace`.
  Through `AsWrittenTraceAgrees` it holds of the source for readings from the
  original start on.
- Cumulative.TestRunFollowsSchedule: is about the guarded run, like
  `UnlockTrace`. Only its latest reading must be no earlier than `t0`. Earlier
  readings before `t0` are no-ops here, where the source would panic.
- Cumulative.UnlockOnScheduleTrace: the test's 2-second sleeps become clock
  readings in the matching period windows. Wall-clock drift is not modelled.

## Findings

| source | as written | input that shows it | evidently intended | confidence | as-written member | corrected member |
|---|---|---|---|---|---|---|
| programs/vesting/src/lib.rs:47 | `(cur_ts - start_time) as u64 / unit_time` wraps a negative difference to nearly 2^64 periods | record with `start_time` 100, `total_amount` 3,000,000, `unit_time` 1, `unit_amount` 1; `unlock` at `cur_ts` 99 releases all 3,000,000 and sets `start_time` to 99 | before `start_time` no period has elapsed, so nothing is released | high, not executed | Unlocking.AsWrittenReleasesPoolBeforeStart | Unlocking.UnlockStep |
