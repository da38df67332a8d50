/** The repository's end-to-end test replayed on the model: a 3,000,000-unit pool
    released 1,000,000 every two seconds back into the depositor's own account, the
    balance read after each unlock. Everything asserted here follows from the
    contracts of `Initialize` and `Unlock` and the trace lemmas alone. */
module Scenario {
  import opened FixedWidth
  import opened Results
  import opened Unlocking
  import opened Cumulative
  import opened Token
  import opened VestingProgram

  /** The test's four unlocks, one step at a time, read off the trace lemmas. */
  lemma TestSteps(t0: int, t1: int, t2: int, t3: int, t4: int)
    requires IsI64(t0) && IsI64(t4)
    requires t0 + 2 <= t1 < t0 + 4 <= t2 < t0 + 6 <= t3 <= t4 <= t0 + 1_000_000
    ensures UnlockStep(TestSchedule(t0), t1).Success?
    ensures UnlockStep(TestSchedule(t0), t1).value.amount == 1_000_000
    ensures UnlockStep(TestSchedule(t0), t1).value.next == Schedule(t0 + 2, 2_000_000, 2, 1_000_000)
    ensures UnlockStep(Schedule(t0 + 2, 2_000_000, 2, 1_000_000), t2).Success?
    ensures UnlockStep(Schedule(t0 + 2, 2_000_000, 2, 1_000_000), t2).value.amount == 1_000_000
    ensures UnlockStep(Schedule(t0 + 2, 2_000_000, 2, 1_000_000), t2).value.next == Schedule(t0 + 4, 1_000_000, 2, 1_000_000)
    ensures UnlockStep(Schedule(t0 + 4, 1_000_000, 2, 1_000_000), t3).Success?
    ensures UnlockStep(Schedule(t0 + 4, 1_000_000, 2, 1_000_000), t3).value.amount == 1_000_000
    ensures UnlockStep(UnlockStep(Schedule(t0 + 4, 1_000_000, 2, 1_000_000), t3).value.next, t4).Success?
    ensures UnlockStep(UnlockStep(Schedule(t0 + 4, 1_000_000, 2, 1_000_000), t3).value.next, t4).value.amount == 0
  {
    UnlockOnScheduleTrace(t0, t1, t2);
    UnlockOnScheduleCapped(t0, t1, t2, t3, t4);
    assert [t1][..0] == [];
    assert [t1, t2][..1] == [t1];
    assert [t1, t2, t3][..2] == [t1, t2];
    assert [t1, t2, t3, t4][..3] == [t1, t2, t3];
  }

  /** The test's setup: a depositor holding the 3,000,000-unit pool initializes a
      record paying the pool back to itself, 1,000,000 every two seconds from `t0`.
      Afterwards the depositor's account is empty and the vault holds the pool. */
  method SetUp(t0: int) returns (ledger: TokenLedger, v: Vesting)
    requires IsI64(t0)
    ensures fresh(ledger) && fresh(v) && v.Valid()
    ensures v.Terms() == TestSchedule(t0)
    ensures v.owner == Key(1) && v.vault == TestVault() && v.VaultSigner() == TestSigner()
    ensures ledger.accounts == map[Key(2) := TokenAccount(Key(0), Key(1), 0),
                                   TestVault() := TokenAccount(Key(0), TestSigner(), 3_000_000)]
  {
    var mint, wallet, depositFrom, vestingKey := Key(0), Key(1), Key(2), Key(3);
    ledger := new TokenLedger(map[depositFrom := TokenAccount(mint, wallet, 3_000_000)]);
    var init := Initialize(ledger, t0, vestingKey, mint, depositFrom, wallet, TestSigner(), TestVault(),
                           wallet, 255, t0, 3_000_000, 2, 1_000_000);
    assert init.Success?;
    v := init.value;
  }

  /** The vault signer derived from the test record's address with bump 255. */
  function TestSigner(): Pubkey
  {
    ProgramAddress(Key(3), 255)
  }

  /** The vault signer's associated token account for the test's mint. */
  function TestVault(): Pubkey
  {
    AssociatedAddress(TestSigner(), Key(0))
  }

  /** The test's unlocks on the record and the ledger, returning the depositor's
      balance read after each one: each unlock moves exactly the tranche due from
      the vault back to the depositor, until the pool is exhausted. */
  method UnlockOnSchedule(t0: int, t1: int, t2: int, t3: int, t4: int) returns (balances: seq<nat>)
    requires IsI64(t0) && IsI64(t4)
    requires t0 + 2 <= t1 < t0 + 4 <= t2 < t0 + 6 <= t3 <= t4 <= t0 + 1_000_000
    ensures balances == [1_000_000, 2_000_000, 3_000_000, 3_000_000]
  {
    var ledger, v := SetUp(t0);
    var depositFrom, signer, vault := Key(2), TestSigner(), TestVault();
    TestSteps(t0, t1, t2, t3, t4);

    var r := v.Unlock(ledger, t1, signer, vault, depositFrom);
    assert r == Success(1_000_000);
    var b1 := ledger.accounts[depositFrom].amount;
    assert b1 == 1_000_000;

    r := v.Unlock(ledger, t2, signer, vault, depositFrom);
    assert r == Success(1_000_000);
    var b2 := ledger.accounts[depositFrom].amount;
    assert b2 == 2_000_000;

    r := v.Unlock(ledger, t3, signer, vault, depositFrom);
    assert r == Success(1_000_000);
    var b3 := ledger.accounts[depositFrom].amount;
    assert b3 == 3_000_000;

    r := v.Unlock(ledger, t4, signer, vault, depositFrom);
    assert r == Success(0);
    var b4 := ledger.accounts[depositFrom].amount;
    assert b4 == 3_000_000;
    balances := [b1, b2, b3, b4];
  }
}
