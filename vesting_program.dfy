/** The vesting program's two instructions over the persisted `Vesting` record and
    the token ledger. The clock (`Clock::get()`) is the parameter `now`. Every
    failure aborts the transaction, so on failure neither the record nor the ledger
    changes. */
module VestingProgram {
  import opened FixedWidth
  import opened Results
  import opened Unlocking
  import opened Token

  /** The persisted `Vesting` record, with the address of the account holding it. */
  class Vesting {
    const key: Pubkey
    var owner: Pubkey
    var vault: Pubkey
    var startTime: int
    var totalAmount: int
    var unitTime: int
    var unitAmount: int
    var bump: int

    /** The schedule fields, as the unlock arithmetic sees them. */
    function Terms(): Schedule
      reads this
    {
      Schedule(startTime, totalAmount, unitTime, unitAmount)
    }

    /** Every field holds a value of its declared Rust type. */
    ghost predicate Valid()
      reads this
    {
      WellTyped(Terms()) && IsU8(bump)
    }

    /** The keyless authority over the vault: the address derived from this record's
        address and the stored bump. */
    function VaultSigner(): Pubkey
      reads this
    {
      ProgramAddress(key, bump)
    }

    /** Writes the record's fields one by one, as `initialize` does. */
    constructor (key: Pubkey, owner: Pubkey, vault: Pubkey, startTime: int, totalAmount: int,
                 unitTime: int, unitAmount: int, bump: int)
      requires IsI64(startTime) && IsU64(totalAmount) && IsU64(unitTime) && IsU64(unitAmount)
      requires IsU8(bump)
      ensures Valid()
      ensures this.key == key && this.owner == owner && this.vault == vault && this.bump == bump
      ensures Terms() == Schedule(startTime, totalAmount, unitTime, unitAmount)
    {
      this.key := key;
      this.owner := owner;
      this.vault := vault;
      this.startTime := startTime;
      this.totalAmount := totalAmount;
      this.unitTime := unitTime;
      this.unitAmount := unitAmount;
      this.bump := bump;
    }

    /** `unlock`: pays the tranches accrued since `start_time` (capped at the remaining
        pool) from the recorded vault to a token account of the recorded owner, moves
        `start_time` forward by the whole periods paid for and takes the payment off
        the pool. Returns the amount paid. */
    method Unlock(ledger: TokenLedger, now: int, vaultSigner: Pubkey, vaultKey: Pubkey, targetKey: Pubkey)
      returns (r: Result<int>)
      requires Valid() && IsI64(now)
      modifies this, ledger
      ensures Valid()
      // the recorded parties and the schedule's constants never change
      ensures owner == old(owner) && vault == old(vault) && bump == old(bump)
      ensures unitTime == old(unitTime) && unitAmount == old(unitAmount)
      // it succeeds exactly when the accounts pass validation, the arithmetic does not
      // panic and the ledger accepts the transfer signed for the vault signer
      ensures r.Success? <==>
        && vaultKey == old(vault)
        && targetKey in old(ledger.accounts)
        && old(ledger.accounts)[targetKey].owner == owner
        && UnlockStep(old(Terms()), now).Success?
        && CanTransfer(old(ledger.accounts), vaultKey, targetKey, vaultSigner, {VaultSigner()},
                       UnlockStep(old(Terms()), now).value.amount)
      ensures r.Failure? ==> Terms() == old(Terms()) && ledger.accounts == old(ledger.accounts)
      // on success: the record takes the step's schedule and exactly the step's amount moves
      ensures r.Success? ==>
        && r.value == UnlockStep(old(Terms()), now).value.amount
        && Terms() == UnlockStep(old(Terms()), now).value.next
        && ledger.accounts == Moved(old(ledger.accounts), vault, targetKey, r.value)
      // the vault keeps covering the remaining pool, so the payment is never short
      ensures old(Backed(this, ledger.accounts)) ==> Backed(this, ledger.accounts)
      ensures old(Backed(this, ledger.accounts)) && r.Failure? ==> r.error != InsufficientFunds
    {
      // account validation (lines 113-121)
      if vaultKey != vault {
        return Failure(ConstraintAddress);
      }
      if targetKey !in ledger.accounts {
        return Failure(AccountNotInitialized);
      }
      if ledger.accounts[targetKey].owner != owner {
        return Failure(ConstraintRaw);
      }
      // the arithmetic of lines 47-50, with the guard for a clock before start_time
      var step := UnlockStep(Terms(), now);
      if step.Failure? {
        return Failure(step.error);
      }
      // lines 52-61; the transfer runs before the record is written back, which the
      // all-or-nothing transaction makes indistinguishable from the source's order
      var paid := ledger.Transfer(vault, targetKey, vaultSigner, {VaultSigner()}, step.value.amount);
      if paid.Failure? {
        return Failure(paid.error);
      }
      startTime := step.value.next.startTime;
      totalAmount := step.value.next.totalAmount;
      if old(Backed(this, ledger.accounts)) && targetKey != vault {
        assert ledger.accounts[vault].amount == old(ledger.accounts)[vault].amount - step.value.amount;
      }
      return Success(step.value.amount);
    }
  }

  /** The vault exists, is owned by the record's derived signer, and holds at least
      the remaining pool. */
  ghost predicate Backed(v: Vesting, accounts: Accounts)
    reads v
  {
    && v.vault in accounts
    && accounts[v.vault].owner == v.VaultSigner()
    && v.totalAmount <= accounts[v.vault].amount
  }

  /** `initialize`: validates the accounts, refuses a start time already past, writes
      the record, opens the vault as the derived signer's token account for `mint`
      and moves exactly `totalAmount` into it from `depositFrom`, signed by `payer`. */
  method Initialize(ledger: TokenLedger, now: int, vestingKey: Pubkey, mint: Pubkey,
                    depositFrom: Pubkey, payer: Pubkey, vaultSigner: Pubkey, vaultKey: Pubkey,
                    owner: Pubkey, bump: int, startTime: int, totalAmount: int,
                    unitTime: int, unitAmount: int)
    returns (r: Result<Vesting>)
    requires IsI64(now) && IsU8(bump) && IsI64(startTime)
    requires IsU64(totalAmount) && IsU64(unitTime) && IsU64(unitAmount)
    modifies ledger
    // the start-time check (line 22): equal is allowed, later is refused
    ensures r == Failure(StartTimeInPast) <==>
      && AccountsValid(old(ledger.accounts), vestingKey, mint, depositFrom, vaultSigner, vaultKey, bump)
      && startTime < now
    ensures r.Success? <==>
      && AccountsValid(old(ledger.accounts), vestingKey, mint, depositFrom, vaultSigner, vaultKey, bump)
      && now <= startTime
      && totalAmount <= old(ledger.accounts)[depositFrom].amount
      && old(ledger.accounts)[depositFrom].owner == payer
    ensures r.Failure? ==> ledger.accounts == old(ledger.accounts)
    ensures r.Success? ==>
      && fresh(r.value)
      && r.value.Valid()
      && r.value.key == vestingKey && r.value.owner == owner && r.value.vault == vaultKey
      && r.value.Terms() == Schedule(startTime, totalAmount, unitTime, unitAmount)
      && r.value.bump == bump
    // the vault is opened and exactly totalAmount moves into it from the depositor
    ensures r.Success? ==>
      && ledger.accounts == Deposited(old(ledger.accounts), mint, depositFrom, vaultSigner, vaultKey, totalAmount)
      && Backed(r.value, ledger.accounts)
  {
    // account validation (lines 74-94)
    if depositFrom !in ledger.accounts {
      return Failure(AccountNotInitialized);
    }
    if ledger.accounts[depositFrom].mint != mint {
      return Failure(ConstraintRaw);
    }
    if vaultSigner != ProgramAddress(vestingKey, bump) {
      return Failure(ConstraintSeeds);
    }
    if vaultKey != AssociatedAddress(vaultSigner, mint) {
      return Failure(ConstraintAssociated);
    }
    if vaultKey in ledger.accounts {
      return Failure(AccountAlreadyInUse);
    }
    // line 22
    if startTime < now {
      return Failure(StartTimeInPast);
    }
    // lines 33-40, checked before anything is written so that a refusal changes nothing
    var withVault := ledger.accounts[vaultKey := TokenAccount(mint, vaultSigner, 0)];
    if !CanTransfer(withVault, depositFrom, vaultKey, payer, {payer}, totalAmount) {
      return Failure(Refusal(withVault, depositFrom, vaultKey, payer, {payer}, totalAmount));
    }
    ledger.Open(vaultKey, mint, vaultSigner);
    // lines 24-31
    var v := new Vesting(vestingKey, owner, vaultKey, startTime, totalAmount, unitTime, unitAmount, bump);
    var deposited := ledger.Transfer(depositFrom, vaultKey, payer, {payer}, totalAmount);
    assert deposited.Success?;
    return Success(v);
  }

  /** The ledger once `initialize` has gone through: the vault opened as the
      signer's empty account for `mint`, then `amount` moved into it from
      `depositFrom`. Exactly `amount` leaves the depositor and reaches the vault;
      every other account stays as it was. */
  function Deposited(accounts: Accounts, mint: Pubkey, depositFrom: Pubkey, vaultSigner: Pubkey,
                     vaultKey: Pubkey, amount: nat): (r: Accounts)
    requires depositFrom in accounts && vaultKey !in accounts
    requires accounts[depositFrom].mint == mint && amount <= accounts[depositFrom].amount
    ensures r.Keys == accounts.Keys + {vaultKey}
    ensures r[vaultKey] == TokenAccount(mint, vaultSigner, amount)
    ensures r[depositFrom] == accounts[depositFrom].(amount := accounts[depositFrom].amount - amount)
    ensures forall k :: k in accounts && k != depositFrom ==> r[k] == accounts[k]
  {
    Moved(accounts[vaultKey := TokenAccount(mint, vaultSigner, 0)], depositFrom, vaultKey, amount)
  }

  /** The account constraints of `initialize`: the deposit account exists and holds
      `mint`, the vault signer is the address derived from the record's address and
      `bump`, and the vault is the signer's associated account for `mint`, not yet
      opened. */
  predicate AccountsValid(accounts: Accounts, vestingKey: Pubkey, mint: Pubkey, depositFrom: Pubkey,
                          vaultSigner: Pubkey, vaultKey: Pubkey, bump: int)
  {
    && depositFrom in accounts
    && accounts[depositFrom].mint == mint
    && vaultSigner == ProgramAddress(vestingKey, bump)
    && vaultKey == AssociatedAddress(vaultSigner, mint)
    && vaultKey !in accounts
  }
}
