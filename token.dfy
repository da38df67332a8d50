/** The token ledger the vesting program moves funds on: token accounts keyed by
    address, and the one operation the program invokes on them, `transfer`. The
    ledger's own program is outside this model; its transfer is described by the
    checks it makes and the balances it moves. */
module Token {
  import opened Results

  /** An account address. Plain keys are opaque; the two derived kinds stand for the
      runtime's hash-based derivations and, like them, are deterministic and (taken
      to be) collision-free. */
  datatype Pubkey =
    | Key(id: nat)
    | ProgramAddress(seed: Pubkey, bump: int)          // program-derived address of `[seed]` with `bump`
    | AssociatedAddress(wallet: Pubkey, mint: Pubkey)  // associated token account of `wallet` for `mint`

  /** A token account: which token it holds, who may spend from it, and its balance. */
  datatype TokenAccount = TokenAccount(mint: Pubkey, owner: Pubkey, amount: nat)

  type Accounts = map<Pubkey, TokenAccount>

  /** A transfer goes through when both accounts exist, the source holds enough,
      both hold the same token, and the authority owns the source and has signed. */
  predicate CanTransfer(accounts: Accounts, from: Pubkey, to: Pubkey, authority: Pubkey,
                        signers: set<Pubkey>, amount: nat)
  {
    && from in accounts && to in accounts
    && amount <= accounts[from].amount
    && accounts[from].mint == accounts[to].mint
    && accounts[from].owner == authority
    && authority in signers
  }

  /** The reason a transfer that cannot go through is refused. */
  function Refusal(accounts: Accounts, from: Pubkey, to: Pubkey, authority: Pubkey,
                   signers: set<Pubkey>, amount: nat): Error
    requires !CanTransfer(accounts, from, to, authority, signers, amount)
  {
    if from !in accounts || to !in accounts then AccountNotInitialized
    else if accounts[from].amount < amount then InsufficientFunds
    else if accounts[from].mint != accounts[to].mint then MintMismatch
    else if accounts[from].owner != authority then OwnerMismatch
    else MissingRequiredSignature
  }

  /** The balances after moving `amount` from `from` to `to`: the source is debited
      and the destination credited by exactly `amount`, a self-transfer changes
      nothing, and no other account, mint or owner changes. */
  function Moved(accounts: Accounts, from: Pubkey, to: Pubkey, amount: nat): (r: Accounts)
    requires from in accounts && to in accounts && amount <= accounts[from].amount
    ensures r.Keys == accounts.Keys
    ensures forall k :: k in accounts && k != from && k != to ==> r[k] == accounts[k]
    ensures from != to ==>
      && r[from] == accounts[from].(amount := accounts[from].amount - amount)
      && r[to] == accounts[to].(amount := accounts[to].amount + amount)
    ensures from == to ==> r == accounts
  {
    var debited := accounts[from := accounts[from].(amount := accounts[from].amount - amount)];
    debited[to := debited[to].(amount := debited[to].amount + amount)]
  }

  class TokenLedger {
    var accounts: Accounts

    constructor (accounts: Accounts)
      ensures this.accounts == accounts
    {
      this.accounts := accounts;
    }

    /** Creates an empty token account (the vault `init` of `initialize`). */
    method Open(key: Pubkey, mint: Pubkey, owner: Pubkey)
      requires key !in accounts
      modifies this
      ensures accounts == old(accounts)[key := TokenAccount(mint, owner, 0)]
    {
      accounts := accounts[key := TokenAccount(mint, owner, 0)];
    }

    /** The `transfer` the vesting program invokes: all or nothing. */
    method Transfer(from: Pubkey, to: Pubkey, authority: Pubkey, signers: set<Pubkey>, amount: nat)
      returns (r: Result<()>)
      modifies this
      ensures r.Success? <==> CanTransfer(old(accounts), from, to, authority, signers, amount)
      ensures r.Success? ==> accounts == Moved(old(accounts), from, to, amount)
      ensures r.Failure? ==>
        && accounts == old(accounts)
        && r.error == Refusal(old(accounts), from, to, authority, signers, amount)
    {
      if !CanTransfer(accounts, from, to, authority, signers, amount) {
        return Failure(Refusal(accounts, from, to, authority, signers, amount));
      }
      accounts := Moved(accounts, from, to, amount);
      return Success(());
    }
  }
}
