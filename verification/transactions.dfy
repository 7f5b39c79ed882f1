/** Sequences of the modelled instructions, executed one transaction at a
    time, each either committing or leaving the ledger as it was. */
module Transactions {
  import opened Integers
  import opened Wrappers
  import opened Errors
  import opened Addresses
  import opened State
  import opened InitializeConfigIx
  import opened UnstakeIx

  datatype Instruction =
    | InitializeConfigTx(pointsPerStake: u8, maxStake: u8, freezePeriod: u32, bumps: InitializeConfigBumps)
    | UnstakeTx(now: i64, signer: Address, mint: Address)

  function Execute(s: Ledger, ix: Instruction): Result<Ledger, TxError>
  {
    match ix
    case InitializeConfigTx(p, m, f, b) => InitializeConfig(s, p, m, f, b)
    case UnstakeTx(now, signer, mint) => Unstake(s, now, signer, mint)
  }

  /** The ledger after the transactions of `txs`, in order. */
  function Run(s: Ledger, txs: seq<Instruction>): Ledger
    decreases |txs|
  {
    if txs == [] then s else Run(Commit(s, Execute(s, txs[0])), txs[1..])
  }

  /** One transaction keeps the bookkeeping consistent. */
  lemma ExecutePreservesConsistent(s: Ledger, ix: Instruction)
    requires Consistent(s)
    ensures Consistent(Commit(s, Execute(s, ix)))
  {
    match ix
    case InitializeConfigTx(p, m, f, b) => InitializeConfigPreservesConsistent(s, p, m, f, b);
    case UnstakeTx(now, signer, mint) => UnstakePreservesConsistent(s, now, signer, mint);
  }

  /** Any sequence of transactions keeps the bookkeeping consistent. */
  lemma {:induction false} RunPreservesConsistent(s: Ledger, txs: seq<Instruction>)
    requires Consistent(s)
    ensures Consistent(Run(s, txs))
    decreases |txs|
  {
    if txs != [] {
      ExecutePreservesConsistent(s, txs[0]);
      RunPreservesConsistent(Commit(s, Execute(s, txs[0])), txs[1..]);
    }
  }

  /** Once a configuration exists, no sequence of transactions changes it:
      it is created once and is immutable thereafter. */
  lemma {:induction false} RunKeepsConfig(s: Ledger, txs: seq<Instruction>)
    requires s.config.Some?
    ensures Run(s, txs).config == s.config
    ensures Run(s, txs).rewardsMint == s.rewardsMint
    decreases |txs|
  {
    if txs != [] {
      var s1 := Commit(s, Execute(s, txs[0]));
      RunKeepsConfig(s1, txs[1..]);
    }
  }

  /** No sequence of transactions deletes a participant's ledger or lowers
      its points. */
  lemma {:induction false} RunNeverLowersPoints(s: Ledger, txs: seq<Instruction>, u: Address)
    requires UserAddress(u) in s.users
    ensures UserAddress(u) in Run(s, txs).users
    ensures Run(s, txs).users[UserAddress(u)].points >= s.users[UserAddress(u)].points
    decreases |txs|
  {
    if txs != [] {
      var s1 := Commit(s, Execute(s, txs[0]));
      if txs[0].UnstakeTx? && Execute(s, txs[0]).Success? {
        var ix := txs[0];
        if u != ix.signer {
          UnstakeIsolation(s, ix.now, ix.signer, ix.mint, u);
        }
      }
      RunNeverLowersPoints(s1, txs[1..], u);
    }
  }
}
