/** The `initialize_config` instruction: creates the reward mint and the
    singleton configuration, after checking that every parameter is nonzero. */
module InitializeConfigIx {
  import opened Integers
  import opened Constants
  import opened Wrappers
  import opened Errors
  import opened Addresses
  import opened State

  /** Decimal places of the reward mint, the literal of its `init` constraint. */
  const REWARDS_MINT_DECIMALS: u8 := 6

  /** The bumps the framework found for the two addresses the instruction
      creates. */
  datatype InitializeConfigBumps = InitializeConfigBumps(rewardsMint: u8, config: u8)

  /** The instruction as written: the framework first creates the reward mint
      and then the configuration (each `init` aborts when its address is
      taken), then the handler validates the parameters and fills the
      configuration in. Any abort discards both creations.

      It commits exactly when neither account exists and all three parameters
      are nonzero; if either account exists it is `AccountAlreadyInUse`, and on
      a fresh ledger a zero parameter is `InvalidConfiguration`.
      A commit stores exactly the supplied parameters and bumps, creates the
      reward mint with the configuration as authority, six decimals and no
      supply, and touches no user or stake record. */
  function InitializeConfig(
    s: Ledger, pointsPerStake: u8, maxStake: u8, freezePeriod: u32, bumps: InitializeConfigBumps
  ): (r: Result<Ledger, TxError>)
    ensures r.Success? <==>
      s.config.None? && s.rewardsMint.None? && pointsPerStake != 0 && maxStake != 0 && freezePeriod != 0
    ensures s.config.Some? || s.rewardsMint.Some? ==> r == Failure(AccountAlreadyInUse)
    ensures s.config.None? && s.rewardsMint.None? && (pointsPerStake == 0 || maxStake == 0 || freezePeriod == 0)
      ==> r == Failure(Program(InvalidConfiguration))
    ensures r.Success? ==>
      && r.value.config.Some?
      && r.value.config.value.pointsPerStake == pointsPerStake
      && r.value.config.value.maxStake == maxStake
      && r.value.config.value.freezePeriod == freezePeriod
      && r.value.config.value.rewardBump == bumps.rewardsMint
      && r.value.config.value.bump == bumps.config
      && ValidConfig(r.value.config.value)
      && r.value.rewardsMint == Some(Mint(ConfigAddress(), 6, 0))
      && r.value.users == s.users
      && r.value.stakes == s.stakes
  {
    if s.rewardsMint.Some? then Failure(AccountAlreadyInUse)
    else if s.config.Some? then Failure(AccountAlreadyInUse)
    else if !(pointsPerStake > 0 && maxStake > 0 && freezePeriod > 0) then
      Failure(Program(InvalidConfiguration))
    else
      var mint := Mint(ConfigAddress(), REWARDS_MINT_DECIMALS, 0);
      var config := StakeConfig(pointsPerStake, maxStake, freezePeriod, bumps.rewardsMint, bumps.config);
      Success(s.(rewardsMint := Some(mint), config := Some(config)))
  }

  /** The configuration lives at a single address, so once one exists every
      further initialization aborts, whatever its parameters. */
  lemma InitializeConfigOnce(
    s: Ledger, p1: u8, m1: u8, f1: u32, b1: InitializeConfigBumps,
    p2: u8, m2: u8, f2: u32, b2: InitializeConfigBumps)
    requires InitializeConfig(s, p1, m1, f1, b1).Success?
    ensures var s' := InitializeConfig(s, p1, m1, f1, b1).value;
      InitializeConfig(s', p2, m2, f2, b2) == Failure(AccountAlreadyInUse)
  {
  }

  /** Initialization keeps the program's bookkeeping consistent. */
  lemma InitializeConfigPreservesConsistent(
    s: Ledger, pointsPerStake: u8, maxStake: u8, freezePeriod: u32, bumps: InitializeConfigBumps)
    requires Consistent(s)
    ensures Consistent(Commit(s, InitializeConfig(s, pointsPerStake, maxStake, freezePeriod, bumps)))
  {
    var r := InitializeConfig(s, pointsPerStake, maxStake, freezePeriod, bumps);
    if r.Success? {
      var s' := r.value;
      assert s.stakes == map[];
      forall u | UserAddress(u) in s'.users
        ensures s'.users[UserAddress(u)].amountStaked == |StakesOwnedBy(s', u)|
      {
        assert StakesOwnedBy(s', u) == {};
      }
    }
  }
}
