/** The program's persistent records and the part of the ledger the modelled
    instructions read and write. */
module State {
  import opened Integers
  import opened Wrappers
  import opened Errors
  import opened Addresses

  /** The singleton configuration, stored at `ConfigAddress()`. */
  datatype StakeConfig = StakeConfig(
    pointsPerStake: u8,   // points per whole day one token stays staked
    maxStake: u8,         // ceiling on one participant's concurrent stakes
    freezePeriod: u32,    // seconds a token must stay staked
    rewardBump: u8,       // bump of the reward mint's address
    bump: u8)             // bump of the configuration's own address

  /** One participant's ledger, stored at `UserAddress(participant)`. */
  datatype User = User(points: u32, amountStaked: u8, bump: u8)

  /** One staked token, stored at `StakeAddress(mint, ConfigAddress())`. */
  datatype StakeAccount = StakeAccount(owner: Address, mint: Address, lastUpdate: i64, bump: u8)

  /** A token mint as the token program keeps it (freeze authority omitted). */
  datatype Mint = Mint(authority: Address, decimals: u8, supply: nat)

  /** The accounts the program owns or creates: the configuration, the reward
      mint at `RewardsMintAddress(ConfigAddress())`, and the user and stake
      records keyed by their derived addresses. The four roles never share an
      address (`Addresses.RolesDisjoint`), so each gets a slot of its own, and
      a stake record's address determines its mint and configuration
      (`Addresses.StakeAddressInjective`), so one mint has at most one. */
  datatype Ledger = Ledger(
    config: Option<StakeConfig>,
    rewardsMint: Option<Mint>,
    users: map<Address, User>,
    stakes: map<Address, StakeAccount>)

  /** What a transaction leaves behind: its staged state if it succeeded,
      the state it started from if it aborted. */
  function Commit(before: Ledger, outcome: Result<Ledger, TxError>): Ledger
  {
    match outcome
    case Success(next) => next
    case Failure(_) => before
  }

  /** The configuration values initialization accepts. */
  predicate ValidConfig(c: StakeConfig)
  {
    c.pointsPerStake > 0 && c.maxStake > 0 && c.freezePeriod > 0
  }

  /** The stake records whose owner is `owner`, by address. */
  ghost function StakesOwnedBy(s: Ledger, owner: Address): set<Address>
  {
    set k | k in s.stakes && s.stakes[k].owner == owner
  }

  /** The bookkeeping the program intends between its records: the reward
      mint exists exactly when the configuration does and no stake exists
      before it; every stake record sits at the address derived from its own
      mint and has an owner with a user ledger; every user ledger counts
      exactly the stakes its participant owns, and never more than the
      configured ceiling. */
  ghost predicate Consistent(s: Ledger)
  {
    && (s.rewardsMint.Some? <==> s.config.Some?)
    && (s.config.None? ==> s.stakes == map[])
    && (forall k :: k in s.stakes ==> k == StakeAddress(s.stakes[k].mint, ConfigAddress()))
    && (forall k :: k in s.stakes ==> UserAddress(s.stakes[k].owner) in s.users)
    && (forall u :: UserAddress(u) in s.users ==>
          s.users[UserAddress(u)].amountStaked == |StakesOwnedBy(s, u)|)
    && (forall u :: s.config.Some? && UserAddress(u) in s.users ==>
          s.users[UserAddress(u)].amountStaked <= s.config.value.maxStake)
  }
}
