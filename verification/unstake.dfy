/** The `unstake` instruction: after the freeze period, the owner of a staked
    token gets it back, its stake record is closed, the owner's stake count
    drops by one and the owner is credited points for every whole day the
    token stayed staked. */
module UnstakeIx {
  import opened Integers
  import opened Constants
  import opened Wrappers
  import opened Errors
  import opened Addresses
  import opened State

  /** The number of whole days in `elapsed` seconds, defined by the property
      that identifies it rather than by division. */
  ghost predicate WholeDays(elapsed: int, days: int)
  {
    0 <= days && days * SECONDS_PER_DAY <= elapsed < (days + 1) * SECONDS_PER_DAY
  }

  /** Points one token earns for `elapsed` seconds of staking, computed as the
      handler does: Rust's truncating division by a day, the wrapping
      `as u32` cast, then the product with the rate. The product is the exact
      one; whether it fits in a `u32` is the caller's test. It is the rate
      times the whole days taken modulo 2^32: partial days earn nothing, and
      below 2^32 whole days the count is exact. */
  function PointsEarned(elapsed: i64, pointsPerStake: u8): (r: int)
    ensures r >= 0
    ensures forall days :: WholeDays(elapsed, days) ==> r == (days % U32_LIMIT) * pointsPerStake
    ensures forall days :: WholeDays(elapsed, days) && days < U32_LIMIT ==> r == days * pointsPerStake
  {
    var days := TruncDiv(elapsed, SECONDS_PER_DAY);
    assert elapsed >= 0 ==> WholeDays(elapsed, days);
    AsU32(days) * pointsPerStake
  }

  /** At a rate of 10, two days earn 20 points and one second short of a day
      earns none. */
  lemma PointsEarnedExamples()
    ensures PointsEarned(172800, 10) == 20
    ensures PointsEarned(86399, 10) == 0
  {
    assert WholeDays(172800, 2);
    assert WholeDays(86399, 0);
  }

  /** The `as u32` cast wraps: a stake of exactly 2^32 days (which fits in the
      `i64` elapsed time) earns no points at all, instead of trapping. */
  lemma PointsEarnedWrapsAfter2To32Days(pointsPerStake: u8)
    ensures PointsEarned(U32_LIMIT * SECONDS_PER_DAY, pointsPerStake) == 0
  {
    assert TruncDiv(U32_LIMIT * SECONDS_PER_DAY, SECONDS_PER_DAY) == U32_LIMIT;
  }

  /** The three accounts unstake names exist: the configuration, the stake
      record of `mint` and the signer's ledger. */
  predicate AccountsLoad(s: Ledger, signer: Address, mint: Address)
  {
    s.config.Some? && StakeAddress(mint, ConfigAddress()) in s.stakes && UserAddress(signer) in s.users
  }

  /** Seconds since the stake record of `mint` was written. */
  function Elapsed(s: Ledger, now: i64, mint: Address): int
    requires StakeAddress(mint, ConfigAddress()) in s.stakes
  {
    now - s.stakes[StakeAddress(mint, ConfigAddress())].lastUpdate
  }

  /** The instruction as written. The framework loads the configuration, the
      stake record derived from `mint` and the configuration, and the user
      ledger derived from the signer, aborting if one is missing. The handler
      then computes the elapsed time, checks the freeze period BEFORE the
      owner, decrements the stake count, adds the earned points and closes
      the stake record. Both clock reads of the handler see `now`.

      Too early is `UnstakeDelayNotMet` whoever signs; after the delay a
      non-owner is `Unauthorized`. It commits exactly when the accounts load,
      the elapsed time is representable and at least the freeze period, the
      signer owns the stake, its count is nonzero and the credit fits; every
      trap of the unchecked arithmetic is `ArithmeticPanic`, and
      `ArithmeticOverflow` is never returned. A commit lowers the signer's
      count by one, adds the rate times the whole days staked (modulo 2^32)
      to its points, closes exactly the stake record of `mint`
      and leaves everything else as it was. */
  function Unstake(s: Ledger, now: i64, signer: Address, mint: Address): (r: Result<Ledger, TxError>)
    ensures !AccountsLoad(s, signer, mint) ==> r == Failure(AccountNotInitialized)
    ensures AccountsLoad(s, signer, mint) && InI64(Elapsed(s, now, mint))
            && Elapsed(s, now, mint) < s.config.value.freezePeriod
      ==> r == Failure(Program(UnstakeDelayNotMet))
    ensures AccountsLoad(s, signer, mint) && InI64(Elapsed(s, now, mint))
            && Elapsed(s, now, mint) >= s.config.value.freezePeriod
            && s.stakes[StakeAddress(mint, ConfigAddress())].owner != signer
      ==> r == Failure(Program(Unauthorized))
    ensures AccountsLoad(s, signer, mint) && !InI64(Elapsed(s, now, mint)) ==> r == Failure(ArithmeticPanic)
    ensures AccountsLoad(s, signer, mint) && InI64(Elapsed(s, now, mint))
            && Elapsed(s, now, mint) >= s.config.value.freezePeriod
            && s.stakes[StakeAddress(mint, ConfigAddress())].owner == signer
            && s.users[UserAddress(signer)].amountStaked == 0
      ==> r == Failure(ArithmeticPanic)
    ensures AccountsLoad(s, signer, mint) && InI64(Elapsed(s, now, mint))
            && Elapsed(s, now, mint) >= s.config.value.freezePeriod
            && s.stakes[StakeAddress(mint, ConfigAddress())].owner == signer
            && s.users[UserAddress(signer)].amountStaked >= 1
            && (var earned := PointsEarned(Elapsed(s, now, mint), s.config.value.pointsPerStake);
                !InU32(earned) || !InU32(s.users[UserAddress(signer)].points + earned))
      ==> r == Failure(ArithmeticPanic)
    ensures r.Failure? ==>
      r.error in {AccountNotInitialized, Program(UnstakeDelayNotMet), Program(Unauthorized), ArithmeticPanic}
    ensures r.Failure? ==> r.error != Program(ArithmeticOverflow)
    ensures r.Success? <==>
      && AccountsLoad(s, signer, mint)
      && InI64(Elapsed(s, now, mint))
      && var user := s.users[UserAddress(signer)];
         var earned := PointsEarned(Elapsed(s, now, mint), s.config.value.pointsPerStake);
         && Elapsed(s, now, mint) >= s.config.value.freezePeriod
         && s.stakes[StakeAddress(mint, ConfigAddress())].owner == signer
         && user.amountStaked >= 1
         && InU32(earned)
         && InU32(user.points + earned)
    ensures r.Success? ==>
      && Elapsed(s, now, mint) >= s.config.value.freezePeriod >= 0
      && var before := s.users[UserAddress(signer)];
         && UserAddress(signer) in r.value.users
         && var after := r.value.users[UserAddress(signer)];
            && after.amountStaked == before.amountStaked - 1
            && after.points >= before.points
            && after.bump == before.bump
            && (forall days :: WholeDays(Elapsed(s, now, mint), days) ==>
                  after.points == before.points + (days % U32_LIMIT) * s.config.value.pointsPerStake)
    ensures r.Success? ==>
      && r.value.config == s.config
      && r.value.rewardsMint == s.rewardsMint
      && r.value.stakes.Keys == s.stakes.Keys - {StakeAddress(mint, ConfigAddress())}
      && (forall k :: k in r.value.stakes ==> r.value.stakes[k] == s.stakes[k])
      && r.value.users.Keys == s.users.Keys
      && (forall k :: k in s.users && k != UserAddress(signer) ==> r.value.users[k] == s.users[k])
  {
    var stakeKey := StakeAddress(mint, ConfigAddress());
    var userKey := UserAddress(signer);
    if s.config.None? || stakeKey !in s.stakes || userKey !in s.users then
      Failure(AccountNotInitialized)
    else
      var config := s.config.value;
      var stake := s.stakes[stakeKey];
      var user := s.users[userKey];
      var elapsed := now - stake.lastUpdate;
      if !InI64(elapsed) then Failure(ArithmeticPanic)
      else if elapsed < config.freezePeriod then Failure(Program(UnstakeDelayNotMet))
      else if stake.owner != signer then Failure(Program(Unauthorized))
      else if user.amountStaked - 1 < 0 then Failure(ArithmeticPanic)
      else
        var earned := PointsEarned(elapsed, config.pointsPerStake);
        if !InU32(earned) || !InU32(user.points + earned) then Failure(ArithmeticPanic)
        else
          var user' := user.(amountStaked := user.amountStaked - 1, points := user.points + earned);
          Success(s.(users := s.users[userKey := user'], stakes := s.stakes - {stakeKey}))
  }

  /** A successful unstake touches no other participant's ledger: ledgers are
      derived from their participant, and distinct participants derive
      distinct addresses. */
  lemma UnstakeIsolation(s: Ledger, now: i64, signer: Address, mint: Address, other: Address)
    requires Unstake(s, now, signer, mint).Success?
    requires other != signer && UserAddress(other) in s.users
    ensures Unstake(s, now, signer, mint).value.users[UserAddress(other)] == s.users[UserAddress(other)]
  {
    UserAddressInjective(other, signer);
  }

  /** Once a token is unstaked its record is gone: unstaking it again aborts
      because the framework finds no account to load. */
  lemma UnstakeTwiceFails(s: Ledger, now: i64, signer: Address, mint: Address, later: i64, anyone: Address)
    requires Unstake(s, now, signer, mint).Success?
    ensures Unstake(Unstake(s, now, signer, mint).value, later, anyone, mint) == Failure(AccountNotInitialized)
  {
  }

  /** With consistent bookkeeping, the owner of a stake record has a nonzero
      count, so the decrement never traps. */
  lemma UnstakeNoUnderflow(s: Ledger, now: i64, signer: Address, mint: Address)
    requires Consistent(s)
    requires StakeAddress(mint, ConfigAddress()) in s.stakes
    requires s.stakes[StakeAddress(mint, ConfigAddress())].owner == signer
    ensures UserAddress(signer) in s.users && s.users[UserAddress(signer)].amountStaked >= 1
  {
    var k := StakeAddress(mint, ConfigAddress());
    assert k in StakesOwnedBy(s, signer);
  }

  /** Closing a stake record its owner holds, and lowering that owner's
      count by one, keeps the bookkeeping consistent when nothing else
      changes. */
  lemma CloseOwnedStakePreservesConsistent(s: Ledger, s': Ledger, owner: Address, k: Address)
    requires Consistent(s)
    requires k in s.stakes && s.stakes[k].owner == owner && UserAddress(owner) in s.users
    requires s'.config == s.config && s'.rewardsMint == s.rewardsMint
    requires s'.stakes == s.stakes - {k}
    requires s'.users.Keys == s.users.Keys
    requires s'.users[UserAddress(owner)].amountStaked == s.users[UserAddress(owner)].amountStaked - 1
    requires forall a :: a in s.users && a != UserAddress(owner) ==> s'.users[a] == s.users[a]
    ensures Consistent(s')
  {
    forall u | UserAddress(u) in s'.users
      ensures s'.users[UserAddress(u)].amountStaked == |StakesOwnedBy(s', u)|
    {
      if u == owner {
        assert StakesOwnedBy(s', u) == StakesOwnedBy(s, u) - {k};
        assert k in StakesOwnedBy(s, u);
      } else {
        UserAddressInjective(u, owner);
        assert StakesOwnedBy(s', u) == StakesOwnedBy(s, u);
      }
    }
    forall u | s'.config.Some? && UserAddress(u) in s'.users
      ensures s'.users[UserAddress(u)].amountStaked <= s'.config.value.maxStake
    {
      assert UserAddress(u) in s.users;
      if u != owner {
        UserAddressInjective(u, owner);
      }
    }
  }

  /** Unstake keeps the program's bookkeeping consistent: the record it closes
      is one the signer owns, and the count it decrements is the signer's. */
  lemma UnstakePreservesConsistent(s: Ledger, now: i64, signer: Address, mint: Address)
    requires Consistent(s)
    ensures Consistent(Commit(s, Unstake(s, now, signer, mint)))
  {
    var r := Unstake(s, now, signer, mint);
    if r.Success? {
      CloseOwnedStakePreservesConsistent(s, r.value, signer, StakeAddress(mint, ConfigAddress()));
    }
  }
}
