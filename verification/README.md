# NFT staking program: configuration and unstake, in Dafny

A model of two instructions of an Anchor (Solana) program. The program lets
a participant lock an NFT and earn points for each whole day it stays locked.

- `initialize_config` validates three parameters. It then creates the
  singleton `StakeConfig` at the address derived from `[b"config"]`, and the
  reward-token mint at `[b"rewards_mint", config]`. The mint has six decimals,
  and its authority is the configuration.
- `unstake` runs checks in this order:
  1. The framework loads the configuration, the stake record at
     `[b"stake", mint, config]` and the signer's ledger at `[b"user", signer]`.
  2. The handler checks that the freeze period has passed.
  3. It checks that the signer owns the stake.
  4. It decrements the signer's stake count.
  5. It credits `(elapsed / 86400) * points_per_stake` points.
  6. It closes the stake record.

Each instruction is a pure function from a `Ledger` to
`Result<Ledger, TxError>`. The `Ledger` holds an optional configuration, an
optional reward mint, and maps of user and stake records keyed by derived
address. `Commit` applies a result: an aborted transaction leaves the ledger
as it was. `TxError` has four cases:

- `Program(StakeError)`: a program error; `StakeError` lists the program's own codes.
- `AccountNotInitialized`: the framework could not load a required account.
- `AccountAlreadyInUse`: an `init` target address is already taken.
- `ArithmeticPanic`: an overflow-checked `+`, `-` or `*` trapped.

Address derivation is a datatype constructor over the seed list. This makes
it injective, and a derived address can never equal a key. The real
derivation hashes the concatenated seeds. The four seed layouts have
different byte lengths (6, 44, 69 and 36), so the abstraction is exact up to
hash collisions. The program id is not modelled, so a key that happens to be
another program's derived address is treated as a plain key.

Files: `integers.dfy` (Rust `u8`/`u32`/`i64`, truncating division, the
wrapping `as u32` cast), `constants.dfy`, `error.dfy`, `addresses.dfy`,
`wrappers.dfy` (`Option`, `Result`), `state.dfy`, `initialize_config.dfy`, `unstake.dfy`, and `transactions.dfy`
(sequences of transactions, with invariants proved by induction).

Notes on the code as written:

- The freeze period is checked before ownership (unstake.rs:76-85). A
  non-owner who calls early therefore gets `UnstakeDelayNotMet`.
- `-=`, `*` and `+=` are plain operators (unstake.rs:119, 125-126). With
  overflow checks on (assumed; see "## Left out"), overflow and underflow trap and abort the transaction (`ArithmeticPanic`).
  `ArithmeticOverflow` (error.rs:22) is declared but never raised.
- The whole days are cast to `u32` with `as` (unstake.rs:125), which wraps
  instead of trapping. A stake of exactly 2^32 days earns 0 points
  (`PointsEarnedWrapsAfter2To32Days`).
- The clock minus `last_update` is computed in `i64` before any check
  (unstake.rs:75). That subtraction can trap too.

`state.rs` is not part of this model. `points` is `u32`, because a `u32` is
added to it at unstake.rs:126. The other widths are assumptions; they are
listed under "## Left out".

## Model

| member | source | states |
|---|---|---|
| Integers.TruncDiv | programs/anchor-nft-staking/src/instructions/unstake.rs:124 | Rust's `/` on `i64` with a positive divisor gives the quotient rounded toward zero: bounded by the dividend from below for nonnegative input, from above for negative input |
| Integers.AsU32 | programs/anchor-nft-staking/src/instructions/unstake.rs:125 | `as u32` keeps the value modulo 2^32, and is the identity on values already in `u32` range |
| Addresses.UserAddressInjective | programs/anchor-nft-staking/src/instructions/unstake.rs:58-63 | two participants share a user-ledger address if and only if they are the same participant |
| Addresses.StakeAddressInjective | programs/anchor-nft-staking/src/instructions/unstake.rs:50-56 | two stake addresses coincide if and only if mint and configuration both coincide, so each mint has at most one stake record |
| Addresses.RolesDisjoint | programs/anchor-nft-staking/src/instructions/initialize_config.rs:12-23 | the configuration, reward-mint, stake and user addresses are pairwise distinct and never equal a key |
| InitializeConfigIx.InitializeConfig | programs/anchor-nft-staking/src/instructions/initialize_config.rs:12-48 | commits exactly when neither the configuration nor the reward mint exists and all three parameters are nonzero. An existing configuration or reward mint fails with `AccountAlreadyInUse`, so the only errors are that one and `InvalidConfiguration`. On a fresh ledger a zero parameter fails with `InvalidConfiguration`. On success the configuration holds exactly the supplied parameters and both bumps, the reward mint has the configuration as authority, 6 decimals and no supply, and user and stake records are untouched |
| InitializeConfigIx.InitializeConfigOnce | programs/anchor-nft-staking/src/instructions/initialize_config.rs:22 | after one successful initialization, every further one fails with `AccountAlreadyInUse`, whatever its arguments |
| InitializeConfigIx.InitializeConfigPreservesConsistent | programs/anchor-nft-staking/src/instructions/initialize_config.rs:38-48 | initialization keeps the bookkeeping invariant `Consistent` |
| UnstakeIx.PointsEarned | programs/anchor-nft-staking/src/instructions/unstake.rs:122-125 | the credit is never negative. It is the rate times the number of whole 86400-second days taken modulo 2^32, where that number is characterised by `days*86400 <= elapsed < (days+1)*86400`. So partial days earn nothing, the count wraps at 2^32 days as `as u32` does, and below 2^32 days it is exact |
| UnstakeIx.PointsEarnedExamples | programs/anchor-nft-staking/src/constants.rs:7 | at a rate of 10, 172800 seconds earn 20 points and 86399 seconds earn 0 |
| UnstakeIx.PointsEarnedWrapsAfter2To32Days | programs/anchor-nft-staking/src/instructions/unstake.rs:124-125 | a stake of exactly 2^32 days earns 0 points because the cast to `u32` wraps |
| UnstakeIx.Unstake | programs/anchor-nft-staking/src/instructions/unstake.rs:48-126 | a missing configuration, stake record or signer ledger aborts. Before the freeze period it fails with `UnstakeDelayNotMet` whoever signs, so delay is checked before ownership. After the delay a non-owner fails with `Unauthorized`. An elapsed time outside `i64`, a zero count, or a credit or new total outside `u32` each fails with `ArithmeticPanic`. Every failure is one of `AccountNotInitialized`, `UnstakeDelayNotMet`, `Unauthorized` and `ArithmeticPanic`, never `ArithmeticOverflow`. It commits exactly when the elapsed time also fits `i64`, the signer owns the stake, the count is at least 1, and the credit and the new total fit `u32`. On success: elapsed time is at least the freeze period; the signer's count is one less; its points never decrease and grow by the rate times the whole days modulo 2^32, which is the exact number of whole days for fewer than 2^32 of them; only the stake record of `(mint, config)` is removed; configuration, reward mint, other stakes and other ledgers are unchanged |
| UnstakeIx.UnstakeIsolation | programs/anchor-nft-staking/src/instructions/unstake.rs:58-63 | a successful unstake leaves every other participant's ledger unchanged, because the touched ledger is derived from the signer |
| UnstakeIx.UnstakeTwiceFails | programs/anchor-nft-staking/src/instructions/unstake.rs:50-56 | after a successful unstake, any further unstake of the same mint finds no stake record and aborts |
| UnstakeIx.UnstakeNoUnderflow | programs/anchor-nft-staking/src/instructions/unstake.rs:82-119 | with consistent bookkeeping, the owner of an existing stake has a ledger with a nonzero count, so the decrement cannot trap |
| UnstakeIx.CloseOwnedStakePreservesConsistent | programs/anchor-nft-staking/src/instructions/unstake.rs:50-56 | removing a stake record its owner holds and lowering that owner's count by one, with every other record unchanged, keeps `Consistent` |
| UnstakeIx.UnstakePreservesConsistent | programs/anchor-nft-staking/src/instructions/unstake.rs:50-119 | unstake keeps `Consistent`: every ledger still counts exactly the stakes its participant owns, and stays within `max_stake` |
| Transactions.RunPreservesConsistent | programs/anchor-nft-staking/src/instructions/unstake.rs:50-63 | every sequence of configuration and unstake transactions keeps `Consistent` |
| Transactions.RunKeepsConfig | programs/anchor-nft-staking/src/instructions/unstake.rs:48 | once a configuration exists, no sequence of configuration and unstake transactions changes it or the reward mint |
| Transactions.RunNeverLowersPoints | programs/anchor-nft-staking/src/instructions/unstake.rs:126 | no sequence of configuration and unstake transactions deletes a participant's ledger or lowers its points; the claim instruction, which resets points, is not part of this model |

## Left out

- The thaw and revoke calls into the Metaplex and SPL Token programs (unstake.rs:86-117) are foreign calls. The model assumes they succeed and does not model token custody.
- The metadata, edition and associated-token-account constraints (unstake.rs:27-46) are checked by the framework and external programs, and are not modelled.
- The `mint` and `collection` accounts are taken as addresses. Whether they really are mints is not checked.
- The clock sysvar is not read: `now` is a parameter. The handler reads the clock twice, and both reads return the same value within one transaction.
- Bumps are not modelled: `find_program_address` is a foreign hash search. `initialize_config` receives its bumps as a parameter, as the framework supplies them. The check of `user_account` against its stored bump is not modelled.
- The `unstake` configuration account carries no seeds constraint. The model uses the one configuration the program can create, at `[b"config"]`.
- A caller-supplied address that does not match its seeds cannot be expressed, because every account is looked up at its derived address. The framework's seed-mismatch error is therefore absent.
- Rent, lamport refunds on `close`, account space, discriminators and the admin payer are runtime mechanics and are not modelled.
- The stake, claim and initialize-user instructions, `state.rs`, the scaffold `initialize` handler in `lib.rs` and the unused `SEED` constant are not part of this model.
- Consistent: this is the intended bookkeeping. Without the stake and initialize-user instructions, the model only proves that the two modelled instructions preserve it; it does not prove that the program establishes it.
- `amount_staked` is assumed to be an unsigned `u8`, and the stored bumps `u8`. The source shown does not fix these widths, because `state.rs` is not part of this model. The other widths do come from the code: `points_per_stake` and `max_stake` are `u8` and `freeze_period` is `u32` (initialize_config.rs:32-34); `last_update` is `i64`, because it is subtracted from the `i64` clock (unstake.rs:75). Being unsigned is what makes `-= 1` at zero trap, and both the `ArithmeticPanic` case of `Unstake` and `UnstakeNoUnderflow` depend on it.
- PointsEarned: its value for a negative elapsed time is not stated. `Unstake` only computes it after the freeze-period check, which makes the elapsed time nonnegative.
- Overflow checks are assumed on, as in Anchor's default workspace profile; the build profile is not part of this model. Without them, `-= 1` at zero and the `u32` `*` and `+=` would wrap instead of aborting, and the `ArithmeticPanic` cases of `Unstake` and the point of `UnstakeNoUnderflow` would not apply.
