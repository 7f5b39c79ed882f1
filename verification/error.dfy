/** How a transaction ends when it does not commit. */
module Errors {

  /** The program's own error codes, in declaration order. */
  datatype StakeError =
    | IncorrectMint
    | IncorrectCollection
    | CollectionNotVerified
    | MaxStakeReached
    | UnstakeDelayNotMet
    | Unauthorized
    | NoPointsToClaim
    | InvalidConfiguration
    | ArithmeticOverflow

  /** Every way a transaction of the modelled instructions can abort. All of
      them discard every write the transaction staged. */
  datatype TxError =
      /** a `require!` in a handler failed with this program error */
    | Program(code: StakeError)
      /** the framework could not load an account the instruction names */
    | AccountNotInitialized
      /** an `init` target address already holds an account */
    | AccountAlreadyInUse
      /** an overflow-checked `+`, `-` or `*` trapped */
    | ArithmeticPanic
}
