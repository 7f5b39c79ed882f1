/** The program's constants: the length of a day in seconds and the
    literal seeds its derived addresses start with. */
module Constants {
  import opened Integers

  /** Seconds in the day unit that points accrue over. */
  const SECONDS_PER_DAY: i64 := 86400

  const CONFIG_SEED: string := "config"
  const USER_SEED: string := "user"
  const STAKE_SEED: string := "stake"
  const REWARDS_MINT_SEED: string := "rewards_mint"
}
