/** Account addresses. An address is either a key (a wallet or a mint, whose
    origin the program does not care about) or an address the program derives
    from a list of seeds. Derivation is a one-way hash in the runtime; here it
    is a constructor, which makes it injective in its seed list and keeps
    derived addresses apart from keys, the two facts the program relies on. */
module Addresses {
  import opened Constants

  datatype Address = Key(id: nat) | Derived(seeds: seq<Seed>)

  datatype Seed = Tag(name: string) | AddressOf(addr: Address)

  function Derive(seeds: seq<Seed>): Address
  {
    Derived(seeds)
  }

  /** The singleton configuration: seeds `[b"config"]`. */
  function ConfigAddress(): Address
  {
    Derive([Tag(CONFIG_SEED)])
  }

  /** The reward mint: seeds `[b"rewards_mint", config]`. */
  function RewardsMintAddress(config: Address): Address
  {
    Derive([Tag(REWARDS_MINT_SEED), AddressOf(config)])
  }

  /** The record of one staked token: seeds `[b"stake", mint, config]`. */
  function StakeAddress(mint: Address, config: Address): Address
  {
    Derive([Tag(STAKE_SEED), AddressOf(mint), AddressOf(config)])
  }

  /** The ledger of one participant: seeds `[b"user", user]`. */
  function UserAddress(user: Address): Address
  {
    Derive([Tag(USER_SEED), AddressOf(user)])
  }

  /** Distinct participants own distinct user ledgers. */
  lemma UserAddressInjective(a: Address, b: Address)
    ensures UserAddress(a) == UserAddress(b) <==> a == b
  {
    if UserAddress(a) == UserAddress(b) {
      assert UserAddress(a).seeds[1] == UserAddress(b).seeds[1];
    }
  }

  /** Distinct (mint, config) pairs have distinct stake records, so at most
      one stake of a given mint exists under a configuration. */
  lemma StakeAddressInjective(m1: Address, c1: Address, m2: Address, c2: Address)
    ensures StakeAddress(m1, c1) == StakeAddress(m2, c2) <==> m1 == m2 && c1 == c2
  {
    if StakeAddress(m1, c1) == StakeAddress(m2, c2) {
      assert StakeAddress(m1, c1).seeds[1] == StakeAddress(m2, c2).seeds[1];
      assert StakeAddress(m1, c1).seeds[2] == StakeAddress(m2, c2).seeds[2];
    }
  }

  /** The four roles never share an address, and none of them is a key. */
  lemma RolesDisjoint(c: Address, m: Address, u: Address)
    ensures ConfigAddress() != RewardsMintAddress(c)
    ensures ConfigAddress() != StakeAddress(m, c)
    ensures ConfigAddress() != UserAddress(u)
    ensures RewardsMintAddress(c) != StakeAddress(m, c)
    ensures RewardsMintAddress(c) != UserAddress(u)
    ensures StakeAddress(m, c) != UserAddress(u)
    ensures !ConfigAddress().Key? && !RewardsMintAddress(c).Key?
    ensures !StakeAddress(m, c).Key? && !UserAddress(u).Key?
  {
    assert StakeAddress(m, c).seeds[0] != UserAddress(u).seeds[0];
    assert RewardsMintAddress(c).seeds[0] != UserAddress(u).seeds[0];
    assert RewardsMintAddress(c).seeds[0] != StakeAddress(m, c).seeds[0];
  }
}
