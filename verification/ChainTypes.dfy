/** The chain types a candidate can be tested for. */
module ChainTypes {
  const PRIME_CHAIN_CUNNINGHAM1: nat := 1
  const PRIME_CHAIN_CUNNINGHAM2: nat := 2
  const PRIME_CHAIN_BI_TWIN: nat := 3
}
