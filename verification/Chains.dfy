// The chains of the platform and which of them are live.

module Chains {
  datatype Chain = ETH | BNB | POLYGON | ARBITRUM | OPTIMISM | TRON | BTC | TON | SOLANA

  function ChainName(c: Chain): string {
    match c
    case ETH => "ETH" case BNB => "BNB" case POLYGON => "POLYGON"
    case ARBITRUM => "ARBITRUM" case OPTIMISM => "OPTIMISM"
    case TRON => "TRON" case BTC => "BTC" case TON => "TON" case SOLANA => "SOLANA"
  }

  /** Ethereum is the only EVM chain of the product. */
  predicate IsEvm(c: Chain) {
    c == ETH
  }

  /** Operator switches: GATEWAY_TRON_USDT_ONLY and the chain toggles, where a missing chain is live. */
  datatype Config = Config(tronOnly: bool, enabled: map<Chain, bool>) {
    predicate Live(c: Chain) {
      c !in enabled || enabled[c]
    }
  }
}
