/** Values shared by the balance engine and the stream-detail derivation. */
module Streams {

  /** A read result that may not have arrived (`undefined` / `null` in the frontend). */
  datatype Option<+T> = None | Some(value: T)

  /**
   * One `streams(address)` read of the streaming contract: the vesting cap (18 implied decimals),
   * the unlock duration in seconds, the epoch second of the last withdrawal (the vesting baseline)
   * and the token address. The contract returns `uint256`s, hence `nat`.
   */
  datatype StreamData = StreamData(cap: nat, unlockDuration: nat, lastWithdrawal: nat, tokenAddress: string)

  /** The all-zero address literal that marks the chain's native asset (CELO). */
  const ZeroAddress: string := "0x0000000000000000000000000000000000000000"

  /** Converting a product of integers to a real is the product of the converted factors. */
  lemma CastMul(x: int, y: int)
    ensures (x * y) as real == x as real * y as real
  {
  }
}
