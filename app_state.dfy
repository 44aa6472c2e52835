/**
 * The state the application keeps between requests, its constants and the
 * responses it gives.
 */
module AppState {
  import opened Eth

  /** Gas-price floor below which a repeated (sender, recipient) pair is throttled: 2 Gwei. */
  const MinGasPrice: int := 2000000000

  /** Largest admitted transaction size in bytes (32 KiB). */
  const MaxTransactionSize: nat := 32768

  /** Key of the low-price throttle: sender and recipient, the zero address for contract creation. */
  datatype FromTo = FromTo(from: Address, to: Address)

  /**
   * All the state one CheckTx reads or writes: the speculative check ledger,
   * the low-price throttle, the failed-check counter, and the process-wide
   * set of hashes whose nonce has been checked.
   */
  datatype AppState = AppState(
    checkTxState: Ledger,
    lowPriceTransactions: map<FromTo, Tx>,
    checkFailedCount: map<Address, nat>,
    nonceCheckedTx: set<Hash32>)

  /** Response codes of CheckTx and Commit. */
  datatype Code = CodeOK | InternalErr | BaseInvalidInput | UnknownAddress | BadNonce | LowGasPriceErr

  /** The log text of a CheckTx response, one constructor per message the validator produces. */
  datatype Log =
    | NoLog
    | OversizedData
    | InvalidSender
    | NegativeValue
    | GasLimitReached
    | NonceNotIncreasing(expected: nat, got: nat)
    | InsufficientFunds(balance: int, cost: int)
    | IntrinsicGasTooLow
    | GasPriceTooLow

  datatype CheckTxResponse = CheckTxResponse(code: Code, log: Log)

  datatype CommitResponse = CommitResponse(code: Code, log: string, data: Bytes)

  /** The stored count of failed checks of an address; an absent entry reads as zero. */
  function FailedCount(s: AppState, a: Address): nat
  {
    if a in s.checkFailedCount then s.checkFailedCount[a] else 0
  }
}
