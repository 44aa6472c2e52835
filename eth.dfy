/**
 * The go-ethereum values the application works with: addresses, hashes,
 * transactions as the transaction library presents them, and the account
 * state (StateDB) with the read and write operations the check path uses.
 */
module Eth {
  import opened Wrappers

  /** A 20-byte account address, read as a natural number below 2^160. */
  const AddressBound: nat := 0x1_0000_0000_0000_0000_0000_0000_0000_0000_0000_0000
  type Address = a: nat | a < AddressBound

  /** The zero address: what a nil recipient becomes in the throttle key. */
  const ZeroAddress: Address := 0

  type Bytes = seq<bv8>

  /** A 32-byte hash (block hash, transaction hash). */
  type Hash32 = s: Bytes | |s| == 32 witness seq(32, i => 0 as bv8)

  /**
   * A transaction. `nonce`, `gasPrice`, `gas`, `to` and `value` are its own
   * fields; the remaining ones are what the transaction library computes from
   * it and are taken as given: its RLP-encoded size, its hash, the sender that
   * each of the two signers recovers (None when recovery fails), whether the
   * signature is chain-id protected, and the intrinsic gas for its payload.
   */
  datatype Tx = Tx(
    nonce: nat,
    gasPrice: int,
    gas: int,
    to: Option<Address>,
    value: int,
    size: nat,
    hash: Hash32,
    protected: bool,
    frontierSender: Option<Address>,
    eip155Sender: Option<Address>,
    intrinsicGas: nat)

  /** The sender as recovered by the signer the transaction's protection flag selects. */
  function Sender(tx: Tx): Option<Address>
  {
    if tx.protected then tx.eip155Sender else tx.frontierSender
  }

  /** The recipient, with a contract creation (no recipient) read as the zero address. */
  function ToOrZero(tx: Tx): Address
  {
    if tx.to.Some? then tx.to.value else ZeroAddress
  }

  /** Value plus the most the transaction can pay for gas. */
  function Cost(tx: Tx): int
  {
    tx.value + tx.gasPrice * tx.gas
  }

  /** An account of the state; balances are signed so that a debit below zero is representable. */
  datatype Account = Account(balance: int, nonce: nat)

  /** A state snapshot: an address is a key exactly when the account exists. */
  type Ledger = map<Address, Account>

  /** Balance of an account; an account that does not exist reads as zero. */
  function Balance(l: Ledger, a: Address): int
  {
    if a in l then l[a].balance else 0
  }

  /** Nonce of an account; an account that does not exist reads as zero. */
  function Nonce(l: Ledger, a: Address): nat
  {
    if a in l then l[a].nonce else 0
  }

  /** Debit an account, creating it first when it does not exist. */
  function SubBalance(l: Ledger, a: Address, amount: int): Ledger
  {
    l[a := Account(Balance(l, a) - amount, Nonce(l, a))]
  }

  /** Credit an account, creating it first when it does not exist. */
  function AddBalance(l: Ledger, a: Address, amount: int): Ledger
  {
    l[a := Account(Balance(l, a) + amount, Nonce(l, a))]
  }

  /** Set the nonce of an account, creating it first when it does not exist. */
  function SetNonce(l: Ledger, a: Address, n: nat): Ledger
  {
    l[a := Account(Balance(l, a), n)]
  }

  /** A pending balance change queued by an operation outside ordinary transactions. */
  datatype StateChange = StateChange(from: Address, amount: int)
}
