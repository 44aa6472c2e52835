# Ethermint ABCI application: transaction admission and commit reset

This project models the core of the ABCI application in `vm/app/app.go`, the
layer between the consensus engine and the Ethereum state machine. Its centre
is `validateTx`, which CheckTx runs for every transaction submitted to the
mempool. The checks run against a speculative "check" ledger (`checkTxState`).
They short-circuit in a fixed order, and each check has its own response code:

- size
- sender recovery
- non-negative value
- sender exists
- block gas limit
- nonce, with a skip for already nonce-checked hashes and a catch-up by the
  sender's failed-check count
- funds, net of the pending state-change queue
- intrinsic gas
- low-gas-price throttle, keyed by (sender, recipient-or-zero)

An admitted transaction changes three things:
- the check ledger: the sender is debited, the recipient credited, and the
  sender's nonce becomes its pre-check nonce plus one;
- the throttle, when its gas price is below the floor;
- the process-wide set of nonce-checked hashes.

A throttle rejection is the only path that bumps the sender's failed-check
counter.

`Commit` installs a fresh check ledger copied from the committed state and
empties the throttle, but keeps the counter. `Info` reports an empty app hash
at height 0. `DeliverTx` forwards the backend's error unchanged.

Layout:

- `wrappers.dfy`: `Option` and `Result`.
- `eth.dfy`: the go-ethereum values the core uses. These are addresses,
  hashes, transactions with the library's derived quantities as fields, and the
  state database as a map with `GetBalance`/`GetNonce`/`SubBalance`/`AddBalance`/`SetNonce`.
- `app_state.dfy`: the constants `MinGasPrice` (2000000000) and
  `maxTransactionSize` (32768), the `FromTo` key, the state fields as one value,
  and the response codes and logs.
- `admission.dfy`: `Validate`, the reference definition of one CheckTx. Also the
  queue loop as the method `PendingBalance`, and the lemmas stating each check's
  rule and the effects and frame of a call.
- `lifecycle.dfy`: `CommitState`, `Info` and `DeliverTx`.
- `runs.dfy`: arbitrary interleavings of CheckTx and Commit. It holds the state
  invariant and the counting properties of the failed-check counter and of the
  nonce-checked set.
- `scenario.dfy`: a worked run of six transactions from one sender.
- `application.dfy`: the classes. `EthermintApplication` has the source's state
  fields and updates them in place. `ValidateTx` and `Commit` are each proved
  equal to their reference definition. `Globals` holds the two process-wide
  variables of the `utils` package (`NonceCheckedTx`, `StateChangeQueue`).

Outside inputs are parameters or fields of the transaction value:

- the transaction's RLP size, hash and intrinsic gas;
- the senders recovered by the Frontier and EIP-155 signers (the protection
  flag picks one);
- the backend's gas limit;
- the backend's commit result;
- the result of reading the committed state.

## Model

| member | source | states |
|---|---|---|
| Admission.Validate | vm/app/app.go:256-392 | reference definition of one CheckTx; its properties are proved in `CheckOrder`, `NonceRule`, `FundsRule`, `ThrottleRule`, `AdmissionEffects`, `CheckTxFrame` and the `Runs` lemmas |
| Admission.Admit | vm/app/app.go:373-389 | reference definition of the admission tail; its properties are proved in `AdmissionEffects` and `ThrottleRule` |
| Admission.CountFailure | vm/app/app.go:369 | reference definition of the throttle rejection's count update; its properties are proved in `ThrottleRule`, `CheckTxFrame` and `RunFailedCount` |
| Eth.Sender | vm/app/app.go:265-271 | reference definition of the signer choice: the EIP-155 signer's result for a protected transaction, the Frontier signer's otherwise; used by every admission lemma |
| Lifecycle.CommitState | vm/app/app.go:199-228 | reference definition of one Commit; its properties are proved in `CommitRule`, `CommitReopensThrottle` and the `Runs` lemmas |
| Admission.PendingBalance | vm/app/app.go:327-335 | the loop over the state-change queue yields the sender's balance minus the sum of the amounts of exactly the entries whose source is the sender |
| Admission.QueuedDebitSplit | vm/app/app.go:330-335 | the queued debit of a concatenated queue is the sum of the debits of its parts |
| Admission.QueuedDebitPermutation | vm/app/app.go:330-335 | any permutation of the queue gives the same queued debit, so the order of queue entries does not matter |
| Admission.QueuedDebitOfOthers | vm/app/app.go:331-335 | entries queued by other accounts take nothing from the sender's available balance |
| Admission.CheckOrder | vm/app/app.go:258-372 | each response code (and log) arises exactly when every earlier check passes and its own check fails, in source order; OK exactly when all pass and the throttle does not fire |
| Admission.NonceRule | vm/app/app.go:304-325 | a hash already nonce-checked is never rejected for its nonce; otherwise the nonce must equal the state nonce or the state nonce plus the sender's failed-check count, else bad-nonce with expected and given nonce; a nonce k ahead passes exactly when the count is k |
| Admission.FundsRule | vm/app/app.go:327-345 | after the nonce check, the tx is rejected with invalid-input exactly when balance minus the sender's queued amounts is below value plus gasPrice times gas; equality is admitted |
| Admission.ThrottleRule | vm/app/app.go:354-375 | a sub-floor tx with a recorded key is rejected with low-gas-price and the sender's count rises by exactly one (no other count changes); a sub-floor tx with an absent key is admitted and recorded; a tx at or above the floor is admitted and leaves the throttle unchanged |
| Admission.CreationSharesZeroKey | vm/app/app.go:357-364 | a contract creation and a transfer to the zero address from the same sender share a throttle key |
| Admission.AdmissionEffects | vm/app/app.go:377-391 | on admission: code OK, the hash joins the nonce-checked set, the sender pays value plus gasPrice times gas, the recipient (if any) gains value, both apply when sender is recipient, the sender's nonce becomes the pre-check nonce plus one, no other account and no count changes, at most the recipient's account is created |
| Admission.CatchUpNonceLag | vm/app/app.go:304-389 | an admission whose nonce differs from the state nonce went through the catch-up (nonce = state nonce + count), and the new state nonce is the pre-check nonce plus one rather than the tx's nonce plus one |
| Admission.CatchUpNonceReuse | vm/app/app.go:304-389 | after a catch-up admission, another fresh tx from the sender with the same nonce passes the nonce check exactly when the count was one |
| Admission.CheckTxFrame | vm/app/app.go:259-375 | every rejection leaves the check ledger, throttle and nonce-checked set unchanged; only the throttle rejection changes anything, namely the sender's count by one; no count ever decreases; a tx at or above the floor never changes the throttle |
| Lifecycle.CommitRule | vm/app/app.go:199-228 | on backend success the check ledger becomes the fresh snapshot, the throttle empties, counts and nonce-checked set stay, and Data is the 32-byte block hash; on a commit error or a state-read error the code is internal-error with the error text, no data, and nothing changes |
| Lifecycle.Info | vm/app/app.go:104-128 | the height is always reported; the app hash is empty exactly at height 0 and is the block hash otherwise |
| Lifecycle.DeliverTx | vm/app/app.go:157-172 | a backend error response is returned verbatim; a success becomes a bare OK response |
| Runs.InitialInv | vm/app/app.go:73-81 | a new application (empty throttle, no counts) satisfies the state invariant |
| Runs.StepPreservesInv | vm/app/app.go:365-377 | one CheckTx or Commit keeps the invariant: throttle entries are sub-floor txs under their own (sender, recipient-or-zero) key with nonce-checked hashes, and every count is at least one |
| Runs.RunPreservesInv | vm/app/app.go:199-392 | every interleaving of CheckTx and Commit keeps the invariant |
| Runs.ThrottleRejectionMatchesRecord | vm/app/app.go:365-377 | in a reachable state, a throttle rejection finds on record a sub-floor first offence with the same sender and recipient key, whose hash is already nonce-checked |
| Runs.RunFailedCount | vm/app/app.go:365-371 | over any run, an address's failed-check count grows by exactly the number of its throttle rejections, commits included; the entry exists afterwards exactly when it existed or some rejection happened |
| Runs.RunNonceChecked | vm/app/app.go:305-377 | over any run, the nonce-checked set becomes the old set plus exactly the hashes of the admitted transactions |
| Runs.EpochLedgerGrows | vm/app/app.go:377-389 | between commits no account of the check ledger disappears and no nonce in it decreases |
| Runs.SecondLowPriceRejected | vm/app/app.go:365-375 | after a sub-floor tx is admitted, a second sub-floor tx for the same pair that passes the earlier checks is rejected with low-gas-price, its sender's count rises by one, and the ledger and throttle stay |
| Runs.CommitReopensThrottle | vm/app/app.go:221-223 | after a successful commit, a tx that passes the checks before the throttle is admitted whatever its price, and the throttle then holds only that tx if it was sub-floor |
| Scenario.SixTransactions | vm/app/app.go:304-391 | concrete run: admitted at nonce 5; stale nonce 5 rejected with expected 6; sub-floor nonce 6 admitted and recorded; sub-floor nonce 7 throttled (count 1); nonce 8 admitted by catch-up leaving the nonce at 8; a second tx with nonce 8 admitted too |
| Application.Globals.constructor | vm/app/app.go:305-377 | the process-wide nonce-checked hash set and state-change queue that validateTx reads (and, for the hash set, writes) start empty |
| Application.EthermintApplication.constructor | vm/app/app.go:73-81 | the check ledger is a copy of the committed state, throttle and counts are empty |
| Application.EthermintApplication.ValidateTx | vm/app/app.go:256-392 | the in-place validator gives the response and new fields that `Validate` gives, and keeps the invariant |
| Application.EthermintApplication.RecordAdmission | vm/app/app.go:373-389 | the in-place admission tail leaves the fields as `Admit` gives: throttle entry for a sub-floor tx, hash marked, cost debited, value credited, nonce set to the pre-check nonce plus one |
| Application.EthermintApplication.Commit | vm/app/app.go:199-228 | the in-place commit gives the response and new fields that `CommitState` gives, and keeps the invariant |

## Notable behaviour of the code

- **Nonce after a catch-up admission.** The sender's nonce is set to the
  pre-check state nonce plus one (app.go:389), not to the transaction's nonce
  plus one, even when the transaction passed through the failed-count catch-up
  (app.go:309-310). `Admission.CatchUpNonceLag` proves this. With a count of
  one, a second fresh transaction carrying the same nonce then passes the
  nonce check as well (`Admission.CatchUpNonceReuse`).
- **Value checked after size and sender recovery.** The size bound and sender
  recovery come first (app.go:259-277), and the value check only after them
  (app.go:281-285). An oversized or unrecoverable transaction with a negative
  value therefore gets the internal-error code (`Admission.CheckOrder`).
- **Failed-check counter.** It is bumped only at app.go:369, on the throttle
  rejection. A bad nonce never bumps it, and Commit (app.go:199-228) never
  resets it (`Runs.RunFailedCount`).
- **Worked run.** `Scenario.SixTransactions` uses a sender with a balance of
  10^18 and nonce 5. After the throttle rejection at nonce 7 the count is 1 and
  the state nonce is 7. A transaction at nonce 8 then passes through the
  catch-up (7 + 1 = 8) and leaves the state nonce at 8. Another transaction at
  nonce 8 is admitted after it.
- **Ordered throttle key.** `FromTo` (app.go:29-32) is an ordered struct, so
  (A, B) and (B, A) are different keys. A contract creation and a transfer to
  the zero address from the same sender share one key
  (`Admission.CreationSharesZeroKey`).

## Left out

- Signature recovery (`ethTypes.Sender` under the Frontier or EIP-155 signer). Each signer's result is a given optional address on the transaction, and only the choice by the protection flag is modelled. There is no cryptography.
- `tx.Size()`, `tx.Hash()`, `core.IntrinsicGas` and `backend.GasLimit()` are library calls. They are given values, not computed.
- `PendingBalance`: the subtraction is modelled on a local copy of the balance. In go-ethereum of this era `GetBalance` may return the stored `*big.Int` itself. If so, the queue subtraction at line 333 also lowers the stored check-ledger balance, even for a transaction that is later rejected. That library detail is not part of this model.
- `Query` decodes JSON and forwards it to an RPC client. Neither is modelled.
- `BeginBlock`, `EndBlock`, `InitChain`, `SetOption`, `SetLogger` and logging only delegate to the backend. `DeliverTx`'s `CollectTx` side effect is also a backend call.
- The constructor models only the success path of `NewEthermintApplication`. The state-read error and `InitEthState` are backend work.
- `CommitRule`: when the state read after a successful backend commit fails, the backend has already committed. Only the application's own fields are modelled as unchanged.
- The `sync.RWMutex`, and all concurrency between CheckTx and Commit.
- Integer widths are not modelled:
  - the uint64 wrap of `nonce + c` and of `checkFailedCount[from] + 1`;
  - the `Int64()` conversion of the height;
  - the float `StorageSize` of `tx.Size()`.
  Balances, values, gas and gas prices are unbounded integers.
- Response codes are symbolic. The numeric values of the travis `errors` package are not part of this model. Log messages are constructors carrying their numbers rather than formatted text.
- The state database is a map. Existence is key presence, and `AddBalance`, `SubBalance` and `SetNonce` create a missing account with nonce zero (go-ethereum's `GetOrNewStateObject`). Empty-account touching and deletion are not modelled.
