/**
 * The application object and the process-wide globals it shares with the rest
 * of the node. Its methods update the fields in place; each is tied to the
 * reference definition of its request, whose properties the Admission,
 * Lifecycle and Runs modules prove.
 */
module Application {
  import opened Wrappers
  import opened Eth
  import opened AppState
  import opened Admission
  import opened Lifecycle
  import Runs

  /**
   * The two process-wide globals the validator consults: the set of hashes
   * whose nonce has been checked once, and the queue of pending state changes
   * produced outside ordinary transactions.
   */
  class Globals {
    var nonceCheckedTx: set<Hash32>
    var stateChangeQueue: seq<StateChange>

    constructor ()
      ensures nonceCheckedTx == {} && stateChangeQueue == []
    {
      nonceCheckedTx := {};
      stateChangeQueue := [];
    }
  }

  class EthermintApplication {
    /** The speculative ledger CheckTx runs against; replaced at every commit. */
    var checkTxState: Ledger
    /** The first sub-floor transaction seen for each (sender, recipient) pair since the last commit. */
    var lowPriceTransactions: map<FromTo, Tx>
    /** Throttle rejections per sender, never reset; feeds the nonce catch-up. */
    var checkFailedCount: map<Address, nat>
    const globals: Globals

    /** The state one request reads and writes. */
    function Snapshot(): AppState
      reads this, globals
    {
      AppState(checkTxState, lowPriceTransactions, checkFailedCount, globals.nonceCheckedTx)
    }

    ghost predicate Valid()
      reads this, globals
    {
      Runs.Inv(Snapshot())
    }

    /** A new application over a copy of the committed state, with an empty throttle and no failed checks. */
    constructor (committed: Ledger, globals: Globals)
      ensures this.globals == globals
      ensures Snapshot() == AppState(committed, map[], map[], globals.nonceCheckedTx)
      ensures Valid()
    {
      checkTxState := committed;
      lowPriceTransactions := map[];
      checkFailedCount := map[];
      this.globals := globals;
    }

    /**
     * validateTx, called by CheckTx. `gasLimit` is the backend's block gas
     * limit. The response and the new state are those `Validate` gives for the
     * state before the call and the current state-change queue.
     */
    method ValidateTx(tx: Tx, gasLimit: int) returns (r: CheckTxResponse)
      requires Valid()
      modifies this, globals`nonceCheckedTx
      ensures Valid()
      ensures (r, Snapshot()) == Validate(old(Snapshot()), tx, gasLimit, globals.stateChangeQueue)
    {
      ghost var s0 := Snapshot();
      Runs.StepPreservesInv(s0, Runs.CheckTx(tx, gasLimit, globals.stateChangeQueue));

      if tx.size > MaxTransactionSize {
        return CheckTxResponse(InternalErr, OversizedData);
      }
      var sender := if tx.protected then tx.eip155Sender else tx.frontierSender;
      if sender.None? {
        return CheckTxResponse(InternalErr, InvalidSender);
      }
      var from := sender.value;
      if tx.value < 0 {
        return CheckTxResponse(BaseInvalidInput, NegativeValue);
      }
      if from !in checkTxState {
        return CheckTxResponse(UnknownAddress, InvalidSender);
      }
      if gasLimit < tx.gas {
        return CheckTxResponse(InternalErr, GasLimitReached);
      }

      assert ReachesNonceCheck(s0, tx, gasLimit) && from == Sender(tx).value;
      var nonce := Nonce(checkTxState, from);
      if tx.hash !in globals.nonceCheckedTx {
        if nonce != tx.nonce {
          if from in checkFailedCount {
            var c := checkFailedCount[from];
            if nonce + c != tx.nonce {
              return CheckTxResponse(BadNonce, NonceNotIncreasing(nonce, tx.nonce));
            }
          } else {
            return CheckTxResponse(BadNonce, NonceNotIncreasing(nonce, tx.nonce));
          }
        }
      }

      assert ReachesFundsCheck(s0, tx, gasLimit);
      var currentBalance := PendingBalance(Balance(checkTxState, from), globals.stateChangeQueue, from);
      var cost := tx.value + tx.gasPrice * tx.gas;
      if currentBalance < cost {
        return CheckTxResponse(BaseInvalidInput, InsufficientFunds(currentBalance, cost));
      }

      if tx.gas < tx.intrinsicGas {
        return CheckTxResponse(BaseInvalidInput, IntrinsicGasTooLow);
      }

      assert ReachesThrottle(s0, tx, gasLimit, globals.stateChangeQueue);
      var to := if tx.to.Some? then tx.to.value else ZeroAddress;
      var ft := FromTo(from, to);
      if ft in lowPriceTransactions {
        if tx.gasPrice < MinGasPrice {
          var count := if from in checkFailedCount then checkFailedCount[from] else 0;
          checkFailedCount := checkFailedCount[from := count + 1];
          return CheckTxResponse(LowGasPriceErr, GasPriceTooLow);
        }
      }
      RecordAdmission(from, tx, nonce, ft, cost);
      r := CheckTxResponse(CodeOK, NoLog);
    }

    /**
     * The tail of an admission: record a sub-floor transaction in the
     * throttle, mark its hash nonce-checked, debit the cost from the sender,
     * credit the value to the recipient when there is one, and set the
     * sender's nonce to its pre-check nonce plus one.
     */
    method RecordAdmission(from: Address, tx: Tx, nonce: nat, ft: FromTo, cost: int)
      requires nonce == Nonce(checkTxState, from) && ft == Key(from, tx) && cost == Cost(tx)
      modifies this, globals`nonceCheckedTx
      ensures Snapshot() == Admit(old(Snapshot()), from, tx)
    {
      if tx.gasPrice < MinGasPrice {
        lowPriceTransactions := lowPriceTransactions[ft := tx];
      }

      globals.nonceCheckedTx := globals.nonceCheckedTx + {tx.hash};

      checkTxState := SubBalance(checkTxState, from, cost);
      if tx.to.Some? {
        checkTxState := AddBalance(checkTxState, tx.to.value, tx.value);
      }
      checkTxState := SetNonce(checkTxState, from, nonce + 1);
    }

    /**
     * Commit, given the backend's commit result and the result of reading the
     * committed state afterwards. The response and the new state are those
     * `CommitState` gives.
     */
    method Commit(blockHash: Result<Hash32, string>, current: Result<Ledger, string>) returns (r: CommitResponse)
      requires Valid()
      modifies this
      ensures Valid()
      ensures (r, Snapshot()) == CommitState(old(Snapshot()), blockHash, current)
    {
      if blockHash.Failure? {
        return CommitResponse(InternalErr, blockHash.error, []);
      }
      if current.Failure? {
        return CommitResponse(InternalErr, current.error, []);
      }
      checkTxState := current.value;
      lowPriceTransactions := map[];
      r := CommitResponse(CodeOK, "", blockHash.value);
    }
  }
}
