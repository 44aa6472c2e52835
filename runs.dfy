/**
 * Sequences of requests: what CheckTx and Commit, interleaved in any order,
 * keep true of the application state, and how the failed-check counter and
 * the nonce-checked set accumulate over a run.
 */
module Runs {
  import opened Wrappers
  import opened Eth
  import opened AppState
  import opened Admission
  import opened Lifecycle

  /** A request that touches the application state, with the backend's part supplied. */
  datatype Request =
    | CheckTx(tx: Tx, gasLimit: int, queue: seq<StateChange>)
    | Commit(blockHash: Result<Hash32, string>, current: Result<Ledger, string>)

  datatype Response = CheckTxAnswer(check: CheckTxResponse) | CommitAnswer(commit: CommitResponse)

  function Step(s: AppState, req: Request): (Response, AppState)
  {
    match req
    case CheckTx(tx, gasLimit, queue) =>
      var (r, s') := Validate(s, tx, gasLimit, queue); (CheckTxAnswer(r), s')
    case Commit(blockHash, current) =>
      var (r, s') := CommitState(s, blockHash, current); (CommitAnswer(r), s')
  }

  /** The state after the requests, taken in order. */
  function Run(s: AppState, reqs: seq<Request>): AppState
    decreases |reqs|
  {
    if reqs == [] then s else Run(Step(s, reqs[0]).1, reqs[1..])
  }

  /** The request is a CheckTx from `a` rejected by the throttle. */
  predicate ThrottleRejection(s: AppState, req: Request, a: Address)
  {
    req.CheckTx? && Sender(req.tx) == Some(a) && Step(s, req).0.check.code == LowGasPriceErr
  }

  /** How many requests of the run are CheckTx calls from `a` rejected by the throttle. */
  function ThrottleRejections(s: AppState, reqs: seq<Request>, a: Address): nat
    decreases |reqs|
  {
    if reqs == [] then 0
    else (if ThrottleRejection(s, reqs[0], a) then 1 else 0) + ThrottleRejections(Step(s, reqs[0]).1, reqs[1..], a)
  }

  /** The hashes of the transactions the run admits. */
  function AdmittedHashes(s: AppState, reqs: seq<Request>): set<Hash32>
    decreases |reqs|
  {
    if reqs == [] then {}
    else
      var here := if reqs[0].CheckTx? && Step(s, reqs[0]).0.check.code == CodeOK then {reqs[0].tx.hash} else {};
      here + AdmittedHashes(Step(s, reqs[0]).1, reqs[1..])
  }

  // ----- the state invariant -----

  /** A throttle entry: a sub-floor transaction from the key's sender to the key's recipient, already nonce-checked. */
  predicate Recorded(key: FromTo, tx: Tx, nonceChecked: set<Hash32>)
  {
    && tx.gasPrice < MinGasPrice
    && Sender(tx) == Some(key.from)
    && key.to == ToOrZero(tx)
    && tx.hash in nonceChecked
  }

  /**
   * What every reachable state satisfies: each throttle entry is a sub-floor
   * transaction stored under its own key whose hash is nonce-checked, and
   * every failed-check count present is at least one. The second half is a
   * fact about reachable states only; no other contract relies on it.
   */
  ghost predicate Inv(s: AppState)
  {
    && (forall key :: key in s.lowPriceTransactions ==> Recorded(key, s.lowPriceTransactions[key], s.nonceCheckedTx))
    && (forall a :: a in s.checkFailedCount ==> s.checkFailedCount[a] >= 1)
  }

  /** The state of a freshly constructed application satisfies the invariant. */
  lemma InitialInv(l: Ledger, nonceChecked: set<Hash32>)
    ensures Inv(AppState(l, map[], map[], nonceChecked))
  {
  }

  lemma StepPreservesInv(s: AppState, req: Request)
    requires Inv(s)
    ensures Inv(Step(s, req).1)
  {

  }

  /** Every run of CheckTx and Commit requests keeps the invariant. */
  lemma {:induction false} RunPreservesInv(s: AppState, reqs: seq<Request>)
    requires Inv(s)
    ensures Inv(Run(s, reqs))
    decreases |reqs|
  {
    if reqs != [] {
      StepPreservesInv(s, reqs[0]);
      RunPreservesInv(Step(s, reqs[0]).1, reqs[1..]);
    }
  }

  /**
   * In a reachable state, a throttle rejection penalises a sender whose own
   * first offence for the same pair is on record: the recorded transaction
   * has the same sender and recipient key, was below the floor, and its hash
   * is already nonce-checked, so re-submitting it skips the nonce check.
   */
  lemma ThrottleRejectionMatchesRecord(s: AppState, tx: Tx, gasLimit: int, queue: seq<StateChange>)
    requires Inv(s)
    requires Validate(s, tx, gasLimit, queue).0.code == LowGasPriceErr
    ensures Sender(tx).Some?
    ensures var key := Key(Sender(tx).value, tx);
      && key in s.lowPriceTransactions
      && var first := s.lowPriceTransactions[key];
      && Sender(first) == Sender(tx)
      && ToOrZero(first) == ToOrZero(tx)
      && first.gasPrice < MinGasPrice
      && NonceOk(s, Sender(tx).value, first)
  {
  }

  // ----- the failed-check counter over a run -----

  lemma StepFailedCount(s: AppState, req: Request, a: Address)
    ensures var s' := Step(s, req).1;
      && FailedCount(s', a) == FailedCount(s, a) + (if ThrottleRejection(s, req, a) then 1 else 0)
      && (a in s'.checkFailedCount <==> a in s.checkFailedCount || ThrottleRejection(s, req, a))
  {

  }

  /**
   * Over any run, an address's failed-check count grows by exactly the number
   * of its transactions the throttle rejected, and by nothing else: no
   * commit resets it and no other rejection or admission touches it.
   */
  lemma {:induction false} RunFailedCount(s: AppState, reqs: seq<Request>, a: Address)
    ensures FailedCount(Run(s, reqs), a) == FailedCount(s, a) + ThrottleRejections(s, reqs, a)
    ensures a in Run(s, reqs).checkFailedCount <==> a in s.checkFailedCount || ThrottleRejections(s, reqs, a) > 0
    decreases |reqs|
  {
    if reqs != [] {
      StepFailedCount(s, reqs[0], a);
      RunFailedCount(Step(s, reqs[0]).1, reqs[1..], a);
    }
  }

  // ----- the nonce-checked set over a run -----

  lemma StepNonceChecked(s: AppState, req: Request)
    ensures Step(s, req).1.nonceCheckedTx ==
      s.nonceCheckedTx + (if req.CheckTx? && Step(s, req).0.check.code == CodeOK then {req.tx.hash} else {})
  {

  }

  /**
   * The nonce-checked set only grows: after any run it is the set before plus
   * exactly the hashes of the transactions admitted during the run.
   */
  lemma {:induction false} RunNonceChecked(s: AppState, reqs: seq<Request>)
    ensures Run(s, reqs).nonceCheckedTx == s.nonceCheckedTx + AdmittedHashes(s, reqs)
    decreases |reqs|
  {
    if reqs != [] {
      StepNonceChecked(s, reqs[0]);
      RunNonceChecked(Step(s, reqs[0]).1, reqs[1..]);
    }
  }

  // ----- the check ledger within one commit epoch -----

  /** No request of the sequence is a Commit. */
  predicate WithinEpoch(reqs: seq<Request>)
  {
    forall i :: 0 <= i < |reqs| ==> reqs[i].CheckTx?
  }

  /** Accounts of the check ledger persist, and none of their nonces decreases. */
  ghost predicate LedgerGrows(l: Ledger, l': Ledger)
  {
    forall a :: a in l ==> a in l' && l'[a].nonce >= l[a].nonce
  }

  lemma StepLedgerGrows(s: AppState, tx: Tx, gasLimit: int, queue: seq<StateChange>)
    ensures LedgerGrows(s.checkTxState, Validate(s, tx, gasLimit, queue).1.checkTxState)
  {

  }

  /**
   * Between two commits the check ledger loses no account and no nonce in it
   * regresses: admissions only raise the sender's nonce and create, at most,
   * the recipient's account.
   */
  lemma {:induction false} EpochLedgerGrows(s: AppState, reqs: seq<Request>)
    requires WithinEpoch(reqs)
    ensures LedgerGrows(s.checkTxState, Run(s, reqs).checkTxState)
    decreases |reqs|
  {
    if reqs != [] {
      var req := reqs[0];
      assert req.CheckTx?;
      StepLedgerGrows(s, req.tx, req.gasLimit, req.queue);
      var s1 := Step(s, req).1;
      assert WithinEpoch(reqs[1..]) by {
        forall i | 0 <= i < |reqs[1..]| ensures reqs[1..][i].CheckTx? {
          assert reqs[1..][i] == reqs[i + 1];
        }
      }
      EpochLedgerGrows(s1, reqs[1..]);
    }
  }

  // ----- the throttle across a pair of transactions and across a commit -----

  /**
   * Two sub-floor transactions for the same (sender, recipient) pair: once the
   * first is admitted, the second, if it passes every earlier check, is
   * rejected for its gas price and its sender's failed-check count rises by
   * exactly one.
   */
  lemma SecondLowPriceRejected(s: AppState, first: Tx, second: Tx, gasLimit: int, queue: seq<StateChange>,
                               gasLimit2: int, queue2: seq<StateChange>)
    requires Validate(s, first, gasLimit, queue).0.code == CodeOK
    requires first.gasPrice < MinGasPrice && second.gasPrice < MinGasPrice
    requires Sender(first) == Sender(second) && ToOrZero(first) == ToOrZero(second)
    requires ReachesThrottle(Validate(s, first, gasLimit, queue).1, second, gasLimit2, queue2)
    ensures var s1 := Validate(s, first, gasLimit, queue).1;
      var (r2, s2) := Validate(s1, second, gasLimit2, queue2);
      && r2 == CheckTxResponse(LowGasPriceErr, GasPriceTooLow)
      && FailedCount(s2, Sender(second).value) == FailedCount(s1, Sender(second).value) + 1
      && s2.checkTxState == s1.checkTxState
      && s2.lowPriceTransactions == s1.lowPriceTransactions
  {

  }

  /**
   * After a successful commit the throttle starts afresh: a transaction that
   * passes the checks before the throttle is admitted, whatever its gas price
   * and whatever the throttle held before the commit.
   */
  lemma CommitReopensThrottle(s: AppState, h: Hash32, l: Ledger, tx: Tx, gasLimit: int, queue: seq<StateChange>)
    requires ReachesThrottle(CommitState(s, Success(h), Success(l)).1, tx, gasLimit, queue)
    ensures var s1 := CommitState(s, Success(h), Success(l)).1;
      var (r, s2) := Validate(s1, tx, gasLimit, queue);
      && r.code == CodeOK
      && (tx.gasPrice < MinGasPrice ==> s2.lowPriceTransactions == map[Key(Sender(tx).value, tx) := tx])
      && (tx.gasPrice >= MinGasPrice ==> s2.lowPriceTransactions == map[])
  {
  }
}
