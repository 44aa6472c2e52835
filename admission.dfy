/**
 * Transaction admission (validateTx): the checks a transaction must pass to
 * enter the pending pool, run against the speculative check ledger, and the
 * effect an admission has on that ledger and on the throttle bookkeeping.
 *
 * `Validate` is the reference definition of one CheckTx: given the state
 * before it, the transaction, the backend's block gas limit and the queued
 * state changes, it gives the response and the state after it. The lemmas
 * that follow state what it promises, check by check.
 */
module Admission {
  import opened Wrappers
  import opened Eth
  import opened AppState

  // ----- the pending state-change queue -----

  /** Sum of the amounts of the queued changes whose source is `from`. */
  function QueuedDebit(queue: seq<StateChange>, from: Address): int
  {
    if queue == [] then 0
    else
      var last := queue[|queue| - 1];
      QueuedDebit(queue[..|queue| - 1], from) + (if last.from == from then last.amount else 0)
  }

  /** The queued debit of a concatenation is the sum of the queued debits of its parts. */
  lemma {:induction false} QueuedDebitSplit(q1: seq<StateChange>, q2: seq<StateChange>, from: Address)
    ensures QueuedDebit(q1 + q2, from) == QueuedDebit(q1, from) + QueuedDebit(q2, from)
    decreases |q2|
  {
    if q2 == [] {
      assert q1 + q2 == q1;
    } else {
      var q2' := q2[..|q2| - 1];
      assert (q1 + q2)[..|q1 + q2| - 1] == q1 + q2';
      QueuedDebitSplit(q1, q2', from);
    }
  }

  /** The queued debit does not depend on the order of the queue: a permutation of it gives the same debit. */
  lemma {:induction false} QueuedDebitPermutation(q: seq<StateChange>, q': seq<StateChange>, from: Address)
    requires multiset(q) == multiset(q')
    ensures QueuedDebit(q, from) == QueuedDebit(q', from)
    decreases |q|
  {
    if q == [] {
      assert |q'| == |multiset(q')| == 0;
    } else {
      var x := q[|q| - 1];
      var init := q[..|q| - 1];
      assert q == init + [x];
      assert x in multiset(q');
      var i :| 0 <= i < |q'| && q'[i] == x;
      var a, b := q'[..i], q'[i + 1..];
      assert q' == a + [x] + b;
      assert multiset(q) == multiset(init) + multiset{x};
      assert multiset(q') == multiset(a + b) + multiset{x} by {
        assert multiset(q') == multiset(a) + multiset([x]) + multiset(b);
        assert multiset(a + b) == multiset(a) + multiset(b);
      }
      assert multiset(init) == multiset(a + b) by {
        forall e ensures multiset(init)[e] == multiset(a + b)[e] {
          assert multiset(q)[e] == multiset(q')[e];
        }
      }
      QueuedDebitPermutation(init, a + b, from);
      QueuedDebitSplit(a, [x], from);
      QueuedDebitSplit(a + [x], b, from);
      QueuedDebitSplit(a, b, from);
      assert [x][..0] == [];
    }
  }

  /** Changes queued by other accounts do not reduce the sender's available balance. */
  lemma {:induction false} QueuedDebitOfOthers(queue: seq<StateChange>, from: Address)
    requires forall i :: 0 <= i < |queue| ==> queue[i].from != from
    ensures QueuedDebit(queue, from) == 0
  {
    if queue != [] {
      QueuedDebitOfOthers(queue[..|queue| - 1], from);
    }
  }

  /**
   * The loop of the funds check: starting from the sender's balance, take off
   * every queued amount whose source is the sender.
   */
  method PendingBalance(balance: int, queue: seq<StateChange>, from: Address) returns (available: int)
    ensures available == balance - QueuedDebit(queue, from)
  {
    available := balance;
    for i := 0 to |queue|
      invariant available == balance - QueuedDebit(queue[..i], from)
    {
      if queue[i].from == from {
        available := available - queue[i].amount;
      }
      assert queue[..i + 1][..i] == queue[..i];
    }
    assert queue[..|queue|] == queue;
  }

  // ----- the individual checks, in the order they are made -----

  predicate SizeOk(tx: Tx)
  {
    tx.size <= MaxTransactionSize
  }

  predicate ValueOk(tx: Tx)
  {
    tx.value >= 0
  }

  predicate WithinGasLimit(tx: Tx, gasLimit: int)
  {
    tx.gas <= gasLimit
  }

  /**
   * The nonce rule: a hash already nonce-checked skips it; otherwise the nonce
   * must equal the sender's nonce, or that nonce plus the sender's failed-check
   * count when the sender has one.
   */
  predicate NonceOk(s: AppState, from: Address, tx: Tx)
  {
    var nonce := Nonce(s.checkTxState, from);
    || tx.hash in s.nonceCheckedTx
    || tx.nonce == nonce
    || (from in s.checkFailedCount && tx.nonce == nonce + s.checkFailedCount[from])
  }

  /** The sender's balance less everything the queue already takes from it. */
  function Available(s: AppState, from: Address, queue: seq<StateChange>): int
  {
    Balance(s.checkTxState, from) - QueuedDebit(queue, from)
  }

  predicate FundsOk(s: AppState, from: Address, tx: Tx, queue: seq<StateChange>)
  {
    Available(s, from, queue) >= Cost(tx)
  }

  predicate IntrinsicGasOk(tx: Tx)
  {
    tx.gas >= tx.intrinsicGas
  }

  /** The throttle key of a transaction from `from`. */
  function Key(from: Address, tx: Tx): FromTo
  {
    FromTo(from, ToOrZero(tx))
  }

  /** A sub-floor transaction whose (sender, recipient) pair already has a sub-floor transaction recorded. */
  predicate Throttled(s: AppState, from: Address, tx: Tx)
  {
    Key(from, tx) in s.lowPriceTransactions && tx.gasPrice < MinGasPrice
  }

  // ----- how far a transaction gets -----

  /** The checks before the nonce check all pass. */
  predicate ReachesNonceCheck(s: AppState, tx: Tx, gasLimit: int)
  {
    && SizeOk(tx)
    && Sender(tx).Some?
    && ValueOk(tx)
    && Sender(tx).value in s.checkTxState
    && WithinGasLimit(tx, gasLimit)
  }

  predicate ReachesFundsCheck(s: AppState, tx: Tx, gasLimit: int)
  {
    ReachesNonceCheck(s, tx, gasLimit) && NonceOk(s, Sender(tx).value, tx)
  }

  predicate ReachesIntrinsicGasCheck(s: AppState, tx: Tx, gasLimit: int, queue: seq<StateChange>)
  {
    ReachesFundsCheck(s, tx, gasLimit) && FundsOk(s, Sender(tx).value, tx, queue)
  }

  predicate ReachesThrottle(s: AppState, tx: Tx, gasLimit: int, queue: seq<StateChange>)
  {
    ReachesIntrinsicGasCheck(s, tx, gasLimit, queue) && IntrinsicGasOk(tx)
  }

  // ----- one CheckTx -----

  /**
   * The state after an admission: the hash is marked nonce-checked, the cost
   * is debited from the sender, the value credited to the recipient when there
   * is one, and the sender's nonce becomes its pre-check nonce plus one. A
   * sub-floor transaction is recorded in the throttle under its key.
   */
  function Admit(s: AppState, from: Address, tx: Tx): AppState
  {
    var nonce := Nonce(s.checkTxState, from);
    var throttle := if tx.gasPrice < MinGasPrice then s.lowPriceTransactions[Key(from, tx) := tx]
                    else s.lowPriceTransactions;
    var debited := SubBalance(s.checkTxState, from, Cost(tx));
    var credited := if tx.to.Some? then AddBalance(debited, tx.to.value, tx.value) else debited;
    AppState(SetNonce(credited, from, nonce + 1), throttle, s.checkFailedCount, s.nonceCheckedTx + {tx.hash})
  }

  /** The state after a throttle rejection: the sender's failed-check count goes up by one. */
  function CountFailure(s: AppState, from: Address): AppState
  {
    s.(checkFailedCount := s.checkFailedCount[from := FailedCount(s, from) + 1])
  }

  /** One CheckTx: the checks in source order, the first failing one deciding the response. */
  function Validate(s: AppState, tx: Tx, gasLimit: int, queue: seq<StateChange>): (CheckTxResponse, AppState)
  {
    if !SizeOk(tx) then (CheckTxResponse(InternalErr, OversizedData), s)
    else if Sender(tx).None? then (CheckTxResponse(InternalErr, InvalidSender), s)
    else
      var from := Sender(tx).value;
      if !ValueOk(tx) then (CheckTxResponse(BaseInvalidInput, NegativeValue), s)
      else if from !in s.checkTxState then (CheckTxResponse(UnknownAddress, InvalidSender), s)
      else if !WithinGasLimit(tx, gasLimit) then (CheckTxResponse(InternalErr, GasLimitReached), s)
      else if !NonceOk(s, from, tx) then
        (CheckTxResponse(BadNonce, NonceNotIncreasing(Nonce(s.checkTxState, from), tx.nonce)), s)
      else if !FundsOk(s, from, tx, queue) then
        (CheckTxResponse(BaseInvalidInput, InsufficientFunds(Available(s, from, queue), Cost(tx))), s)
      else if !IntrinsicGasOk(tx) then (CheckTxResponse(BaseInvalidInput, IntrinsicGasTooLow), s)
      else if Throttled(s, from, tx) then (CheckTxResponse(LowGasPriceErr, GasPriceTooLow), CountFailure(s, from))
      else (CheckTxResponse(CodeOK, NoLog), Admit(s, from, tx))
  }

  // ----- what one CheckTx promises -----

  /**
   * Check order: each response code is given exactly when the checks before
   * its own pass and its own fails; the codes shared by several checks are
   * told apart by the log.
   */
  lemma CheckOrder(s: AppState, tx: Tx, gasLimit: int, queue: seq<StateChange>)
    ensures var r := Validate(s, tx, gasLimit, queue).0;
      && (r.log == OversizedData <==> !SizeOk(tx))
      && (r == CheckTxResponse(InternalErr, OversizedData) <==> !SizeOk(tx))
      && (r == CheckTxResponse(InternalErr, InvalidSender) <==> SizeOk(tx) && Sender(tx).None?)
      && (r.code == InternalErr <==>
            || !SizeOk(tx)
            || Sender(tx).None?
            || (ValueOk(tx) && Sender(tx).value in s.checkTxState && !WithinGasLimit(tx, gasLimit)))
      && (r == CheckTxResponse(BaseInvalidInput, NegativeValue) <==>
            SizeOk(tx) && Sender(tx).Some? && !ValueOk(tx))
      && (r.code == UnknownAddress <==>
            SizeOk(tx) && Sender(tx).Some? && ValueOk(tx) && Sender(tx).value !in s.checkTxState)
      && (r == CheckTxResponse(InternalErr, GasLimitReached) <==>
            SizeOk(tx) && Sender(tx).Some? && ValueOk(tx) && Sender(tx).value in s.checkTxState
            && !WithinGasLimit(tx, gasLimit))
      && (r.code == BadNonce <==> ReachesNonceCheck(s, tx, gasLimit) && !NonceOk(s, Sender(tx).value, tx))
      && (r.code == BaseInvalidInput <==>
            || (SizeOk(tx) && Sender(tx).Some? && !ValueOk(tx))
            || (ReachesFundsCheck(s, tx, gasLimit) && !FundsOk(s, Sender(tx).value, tx, queue))
            || (ReachesIntrinsicGasCheck(s, tx, gasLimit, queue) && !IntrinsicGasOk(tx)))
      && (r == CheckTxResponse(BaseInvalidInput, IntrinsicGasTooLow) <==>
            ReachesIntrinsicGasCheck(s, tx, gasLimit, queue) && !IntrinsicGasOk(tx))
      && (r.code == LowGasPriceErr <==>
            ReachesThrottle(s, tx, gasLimit, queue) && Throttled(s, Sender(tx).value, tx))
      && (r.code == CodeOK <==>
            ReachesThrottle(s, tx, gasLimit, queue) && !Throttled(s, Sender(tx).value, tx))
  {
  }

  /**
   * The nonce rule, for a transaction whose other earlier checks pass: a hash
   * nonce-checked before is never rejected for its nonce; otherwise the nonce
   * must be the sender's state nonce, or run ahead of it by exactly the
   * sender's recorded failed-check count. Any other nonce is a bad nonce,
   * reported with the expected and the given nonce.
   */
  lemma NonceRule(s: AppState, tx: Tx, gasLimit: int, queue: seq<StateChange>, k: int)
    requires ReachesNonceCheck(s, tx, gasLimit)
    ensures var from := Sender(tx).value;
      var nonce := Nonce(s.checkTxState, from);
      var r := Validate(s, tx, gasLimit, queue).0;
      && (tx.hash in s.nonceCheckedTx ==> r.code != BadNonce)
      && (tx.hash !in s.nonceCheckedTx ==>
            (r.code == BadNonce <==>
               tx.nonce != nonce && (from !in s.checkFailedCount || tx.nonce != nonce + s.checkFailedCount[from])))
      && (r.code == BadNonce ==> r.log == NonceNotIncreasing(nonce, tx.nonce))
      && (tx.hash !in s.nonceCheckedTx && tx.nonce == nonce ==> r.code != BadNonce)
      && (tx.hash !in s.nonceCheckedTx && k > 0 && tx.nonce == nonce + k ==>
            (r.code == BadNonce <==> FailedCount(s, from) != k))
  {
  }

  /**
   * The funds rule, for a transaction that has passed the nonce check: it is
   * rejected exactly when the sender's balance, less every queued amount from
   * the sender, is below value plus gas price times gas; equality is admitted.
   */
  lemma FundsRule(s: AppState, tx: Tx, gasLimit: int, queue: seq<StateChange>)
    requires ReachesFundsCheck(s, tx, gasLimit)
    ensures var from := Sender(tx).value;
      var available := Balance(s.checkTxState, from) - QueuedDebit(queue, from);
      var r := Validate(s, tx, gasLimit, queue).0;
      && ((r == CheckTxResponse(BaseInvalidInput, InsufficientFunds(available, tx.value + tx.gasPrice * tx.gas)))
            <==> available < tx.value + tx.gasPrice * tx.gas)
      && (available == tx.value + tx.gasPrice * tx.gas ==> r.code != BaseInvalidInput || !IntrinsicGasOk(tx))
  {
  }

  /**
   * The throttle, for a transaction that has passed every earlier check: a
   * sub-floor transaction whose key is recorded is rejected and its sender's
   * failed-check count goes up by exactly one; a sub-floor transaction whose
   * key is absent is admitted and recorded; one at or above the floor is
   * admitted and leaves the throttle as it was.
   */
  lemma ThrottleRule(s: AppState, tx: Tx, gasLimit: int, queue: seq<StateChange>)
    requires ReachesThrottle(s, tx, gasLimit, queue)
    ensures var from := Sender(tx).value;
      var key := FromTo(from, if tx.to.Some? then tx.to.value else ZeroAddress);
      var (r, s') := Validate(s, tx, gasLimit, queue);
      && (key in s.lowPriceTransactions && tx.gasPrice < MinGasPrice ==>
            && r == CheckTxResponse(LowGasPriceErr, GasPriceTooLow)
            && FailedCount(s', from) == FailedCount(s, from) + 1
            && s'.checkFailedCount.Keys == s.checkFailedCount.Keys + {from}
            && (forall a :: a in s.checkFailedCount && a != from ==> s'.checkFailedCount[a] == s.checkFailedCount[a]))
      && (key !in s.lowPriceTransactions && tx.gasPrice < MinGasPrice ==>
            r.code == CodeOK && s'.lowPriceTransactions == s.lowPriceTransactions[key := tx])
      && (tx.gasPrice >= MinGasPrice ==>
            r.code == CodeOK && s'.lowPriceTransactions == s.lowPriceTransactions)
  {
  }

  /** A contract creation and a transfer to the zero address from the same sender share a throttle key. */
  lemma CreationSharesZeroKey(from: Address, creation: Tx, transfer: Tx)
    requires creation.to.None? && transfer.to == Some(ZeroAddress)
    ensures Key(from, creation) == Key(from, transfer)
  {
  }

  /**
   * The effects of an admission: the hash joins the nonce-checked set; the
   * sender pays value plus gas price times gas; a recipient, when there is
   * one, receives the value (both apply when sender and recipient coincide);
   * the sender's nonce becomes its pre-check nonce plus one, whatever nonce
   * the transaction carried; no other account and no failed-check count
   * changes.
   */
  lemma AdmissionEffects(s: AppState, tx: Tx, gasLimit: int, queue: seq<StateChange>)
    requires Validate(s, tx, gasLimit, queue).0.code == CodeOK
    ensures Sender(tx).Some?
    ensures var from := Sender(tx).value;
      var cost := tx.value + tx.gasPrice * tx.gas;
      var (r, s') := Validate(s, tx, gasLimit, queue);
      var l, l' := s.checkTxState, s'.checkTxState;
      && r == CheckTxResponse(CodeOK, NoLog)
      && s'.nonceCheckedTx == s.nonceCheckedTx + {tx.hash}
      && from in l && from in l'
      && l'[from].nonce == l[from].nonce + 1
      && (tx.to != Some(from) ==> l'[from].balance == l[from].balance - cost)
      && (tx.to == Some(from) ==> l'[from].balance == l[from].balance - cost + tx.value)
      && (tx.to.Some? && tx.to.value != from ==>
            && tx.to.value in l'
            && l'[tx.to.value].balance == Balance(l, tx.to.value) + tx.value
            && l'[tx.to.value].nonce == Nonce(l, tx.to.value))
      && (forall a :: a != from && tx.to != Some(a) ==> (a in l' <==> a in l))
      && (forall a :: a in l && a != from && tx.to != Some(a) ==> l'[a] == l[a])
      && l'.Keys == l.Keys + (if tx.to.Some? then {tx.to.value} else {})
      && s'.checkFailedCount == s.checkFailedCount
  {
  }

  /**
   * A transaction admitted through the failed-count catch-up leaves the
   * sender's nonce at the pre-check nonce plus one, not at its own nonce plus
   * one.
   */
  lemma CatchUpNonceLag(s: AppState, tx: Tx, gasLimit: int, queue: seq<StateChange>)
    requires Validate(s, tx, gasLimit, queue).0.code == CodeOK
    requires tx.hash !in s.nonceCheckedTx
    requires Sender(tx).Some? && tx.nonce != Nonce(s.checkTxState, Sender(tx).value)
    ensures var from := Sender(tx).value;
      var s' := Validate(s, tx, gasLimit, queue).1;
      && from in s.checkFailedCount
      && tx.nonce == Nonce(s.checkTxState, from) + s.checkFailedCount[from]
      && Nonce(s'.checkTxState, from) == Nonce(s.checkTxState, from) + 1
      && (s.checkFailedCount[from] > 0 ==> Nonce(s'.checkTxState, from) < tx.nonce + 1)
  {
  }

  /**
   * After an admission through the catch-up with count c, another fresh
   * transaction from the same sender carrying the same nonce passes the nonce
   * check exactly when c is one: the sender's nonce was set to one past the
   * pre-check nonce, which with c = 1 is the admitted transaction's own nonce.
   */
  lemma CatchUpNonceReuse(s: AppState, tx: Tx, other: Tx, gasLimit: int, queue: seq<StateChange>)
    requires Validate(s, tx, gasLimit, queue).0.code == CodeOK
    requires tx.hash !in s.nonceCheckedTx
    requires Sender(tx).Some? && tx.nonce != Nonce(s.checkTxState, Sender(tx).value)
    requires Sender(other) == Sender(tx) && other.nonce == tx.nonce
    requires other.hash !in Validate(s, tx, gasLimit, queue).1.nonceCheckedTx
    ensures var from := Sender(tx).value;
      NonceOk(Validate(s, tx, gasLimit, queue).1, from, other) <==> s.checkFailedCount[from] == 1
  {
  }

  /**
   * The frame of CheckTx: a rejection leaves the check ledger, the throttle
   * and the nonce-checked set as they were; only a throttle rejection changes
   * anything, and then only the sender's failed-check count, by one. On every
   * path no failed-check count decreases, and a transaction at or above the
   * floor leaves the throttle as it was.
   */
  lemma CheckTxFrame(s: AppState, tx: Tx, gasLimit: int, queue: seq<StateChange>)
    ensures var (r, s') := Validate(s, tx, gasLimit, queue);
      && (r.code != CodeOK ==>
            && s'.checkTxState == s.checkTxState
            && s'.lowPriceTransactions == s.lowPriceTransactions
            && s'.nonceCheckedTx == s.nonceCheckedTx)
      && (r.code != CodeOK && r.code != LowGasPriceErr ==> s' == s)
      && (r.code == LowGasPriceErr ==>
            && Sender(tx).Some?
            && s'.checkFailedCount == s.checkFailedCount[Sender(tx).value := FailedCount(s, Sender(tx).value) + 1])
      && (forall a :: a in s.checkFailedCount ==>
            a in s'.checkFailedCount && s'.checkFailedCount[a] >= s.checkFailedCount[a])
      && (tx.gasPrice >= MinGasPrice ==> s'.lowPriceTransactions == s.lowPriceTransactions)
  {
  }
}
