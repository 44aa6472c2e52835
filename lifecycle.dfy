/**
 * The block-lifecycle requests other than CheckTx: Commit, which replaces the
 * speculative check ledger and clears the throttle; Info, which reports the
 * last block; and DeliverTx, which forwards the backend's verdict.
 */
module Lifecycle {
  import opened Wrappers
  import opened Eth
  import opened AppState

  /**
   * One Commit, given the backend's commit result (the new block hash or an
   * error) and the result of reading the committed state afterwards.
   */
  function CommitState(s: AppState, blockHash: Result<Hash32, string>, current: Result<Ledger, string>)
    : (CommitResponse, AppState)
  {
    match blockHash
    case Failure(e) => (CommitResponse(InternalErr, e, []), s)
    case Success(h) =>
      match current
      case Failure(e) => (CommitResponse(InternalErr, e, []), s)
      case Success(l) => (CommitResponse(CodeOK, "", h), s.(checkTxState := l, lowPriceTransactions := map[]))
  }

  /**
   * Commit on success installs the fresh snapshot as the check ledger, empties
   * the throttle, keeps the failed-check counts and the nonce-checked set, and
   * answers the block hash; on either backend error it answers an internal
   * error carrying the error text and changes nothing.
   */
  lemma CommitRule(s: AppState, blockHash: Result<Hash32, string>, current: Result<Ledger, string>)
    ensures var (r, s') := CommitState(s, blockHash, current);
      && (blockHash.Success? && current.Success? ==>
            && r.code == CodeOK && r.data == blockHash.value
            && s'.checkTxState == current.value
            && s'.lowPriceTransactions == map[]
            && s'.checkFailedCount == s.checkFailedCount
            && s'.nonceCheckedTx == s.nonceCheckedTx)
      && (blockHash.Failure? ==> r == CommitResponse(InternalErr, blockHash.error, []) && s' == s)
      && (blockHash.Success? && current.Failure? ==> r == CommitResponse(InternalErr, current.error, []) && s' == s)
      && (r.code == CodeOK <==> blockHash.Success? && current.Success?)
      && |r.data| == (if r.code == CodeOK then 32 else 0)
  {
  }

  datatype InfoResponse = InfoResponse(data: string, lastBlockHeight: nat, lastBlockAppHash: Bytes)

  /**
   * Info for the current block of the chain: the height is always reported;
   * the app hash is empty at height zero (the consensus engine's convention
   * for a first start) and the block hash otherwise.
   */
  function Info(height: nat, hash: Hash32): (r: InfoResponse)
    ensures r.data == "ABCIEthereum" && r.lastBlockHeight == height
    ensures height == 0 ==> r.lastBlockAppHash == []
    ensures height != 0 ==> r.lastBlockAppHash == hash
    ensures |r.lastBlockAppHash| == 0 <==> height == 0
  {
    if height == 0 then InfoResponse("ABCIEthereum", height, [])
    else InfoResponse("ABCIEthereum", height, hash)
  }

  /**
   * The success code of the consensus protocol; any other code is an error.
   * DeliverTx passes the backend's own response through, whose code can be
   * any number, so its responses carry the numeric code rather than the
   * symbolic `Code` of the responses this application builds itself.
   */
  const CodeTypeOK: nat := 0

  datatype DeliverTxResponse = DeliverTxResponse(code: nat, log: string, data: Bytes)

  /**
   * DeliverTx, given the backend's response to executing the transaction: an
   * error response is returned to the consensus engine as it is; on success
   * the answer is a bare success, whatever else the backend reported.
   */
  function DeliverTx(backend: DeliverTxResponse): (r: DeliverTxResponse)
    ensures backend.code != CodeTypeOK ==> r == backend
    ensures backend.code == CodeTypeOK ==> r == DeliverTxResponse(CodeTypeOK, "", [])
    ensures r.code == backend.code
  {
    if backend.code != CodeTypeOK then backend else DeliverTxResponse(CodeTypeOK, "", [])
  }
}
