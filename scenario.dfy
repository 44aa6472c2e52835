/**
 * A worked run of six CheckTx calls from one sender to one recipient, with
 * the sender starting at nonce 5 and no failed checks, all gas prices at or
 * below the floor, and an empty state-change queue.
 */
module Scenario {
  import opened Wrappers
  import opened Eth
  import opened AppState
  import opened Admission

  const S: Address := 1
  const R: Address := 2
  const GasLimit: int := 8000000

  function HashOf(k: bv8): Hash32
  {
    seq(32, i => k)
  }

  /** A transfer of 10 from S to R with 21001 gas against an intrinsic gas of 21000. */
  function Transfer(nonce: nat, gasPrice: int, k: bv8): Tx
  {
    Tx(nonce, gasPrice, 21001, Some(R), 10, 110, HashOf(k), false, Some(S), None, 21000)
  }

  const Start: AppState := AppState(map[S := Account(1000000000000000000, 5)], map[], map[], {})

  /**
   * A (nonce 5, at the floor) is admitted and the nonce becomes 6; B (nonce 5
   * again) is a bad nonce; C (nonce 6, half the floor) is admitted and
   * recorded; D (nonce 7, half the floor, same pair) is throttled and the
   * count becomes 1; E (nonce 8, at the floor) is admitted through the
   * catch-up, since 7 + 1 = 8, and leaves the nonce at 8; F, another
   * transaction carrying nonce 8, is then admitted as well.
   */
  lemma SixTransactions()
    ensures var (ra, sa) := Validate(Start, Transfer(5, MinGasPrice, 1), GasLimit, []);
      var (rb, sb) := Validate(sa, Transfer(5, MinGasPrice, 2), GasLimit, []);
      var (rc, sc) := Validate(sb, Transfer(6, MinGasPrice / 2, 3), GasLimit, []);
      var (rd, sd) := Validate(sc, Transfer(7, MinGasPrice / 2, 4), GasLimit, []);
      var (re, se) := Validate(sd, Transfer(8, MinGasPrice, 5), GasLimit, []);
      var (rf, sf) := Validate(se, Transfer(8, MinGasPrice, 6), GasLimit, []);
      && ra.code == CodeOK && Nonce(sa.checkTxState, S) == 6
      && Balance(sa.checkTxState, S) == 1000000000000000000 - (10 + MinGasPrice * 21001)
      && rb == CheckTxResponse(BadNonce, NonceNotIncreasing(6, 5))
      && rc.code == CodeOK && FromTo(S, R) in sc.lowPriceTransactions
      && rd == CheckTxResponse(LowGasPriceErr, GasPriceTooLow) && FailedCount(sd, S) == 1
      && re.code == CodeOK && Nonce(se.checkTxState, S) == 8
      && rf.code == CodeOK && Nonce(sf.checkTxState, S) == 9
  {
    var a, b, c, d, e, f := Transfer(5, MinGasPrice, 1), Transfer(5, MinGasPrice, 2),
      Transfer(6, MinGasPrice / 2, 3), Transfer(7, MinGasPrice / 2, 4), Transfer(8, MinGasPrice, 5),
      Transfer(8, MinGasPrice, 6);
    assert HashOf(2)[0] == 2 && HashOf(1)[0] == 1;
    var sa := Validate(Start, a, GasLimit, []).1;
    assert b.hash !in sa.nonceCheckedTx;
    var sb := Validate(sa, b, GasLimit, []).1;
    assert HashOf(3)[0] == 3;
    assert c.hash !in sb.nonceCheckedTx;
    var sc := Validate(sb, c, GasLimit, []).1;
    assert HashOf(4)[0] == 4;
    assert d.hash !in sc.nonceCheckedTx;
    var sd := Validate(sc, d, GasLimit, []).1;
    assert HashOf(5)[0] == 5;
    assert e.hash !in sd.nonceCheckedTx;
    var se := Validate(sd, e, GasLimit, []).1;
    assert HashOf(6)[0] == 6;
    assert f.hash !in se.nonceCheckedTx;
  }
}
