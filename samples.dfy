/** The unit tests' sample: ten closing prices rising by one from 120, and what
    the three tested indicators give on it. */
module Samples {
  import opened Series
  import opened Rolling
  import opened Indicators

  function SampleClose(): (x: Series)
    ensures |x| == 10 && AllPresent(x)
    ensures forall i :: 0 <= i < 10 ==> x[i] == Some(120.0 + i as real)
  {
    seq(10, i requires 0 <= i < 10 => Some(120.0 + i as real))
  }

  /** The five-day average at the last day is (125 + ... + 129) / 5 = 127. */
  lemma SampleSma()
    ensures Sma(SampleClose(), 5)[9] == Some(127.0)
  {
    var x := SampleClose();
    var v := Values(x[5 .. 10]);
    assert v == [125.0, 126.0, 127.0, 128.0, 129.0];
    assert Sum([125.0]) == 125.0;
    assert Sum([125.0, 126.0]) == 251.0 by { assert [125.0, 126.0][..1] == [125.0]; }
    assert Sum([125.0, 126.0, 127.0]) == 378.0 by { assert [125.0, 126.0, 127.0][..2] == [125.0, 126.0]; }
    assert Sum([125.0, 126.0, 127.0, 128.0]) == 506.0 by {
      assert [125.0, 126.0, 127.0, 128.0][..3] == [125.0, 126.0, 127.0];
    }
    assert v[..4] == [125.0, 126.0, 127.0, 128.0];
    assert Sum(v) == 635.0;
  }

  /** The five-day exponential average has a value at every day. */
  lemma SampleEma()
    ensures AllPresent(Ema(SampleClose(), 5))
  {
    EmaAllPresent(SampleClose(), 5);
  }

  /** The fourteen-day index is 0 on the first day, where nothing has moved yet,
      and 100 on every later day, since the price only rises. */
  lemma SampleRsi()
    ensures Rsi(SampleClose(), 14)[0] == Some(0.0)
    ensures forall i :: 0 < i < 10 ==> Rsi(SampleClose(), 14)[i] == Some(100.0)
  {
    RsiFirstIsZero(SampleClose(), 14);
    RsiRisingIs100(SampleClose(), 14);
  }
}
