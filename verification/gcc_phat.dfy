/**
 * The lag-selection tail of the GCC-PHAT offset estimator: the inverse
 * transform of the phase-normalised cross spectrum (`rphat`, `n` real
 * samples, lag 0 first and negative lags wrapped to the end) is re-centred so
 * that lags run from -n/2 upwards, and the lag whose sample has the largest
 * magnitude is chosen, the first one on ties.
 *
 * The transforms that produce `rphat` are not modelled: the sequence is the
 * input.
 */
module GccPhat {
  import IndexArith

  datatype Option<T> = None | Some(value: T)

  function Abs(x: real): real
  {
    if x < 0.0 then -x else x
  }

  /** The largest offset considered, truncating n/2 towards zero. */
  function MaxOffset(n: nat): nat
  {
    n / 2
  }

  /**
   * The last `m` samples followed by the first `m`, where `m` is
   * `MaxOffset(|rphat|)`. A slice from `-0` is the whole sequence, so a
   * single sample comes back unchanged.
   */
  function Recentre(rphat: seq<real>): (r: seq<real>)
    ensures |rphat| != 1 ==> |r| == 2 * MaxOffset(|rphat|)
    ensures |rphat| == 1 ==> r == rphat
  {
    var n, m := |rphat|, MaxOffset(|rphat|);
    (if m == 0 then rphat else rphat[n - m..]) + rphat[..m]
  }

  /**
   * For `n >= 2`, position `i` of the re-centred sequence holds lag
   * `i - n/2`, that is, sample `(i - n/2) mod n` of `rphat`.
   */
  lemma RecentreElements(rphat: seq<real>)
    requires |rphat| >= 2
    ensures forall i :: 0 <= i < |Recentre(rphat)| ==>
      Recentre(rphat)[i] == rphat[(i - MaxOffset(|rphat|)) % |rphat|]
  {
    var n, m := |rphat|, MaxOffset(|rphat|);
    var r := Recentre(rphat);
    forall i | 0 <= i < |r|
      ensures r[i] == rphat[(i - m) % n]
    {
      if i < m {
        IndexArith.ModUnique(i - m, n, -1, n - m + i);
      } else {
        IndexArith.ModUnique(i - m, n, 0, i - m);
      }
    }
  }

  /**
   * Every sample `j` of `rphat` survives the re-centring, at position
   * `(j + m) mod n`, except, when `n` is odd, the middle one at index `m`,
   * which neither half reaches.
   */
  lemma RecentreKeepsAllButMiddle(rphat: seq<real>, j: int)
    requires |rphat| >= 2 && 0 <= j < |rphat|
    requires !(|rphat| % 2 == 1 && j == MaxOffset(|rphat|))
    ensures (j + MaxOffset(|rphat|)) % |rphat| < |Recentre(rphat)|
    ensures Recentre(rphat)[(j + MaxOffset(|rphat|)) % |rphat|] == rphat[j]
  {
    var n, m := |rphat|, MaxOffset(|rphat|);
    var r := Recentre(rphat);
    assert r == rphat[n - m..] + rphat[..m];
    if j < m {
      IndexArith.ModUnique(j + m, n, 0, j + m);
      assert r[j + m] == rphat[..m][j];
    } else {
      assert j >= n - m;
      IndexArith.ModUnique(j + m, n, 1, j + m - n);
      assert r[j + m - n] == rphat[n - m..][j + m - n];
    }
  }

  /**
   * As a multiset the re-centred sequence is `rphat` itself when `n` is
   * even, and `rphat` less its middle sample when `n` is odd.
   */
  lemma RecentrePermutes(rphat: seq<real>)
    requires |rphat| >= 2
    ensures var n, m := |rphat|, MaxOffset(|rphat|);
      && (n % 2 == 0 ==> multiset(Recentre(rphat)) == multiset(rphat))
      && (n % 2 == 1 ==> multiset(Recentre(rphat)) + multiset{rphat[m]} == multiset(rphat))
  {
    var n, m := |rphat|, MaxOffset(|rphat|);
    var r := Recentre(rphat);
    assert r == rphat[n - m..] + rphat[..m];
    assert rphat == rphat[..m] + rphat[m..n - m] + rphat[n - m..];
    if n % 2 == 0 {
      assert rphat[m..n - m] == [];
    } else {
      assert rphat[m..n - m] == [rphat[m]];
    }
  }

  /**
   * The index of the first sample of largest magnitude in a non-empty
   * sequence.
   */
  function ArgMaxAbs(s: seq<real>): (k: nat)
    requires |s| > 0
    ensures k < |s|
    ensures forall i :: 0 <= i < |s| ==> Abs(s[i]) <= Abs(s[k])
    ensures forall i :: 0 <= i < k ==> Abs(s[i]) < Abs(s[k])
  {
    if |s| == 1 then 0
    else
      var k := ArgMaxAbs(s[..|s| - 1]);
      assert forall i :: 0 <= i < |s| - 1 ==> s[..|s| - 1][i] == s[i];
      if Abs(s[|s| - 1]) > Abs(s[k]) then |s| - 1 else k
  }

  /**
   * The offset, in samples, of the strongest correlation peak: the position
   * of the first largest-magnitude sample of the re-centred sequence, less
   * `MaxOffset(n)`. There is none for an empty input, whose maximum is
   * undefined.
   */
  function Offset(rphat: seq<real>): (r: Option<int>)
    ensures r.None? <==> |rphat| == 0
    ensures |rphat| == 1 ==> r == Some(0)
    ensures |rphat| >= 2 ==> r.Some? && -(MaxOffset(|rphat|) as int) <= r.value < MaxOffset(|rphat|)
  {
    if |rphat| == 0 then None
    else Some(ArgMaxAbs(Recentre(rphat)) - MaxOffset(|rphat|))
  }

  /**
   * For `n >= 2` the chosen offset names a lag in [-n/2, n/2) whose sample,
   * read from `rphat` with negative lags wrapped, is at least as large in
   * magnitude as that of every other lag in the range, and strictly larger
   * than that of every smaller lag.
   */
  lemma OffsetIsFirstPeak(rphat: seq<real>)
    requires |rphat| >= 2
    ensures var n, m := |rphat|, MaxOffset(|rphat|) as int;
      && Offset(rphat).Some?
      && (forall lag :: -m <= lag < m ==>
            Abs(rphat[lag % n]) <= Abs(rphat[Offset(rphat).value % n]))
      && (forall lag :: -m <= lag < Offset(rphat).value ==>
            Abs(rphat[lag % n]) < Abs(rphat[Offset(rphat).value % n]))
  {
    var n, m := |rphat|, MaxOffset(|rphat|) as int;
    var r := Recentre(rphat);
    var k := ArgMaxAbs(r);
    RecentreElements(rphat);
    assert Offset(rphat).value == k - m;
    assert r[k] == rphat[(k - m) % n];
    forall lag | -m <= lag < m
      ensures Abs(rphat[lag % n]) <= Abs(r[k])
      ensures lag < k - m ==> Abs(rphat[lag % n]) < Abs(r[k])
    {
      assert r[lag + m] == rphat[(lag + m - m) % n];
    }
  }
}
