/** findBestExemplarPix: the choice of an exemplar pixel among the match
    candidates, at random among those whose score is within 10% of the
    smallest one. */
module Selection {
  import opened Wrappers
  import opened SynthesisTypes

  /** The minimum the C loop finds after looking at the first n candidates:
      it starts from the first candidate's score and takes every score that
      is less than or equal to the current one. */
  function MinUpTo(c: seq<EXPPixel>, n: nat): real
    requires 0 < |c| && n <= |c|
  {
    if n == 0 then c[0].gaussScore
    else if c[n - 1].gaussScore <= MinUpTo(c, n - 1) then c[n - 1].gaussScore
    else MinUpTo(c, n - 1)
  }

  /** The running minimum is the score of one of the candidates seen (or of
      the first), and no candidate seen scores lower. */
  lemma {:induction false} MinUpToIsMinimum(c: seq<EXPPixel>, n: nat)
    requires 0 < |c| && n <= |c|
    ensures exists k :: 0 <= k < |c| && k <= n && MinUpTo(c, n) == c[k].gaussScore
    ensures MinUpTo(c, n) <= c[0].gaussScore
    ensures forall k :: 0 <= k < n ==> MinUpTo(c, n) <= c[k].gaussScore
  {
    if n == 0 {
      assert MinUpTo(c, n) == c[0].gaussScore;
    } else {
      MinUpToIsMinimum(c, n - 1);
      if c[n - 1].gaussScore <= MinUpTo(c, n - 1) {
        assert MinUpTo(c, n) == c[n - 1].gaussScore;
      } else {
        var k :| 0 <= k < |c| && k <= n - 1 && MinUpTo(c, n - 1) == c[k].gaussScore;
        assert MinUpTo(c, n) == c[k].gaussScore;
      }
    }
  }

  /** The smallest score among the candidates. */
  function MinScore(c: seq<EXPPixel>): real
    requires 0 < |c|
  {
    MinUpTo(c, |c|)
  }

  /** The positions, in increasing order, among the first n candidates whose
      score is at most bound. */
  function Band(c: seq<EXPPixel>, bound: real, n: nat): (b: seq<nat>)
    requires n <= |c|
    ensures |b| <= n
    ensures forall k :: 0 <= k < |b| ==> b[k] < n && c[b[k]].gaussScore <= bound
  {
    if n == 0 then []
    else Band(c, bound, n - 1) + (if c[n - 1].gaussScore <= bound then [n - 1] else [])
  }

  /** Every candidate within the bound has a place in the band. */
  lemma {:induction false} BandComplete(c: seq<EXPPixel>, bound: real, n: nat, i: nat)
    requires n <= |c| && i < n && c[i].gaussScore <= bound
    ensures i in Band(c, bound, n)
  {
    if i < n - 1 {
      BandComplete(c, bound, n - 1, i);
      assert Band(c, bound, n)[..|Band(c, bound, n - 1)|] == Band(c, bound, n - 1);
    } else {
      assert Band(c, bound, n)[|Band(c, bound, n)| - 1] == i;
    }
  }

  /** The band lists positions in increasing order. */
  lemma {:induction false} BandIncreasing(c: seq<EXPPixel>, bound: real, n: nat)
    requires n <= |c|
    ensures forall k, l :: 0 <= k < l < |Band(c, bound, n)| ==> Band(c, bound, n)[k] < Band(c, bound, n)[l]
  {
    if n > 0 {
      BandIncreasing(c, bound, n - 1);
    }
  }

  /** The bound of findBestExemplarPix: 1.1 times the minimum. */
  function Threshold(minimum: real): real
  {
    1.1 * minimum
  }

  /** The candidate findBestExemplarPix returns for the random value draw,
      or None when there is none to choose from (where the C code takes
      rand() % 0). */
  function Select(c: seq<EXPPixel>, draw: nat): (e: Option<EXPPixel>)
    ensures |c| == 0 ==> e == None
    ensures e.Some? ==> e.value in c
  {
    if |c| == 0 then None
    else
      var b := Band(c, Threshold(MinScore(c)), |c|);
      if |b| == 0 then None else Some(c[b[draw % |b|]])
  }

  /** With non-negative scores (as Gaussian scores are) and at least one
      candidate, a candidate is chosen, and its score is within 10% of the
      smallest one. Without candidates nothing is chosen. */
  lemma SelectSpec(c: seq<EXPPixel>, draw: nat)
    requires forall k :: 0 <= k < |c| ==> c[k].gaussScore >= 0.0
    ensures Select(c, draw).Some? <==> |c| > 0
    ensures Select(c, draw).Some? ==>
      (forall k :: 0 <= k < |c| ==> MinScore(c) <= c[k].gaussScore)
      && Select(c, draw).value.gaussScore <= Threshold(MinScore(c))
  {
    if |c| > 0 {
      MinUpToIsMinimum(c, |c|);
      var k :| 0 <= k < |c| && MinScore(c) == c[k].gaussScore;
      BandComplete(c, Threshold(MinScore(c)), |c|, k);
      assert k in Band(c, Threshold(MinScore(c)), |c|);
    }
  }

  /** Every candidate within 10% of the minimum is chosen for some random value. */
  lemma SelectReachesBand(c: seq<EXPPixel>, i: nat)
    requires i < |c| && c[i].gaussScore <= Threshold(MinScore(c))
    ensures exists draw: nat :: Select(c, draw) == Some(c[i])
  {
    var b := Band(c, Threshold(MinScore(c)), |c|);
    BandComplete(c, Threshold(MinScore(c)), |c|, i);
    var k :| 0 <= k < |b| && b[k] == i;
    SmallRemainder(k, |b|);
    assert Select(c, k) == Some(c[b[k]]);
  }

  lemma SmallRemainder(k: nat, n: nat)
    requires k < n
    ensures k % n == k
  {
  }

  /** findBestExemplarPix over the first size entries of arr, with draw the
      value of rand(). */
  method FindBestExemplarPix(arr: array<EXPPixel>, size: nat, draw: nat) returns (best: Option<EXPPixel>)
    requires size <= arr.Length
    ensures best == Select(arr[..size], draw)
  {
    ghost var c := arr[..size];
    if size == 0 {
      return None;
    }
    var minValue := arr[0].gaussScore;
    for i := 0 to size
      invariant minValue == MinUpTo(c, i)
    {
      var currentGauss := arr[i].gaussScore;
      if currentGauss <= minValue {
        minValue := currentGauss;
      }
    }
    assert minValue == MinScore(c);
    var adjMin := Threshold(minValue);
    var indicesInRange := new nat[size];
    var counter: nat := 0;
    for i := 0 to size
      invariant counter <= i
      invariant indicesInRange[..counter] == Band(c, adjMin, i)
    {
      if arr[i].gaussScore <= adjMin {
        indicesInRange[counter] := i;
        counter := counter + 1;
      }
    }
    ghost var b := indicesInRange[..counter];
    assert b == Band(c, Threshold(MinScore(c)), |c|);
    if counter == 0 {
      return None;
    }
    var randomIndex := draw % counter;
    assert indicesInRange[randomIndex] == b[draw % |b|];
    best := Some(arr[indicesInRange[randomIndex]]);
  }
}
