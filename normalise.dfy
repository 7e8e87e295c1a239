/**
 Discretisation of a sample vector (`normaliseArray`): every sample is
 rounded, then the vector is shifted so that its least state is 0, and the
 width of the contiguous range of states is returned.
 */
module Normalise {
  import opened Rounding

  /** The rounded samples, before the shift. */
  function Rounded(s: seq<real>): seq<int>
  {
    seq(|s|, i requires 0 <= i < |s| => Round(s[i]))
  }

  /** Integer states seen as samples again. */
  function AsSamples(v: seq<int>): seq<real>
  {
    seq(|v|, i requires 0 <= i < |v| => v[i] as real)
  }

  /** The least element of a non-empty sequence. */
  function SeqMin(r: seq<int>): (m: int)
    requires |r| > 0
    ensures forall i :: 0 <= i < |r| ==> m <= r[i]
  {
    if |r| == 1 then r[0]
    else
      var rest := SeqMin(r[1..]);
      if r[0] <= rest then r[0] else rest
  }

  /** The greatest element of a non-empty sequence. */
  function SeqMax(r: seq<int>): (m: int)
    requires |r| > 0
    ensures forall i :: 0 <= i < |r| ==> r[i] <= m
  {
    if |r| == 1 then r[0]
    else
      var rest := SeqMax(r[1..]);
      if r[0] >= rest then r[0] else rest
  }

  lemma {:induction false} SeqMinIn(r: seq<int>)
    requires |r| > 0
    ensures SeqMin(r) in r
  {
    if |r| > 1 {
      SeqMinIn(r[1..]);
    }
  }

  lemma {:induction false} SeqMaxIn(r: seq<int>)
    requires |r| > 0
    ensures SeqMax(r) in r
  {
    if |r| > 1 {
      SeqMaxIn(r[1..]);
    }
  }

  /** An element that is a lower bound is the least element. */
  lemma SeqMinUnique(r: seq<int>, m: int)
    requires m in r
    requires forall i :: 0 <= i < |r| ==> m <= r[i]
    ensures SeqMin(r) == m
  {
    SeqMinIn(r);
  }

  /** An element that is an upper bound is the greatest element. */
  lemma SeqMaxUnique(r: seq<int>, m: int)
    requires m in r
    requires forall i :: 0 <= i < |r| ==> r[i] <= m
    ensures SeqMax(r) == m
  {
    SeqMaxIn(r);
  }

  /** Every element lowered by `lo`. */
  function Lowered(r: seq<int>, lo: int): seq<int>
  {
    seq(|r|, i requires 0 <= i < |r| => r[i] - lo)
  }

  /** A vector of rounded samples shifted so that its least element becomes 0. */
  function Shifted(r: seq<int>): (v: seq<int>)
    ensures |v| == |r|
  {
    if r == [] then [] else Lowered(r, SeqMin(r))
  }

  /** The width of the range of a vector of rounded samples; 0 when it is empty. */
  function Width(r: seq<int>): int
  {
    if r == [] then 0 else SeqMax(r) - SeqMin(r) + 1
  }

  /** The state vector of a sample vector. */
  function Normalised(s: seq<real>): (v: seq<int>)
    ensures |v| == |s|
  {
    Shifted(Rounded(s))
  }

  /** The number of states of a sample vector: the width of its range of rounded samples. */
  function NumStates(s: seq<real>): int
  {
    Width(Rounded(s))
  }

  /**
   Shifting is zero-based and spans exactly Width states: every element lies
   in [0, Width), 0 and Width - 1 both occur, and Width is 0 only for the
   empty vector.
   */
  lemma ShiftedRange(r: seq<int>)
    ensures |Shifted(r)| == |r|
    ensures r == [] <==> Width(r) == 0
    ensures 0 <= Width(r)
    ensures forall i :: 0 <= i < |r| ==> 0 <= Shifted(r)[i] < Width(r)
    ensures r != [] ==> 0 in Shifted(r) && Width(r) - 1 in Shifted(r)
  {
    if r != [] {
      var v := Shifted(r);
      SeqMinIn(r);
      SeqMaxIn(r);
      var i :| 0 <= i < |r| && r[i] == SeqMin(r);
      var j :| 0 <= j < |r| && r[j] == SeqMax(r);
      assert v[i] == 0;
      assert v[j] == Width(r) - 1;
    }
  }

  /**
   The state vector is zero-based and spans exactly NumStates states: every
   state lies in [0, NumStates), states 0 and NumStates - 1 both occur, and
   NumStates is 0 exactly when there is no sample.
   */
  lemma NormalisedRange(s: seq<real>)
    ensures |Normalised(s)| == |s|
    ensures |s| == 0 <==> NumStates(s) == 0
    ensures 0 <= NumStates(s)
    ensures forall i :: 0 <= i < |s| ==> 0 <= Normalised(s)[i] < NumStates(s)
    ensures |s| > 0 ==> 0 in Normalised(s) && NumStates(s) - 1 in Normalised(s)
  {
    ShiftedRange(Rounded(s));
  }

  /**
   Each state is its sample's rounded value minus the least rounded value,
   so two samples' states differ exactly as their rounded values do.
   */
  lemma NormalisedAt(s: seq<real>, i: int, j: int)
    requires 0 <= i < |s| && 0 <= j < |s|
    ensures Normalised(s)[i] == Round(s[i]) - SeqMin(Rounded(s))
    ensures Normalised(s)[i] - Normalised(s)[j] == Round(s[i]) - Round(s[j])
  {
  }

  /** Shifting a vector that already starts at 0 changes nothing. */
  lemma {:induction false} ShiftedIdempotent(r: seq<int>)
    ensures Shifted(Shifted(r)) == Shifted(r)
    ensures Width(Shifted(r)) == Width(r)
  {
    if r != [] {
      var v := Shifted(r);
      ShiftedRange(r);
      SeqMinUnique(v, 0);
      SeqMaxUnique(v, Width(r) - 1);
    }
  }

  /** Rounding integer-valued samples gives the integers back. */
  lemma {:induction false} RoundedAsSamples(v: seq<int>)
    ensures Rounded(AsSamples(v)) == v
  {
    var r := Rounded(AsSamples(v));
    forall i | 0 <= i < |v| ensures r[i] == v[i] {
      RoundInteger(v[i]);
    }
  }

  /** Discretising a state vector again changes nothing. */
  lemma {:induction false} NormaliseIdempotent(s: seq<real>)
    ensures Normalised(AsSamples(Normalised(s))) == Normalised(s)
    ensures NumStates(AsSamples(Normalised(s))) == NumStates(s)
  {
    RoundedAsSamples(Normalised(s));
    ShiftedIdempotent(Rounded(s));
  }

  /**
   A running minimum and maximum that bound every element and are themselves
   elements are the least and the greatest element.
   */
  lemma RunningBoundsExact(r: seq<int>, lo: int, hi: int)
    requires lo in r && hi in r
    requires forall k :: 0 <= k < |r| ==> lo <= r[k] <= hi
    ensures Shifted(r) == Lowered(r, lo)
    ensures Width(r) == hi - lo + 1
  {
    SeqMinUnique(r, lo);
    SeqMaxUnique(r, hi);
  }

  /**
   The first pass of `normaliseArray`: rounds every sample into
   `outputVector` while tracking the running minimum and maximum. Both are
   seeded from element 0, which the scan then visits again; they still end
   at exactly the least and greatest rounded samples.
   */
  method RoundInto(inputVector: array<real>, outputVector: array<int>) returns (minVal: int, maxVal: int)
    requires 0 < inputVector.Length <= outputVector.Length
    modifies outputVector
    ensures outputVector[..inputVector.Length] == Rounded(inputVector[..])
    ensures outputVector[inputVector.Length..] == old(outputVector[inputVector.Length..])
    ensures minVal == SeqMin(Rounded(inputVector[..]))
    ensures maxVal == SeqMax(Rounded(inputVector[..]))
  {
    var vectorLength := inputVector.Length;
    var currentValue := 0;
    if inputVector[0] > 0.0 {
      minVal := Trunc(inputVector[0] + 0.5);
      maxVal := minVal;
    } else {
      minVal := Trunc(inputVector[0] - 0.5);
      maxVal := minVal;
    }
    ghost var r := Rounded(inputVector[..]);
    assert minVal == r[0];
    // element 0 is where both running bounds currently come from
    ghost var minAt, maxAt := 0, 0;

    var i := 0;
    while i < vectorLength
      invariant 0 <= i <= vectorLength
      invariant forall k :: 0 <= k < i ==> outputVector[k] == r[k]
      invariant outputVector[vectorLength..] == old(outputVector[vectorLength..])
      invariant 0 <= minAt < vectorLength && minVal == r[minAt]
      invariant 0 <= maxAt < vectorLength && maxVal == r[maxAt]
      invariant forall k :: 0 <= k < i ==> minVal <= outputVector[k] <= maxVal
    {
      if inputVector[i] > 0.0 {
        currentValue := Trunc(inputVector[i] + 0.5);
      } else {
        currentValue := Trunc(inputVector[i] - 0.5);
      }
      assert currentValue == r[i];
      outputVector[i] := currentValue;

      if currentValue < minVal {
        minVal := currentValue;
        minAt := i;
      }
      if currentValue > maxVal {
        maxVal := currentValue;
        maxAt := i;
      }
      i := i + 1;
    }
    assert outputVector[..vectorLength] == r;
    SeqMinUnique(r, minVal);
    SeqMaxUnique(r, maxVal);
  }

  /** The second pass of `normaliseArray`: lowers the first `n` entries by `minVal`. */
  method ShiftDown(outputVector: array<int>, n: int, minVal: int)
    requires 0 <= n <= outputVector.Length
    modifies outputVector
    ensures outputVector[..n] == Lowered(old(outputVector[..n]), minVal)
    ensures outputVector[n..] == old(outputVector[n..])
  {
    var i := 0;
    while i < n
      invariant 0 <= i <= n
      invariant forall k :: 0 <= k < i ==> outputVector[k] == old(outputVector[k]) - minVal
      invariant forall k :: i <= k < n ==> outputVector[k] == old(outputVector[k])
      invariant outputVector[n..] == old(outputVector[n..])
    {
      outputVector[i] := outputVector[i] - minVal;
      i := i + 1;
    }
  }

  /**
   `normaliseArray`: writes the state vector of `inputVector` into the first
   `inputVector.Length` entries of `outputVector` and returns the number of
   states. With no samples the output is untouched and 0 is returned.
   */
  method NormaliseArray(inputVector: array<real>, outputVector: array<int>) returns (maxState: int)
    requires inputVector.Length <= outputVector.Length
    modifies outputVector
    ensures maxState == NumStates(inputVector[..])
    ensures outputVector[..inputVector.Length] == Normalised(inputVector[..])
    ensures outputVector[inputVector.Length..] == old(outputVector[inputVector.Length..])
  {
    var minVal := 0;
    var maxVal := 0;
    var vectorLength := inputVector.Length;

    if vectorLength > 0 {
      minVal, maxVal := RoundInto(inputVector, outputVector);
      ShiftDown(outputVector, vectorLength, minVal);
      maxVal := (maxVal - minVal) + 1;
    }

    return maxVal;
  }
}
