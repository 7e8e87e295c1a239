/**
 Joint states of two sample vectors (`mergeArrays`). Both vectors are
 discretised, each position's pair of states is encoded as an index into a
 table, and every pair receives a label the first time it is met: 1 for the
 first new pair, 2 for the next, and so on. A pair met again reuses its label.
 */
module JointState {
  import opened Normalise

  /** The pairs of states position by position. */
  function Zip(a: seq<int>, b: seq<int>): seq<(int, int)>
    requires |a| == |b|
  {
    seq(|a|, i requires 0 <= i < |a| => (a[i], b[i]))
  }

  /** The distinct elements of a sequence, in order of first appearance. */
  function Distinct<T(==)>(p: seq<T>): seq<T>
  {
    if p == [] then []
    else
      var d := Distinct(p[..|p| - 1]);
      var x := p[|p| - 1];
      Meet(d, x)
  }

  /** The distinct elements are exactly the elements, each listed once. */
  lemma {:induction false} DistinctElements<T>(p: seq<T>)
    ensures forall i :: 0 <= i < |p| ==> p[i] in Distinct(p)
    ensures forall i :: 0 <= i < |Distinct(p)| ==> Distinct(p)[i] in p
    ensures forall i, j :: 0 <= i < j < |Distinct(p)| ==> Distinct(p)[i] != Distinct(p)[j]
  {
    if p != [] {
      var p' := p[..|p| - 1];
      DistinctElements(p');
      forall i | 0 <= i < |p'| ensures p[i] in Distinct(p) {
        assert p[i] == p'[i];
      }
    }
  }

  /** The distinct elements after meeting x: x is appended unless already there. */
  function Meet<T(==)>(d: seq<T>, x: T): seq<T>
  {
    if x in d then d else d + [x]
  }

  /** The position of the first occurrence of x. */
  function IndexOf<T(==)>(s: seq<T>, x: T): (i: nat)
    requires x in s
    ensures i < |s| && s[i] == x
    ensures forall k :: 0 <= k < i ==> s[k] != x
  {
    if s[0] == x then 0 else 1 + IndexOf(s[1..], x)
  }

  /** The label of x when the distinct elements seen so far are d: its rank from 1, or 0 if unseen. */
  function LabelIn<T(==)>(d: seq<T>, x: T): nat
  {
    if x in d then IndexOf(d, x) + 1 else 0
  }

  /** The label of every position: the rank of its element in order of first appearance. */
  function FirstSeenLabels<T(==)>(p: seq<T>): seq<int>
  {
    seq(|p|, i requires 0 <= i < |p| => LabelIn(Distinct(p), p[i]))
  }

  /** The label counter after the scan: one more than the number of labels handed out. */
  function LabelCount<T(==)>(p: seq<T>): int
  {
    |Distinct(p)| + 1
  }

  /** The pairs of states of two equally long sample vectors. */
  function JointPairs(first: seq<real>, second: seq<real>): seq<(int, int)>
    requires |first| == |second|
  {
    Zip(Normalised(first), Normalised(second))
  }

  /** The table index of a pair of states: first + second * stride. */
  function Code(x: (int, int), stride: int): int
  {
    x.0 + x.1 * stride
  }

  /** The pair of states a table index stands for. */
  function Decode(c: int, stride: int): (int, int)
    requires stride > 0
  {
    (c % stride, c / stride)
  }

  /** The distinct elements of a prefix one element longer: the new element is met. */
  lemma ScanStep<T>(p: seq<T>, i: int)
    requires 0 <= i < |p|
    ensures Distinct(p[..i + 1]) == Meet(Distinct(p[..i]), p[i])
  {
    assert p[..i + 1][..i] == p[..i];
  }

  /** Appending an element leaves the labels of all other candidates as they were. */
  lemma LabelInSnoc<T>(d: seq<T>, z: T, y: T)
    requires y in d || y != z
    ensures LabelIn(d + [z], y) == LabelIn(d, y)
  {
    if y in d {
      var i, j := IndexOf(d + [z], y), IndexOf(d, y);
      assert (d + [z])[j] == y;
      assert i == j;
    }
  }

  /** A new element appended to the distinct elements gets the next label. */
  lemma LabelInSnocNew<T>(d: seq<T>, z: T)
    requires z !in d
    ensures LabelIn(d + [z], z) == |d| + 1
  {
  }

  /**
   A label, once given, is never changed: however the scan continues, an
   element of the prefix keeps the label it received there.
   */
  lemma {:induction false} LabelsNeverChange<T>(p: seq<T>, q: seq<T>, x: T)
    requires x in p
    ensures LabelIn(Distinct(p + q), x) == LabelIn(Distinct(p), x)
  {
    if q == [] {
      assert p + q == p;
    } else {
      var q' := q[..|q| - 1];
      var z := q[|q| - 1];
      assert p + q == (p + q') + [z];
      LabelsNeverChange(p, q', x);
      var n := |p + q| - 1;
      assert (p + q)[..n] == p + q' && (p + q)[..n + 1] == p + q;
      ScanStep(p + q, n);
      DistinctElements(p + q');
      assert x in p + q';
      if z !in Distinct(p + q') {
        LabelInSnoc(Distinct(p + q'), z, x);
      }
    }
  }

  /** Two positions receive the same label exactly when they hold the same element. */
  lemma LabelsIdentify<T>(p: seq<T>, i: int, j: int)
    requires 0 <= i < |p| && 0 <= j < |p|
    ensures FirstSeenLabels(p)[i] == FirstSeenLabels(p)[j] <==> p[i] == p[j]
  {
    var d := Distinct(p);
    DistinctElements(p);
    assert p[i] in d && p[j] in d;
    var a, b := IndexOf(d, p[i]), IndexOf(d, p[j]);
    if a == b {
      assert p[i] == d[a] == p[j];
    }
  }

  /**
   The labels are exactly 1 .. LabelCount - 1: every label lies in that
   range and every number in it is the label of some position.
   */
  lemma LabelsRange<T>(p: seq<T>)
    ensures |FirstSeenLabels(p)| == |p|
    ensures forall i :: 0 <= i < |p| ==> 1 <= FirstSeenLabels(p)[i] < LabelCount(p)
    ensures forall l :: 1 <= l < LabelCount(p) ==> l in FirstSeenLabels(p)
  {
    var d := Distinct(p);
    DistinctElements(p);
    var labels := FirstSeenLabels(p);
    forall l | 1 <= l < LabelCount(p) ensures l in labels {
      var x := d[l - 1];
      assert x in p;
      var i :| 0 <= i < |p| && p[i] == x;
      var k := IndexOf(d, x);
      assert k == l - 1;
      assert labels[i] == l;
    }
  }

  /** A sequence without repetitions has as many distinct elements as entries. */
  lemma {:induction false} NoRepeatsCard<T>(d: seq<T>)
    requires forall i, j :: 0 <= i < j < |d| ==> d[i] != d[j]
    ensures |set x | x in d| == |d|
  {
    if d != [] {
      var d' := d[..|d| - 1];
      var z := d[|d| - 1];
      NoRepeatsCard(d');
      assert z !in d';
      assert (set x | x in d) == (set x | x in d') + {z};
    }
  }

  /** The counter ends at one more than the number of distinct elements; 1 for an empty scan. */
  lemma LabelCountIsDistinctPlusOne<T>(p: seq<T>)
    ensures LabelCount(p) == |set x | x in p| + 1
    ensures p == [] ==> LabelCount(p) == 1
  {
    DistinctElements(p);
    NoRepeatsCard(Distinct(p));
    assert (set x | x in Distinct(p)) == (set x | x in p);
  }

  /**
   Labels follow first appearance: an element met for the first time at
   position i gets one more than the number of distinct elements before i,
   and an element met again gets the label of its earlier occurrence.
   */
  lemma FirstAppearance<T>(p: seq<T>, i: int)
    requires 0 <= i < |p|
    ensures p[i] !in p[..i] ==> FirstSeenLabels(p)[i] == |set x | x in p[..i]| + 1
    ensures p[i] in p[..i] ==> exists j :: 0 <= j < i && FirstSeenLabels(p)[j] == FirstSeenLabels(p)[i]
  {
    var x := p[i];
    assert p[..i + 1] == p[..i] + [x];
    assert p == p[..i + 1] + p[i + 1..];
    if x !in p[..i] {
      DistinctElements(p[..i]);
      ScanStep(p, i);
      LabelInSnocNew(Distinct(p[..i]), x);
      LabelsNeverChange(p[..i + 1], p[i + 1..], x);
      LabelCountIsDistinctPlusOne(p[..i]);
    } else {
      var j :| 0 <= j < i && p[..i][j] == x;
      LabelsIdentify(p, i, j);
    }
  }

  /** Every table index of a pair of states lies in [0, firstNumStates * secondNumStates). */
  lemma CodeInBounds(a: int, b: int, firstNumStates: int, secondNumStates: int)
    requires 0 <= a < firstNumStates && 0 <= b < secondNumStates
    ensures 0 <= a + b * firstNumStates < firstNumStates * secondNumStates
  {
    assert b * firstNumStates <= (secondNumStates - 1) * firstNumStates;
  }

  /** A positive multiple of a non-negative number is at least that number. */
  lemma MultipleAtLeast(k: int, stride: int)
    requires k >= 1 && stride >= 0
    ensures k * stride >= stride
  {
  }

  /** The encoding is one-to-one on pairs of states: decoding an index gives its pair back. */
  lemma DecodeCode(a: int, b: int, stride: int)
    requires 0 <= a < stride && 0 <= b
    ensures Decode(Code((a, b), stride), stride) == (a, b)
  {
    var c := a + b * stride;
    var q, r := c / stride, c % stride;
    assert c == q * stride + r;
    if q < b {
      MultipleAtLeast(b - q, stride);
    } else if q > b {
      MultipleAtLeast(q - b, stride);
    }
  }

  /** Two pairs of states with the same table index are the same pair. */
  lemma CodeInjective(x: (int, int), y: (int, int), stride: int)
    requires 0 <= x.0 < stride && 0 <= x.1
    requires 0 <= y.0 < stride && 0 <= y.1
    ensures Code(x, stride) == Code(y, stride) ==> x == y
  {
    DecodeCode(x.0, x.1, stride);
    DecodeCode(y.0, y.1, stride);
  }

  /** Every pair of states has its own entry in the table. */
  lemma CodesInBounds(firstNumStates: int, secondNumStates: int)
    ensures forall a, b :: 0 <= a < firstNumStates && 0 <= b < secondNumStates ==>
      0 <= Code((a, b), firstNumStates) < firstNumStates * secondNumStates
  {
    forall a, b | 0 <= a < firstNumStates && 0 <= b < secondNumStates
      ensures 0 <= Code((a, b), firstNumStates) < firstNumStates * secondNumStates
    {
      CodeInBounds(a, b, firstNumStates, secondNumStates);
    }
  }

  /** The table index of every position's pair of states lies in [0, firstNumStates * secondNumStates). */
  lemma JointCodeInBounds(first: seq<real>, second: seq<real>, i: int)
    requires |first| == |second| && 0 <= i < |first|
    ensures 0 <= Code(JointPairs(first, second)[i], NumStates(first)) < NumStates(first) * NumStates(second)
  {
    NormalisedRange(first);
    NormalisedRange(second);
    var x := JointPairs(first, second)[i];
    CodeInBounds(x.0, x.1, NumStates(first), NumStates(second));
  }

  /**
   Two positions of the merged vector carry the same label exactly when both
   of their discretised states agree, and every label lies in [1, LabelCount).
   */
  lemma JointLabelsIdentifyPairs(first: seq<real>, second: seq<real>, i: int, j: int)
    requires |first| == |second| && 0 <= i < |first| && 0 <= j < |first|
    ensures FirstSeenLabels(JointPairs(first, second))[i] == FirstSeenLabels(JointPairs(first, second))[j]
      <==> Normalised(first)[i] == Normalised(first)[j] && Normalised(second)[i] == Normalised(second)[j]
    ensures 1 <= FirstSeenLabels(JointPairs(first, second))[i] < LabelCount(JointPairs(first, second))
  {
    var p := JointPairs(first, second);
    LabelsIdentify(p, i, j);
    LabelsRange(p);
  }

  /**
   The lookup table after the pairs whose distinct elements are d have been
   labelled: it has an entry for every pair of states, and the entry holds
   the pair's label, 0 for a pair not met yet.
   */
  ghost predicate TableHolds(t: seq<int>, d: seq<(int, int)>, firstNumStates: int, secondNumStates: int)
  {
    forall a, b :: 0 <= a < firstNumStates && 0 <= b < secondNumStates ==>
      0 <= Code((a, b), firstNumStates) < |t| && t[Code((a, b), firstNumStates)] == LabelIn(d, (a, b))
  }

  /** A zero-filled table describes a scan that has met no pair. */
  lemma TableEmpty(t: seq<int>, firstNumStates: int, secondNumStates: int)
    requires |t| == firstNumStates * secondNumStates
    requires forall c :: 0 <= c < |t| ==> t[c] == 0
    ensures TableHolds(t, [], firstNumStates, secondNumStates)
  {
    CodesInBounds(firstNumStates, secondNumStates);
  }

  /** The table entry of a pair of states is its label. */
  lemma TableLookup(t: seq<int>, d: seq<(int, int)>, firstNumStates: int, secondNumStates: int, x: (int, int))
    requires TableHolds(t, d, firstNumStates, secondNumStates)
    requires 0 <= x.0 < firstNumStates && 0 <= x.1 < secondNumStates
    ensures 0 <= Code(x, firstNumStates) < |t| && t[Code(x, firstNumStates)] == LabelIn(d, x)
  {
  }

  /** Writing the next label into the entry of a new pair records that pair. */
  lemma TableNewLabel(t: seq<int>, d: seq<(int, int)>, firstNumStates: int, secondNumStates: int, x: (int, int))
    requires TableHolds(t, d, firstNumStates, secondNumStates)
    requires 0 <= x.0 < firstNumStates && 0 <= x.1 < secondNumStates
    requires x !in d
    ensures 0 <= Code(x, firstNumStates) < |t|
    ensures TableHolds(t[Code(x, firstNumStates) := |d| + 1], d + [x], firstNumStates, secondNumStates)
  {
    TableLookup(t, d, firstNumStates, secondNumStates, x);
    var t' := t[Code(x, firstNumStates) := |d| + 1];
    LabelInSnocNew(d, x);
    forall a, b | 0 <= a < firstNumStates && 0 <= b < secondNumStates
      ensures t'[Code((a, b), firstNumStates)] == LabelIn(d + [x], (a, b))
    {
      if (a, b) != x {
        CodeInjective((a, b), x, firstNumStates);
        LabelInSnoc(d, x, (a, b));
      }
    }
  }

  /** One step of the scan meeting an element for the first time: it gets the next label, the others keep theirs. */
  lemma ScanMeetsNew<T>(p: seq<T>, i: int)
    requires 0 <= i < |p| && p[i] !in Distinct(p[..i])
    ensures Distinct(p[..i + 1]) == Distinct(p[..i]) + [p[i]]
    ensures LabelIn(Distinct(p[..i + 1]), p[i]) == |Distinct(p[..i])| + 1
    ensures forall k :: 0 <= k < i ==> LabelIn(Distinct(p[..i + 1]), p[k]) == LabelIn(Distinct(p[..i]), p[k])
  {
    var d, x := Distinct(p[..i]), p[i];
    assert p[..i + 1] == p[..i] + [x];
    ScanStep(p, i);
    LabelInSnocNew(d, x);
    DistinctElements(p[..i]);
    forall k | 0 <= k < i ensures LabelIn(d + [x], p[k]) == LabelIn(d, p[k]) {
      assert p[k] == p[..i][k];
      LabelInSnoc(d, x, p[k]);
    }
  }

  /** Scanning one more element extends the labels of the prefix by that element's label. */
  lemma FirstSeenLabelsSnoc<T>(p: seq<T>, i: int)
    requires 0 <= i < |p|
    ensures FirstSeenLabels(p[..i + 1]) == FirstSeenLabels(p[..i]) + [LabelIn(Distinct(p[..i + 1]), p[i])]
  {
    var d := Distinct(p[..i]);
    if p[i] in d {
      ScanStep(p, i);
    } else {
      ScanMeetsNew(p, i);
    }
  }

  /**
   The table step of one iteration of the labelling loop: reads the entry at
   `curIndex`, the code of pair x; when it is still 0, stores the current
   counter there as x's label and advances the counter.
   */
  method LabelOf(stateMap: array<int>, curIndex: int, stateCount: int,
                 ghost d: seq<(int, int)>, ghost x: (int, int), ghost firstNumStates: int, ghost secondNumStates: int)
    returns (pairLabel: int, nextCount: int)
    requires TableHolds(stateMap[..], d, firstNumStates, secondNumStates)
    requires 0 <= x.0 < firstNumStates && 0 <= x.1 < secondNumStates
    requires curIndex == Code(x, firstNumStates)
    requires stateCount == |d| + 1
    modifies stateMap
    ensures TableHolds(stateMap[..], Meet(d, x), firstNumStates, secondNumStates)
    ensures pairLabel == LabelIn(Meet(d, x), x)
    ensures nextCount == |Meet(d, x)| + 1
    ensures forall c :: 0 <= c < stateMap.Length && old(stateMap[c]) != 0 ==> stateMap[c] == old(stateMap[c])
  {
    TableLookup(stateMap[..], d, firstNumStates, secondNumStates, x);
    nextCount := stateCount;
    if stateMap[curIndex] == 0 {
      ghost var before := stateMap[..];
      TableNewLabel(before, d, firstNumStates, secondNumStates, x);
      LabelInSnocNew(d, x);
      stateMap[curIndex] := nextCount;
      assert stateMap[..] == before[curIndex := |d| + 1];
      nextCount := nextCount + 1;
    }
    pairLabel := stateMap[curIndex];
  }

  /**
   The labelling loop of `mergeArrays`: scans the pairs of states in order,
   looks each pair up by its code in a zero-initialised table of
   firstNumStates * secondNumStates entries, hands out the next label when
   the entry is still 0, and writes the pair's label.
   */
  method LabelPairs(firstStates: array<int>, secondStates: array<int>,
                    firstNumStates: int, secondNumStates: int, outputVector: array<int>)
    returns (stateCount: int)
    requires firstStates.Length == secondStates.Length <= outputVector.Length
    requires outputVector != firstStates && outputVector != secondStates
    requires 0 <= firstNumStates && 0 <= secondNumStates
    requires forall k :: 0 <= k < firstStates.Length ==>
      0 <= firstStates[k] < firstNumStates && 0 <= secondStates[k] < secondNumStates
    modifies outputVector
    ensures outputVector[..firstStates.Length] == FirstSeenLabels(Zip(firstStates[..], secondStates[..]))
    ensures stateCount == LabelCount(Zip(firstStates[..], secondStates[..]))
    ensures outputVector[firstStates.Length..] == old(outputVector[firstStates.Length..])
  {
    var vectorLength := firstStates.Length;
    ghost var p := Zip(firstStates[..], secondStates[..]);
    var stateMap := new int[firstNumStates * secondNumStates](_ => 0);
    TableEmpty(stateMap[..], firstNumStates, secondNumStates);
    stateCount := 1;
    var i := 0;
    // the distinct pairs met so far, in order of first appearance
    ghost var d: seq<(int, int)> := [];
    assert p[..0] == [];
    while i < vectorLength
      modifies outputVector, stateMap
      invariant 0 <= i <= vectorLength
      invariant d == Distinct(p[..i])
      invariant stateCount == |d| + 1
      invariant TableHolds(stateMap[..], d, firstNumStates, secondNumStates)
      invariant outputVector[..i] == FirstSeenLabels(p[..i])
      invariant outputVector[vectorLength..] == old(outputVector[vectorLength..])
    {
      var curIndex := firstStates[i] + (secondStates[i] * firstNumStates);
      ghost var x := p[i];
      assert x == (firstStates[i], secondStates[i]);
      var pairLabel;
      pairLabel, stateCount := LabelOf(stateMap, curIndex, stateCount, d, x, firstNumStates, secondNumStates);
      FirstSeenLabelsSnoc(p, i);
      ScanStep(p, i);
      d := Meet(d, x);
      ghost var labelled := outputVector[..i];
      outputVector[i] := pairLabel;
      assert outputVector[..i + 1] == labelled + [pairLabel];
      i := i + 1;
    }
    assert p[..vectorLength] == p;
  }

  /**
   `mergeArrays`: discretises both vectors, labels every position's pair of
   states in order of first appearance, writes the labels into
   `outputVector` and returns the final value of the label counter.
   */
  method MergeArrays(firstVector: array<real>, secondVector: array<real>, outputVector: array<int>)
    returns (stateCount: int)
    requires firstVector.Length == secondVector.Length <= outputVector.Length
    modifies outputVector
    ensures outputVector[..firstVector.Length] == FirstSeenLabels(JointPairs(firstVector[..], secondVector[..]))
    ensures stateCount == LabelCount(JointPairs(firstVector[..], secondVector[..]))
    ensures outputVector[firstVector.Length..] == old(outputVector[firstVector.Length..])
  {
    var vectorLength := firstVector.Length;
    var firstNormalisedVector := new int[vectorLength];
    var secondNormalisedVector := new int[vectorLength];

    var firstNumStates := NormaliseArray(firstVector, firstNormalisedVector);
    var secondNumStates := NormaliseArray(secondVector, secondNormalisedVector);
    NormalisedRange(firstVector[..]);
    NormalisedRange(secondVector[..]);
    assert firstNormalisedVector[..] == Normalised(firstVector[..]);
    assert secondNormalisedVector[..] == Normalised(secondVector[..]);

    stateCount := LabelPairs(firstNormalisedVector, secondNormalisedVector,
                             firstNumStates, secondNumStates, outputVector);
  }
}
