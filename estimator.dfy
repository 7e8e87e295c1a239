/**
 The empirical distribution of one sample vector (the `ProbabilityState`
 constructor): the vector is discretised, the occurrences of every state are
 counted, and each observed state is mapped to its count divided by the
 number of samples.
 */
module Estimator {
  import opened Normalise

  datatype Option<T> = None | Some(value: T)

  /** The number of occurrences of every value of s; a value that does not occur has no entry. */
  function Counts(s: seq<int>): map<int, int>
  {
    if s == [] then map[]
    else
      var m := Counts(s[..|s| - 1]);
      var x := s[|s| - 1];
      m[x := (if x in m then m[x] else 0) + 1]
  }

  /** The keys of the counts are exactly the values, and each count is the value's multiplicity. */
  lemma {:induction false} CountsAreOccurrences(s: seq<int>)
    ensures forall x :: x in Counts(s) <==> x in s
    ensures forall x :: x in Counts(s) ==> Counts(s)[x] == multiset(s)[x]
    ensures forall x :: x in Counts(s) ==> 0 < Counts(s)[x] <= |s|
  {
    if s != [] {
      var s', x := s[..|s| - 1], s[|s| - 1];
      CountsAreOccurrences(s');
      assert s == s' + [x];
      assert multiset(s) == multiset(s') + multiset{x};
    }
  }

  /** The probability of every observed state: its count over the number of samples. */
  function Pmf(states: seq<int>): map<int, real>
  {
    if |states| == 0 then map[]
    else
      var c := Counts(states);
      map k | k in c :: c[k] as real / |states| as real
  }

  /** A set that is not empty has an element. */
  lemma HasElement(keys: set<int>)
    ensures keys == {} || exists k :: k in keys
  {
    if forall k :: k !in keys {
      assert keys == {};
    }
  }

  /** The sum of the counts of the given keys. */
  ghost function SumCounts(keys: set<int>, m: map<int, int>): int
    requires keys <= m.Keys
    decreases keys
  {
    if keys == {} then 0
    else
      HasElement(keys);
      var k :| k in keys;
      m[k] + SumCounts(keys - {k}, m)
  }

  /** The sum of the probabilities of the given keys. */
  ghost function SumProbs(keys: set<int>, m: map<int, real>): real
    requires keys <= m.Keys
    decreases keys
  {
    if keys == {} then 0.0
    else
      HasElement(keys);
      var k :| k in keys;
      m[k] + SumProbs(keys - {k}, m)
  }

  /** A sum of counts can be split at any key: the order of summation does not matter. */
  lemma {:induction false} SumCountsRemove(keys: set<int>, m: map<int, int>, k: int)
    requires keys <= m.Keys && k in keys
    ensures SumCounts(keys, m) == m[k] + SumCounts(keys - {k}, m)
    decreases keys
  {
    var j :| j in keys && SumCounts(keys, m) == m[j] + SumCounts(keys - {j}, m);
    if j != k {
      SumCountsRemove(keys - {j}, m, k);
      SumCountsRemove(keys - {k}, m, j);
      assert keys - {j} - {k} == keys - {k} - {j};
    }
  }

  /** A sum of probabilities can be split at any key. */
  lemma {:induction false} SumProbsRemove(keys: set<int>, m: map<int, real>, k: int)
    requires keys <= m.Keys && k in keys
    ensures SumProbs(keys, m) == m[k] + SumProbs(keys - {k}, m)
    decreases keys
  {
    var j :| j in keys && SumProbs(keys, m) == m[j] + SumProbs(keys - {j}, m);
    if j != k {
      SumProbsRemove(keys - {j}, m, k);
      SumProbsRemove(keys - {k}, m, j);
      assert keys - {j} - {k} == keys - {k} - {j};
    }
  }

  /** A sum of counts only depends on the counts of the keys summed. */
  lemma {:induction false} SumCountsFrame(keys: set<int>, m: map<int, int>, m': map<int, int>)
    requires keys <= m.Keys && keys <= m'.Keys
    requires forall k :: k in keys ==> m[k] == m'[k]
    ensures SumCounts(keys, m) == SumCounts(keys, m')
    decreases keys
  {
    if keys != {} {
      HasElement(keys);
      var k :| k in keys;
      SumCountsRemove(keys, m, k);
      SumCountsRemove(keys, m', k);
      SumCountsFrame(keys - {k}, m, m');
    }
  }

  /** Any non-zero number divided by itself is 1. */
  lemma DivisionSelf(n: real)
    requires n != 0.0
    ensures n / n == 1.0
  {
  }

  /** Dividing a sum is summing the quotients. */
  lemma DivisionAdds(a: real, b: real, n: real)
    requires n != 0.0
    ensures a / n + b / n == (a + b) / n
  {
  }

  /** Probabilities that are counts scaled by 1/n sum to the sum of the counts scaled by 1/n. */
  lemma {:induction false} SumProbsScaled(keys: set<int>, c: map<int, int>, p: map<int, real>, n: real)
    requires keys <= c.Keys && keys <= p.Keys && n != 0.0
    requires forall k :: k in keys ==> p[k] == c[k] as real / n
    ensures SumProbs(keys, p) == SumCounts(keys, c) as real / n
    decreases keys
  {
    if keys != {} {
      HasElement(keys);
      var k :| k in keys;
      SumCountsRemove(keys, c, k);
      SumProbsRemove(keys, p, k);
      SumProbsScaled(keys - {k}, c, p, n);
      DivisionAdds(c[k] as real, SumCounts(keys - {k}, c) as real, n);
    }
  }

  /** The counts add up to the number of samples. */
  lemma {:induction false} CountsSumToLength(s: seq<int>)
    ensures SumCounts(Counts(s).Keys, Counts(s)) == |s|
  {
    if s != [] {
      var s', x := s[..|s| - 1], s[|s| - 1];
      var m, m' := Counts(s'), Counts(s);
      CountsSumToLength(s');
      if x in m {
        SumCountsRemove(m.Keys, m, x);
        SumCountsRemove(m'.Keys, m', x);
        assert m'.Keys == m.Keys;
        SumCountsFrame(m.Keys - {x}, m, m');
      } else {
        SumCountsRemove(m'.Keys, m', x);
        assert m'.Keys - {x} == m.Keys;
        SumCountsFrame(m.Keys, m, m');
      }
    }
  }

  /** The observed states are exactly the states that occur, each with probability count / N. */
  lemma PmfIsFrequency(states: seq<int>)
    ensures forall k :: k in Pmf(states) <==> k in states
    ensures forall k :: k in Pmf(states) ==>
      Pmf(states)[k] == multiset(states)[k] as real / |states| as real
  {
    CountsAreOccurrences(states);
  }

  /** A count of at least one out of n samples is a fraction in (0, 1]. */
  lemma FractionBounds(c: int, n: int)
    requires 0 < c <= n
    ensures 0.0 < c as real / n as real <= 1.0
  {
    assert c as real / n as real * n as real == c as real;
  }

  /** Every stored probability lies in (0, 1]. */
  lemma PmfBounds(states: seq<int>)
    ensures forall k :: k in Pmf(states) ==> 0.0 < Pmf(states)[k] <= 1.0
  {
    CountsAreOccurrences(states);
    forall k | k in Pmf(states) ensures 0.0 < Pmf(states)[k] <= 1.0 {
      FractionBounds(Counts(states)[k], |states|);
    }
  }

  /** For at least one sample the probabilities sum to 1. */
  lemma PmfSumsToOne(states: seq<int>)
    requires |states| > 0
    ensures SumProbs(Pmf(states).Keys, Pmf(states)) == 1.0
  {
    var c, p, n := Counts(states), Pmf(states), |states| as real;
    assert p.Keys == c.Keys;
    assert forall k :: k in c.Keys ==> p[k] == c[k] as real / n;
    CountsSumToLength(states);
    SumProbsScaled(c.Keys, c, p, n);
    assert SumCounts(c.Keys, c) as real == n;
    DivisionSelf(n);
  }

  /** With no samples there is no observed state. */
  lemma PmfEmpty()
    ensures Pmf([]) == map[]
  {
  }

  /** The states 0 .. n - 1. */
  ghost function StateRange(n: nat): set<int>
  {
    if n == 0 then {} else StateRange(n - 1) + {n - 1}
  }

  /** The state range holds exactly the n integers 0 .. n - 1. */
  lemma {:induction false} StateRangeIsRange(n: nat)
    ensures forall k :: k in StateRange(n) <==> 0 <= k < n
    ensures |StateRange(n)| == n
  {
    if n > 0 {
      StateRangeIsRange(n - 1);
      assert n - 1 !in StateRange(n - 1);
    }
  }

  /**
   Every observed state of a discretised vector lies in [0, maxState), so
   there are at most maxState of them.
   */
  lemma ObservedStatesBounded(data: seq<real>)
    ensures forall k :: k in Pmf(Normalised(data)) ==> 0 <= k < NumStates(data)
    ensures |Pmf(Normalised(data)).Keys| <= NumStates(data)
  {
    var states := Normalised(data);
    NormalisedRange(data);
    PmfIsFrequency(states);
    var keys := Pmf(states).Keys;
    var range := StateRange(NumStates(data));
    StateRangeIsRange(NumStates(data));
    forall k | k in keys ensures k in range {
      var i :| 0 <= i < |states| && states[i] == k;
    }
    assert range == keys + (range - keys);
  }

  /** The counting loop of the constructor: one remove and put per state. */
  method CountStates(normalisedVector: array<int>) returns (countMap: map<int, int>)
    ensures countMap == Counts(normalisedVector[..])
  {
    countMap := map[];
    var i := 0;
    while i < normalisedVector.Length
      invariant 0 <= i <= normalisedVector.Length
      invariant countMap == Counts(normalisedVector[..i])
    {
      var tmpKey := normalisedVector[i];
      var tmpValue := if tmpKey in countMap then Some(countMap[tmpKey]) else None;
      countMap := countMap - {tmpKey};
      match tmpValue {
        case None => countMap := countMap[tmpKey := 1];
        case Some(v) => countMap := countMap[tmpKey := v + 1];
      }
      assert normalisedVector[..i + 1][..i] == normalisedVector[..i];
      i := i + 1;
    }
    assert normalisedVector[..i] == normalisedVector[..];
  }

  /**
   The loop over the entries of the count map, visited in an unspecified
   order: every count is divided by the number of samples.
   */
  method StoreProbabilities(countMap: map<int, int>, doubleLength: real) returns (probMap: map<int, real>)
    requires countMap == map[] || doubleLength != 0.0
    ensures probMap.Keys == countMap.Keys
    ensures forall k :: k in probMap ==> probMap[k] == countMap[k] as real / doubleLength
  {
    probMap := map[];
    var remaining := countMap.Keys;
    while remaining != {}
      invariant remaining <= countMap.Keys
      invariant probMap.Keys == countMap.Keys - remaining
      invariant forall k :: k in probMap ==> probMap[k] == countMap[k] as real / doubleLength
      decreases remaining
    {
      HasElement(remaining);
      var key :| key in remaining;
      probMap := probMap[key := countMap[key] as real / doubleLength];
      remaining := remaining - {key};
    }
  }

  /** The marginal distribution of one discretised sample vector. */
  class ProbabilityState {
    /** Each observed state mapped to its relative frequency. */
    const probMap: map<int, real>
    /** The number of states of the discretised vector. */
    const maxState: int

    /** Discretises `dataVector` and stores the relative frequency of every state. */
    constructor (dataVector: array<real>)
      ensures maxState == NumStates(dataVector[..])
      ensures probMap == Pmf(Normalised(dataVector[..]))
    {
      var vectorLength := dataVector.Length;
      var doubleLength := vectorLength as real;

      var normalisedVector := new int[vectorLength];
      var numStates := NormaliseArray(dataVector, normalisedVector);
      assert normalisedVector[..] == Normalised(dataVector[..]);

      var countMap := CountStates(normalisedVector);
      var probs := StoreProbabilities(countMap, doubleLength);
      assert probs == Pmf(normalisedVector[..]) by {
        if vectorLength > 0 {
          forall k | k in probs ensures probs[k] == Pmf(normalisedVector[..])[k] {
          }
        }
      }

      probMap := probs;
      maxState := numStates;
    }
  }
}
