# JavaMI `ProbabilityState` in Dafny

JavaMI estimates information-theoretic quantities from real-valued samples.
Everything rests on one class, `ProbabilityState`, which turns samples into
a discrete empirical distribution in three steps:

- `normaliseArray` discretises a sample vector. Every sample is rounded to
  the nearest integer, with halves going away from zero (Peng's MutualInfo
  convention). The vector is then shifted so that its least state is 0. The
  method returns the width of the state range, `max - min + 1`, or 0 for an
  empty vector.
- `mergeArrays` discretises two vectors and gives every position the label
  of its pair of states. Labels are handed out in order of first appearance,
  starting from 1, and a pair is looked up by its code
  `first + second * firstNumStates` in a zero-initialised table. The method
  returns one more than the number of distinct pairs.
- The constructor discretises one vector, counts the occurrences of every
  state, and stores `count / N` for every observed state in `probMap`. The
  number of states goes into `maxState`.

The model follows the Java code's shape:

- The two passes of `normaliseArray` and the labelling loop of `mergeArrays`
  are methods over arrays, proved against pure specification functions.
- The constructor's counting loop rebuilds a `map` with the same
  remove-then-put steps as the Java code.
- The class keeps `probMap` and `maxState` as constant fields: the Java
  fields are `final` and only the constructor assigns them. `probMap` is
  an immutable map value here (see "Left out").

Files, one module each:

- `rounding.dfy` (`Rounding`): the Java `(int)` cast (truncation toward
  zero) and the sign-dependent rounding rule.
- `normalise.dfy` (`Normalise`): `Rounded`, `Shifted`, `Width`, `Normalised`
  and `NumStates`, their lemmas, and `NormaliseArray` with its two passes.
- `joint_state.dfy` (`JointState`): distinct elements in first-appearance
  order, labels, the pair code and the label table, and `MergeArrays`.
- `estimator.dfy` (`Estimator`): occurrence counts, sums over maps, the
  probability map `Pmf`, and the class `ProbabilityState`.

Where the code and its documentation differ, the model follows the code:

- The constructor's doc comment says the data is discretised to the floor of
  each value. The code rounds, as modelled.
- With no samples the constructor never divides, because the count map is
  empty. So `probMap` is empty and `maxState` is 0; there is no precondition
  excluding empty input.
- `normaliseArray` only needs `outputVector` to be at least as long as
  `inputVector`, and leaves any further entries alone. Equal length, as the
  Javadoc asks, is therefore not required.
- The Javadoc of `normaliseArray` promises the maximum state, and describes
  the shifted maximum as the old max minus the old min. The code returns one
  more than that, `(maxVal - minVal) + 1`: the number of states. The model
  returns the number of states.
- The Javadoc of `mergeArrays` promises the maximum joint state. The code
  returns the label counter, which is one more than the number of distinct
  pairs, and so one more than the largest label. The model returns the
  counter.

## Model

| member | source | states |
|---|---|---|
| Rounding.Trunc | src/main/java/JavaMI/ProbabilityState.java:126-130 | the `(int)` cast truncates toward zero: for x >= 0 the result is the largest integer not above x, for x < 0 the smallest integer not below x |
| Rounding.Round | src/main/java/JavaMI/ProbabilityState.java:126-130 | the rounded sample is the integer nearest to v, with a tie going away from zero (down for v <= 0, up for v > 0) |
| Rounding.RoundPositiveIsFloor | src/main/java/JavaMI/ProbabilityState.java:126-127 | for a positive sample the rule equals floor(v + 1/2) |
| Rounding.RoundNonPositiveIsCeiling | src/main/java/JavaMI/ProbabilityState.java:128-129 | for a sample <= 0 the rule equals ceiling(v - 1/2) |
| Rounding.RoundIsOdd | src/main/java/JavaMI/ProbabilityState.java:96-102 | positive and negative samples are rounded symmetrically: Round(-v) == -Round(v) |
| Rounding.RoundInteger | src/main/java/JavaMI/ProbabilityState.java:126-130 | integer-valued samples are left unchanged |
| Rounding.RoundMonotone | src/main/java/JavaMI/ProbabilityState.java:126-130 | rounding preserves the order of samples |
| Rounding.NaiveRoundingBias | src/main/java/JavaMI/ProbabilityState.java:96-102 | the motivating cases: truncating -1 + 1/2 gives 0, while the rule sends -1 to -1, 1 to 1, -0.5 to -1, 0.5 to 1 and 0 to 0 |
| Normalise.SeqMinIn | src/main/java/JavaMI/ProbabilityState.java:133-136 | the least rounded value is one of the rounded values |
| Normalise.SeqMaxIn | src/main/java/JavaMI/ProbabilityState.java:138-141 | the greatest rounded value is one of the rounded values |
| Normalise.SeqMinUnique | src/main/java/JavaMI/ProbabilityState.java:133-136 | a rounded value that bounds all others from below is the least one |
| Normalise.SeqMaxUnique | src/main/java/JavaMI/ProbabilityState.java:138-141 | a rounded value that bounds all others from above is the greatest one |
| Normalise.RunningBoundsExact | src/main/java/JavaMI/ProbabilityState.java:117-149 | running bounds that are elements and bound every element give exactly the shift and the width max - min + 1 |
| Normalise.ShiftedRange | src/main/java/JavaMI/ProbabilityState.java:144-149 | after the shift every entry lies in [0, width); 0 and width - 1 both occur; the width is 0 exactly for the empty vector |
| Normalise.NormalisedRange | src/main/java/JavaMI/ProbabilityState.java:107-153 | the state vector has the input's length, is zero-based, spans exactly NumStates states (0 and NumStates - 1 occur), and NumStates is 0 exactly for empty input |
| Normalise.NormalisedAt | src/main/java/JavaMI/ProbabilityState.java:126-147 | each state is the sample's rounded value minus the least rounded value, so states differ exactly as rounded values do |
| Normalise.ShiftedIdempotent | src/main/java/JavaMI/ProbabilityState.java:144-149 | shifting a vector already shifted to 0 changes neither the vector nor its width |
| Normalise.RoundedAsSamples | src/main/java/JavaMI/ProbabilityState.java:126-130 | rounding integer-valued samples gives back the integers |
| Normalise.NormaliseIdempotent | src/main/java/JavaMI/ProbabilityState.java:107-153 | discretising a state vector again gives the same states and the same number of states |
| Normalise.RoundInto | src/main/java/JavaMI/ProbabilityState.java:114-142 | the first pass writes every rounded sample, leaves the rest of the output alone, and its running min and max, seeded from element 0, end at the least and greatest rounded sample |
| Normalise.ShiftDown | src/main/java/JavaMI/ProbabilityState.java:144-147 | the second pass lowers the first n entries by minVal and nothing else |
| Normalise.NormaliseArray | src/main/java/JavaMI/ProbabilityState.java:107-153 | the output holds the state vector of the input, entries past the input's length are untouched, and the result is the number of states (0 for empty input) |
| JointState.DistinctElements | src/main/java/JavaMI/ProbabilityState.java:185-194 | the distinct elements of a sequence are exactly its elements, each listed once |
| JointState.IndexOf | src/main/java/JavaMI/ProbabilityState.java:188-193 | the position found holds the element and no earlier position does |
| JointState.LabelInSnoc | src/main/java/JavaMI/ProbabilityState.java:188-192 | handing out a label to a new element leaves every other element's label unchanged |
| JointState.LabelInSnocNew | src/main/java/JavaMI/ProbabilityState.java:190-191 | a new element gets the next label, one more than the number of labels so far |
| JointState.LabelsNeverChange | src/main/java/JavaMI/ProbabilityState.java:188-192 | a label, once given, is never changed, however the scan continues |
| JointState.LabelsIdentify | src/main/java/JavaMI/ProbabilityState.java:185-194 | two positions get the same label exactly when they hold the same element |
| JointState.LabelsRange | src/main/java/JavaMI/ProbabilityState.java:184-196 | every label lies in [1, LabelCount) and every number in that range is some position's label |
| JointState.NoRepeatsCard | src/main/java/JavaMI/ProbabilityState.java:184-196 | a sequence without repetitions has as many distinct elements as entries |
| JointState.LabelCountIsDistinctPlusOne | src/main/java/JavaMI/ProbabilityState.java:184-196 | the returned counter is one more than the number of distinct pairs, and 1 for empty input |
| JointState.FirstAppearance | src/main/java/JavaMI/ProbabilityState.java:185-194 | an element met for the first time gets one more than the number of distinct elements before it; an element met again gets the label of an earlier occurrence |
| JointState.CodeInBounds | src/main/java/JavaMI/ProbabilityState.java:183-187 | the code of a pair of states lies in [0, firstNumStates * secondNumStates) |
| JointState.DecodeCode | src/main/java/JavaMI/ProbabilityState.java:187 | the pair is recovered from its code by remainder and quotient by firstNumStates |
| JointState.CodeInjective | src/main/java/JavaMI/ProbabilityState.java:187 | two pairs of states with the same code are the same pair |
| JointState.CodesInBounds | src/main/java/JavaMI/ProbabilityState.java:183-187 | every pair of states has its own entry in the table |
| JointState.JointCodeInBounds | src/main/java/JavaMI/ProbabilityState.java:180-187 | the table index computed at every position lies inside the allocated table |
| JointState.JointLabelsIdentifyPairs | src/main/java/JavaMI/ProbabilityState.java:185-194 | two positions of the merged vector carry the same label exactly when both discretised states agree; every label lies in [1, returned counter) |
| JointState.TableEmpty | src/main/java/JavaMI/ProbabilityState.java:183 | the zero-initialised table records that no pair has been met |
| JointState.TableLookup | src/main/java/JavaMI/ProbabilityState.java:187-188 | the table entry of a pair holds its label, 0 if the pair has not been met |
| JointState.TableNewLabel | src/main/java/JavaMI/ProbabilityState.java:188-192 | storing the next label in a new pair's entry records that pair and no other |
| JointState.ScanStep | src/main/java/JavaMI/ProbabilityState.java:185-194 | scanning one more pair extends the distinct pairs only when that pair is new |
| JointState.ScanMeetsNew | src/main/java/JavaMI/ProbabilityState.java:188-192 | a pair met for the first time gets the next label and the labels of earlier positions stay |
| JointState.FirstSeenLabelsSnoc | src/main/java/JavaMI/ProbabilityState.java:185-194 | the labels of a longer prefix extend those of the shorter prefix by the new position's label |
| JointState.LabelOf | src/main/java/JavaMI/ProbabilityState.java:187-193 | the table step reads the pair's label, storing the counter first when the entry is 0; it advances the counter only then and never overwrites a nonzero entry |
| JointState.LabelPairs | src/main/java/JavaMI/ProbabilityState.java:183-196 | the labelling loop writes every position's first-appearance label, returns one more than the number of distinct pairs, and writes nothing past the input's length |
| JointState.MergeArrays | src/main/java/JavaMI/ProbabilityState.java:166-197 | the merged vector holds the first-appearance labels of the pairs of discretised states, the result is one more than the number of distinct pairs, and later entries are untouched |
| Estimator.CountsAreOccurrences | src/main/java/JavaMI/ProbabilityState.java:63-77 | the count map's keys are exactly the values occurring, each count is the value's multiplicity, between 1 and N |
| Estimator.CountsSumToLength | src/main/java/JavaMI/ProbabilityState.java:63-77 | the counts add up to the number of samples |
| Estimator.SumCountsRemove | src/main/java/JavaMI/ProbabilityState.java:79-82 | a sum of counts splits off any of its keys, so the order of the entries does not matter |
| Estimator.SumProbsRemove | src/main/java/JavaMI/ProbabilityState.java:79-82 | a sum of probabilities splits off any of its keys, so the order of the entries does not matter |
| Estimator.SumProbsScaled | src/main/java/JavaMI/ProbabilityState.java:79-82 | probabilities that are counts divided by N sum to the sum of the counts divided by N |
| Estimator.PmfIsFrequency | src/main/java/JavaMI/ProbabilityState.java:63-82 | the observed states are exactly the states occurring, each with probability count / N |
| Estimator.PmfBounds | src/main/java/JavaMI/ProbabilityState.java:79-82 | every stored probability lies in (0, 1] |
| Estimator.PmfSumsToOne | src/main/java/JavaMI/ProbabilityState.java:79-82 | for at least one sample the stored probabilities sum to 1 |
| Estimator.PmfEmpty | src/main/java/JavaMI/ProbabilityState.java:63-82 | with no samples no state is stored |
| Estimator.StateRangeIsRange | src/main/java/JavaMI/ProbabilityState.java:61 | the states 0 .. maxState - 1 are maxState distinct integers |
| Estimator.ObservedStatesBounded | src/main/java/JavaMI/ProbabilityState.java:56-82 | every observed state lies in [0, maxState), so there are at most maxState of them |
| Estimator.CountStates | src/main/java/JavaMI/ProbabilityState.java:63-77 | the remove-then-put loop leaves the occurrence count of every state in the count map |
| Estimator.StoreProbabilities | src/main/java/JavaMI/ProbabilityState.java:79-82 | the entry loop, visiting keys in any order, stores count / N for exactly the counted states |
| Estimator.ProbabilityState.constructor | src/main/java/JavaMI/ProbabilityState.java:53-83 | maxState is the number of states of the discretised data and probMap maps every observed state to its relative frequency |

## Left out

- `printIntVector` and `printDoubleVector` only write to standard output, and are left out.
- Samples are exact reals. The model leaves out IEEE-754 rounding in `v ± 0.5` and in `count / N`, and the `(int)` cast of NaN, infinities and values outside the `int` range.
- Integers are unbounded. The model does not capture 32-bit overflow in `(maxVal - minVal) + 1`, in `firstNumStates * secondNumStates` or in the pair code.
- MergeArrays: requires both sample vectors to have the same length. The code also runs when the second vector is shorter but non-empty, padding it with state 0. It throws when the second vector is empty and the first is not, because the table then has no entries. It also throws when the second vector is longer, because the second state vector has only as many entries as the first. None of these cases is modelled.
- MergeArrays: the Java output vector is a `double[]` holding integer labels. It is modelled as an integer array.
- StoreProbabilities: `HashMap.entrySet()` visits keys in an unspecified order. The model takes the keys in an arbitrary order, and its result does not depend on that order.
- `normaliseArray`'s two loops, the labelling loop of `mergeArrays` and the table step inside it are separate methods (`RoundInto`, `ShiftDown`, `LabelPairs`, `LabelOf`). Each is called exactly where the loop stands in the Java code.
- Aliasing between input and output arrays is not modelled.
  - For `normaliseArray` the types rule it out: the input holds doubles and the output integers.
  - In Java, all three parameters of `mergeArrays` are `double[]`, so a caller may pass an input vector as `outputVector`. That is harmless: both inputs are read only by the two `normaliseArray` calls, which come before the first write to `outputVector`, so the labels written are the same.
  - The model's integer output array cannot alias its real-valued inputs.
- ProbabilityState: `probMap` is a public final reference to a mutable `HashMap`, so any caller can change its contents after construction. The model treats `probMap` as an immutable map value, fixed by the constructor.
