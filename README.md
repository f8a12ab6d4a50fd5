# CondEntropy: a verified model of DataFu's streaming conditional-entropy counter

DataFu's `CondEntropy` is a Pig accumulator UDF that computes the conditional
entropy H(Y|X) of a bag of `(x, y)` tuples sorted on x, then y. It never builds
a frequency table. Instead it walks the bag once and keeps a few fields:

- the last tuple seen (`xy`);
- the length of the current `(x, y)` run (`cxy`);
- the length of the current `x` run (`cx`);
- the sign of the last non-zero comparison (`lastCmp`).

When a run ends, its length is pushed ("flushed") into one of two entropy
estimators: the joint one for H(X,Y) or the marginal one for H(X).
`getValue` flushes the runs still open and returns H(X,Y) − H(X) by the chain
rule. `cleanup` returns the instance to its empty state. A tuple whose
comparison with its predecessor goes the opposite way from the remembered
direction raises the "Out of order!" error.

This project models that class and proves what its counting achieves.

Files and modules:

- `wrappers.dfy` (`Wrappers`): `Option` (Java's `null`) and `Result` (the thrown exception).
- `run_length.dfy` (`RunLength`): the reference definition. `Runs(s)` gives the maximal
  blocks of equal neighbours of `s`, each with its length. Also run-length decoding
  (`Expand`) and the lemmas that runs decode back to `s`, are non-empty and maximal,
  and, in a grouped sequence, are the multiplicities of the distinct elements.
- `pairs.dfy` (`Pairs`): two-field tuples with lexicographic `Compare`, sortedness in
  either direction, the x column `Xs`, and `Coarsen`, which merges neighbouring
  pair runs that share their x.
- `cond_entropy_machine.dfy` (`CondEntropyMachine`): the fields of one instance as a
  value (`CounterState`). Each estimator is represented by the sequence of counts
  pushed into it. Also one loop iteration (`Step`), `accumulate` over a bag
  (`Accumulate`), getValue's flush (`Finish`) and the cleaned-up state (`Empty`).
- `cond_entropy_theorems.dfy` (`CondEntropyTheorems`): the properties of the machine.
- `cond_entropy.dfy` (`EntropyUdf`): the class `CondEntropy`, whose fields are updated
  in place by `Accumulate` (whose loop body is `Visit`), `GetValue` and `Cleanup`. Each method is proved to leave
  the object in the state the machine prescribes. `TwoBatches` shows a caller's view.

The main results:

- The fold can be split at any point: accumulating `b1` and then `b2` gives the same
  state and the same error outcome as accumulating `b1 + b2`.
- A stream is accepted exactly when it is sorted one way or the other.
- The remembered comparison never changes sign once set.
- After `getValue` on any accepted, non-empty stream:
  - the joint estimator holds the run lengths of the pairs;
  - the marginal estimator holds the run lengths of the x column;
  - each x count is the sum of the joint counts of the neighbouring pairs with that x.
- For a sorted stream, those run lengths are exactly the multiplicities of the
  distinct pairs (and of the distinct x values), in stream order.

Environment and abstractions:

- The estimator policy is a function `entropy: seq<nat> -> real` of the pushed counts.
  The constructor receives it, and `GetValue` returns `entropy(joint) - entropy(marginal)`.
- Tuple fields are integers.
- Counters are unbounded naturals.

Behaviour of the code worth knowing:

- The class documentation asks for a bag sorted ascending on X and Y
  (CondEntropy.java:50-51). The code only rejects a change of direction, so a bag
  sorted in descending order is accepted too (`AcceptedIffSorted`).
- `getValue` leaves `xy`, `cxy` and `cx` as they are. A later `accumulate` therefore
  continues the open runs, and a second `getValue` pushes the open counts once more
  (`GetValue` states this).
- After `cleanup` the counters hold 0, and the first tuple raises them to 1.

## Model

| member | source | states |
|---|---|---|
| `EntropyUdf.CondEntropy.constructor` | datafu-pig/src/main/java/datafu/pig/stats/entropy/CondEntropy.java:142-153 | both estimators share one policy; the new instance is in the cleaned-up state |
| `EntropyUdf.CondEntropy.Accumulate` | datafu-pig/src/main/java/datafu/pig/stats/entropy/CondEntropy.java:159-196 | the fields after the loop, and the out-of-order error if raised, are those of the machine's `Accumulate` from the old fields; on an error the fields are as the tuples before the offending one left them |
| `EntropyUdf.CondEntropy.Visit` | datafu-pig/src/main/java/datafu/pig/stats/entropy/CondEntropy.java:164-194 | one pass of accumulate's loop body updates the fields exactly as the machine's `Step` prescribes; an out-of-order tuple changes no field and yields `Step`'s error |
| `EntropyUdf.CondEntropy.GetValue` | datafu-pig/src/main/java/datafu/pig/stats/entropy/CondEntropy.java:198-211 | `cxy` is pushed to the joint estimator and `cx` to the marginal one, nothing else changes, and the result is H(X,Y) − H(X) of the estimators' new contents |
| `EntropyUdf.CondEntropy.Cleanup` | datafu-pig/src/main/java/datafu/pig/stats/entropy/CondEntropy.java:213-222 | `xy` is null, `cxy = cx = lastCmp = 0` and both estimators are reset to no counts |
| `EntropyUdf.TwoBatches` | datafu-pig/src/main/java/datafu/pig/stats/entropy/CondEntropy.java:159-222 | cleanup, two accumulate calls and getValue on a sorted stream: the estimators get the run lengths of the whole stream, as if it had come in one bag |
| `CondEntropyMachine.Accumulate` | datafu-pig/src/main/java/datafu/pig/stats/entropy/CondEntropy.java:159-196 | the definition of accumulate's loop: `Step` for each tuple in bag order, stopping at the first tuple whose `Step` fails and keeping the state before that tuple. Its contract states that an accepted non-empty bag leaves its last tuple in `xy`, and that an error names the tuple in `xy` as the previous one and the remembered `lastCmp`, which the offending comparison reverses |
| `CondEntropyMachine.Finish` | datafu-pig/src/main/java/datafu/pig/stats/entropy/CondEntropy.java:201-204 | the definition of getValue's flush: `cxy` is appended to the joint counts and `cx` to the x counts. Its contract states that each estimator gets exactly one more count, its total grows by the open count, and the tuple, the open counts and `lastCmp` are unchanged |
| `CondEntropyMachine.Step` | datafu-pig/src/main/java/datafu/pig/stats/entropy/CondEntropy.java:164-194 | a tuple fails exactly when it reverses a non-zero remembered comparison, with the error carrying both tuples and both comparisons; otherwise it becomes the last tuple, each estimator's pushed total plus open count grows by exactly one, the joint estimator receives `cxy` exactly when the tuple differs from its predecessor, the marginal one receives `cx` exactly when the x differs, and `lastCmp` keeps its sign and is only replaced by a non-zero value |
| `Pairs.Compare` | datafu-pig/src/main/java/datafu/pig/stats/entropy/CondEntropy.java:166 | the tuple comparison is the lexicographic order (x, then y): negative, zero or positive exactly when less, equal or greater, and non-zero whenever the x fields differ |
| `Pairs.CompareValue` | datafu-pig/src/main/java/datafu/pig/stats/entropy/CondEntropy.java:179 | the field comparison is zero exactly on equal values and negative exactly when the first is smaller |
| `CondEntropyTheorems.AccumulateConcat` | datafu-pig/src/main/java/datafu/pig/stats/entropy/CondEntropy.java:159-196 | accumulating `b1 + b2` equals accumulating `b1` and then, unless it failed, `b2` from the state it left: the same state and the same error outcome |
| `CondEntropyTheorems.FailureStopsAtTuple` | datafu-pig/src/main/java/datafu/pig/stats/entropy/CondEntropy.java:166-173 | a failed accumulation stopped at some tuple `b[k]`: `b[..k]` was accepted with the reported state, and `b[k]` raises exactly the reported error from it |
| `CondEntropyTheorems.AccumulateKeepsDirection` | datafu-pig/src/main/java/datafu/pig/stats/entropy/CondEntropy.java:169-178 | over any accumulation `lastCmp` keeps its sign once non-zero, and changes only to a non-zero value |
| `CondEntropyTheorems.StepTracks` | datafu-pig/src/main/java/datafu/pig/stats/entropy/CondEntropy.java:164-194 | from a state that tracks the prefix `p`, the next tuple is accepted exactly when `p` plus it is sorted one way or the other; the new state then tracks the longer prefix, with pushed counts plus open count equal to its run lengths and those of its x column |
| `CondEntropyTheorems.AcceptedIffSorted` | datafu-pig/src/main/java/datafu/pig/stats/entropy/CondEntropy.java:164-185 | from the cleaned-up state a bag is accepted if and only if its consecutive comparisons are all ≥ 0 or all ≤ 0; the accepted state then tracks the whole bag |
| `CondEntropyTheorems.AcceptedCounts` | datafu-pig/src/main/java/datafu/pig/stats/entropy/CondEntropy.java:174-194 | after cleanup and accumulate, whether or not an error was raised, the counting invariant `CountsOk` holds for the number of tuples accepted: the counts pushed to each estimator plus its open count equal that number, every pushed count is ≥ 1, and the x estimator has received no more counts than the joint one. Without an error that number is the whole bag. With an error it is some `k < |b|` such that `b[..k]` alone is accepted into the same state |
| `CondEntropyTheorems.GetValueCounts` | datafu-pig/src/main/java/datafu/pig/stats/entropy/CondEntropy.java:198-204 | on a sorted non-empty bag, after getValue's flush the joint estimator holds the run lengths of the pairs and the x estimator those of the x column, and each x count is the sum of the joint counts of the neighbouring pairs with that x (`Coarsen`) |
| `CondEntropyTheorems.SortedMultiplicities` | datafu-pig/src/main/java/datafu/pig/stats/entropy/CondEntropy.java:198-204 | on a sorted non-empty bag every pair of the bag has exactly one joint count, the counts are the multiplicities of the distinct pairs in stream order, and likewise every x value of the bag has exactly one x count, the x run keys are distinct, and the x counts are the multiplicities of the distinct x values |
| `CondEntropyTheorems.GetValueOnEmpty` | datafu-pig/src/main/java/datafu/pig/stats/entropy/CondEntropy.java:201-204 | getValue right after cleanup pushes a single count of 0 into each estimator |
| `CondEntropyTheorems.SortedExample` | datafu-pig/src/main/java/datafu/pig/stats/entropy/CondEntropy.java:159-204 | the bag (1,a), (1,a), (1,b), (2,a) is accepted, and getValue hands over joint counts [2, 1, 1] and x counts [3, 1] |
| `CondEntropyTheorems.SwappedExample` | datafu-pig/src/main/java/datafu/pig/stats/entropy/CondEntropy.java:169-172 | with its last two tuples swapped the bag fails at (1,b) after (2,a), with comparison −1 against a remembered +1 |
| `Pairs.RunsOfXs` | datafu-pig/src/main/java/datafu/pig/stats/entropy/CondEntropy.java:179-183 | the runs of the x column are the pair runs merged by x, which is why the x flush can sit inside the pair flush |
| `Pairs.SortedGrouped` | datafu-pig/src/main/java/datafu/pig/stats/entropy/CondEntropy.java:50-51 | in a bag sorted on x and y, equal tuples, and equal x values, stand next to each other |

## Left out

- `EntropyEstimator.getEntropy()` and the logarithm base: the policy is a parameter `entropy: seq<nat> -> real`, real-valued, of the counts pushed into an estimator. Floating-point arithmetic is not modelled, and the estimator class is not part of this model.
- `EntropyEstimator.createEstimator(type, base)` and the `ExecException` for an unknown estimator type (CondEntropy.java:132-151): string-keyed configuration through a factory that is not part of this model. The constructor receives the policy directly.
- `outputSchema` (CondEntropy.java:224-262): Pig schema checking.
- The `RuntimeException` wrapping in `getValue` (CondEntropy.java:205-206): an estimator's `accumulate` is modelled as never failing.
- Reading the bag out of the input tuple (`(DataBag) input.get(0)`), tuple arity, null fields and values of different Pig types: the bag is a sequence of two-field integer tuples.
- `Pairs.Compare`: Pig's `Tuple.compareTo` is not part of this model. It is taken to be lexicographic and to return −1, 0 or 1, which is what Pig's field comparison gives for integer fields. `lastCmp` therefore stores only a sign.
- `EntropyUdf.CondEntropy.Accumulate`: `cxy` and `cx` are Java `long`s; the model uses unbounded naturals and does not model overflow past 2^63 − 1 tuples.
- The error is a value carrying both tuples and both comparisons; the message text is not modelled.
- `WeightedReservoirSamplingTests.java`: Pig-script tests of `WeightedReservoirSample`, whose implementation is not part of this model.
