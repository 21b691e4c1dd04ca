# Branch coverage goals of EvoSuite, modelled in Dafny

EvoSuite generates unit tests by search. Each structural target the search
tries to reach is a coverage goal. `BranchCoverageGoal` is one such goal. It
is either a branch goal (reach this jump instruction and make it evaluate to
`value`) or a root goal (no branch: just enter method `className.methodName`).
A goal keeps copies of its branch's class name, method name and line number, so
that it can be compared without looking at the branch.

`TryCatchCoverageTestFitness` wraps such a goal for the exception-handler
criterion. It only changes how the fitness is ordered against other fitness
functions.

The project contains:

- `wrappers.dfy`: `Option`, which stands for a reference that may be `null`, and `Result`, which stands for an exception.
- `java_int.dfy`: Java's 32-bit `int` (`Int32`) and its wrap-around (`Wrap`), used by `hashCode` and `compareTo`.
- `branches.dfy`: the `Branch` value and control dependencies. A branch carries its ids, class, method and line. It also carries the case value of a switch branch, which `Branch.equals` may ignore.
  - The registry `BranchPool` is a `map` from id to branch.
  - `Collaborators` holds the code the goal calls that is not part of this model: `Branch.equals`, `Branch.toString`, `String.hashCode`, `isDirectlyControlDependentOn` and `getFirstLineNumberOfMethod`. Each is a function-typed field, so every lemma holds for every choice of them that meets the lemma's `requires`.
  - `LawfulBranchEquality` states what the goal takes for granted of `Branch.equals`: it is an equivalence, and equal branches share ids, class, method and line. Equal branches need not be the same value, because they may differ in their switch case.
- `branch_coverage_goal.dfy`: the goal itself. This covers the three constructors and `isConnectedTo`, `toString`, `hashCode`, `equals` and `compareTo`. It also covers the id-based persisted form, `getTargetClass` and `getTargetMethods`.
- `try_catch_coverage_test_fitness.dfy`: the try/catch fitness, its constructor and its `compareTo`.

A goal's fields are set once, by a constructor or during deserialisation, and
never change afterwards. The goal is therefore a `datatype`. The constructors
are functions that return either the goal or the cause of the
`IllegalArgumentException`. `ReadObject` is also a function: it builds the
goal that deserialisation leaves behind. `hashCode` keeps the source's
step-by-step accumulation as a method. That method is proved to compute the
`java.util.Arrays.hashCode` fold (`ArraysHashCode`) over the five values the
goal hashes (`HashComponents`). The properties of the hash are stated about
that fold. `getTargetMethods` builds its set with the source's two steps.

`Valid` is the invariant all three constructors establish:

- A root goal wants `true` and sits on its method's first line.
- A branch goal carries its branch's own class and method, and sits on its branch's line.

The hash and ordering lemmas assume `Valid`. `ReadObject` does not re-check it.

`isConnectedTo` compares only class and method names as soon as EITHER goal
is a root goal, not only when both are.

## Model

| member | source | states |
|---|---|---|
| `BranchCoverage.NewGoal` | src/main/java/org/evosuite/coverage/branch/BranchCoverageGoal.java:73-98 | Each of the three rejections happens exactly when its condition holds, checked in source order: a null class or method name; no branch with `value == false`; a branch whose own method or class differs from the given one. On success the fields are the arguments. The line is the branch's line, or for a root goal the method's first line. A root goal always has `value == true`, and the result satisfies `Valid` |
| `BranchCoverage.NewGoalFromDependency` | src/main/java/org/evosuite/coverage/branch/BranchCoverageGoal.java:112-114 | Builds the same result as the primary constructor applied to the dependency's branch and branch-expression value |
| `BranchCoverage.NewRootGoal` | src/main/java/org/evosuite/coverage/branch/BranchCoverageGoal.java:125-134 | Gives a valid root goal with `value == true`, the given names, and the method's first line. This is exactly what the primary constructor gives for a null branch and `true` |
| `BranchCoverage.IsConnectedTo` | src/main/java/org/evosuite/coverage/branch/BranchCoverageGoal.java:151-161 | When either goal is a root goal, true iff class and method names match. Otherwise, true iff either branch's instruction is directly control dependent on the other branch |
| `BranchCoverage.IsConnectedToSymmetric` | src/main/java/org/evosuite/coverage/branch/BranchCoverageGoal.java:151-161 | `isConnectedTo` is symmetric |
| `BranchCoverage.ToString` | src/main/java/org/evosuite/coverage/branch/BranchCoverageGoal.java:205-217 | The text starts with `className.methodName:`. It ends in ` root-Branch` iff the goal is a root goal. A branch goal's text ends in ` - true` or ` - false` according to `value`. Between the two parts lies exactly a space followed by the branch's own `toString`. A root goal's text is exactly `className.methodName: root-Branch` |
| `BranchCoverage.ToStringSeparatesRootFromBranch` | src/main/java/org/evosuite/coverage/branch/BranchCoverageGoal.java:205-217 | A root goal and a branch goal never render alike |
| `BranchCoverage.ToStringSeparatesValues` | src/main/java/org/evosuite/coverage/branch/BranchCoverageGoal.java:205-217 | The two outcomes of one branch render differently |
| `BranchCoverage.HashCode` | src/main/java/org/evosuite/coverage/branch/BranchCoverageGoal.java:221-240 | The step-by-step `int` accumulation `result = 31 * result + x`, starting at 1, equals the `Arrays.hashCode` fold over: branch id, instruction id (0 and 0 for a root goal), the hashes of the class and method names, and 1231/1237 for the value |
| `BranchCoverage.ArraysHashCodeIsPolynomial` | src/main/java/org/evosuite/coverage/branch/BranchCoverageGoal.java:222-239 | Overflow in the accumulation is harmless: the fold with wrap-around after each step equals the exact polynomial `31^n + s[0]*31^(n-1) + ... + s[n-1]`, reduced to an `int` |
| `BranchCoverage.HashCodeClosedForm` | src/main/java/org/evosuite/coverage/branch/BranchCoverageGoal.java:221-240 | A goal's hash is `31^5 + 31^4*branchId + 31^3*instructionId + 31^2*hash(className) + 31*hash(methodName) + (1231 or 1237)`, reduced to an `int` |
| `JavaInt.WrapMulAdd` | src/main/java/org/evosuite/coverage/branch/BranchCoverageGoal.java:224-238 | Wrapping the accumulator before `31 * result + x` gives the same `int` as wrapping the exact value |
| `BranchCoverage.HashStep` | src/main/java/org/evosuite/coverage/branch/BranchCoverageGoal.java:224-238 | One step `prime * result + x` with overflow on both the product and the sum extends the fold by one element |
| `JavaInt.WrapSpec` | src/main/java/org/evosuite/coverage/branch/BranchCoverageGoal.java:224-238 | The wrapped value is congruent to the exact one modulo 2^32 and equals it when it fits in an `int` (Java `int` overflow) |
| `JavaInt.WrapAdd` | src/main/java/org/evosuite/coverage/branch/BranchCoverageGoal.java:224-238 | Wrapping the product before adding gives the same `int` as wrapping once at the end |
| `BranchCoverage.Equals` | src/main/java/org/evosuite/coverage/branch/BranchCoverageGoal.java:244-274 | Never equal to null or to an object of another class, always equal to itself. Two root goals are equal iff class and method names match. A root goal never equals a branch goal. Two distinct branch goals are equal iff their branches are equal and their values match |
| `BranchCoverage.EqualsBranchGoals` | src/main/java/org/evosuite/coverage/branch/BranchCoverageGoal.java:254-273 | With lawful `Branch.equals`, the identity shortcut changes nothing: two branch goals are equal iff their branches are equal and their values match |
| `BranchCoverage.EqualsSymmetric` | src/main/java/org/evosuite/coverage/branch/BranchCoverageGoal.java:244-274 | `equals` is symmetric for lawful `Branch.equals` |
| `BranchCoverage.EqualsTransitive` | src/main/java/org/evosuite/coverage/branch/BranchCoverageGoal.java:244-274 | `equals` is transitive for lawful `Branch.equals` |
| `BranchCoverage.OppositeOutcomesDiffer` | src/main/java/org/evosuite/coverage/branch/BranchCoverageGoal.java:269-273 | Two goals on the same branch with opposite values are not equal |
| `BranchCoverage.EqualGoalsHaveEqualHashCodes` | src/main/java/org/evosuite/coverage/branch/BranchCoverageGoal.java:221-274 | For valid goals and lawful `Branch.equals`, equal goals have equal hash components and hence equal hash codes |
| `BranchCoverage.HashNeedsRootValueTrue` | src/main/java/org/evosuite/coverage/branch/BranchCoverageGoal.java:238-261 | Without the root-value invariant, the agreement fails: root goals differing only in `value` are equal but hash differently |
| `BranchCoverage.CompareTo` | src/main/java/org/evosuite/coverage/branch/BranchCoverageGoal.java:280-282 | The result is 0 iff the line numbers are equal, even across overflow. When the difference fits in an `int`, the result is exactly `lineNumber - o.lineNumber` |
| `BranchCoverage.CompareToAntisymmetric` | src/main/java/org/evosuite/coverage/branch/BranchCoverageGoal.java:280-282 | When the difference fits in an `int` both ways, `a.compareTo(b) == -b.compareTo(a)` and the signs flip |
| `BranchCoverage.CompareToOverflows` | src/main/java/org/evosuite/coverage/branch/BranchCoverageGoal.java:280-282 | On lines 2147483647 and -1 the subtraction overflows and both directions come out negative |
| `BranchCoverage.EqualGoalsCompareEqual` | src/main/java/org/evosuite/coverage/branch/BranchCoverageGoal.java:244-282 | For valid goals and lawful `Branch.equals`, equal goals compare as 0 |
| `BranchCoverage.WriteObject` | src/main/java/org/evosuite/coverage/branch/BranchCoverageGoal.java:284-291 | The persisted branch id is -1 for a root goal, and the branch's `actualBranchId` otherwise. The other fields are kept as they are |
| `BranchCoverage.ReadObject` | src/main/java/org/evosuite/coverage/branch/BranchCoverageGoal.java:294-303 | Reading fails exactly when the id is non-negative and the registry lacks it, with that id as the error. Otherwise the fields are restored. A negative id gives a root goal, and a non-negative id gives the registry's branch for that id |
| `BranchCoverage.ReadObjectInvertsWriteObject` | src/main/java/org/evosuite/coverage/branch/BranchCoverageGoal.java:284-303 | Reading back through a registry that maps the id to the goal's branch gives the very same goal |
| `BranchCoverage.ReadObjectRestoresEqualGoal` | src/main/java/org/evosuite/coverage/branch/BranchCoverageGoal.java:284-303 | Reading back through a registry that maps the id to an equal branch succeeds. That branch may be a different value, for example with another switch case. The goal read back is valid, equal to the original both ways, and has the same hash |
| `Branches.LawfulEqualityAdmitsDistinctBranches` | src/main/java/org/evosuite/coverage/branch/BranchCoverageGoal.java:269 | The assumption on `Branch.equals` does not reduce it to value equality: comparing locations only is lawful and calls two different branches equal |
| `BranchCoverage.NegativeBranchIdIsLost` | src/main/java/org/evosuite/coverage/branch/BranchCoverageGoal.java:287-302 | A branch goal whose branch id is negative comes back as a root goal |
| `BranchCoverage.TargetClass` | src/main/java/org/evosuite/coverage/branch/BranchCoverageGoal.java:308-311 | Returns `className` |
| `BranchCoverage.TargetMethods` | src/main/java/org/evosuite/coverage/branch/BranchCoverageGoal.java:316-321 | Returns exactly the singleton `{methodName}` |
| `TryCatchCoverage.NewTryCatchCoverageTestFitness` | client/src/main/java/org/evosuite/coverage/exception/TryCatchCoverageTestFitness.java:31-33 | The given goal is the one `getBranchGoal` later returns |
| `TryCatchCoverage.CompareTo` | client/src/main/java/org/evosuite/coverage/exception/TryCatchCoverageTestFitness.java:36-42 | Against a try/catch fitness, the result is the goals' `compareTo`: 0 iff same line, and the line difference when it fits in an `int`. Against any other fitness, the result is exactly `compareClassName` of the two run-time class names |
| `TryCatchCoverage.CompareToSelfIsZero` | client/src/main/java/org/evosuite/coverage/exception/TryCatchCoverageTestFitness.java:37-39 | A try/catch fitness compared with itself gives 0 |
| `TryCatchCoverage.CompareToSignAntisymmetric` | client/src/main/java/org/evosuite/coverage/exception/TryCatchCoverageTestFitness.java:37-39 | Between two try/catch fitnesses whose line difference fits in an `int`, `a < b` iff `b > a`, and `a == b` iff `b == a` |
| `TryCatchCoverage.CompareToOtherIgnoresGoal` | client/src/main/java/org/evosuite/coverage/exception/TryCatchCoverageTestFitness.java:41 | Against a fitness of another class, the result does not depend on the wrapped goal or its line |

## Left out

- `getDistance` and `ControlFlowDistanceCalculator`: the calculator's code is not part of this model, and branch distance is a `double`.
- `isCovered`: it runs a test and compares a floating-point distance with 0.0.
- `BytecodeInstructionPool.getInstance(...)`, a global keyed by class loader: only its `getFirstLineNumberOfMethod` is kept, and it is passed in through `Collaborators`.
- `Branch.equals`, `Branch.toString`, `String.hashCode` and `isDirectlyControlDependentOn` are not part of this model. They are parameters. The lemmas about `equals` and `hashCode` assume `LawfulBranchEquality`: `Branch.equals` is an equivalence relation, and equal branches share id, instruction id, class, method and line.
- `compareClassName` and `getBranchGoal` belong to the fitness superclasses, which are not part of this model. `compareClassName` is a parameter over run-time class names. `getBranchGoal` returns the goal given to the constructor.
- Object streams and `BranchPool.getBranch`: only the integer-id encoding and a registry `map` are kept. `BranchPool`'s behaviour for an id it does not know is not part of this model. The model treats such an id as an error rather than silently producing a goal without a branch.
- Registering branches in `BranchPool` is not part of this model, because the goal only reads the registry.
- The commented-out hashing of the control-flow graph is dead code.
- `NewGoal`: takes `branch.getInstruction()` to exist. A branch without an instruction, which would throw `NullPointerException`, cannot be represented.
- `NewRootGoal`: the source's two-argument constructor does not reject null names. The model's names are non-null strings, so a goal holding a null name, and the later `NullPointerException` in `equals` or `hashCode`, cannot be represented.
- `NewGoalFromDependency`, `IsConnectedTo` and `CompareTo`: a null argument, which throws `NullPointerException` in the source, cannot be represented.
- `TryCatchCoverage.NewTryCatchCoverageTestFitness`: a null goal cannot be represented. What the superclass does with it is not part of this model; the constructor declares `IllegalArgumentException`.
- `TryCatchCoverage.CompareTo`: a null `other` cannot be represented. In the source it throws inside `compareClassName`.
- `Equals`: the identity test `this == obj` is modelled as value equality. Identity implies value equality, and `EqualsBranchGoals` shows that the shortcut does not change the result for a lawful `Branch.equals`. A class other than `BranchCoverageGoal`, including a subclass, is the single `ForeignRef` case.
- `ReadObject`: the source assigns `this.branch` on the freshly deserialised object. The model returns that object as a value and does not model object identity.
- `CompareToAntisymmetric`: proved only when the line difference fits in an `int`. `CompareToOverflows` shows that the source's subtraction breaks antisymmetry otherwise. Class-file line numbers are small and non-negative, so that overflow is not expected in practice.
- `TryCatchCoverage.CompareToSignAntisymmetric`: proved under the same no-overflow condition.
- `TryCatchCoverage.CompareTo`: `instanceof` also accepts subclasses of the try/catch fitness. The model has no such subclasses.
- `TryCatchCoverage.OtherFitness`: a value whose class name is that of the try/catch fitness stands for no real object. An actual try/catch fitness always takes the `instanceof` path. The lemmas about other fitness functions hold for every class name anyway.
- The fields `branch`, `value`, `className` and `methodName` are package-private and not `final`. Writes to them from other classes of the package are not modelled. `lineNumber` is private, so other classes cannot write it.
