/**
 * `TryCatchCoverageTestFitness`: a branch-coverage fitness for the branches
 * that guard exception handlers. It evaluates like any branch fitness and
 * differs only in how it orders itself against other fitness functions.
 */
module TryCatchCoverage {
  import opened JavaInt
  import opened BranchCoverage

  /** The run-time class name `compareClassName` sees for this fitness. */
  const TryCatchClassName: string := "org.evosuite.coverage.exception.TryCatchCoverageTestFitness"

  /** A try/catch fitness: it holds the goal given to its constructor. */
  datatype TryCatchCoverageTestFitness = TryCatchCoverageTestFitness(goal: BranchCoverageGoal)

  /**
   * The argument of `compareTo`: either a try/catch fitness or a fitness of
   * some other class, of which only its run-time class name matters here.
   * `OtherFitness(TryCatchClassName)` stands for no real object: a try/catch
   * fitness is always `TryCatch`.
   */
  datatype TestFitnessFunction =
    | TryCatch(fitness: TryCatchCoverageTestFitness)
    | OtherFitness(runtimeClassName: string)

  /** The constructor: hands the goal, unchanged, to the branch-fitness superclass. */
  function NewTryCatchCoverageTestFitness(goal: BranchCoverageGoal): (f: TryCatchCoverageTestFitness)
    ensures GetBranchGoal(f) == goal
  {
    TryCatchCoverageTestFitness(goal)
  }

  /** `getBranchGoal`, inherited from the superclass. */
  function GetBranchGoal(f: TryCatchCoverageTestFitness): BranchCoverageGoal {
    f.goal
  }

  /**
   * `compareTo`: against another try/catch fitness, the goals' line order;
   * against anything else, `compareClassName` (the superclass's comparison of
   * run-time class names, not part of this model and passed in).
   */
  function CompareTo(f: TryCatchCoverageTestFitness, other: TestFitnessFunction,
                     compareClassName: (string, string) -> Int32): (r: Int32)
    ensures other.TryCatch? ==> r == BranchCoverage.CompareTo(GetBranchGoal(f), GetBranchGoal(other.fitness))
    ensures other.TryCatch? ==>
              (r == 0 <==> GetBranchGoal(f).lineNumber == GetBranchGoal(other.fitness).lineNumber)
    ensures other.TryCatch? && InRange(GetBranchGoal(f).lineNumber - GetBranchGoal(other.fitness).lineNumber) ==>
              r == GetBranchGoal(f).lineNumber - GetBranchGoal(other.fitness).lineNumber
    ensures other.OtherFitness? ==> r == compareClassName(TryCatchClassName, other.runtimeClassName)
  {
    match other
    case TryCatch(o) => BranchCoverage.CompareTo(GetBranchGoal(f), GetBranchGoal(o))
    case OtherFitness(_) => compareClassName(TryCatchClassName, other.runtimeClassName)
  }

  /** A try/catch fitness compares equal to itself. */
  lemma CompareToSelfIsZero(f: TryCatchCoverageTestFitness, compareClassName: (string, string) -> Int32)
    ensures CompareTo(f, TryCatch(f), compareClassName) == 0
  {
  }

  /** Between try/catch fitnesses the sign of the comparison flips with the arguments. */
  lemma CompareToSignAntisymmetric(f1: TryCatchCoverageTestFitness, f2: TryCatchCoverageTestFitness,
                                   compareClassName: (string, string) -> Int32)
    requires InRange(GetBranchGoal(f1).lineNumber - GetBranchGoal(f2).lineNumber)
    requires InRange(GetBranchGoal(f2).lineNumber - GetBranchGoal(f1).lineNumber)
    ensures CompareTo(f1, TryCatch(f2), compareClassName) < 0 <==>
            CompareTo(f2, TryCatch(f1), compareClassName) > 0
    ensures CompareTo(f1, TryCatch(f2), compareClassName) == 0 <==>
            CompareTo(f2, TryCatch(f1), compareClassName) == 0
  {
    CompareToAntisymmetric(GetBranchGoal(f1), GetBranchGoal(f2));
  }

  /**
   * Against a fitness of another class the result ignores the goal: any two
   * try/catch fitnesses, whatever their lines, compare alike.
   */
  lemma CompareToOtherIgnoresGoal(f1: TryCatchCoverageTestFitness, f2: TryCatchCoverageTestFitness,
                                  runtimeClassName: string, compareClassName: (string, string) -> Int32)
    ensures CompareTo(f1, OtherFitness(runtimeClassName), compareClassName)
            == CompareTo(f2, OtherFitness(runtimeClassName), compareClassName)
  {
  }
}
