/**
 * Branches of the analysed program, the registry that numbers them, and the
 * collaborators of a coverage goal whose code lies outside this model.
 */
module Branches {
  import opened Wrappers
  import opened JavaInt

  /**
   * A jump instruction of the analysed program. `lineNumber` and
   * `instructionId` belong to its bytecode instruction; the instruction and
   * its control-flow graph themselves are not modelled. `switchCaseValue` is
   * the case a switch branch jumps for (`None` for a plain conditional jump);
   * it is data that `Branch.equals` may or may not compare.
   */
  datatype Branch = Branch(
    actualBranchId: Int32,
    instructionId: Int32,
    className: string,
    methodName: string,
    lineNumber: Int32,
    switchCaseValue: Option<Int32>)

  /** An edge "depends on `branch` evaluating to `branchExpressionValue`". */
  datatype ControlDependency = ControlDependency(branch: Option<Branch>, branchExpressionValue: bool)

  /**
   * Code that a coverage goal calls but that is not part of this model:
   * `Branch.equals`, `Branch.toString`, `String.hashCode`,
   * `BytecodeInstruction.isDirectlyControlDependentOn` (first argument: the
   * branch whose instruction is asked about) and
   * `BytecodeInstructionPool.getFirstLineNumberOfMethod`.
   */
  datatype Collaborators = Collaborators(
    branchEquals: (Branch, Branch) -> bool,
    branchToString: Branch -> string,
    stringHashCode: string -> Int32,
    isDirectlyControlDependentOn: (Branch, Branch) -> bool,
    firstLineNumberOfMethod: (string, string) -> Int32)

  /** Two branches that denote the same instruction of the same method. */
  predicate SameLocation(b1: Branch, b2: Branch) {
    && b1.actualBranchId == b2.actualBranchId
    && b1.instructionId == b2.instructionId
    && b1.className == b2.className
    && b1.methodName == b2.methodName
    && b1.lineNumber == b2.lineNumber
  }

  /**
   * What the goal's `equals` and `hashCode` take for granted of `Branch.equals`:
   * it is an equivalence relation, and equal branches sit at the same location.
   * It does not force equal branches to be the same value: they may differ in
   * `switchCaseValue` (see `LawfulEqualityAdmitsDistinctBranches`).
   */
  ghost predicate LawfulBranchEquality(eq: (Branch, Branch) -> bool) {
    && (forall b :: eq(b, b))
    && (forall b1, b2 :: eq(b1, b2) ==> eq(b2, b1))
    && (forall b1, b2, b3 :: eq(b1, b2) && eq(b2, b3) ==> eq(b1, b3))
    && (forall b1, b2 :: eq(b1, b2) ==> SameLocation(b1, b2))
  }

  /** The branch registry (`BranchPool`): branches by their `actualBranchId`. */
  type BranchPool = map<int, Branch>

  /**
   * Lawful equalities do not collapse to `==`: comparing locations only is
   * lawful and calls two different branches equal.
   */
  lemma LawfulEqualityAdmitsDistinctBranches()
    ensures var eq := (b1: Branch, b2: Branch) => SameLocation(b1, b2);
            var b1 := Branch(7, 12, "C", "m", 3, Some(0));
            var b2 := b1.(switchCaseValue := Some(1));
            LawfulBranchEquality(eq) && eq(b1, b2) && b1 != b2
  {
  }
}
