/**
 * `BranchCoverageGoal`: one coverage target, either "make this branch
 * evaluate to `value`" (a branch goal) or "enter method `className.methodName`"
 * (a root goal, which has no branch).
 */
module BranchCoverage {
  import opened Wrappers
  import opened JavaInt
  import opened Branches

  /**
   * A goal. Its fields are set once, by a constructor or by deserialisation,
   * and never change afterwards, so the object is modelled as a value.
   * `className`, `methodName` and `lineNumber` are copies of the branch's own
   * data (or, for a root goal, of the method's), kept for fast comparison.
   */
  datatype BranchCoverageGoal = BranchCoverageGoal(
    branch: Option<Branch>,
    value: bool,
    className: string,
    methodName: string,
    lineNumber: Int32)

  /** The three reasons for which a constructor throws `IllegalArgumentException`. */
  datatype ConstructionError =
    | NullGiven                  // className or methodName is null
    | RootGoalWithFalseValue     // no branch, yet value == false
    | BranchInformationMismatch  // the branch lives in another method or class

  /** The argument of `equals`: null, a goal, or an object of some other class. */
  datatype Obj = NullRef | GoalRef(goal: BranchCoverageGoal) | ForeignRef

  predicate IsRoot(g: BranchCoverageGoal) {
    g.branch.None?
  }

  /**
   * The invariant every constructor establishes: a root goal wants `true` and
   * sits on the first line of its method; a branch goal names its branch's own
   * class and method and sits on its branch's line.
   */
  predicate Valid(g: BranchCoverageGoal, env: Collaborators) {
    match g.branch
    case None =>
      g.value && g.lineNumber == env.firstLineNumberOfMethod(g.className, g.methodName)
    case Some(b) =>
      b.className == g.className && b.methodName == g.methodName && g.lineNumber == b.lineNumber
  }

  // ---------------------------------------------------------------- constructors

  /** `BranchCoverageGoal(Branch, boolean, String, String)`. */
  function NewGoal(branch: Option<Branch>, value: bool, className: Option<string>,
                   methodName: Option<string>, env: Collaborators)
    : (r: Result<BranchCoverageGoal, ConstructionError>)
    ensures r == Err(NullGiven) <==> className.None? || methodName.None?
    ensures r == Err(RootGoalWithFalseValue) <==>
              className.Some? && methodName.Some? && branch.None? && !value
    ensures r == Err(BranchInformationMismatch) <==>
              && className.Some? && methodName.Some? && branch.Some?
              && (branch.value.methodName != methodName.value || branch.value.className != className.value)
    ensures r.Ok? ==>
              && r.value.branch == branch && r.value.value == value
              && r.value.className == className.value && r.value.methodName == methodName.value
              && r.value.lineNumber == (if branch.Some? then branch.value.lineNumber
                                        else env.firstLineNumberOfMethod(className.value, methodName.value))
    ensures r.Ok? && branch.None? ==> r.value.value
    ensures r.Ok? ==> Valid(r.value, env)
  {
    if className.None? || methodName.None? then
      Err(NullGiven)
    else if branch.None? && !value then
      Err(RootGoalWithFalseValue)
    else
      match branch
      case Some(b) =>
        if b.methodName != methodName.value || b.className != className.value then
          Err(BranchInformationMismatch)
        else
          Ok(BranchCoverageGoal(branch, value, className.value, methodName.value, b.lineNumber))
      case None =>
        Ok(BranchCoverageGoal(None, value, className.value, methodName.value,
                              env.firstLineNumberOfMethod(className.value, methodName.value)))
  }

  /** `BranchCoverageGoal(ControlDependency, String, String)`: delegates to the primary constructor. */
  function NewGoalFromDependency(cd: ControlDependency, className: Option<string>,
                                 methodName: Option<string>, env: Collaborators)
    : (r: Result<BranchCoverageGoal, ConstructionError>)
    ensures r == NewGoal(cd.branch, cd.branchExpressionValue, className, methodName, env)
    ensures r.Ok? ==> r.value.branch == cd.branch && r.value.value == cd.branchExpressionValue
  {
    NewGoal(cd.branch, cd.branchExpressionValue, className, methodName, env)
  }

  /**
   * `BranchCoverageGoal(String, String)`: a root goal, built without the
   * primary constructor's checks; it agrees with what that constructor builds.
   */
  function NewRootGoal(className: string, methodName: string, env: Collaborators)
    : (g: BranchCoverageGoal)
    ensures IsRoot(g) && g.value && g.className == className && g.methodName == methodName
    ensures Valid(g, env)
    ensures NewGoal(None, true, Some(className), Some(methodName), env) == Ok(g)
  {
    BranchCoverageGoal(None, true, className, methodName,
                       env.firstLineNumberOfMethod(className, methodName))
  }

  // ---------------------------------------------------------------- isConnectedTo

  /** `isConnectedTo`: whether tests for one goal are promising seeds for the other. */
  function IsConnectedTo(g: BranchCoverageGoal, other: BranchCoverageGoal, env: Collaborators)
    : (r: bool)
    ensures IsRoot(g) || IsRoot(other) ==>
              (r <==> g.className == other.className && g.methodName == other.methodName)
    ensures !IsRoot(g) && !IsRoot(other) ==>
              (r <==> env.isDirectlyControlDependentOn(g.branch.value, other.branch.value)
                      || env.isDirectlyControlDependentOn(other.branch.value, g.branch.value))
  {
    if g.branch.None? || other.branch.None? then
      other.methodName == g.methodName && other.className == g.className
    else
      env.isDirectlyControlDependentOn(g.branch.value, other.branch.value)
      || env.isDirectlyControlDependentOn(other.branch.value, g.branch.value)
  }

  lemma IsConnectedToSymmetric(g1: BranchCoverageGoal, g2: BranchCoverageGoal, env: Collaborators)
    ensures IsConnectedTo(g1, g2, env) == IsConnectedTo(g2, g1, env)
  {
  }

  // ---------------------------------------------------------------- toString

  function Header(g: BranchCoverageGoal): string {
    g.className + "." + g.methodName + ":"
  }

  predicate EndsWith(s: string, suffix: string) {
    |suffix| <= |s| && s[|s| - |suffix|..] == suffix
  }

  /** `toString`. */
  function ToString(g: BranchCoverageGoal, env: Collaborators): (s: string)
    ensures |Header(g)| <= |s| && s[..|Header(g)|] == Header(g)
    ensures EndsWith(s, " root-Branch") <==> IsRoot(g)
    ensures !IsRoot(g) ==> EndsWith(s, if g.value then " - true" else " - false")
    ensures !IsRoot(g) ==>
              var outcome := if g.value then " - true" else " - false";
              |Header(g)| + |outcome| <= |s| &&
              s[|Header(g)|..|s| - |outcome|] == " " + env.branchToString(g.branch.value)
    ensures IsRoot(g) ==> s == Header(g) + " root-Branch"
  {
    var name := Header(g);
    if g.branch.Some? then
      var middle := " " + env.branchToString(g.branch.value);
      var outcome := if g.value then " - true" else " - false";
      var s := name + middle + outcome;
      assert s[..|name|] == name;
      assert s[|name|..|s| - |outcome|] == middle;
      assert s[|s| - |outcome|..] == outcome;
      assert s[|s| - 1] == 'e';
      s
    else
      name + " root-Branch"
  }

  /** The rendering tells a root goal from a branch goal. */
  lemma ToStringSeparatesRootFromBranch(root: BranchCoverageGoal, g: BranchCoverageGoal,
                                        env: Collaborators)
    requires IsRoot(root) && !IsRoot(g)
    ensures ToString(root, env) != ToString(g, env)
  {
  }

  /** The rendering tells the two outcomes of one branch apart. */
  lemma ToStringSeparatesValues(g: BranchCoverageGoal, env: Collaborators)
    requires !IsRoot(g)
    ensures ToString(g, env) != ToString(g.(value := !g.value), env)
  {
    var t := g.(value := true);
    var f := g.(value := false);
    assert |ToString(f, env)| == |ToString(t, env)| + 1;
  }

  // ---------------------------------------------------------------- hashCode

  /**
   * The hash of a sequence of `int`s as `java.util.Arrays.hashCode` defines it:
   * start at 1 and, for each element `e`, take `31 * h + e` in `int` arithmetic.
   */
  function ArraysHashCode(s: seq<Int32>): Int32
    decreases |s|
  {
    if s == [] then 1 else Wrap(31 * ArraysHashCode(s[..|s| - 1]) + s[|s| - 1])
  }

  function Pow31(n: nat): int {
    if n == 0 then 1 else 31 * Pow31(n - 1)
  }

  /** `s[0] * 31^(n-1) + s[1] * 31^(n-2) + ... + s[n-1]`, computed without overflow. */
  function PolynomialSum(s: seq<Int32>): int {
    if s == [] then 0 else s[0] * Pow31(|s| - 1) + PolynomialSum(s[1..])
  }

  lemma {:induction false} PolynomialSumAppend(s: seq<Int32>, x: Int32)
    ensures PolynomialSum(s + [x]) == 31 * PolynomialSum(s) + x
  {
    if s == [] {
      assert PolynomialSum([x]) == x * Pow31(0) + PolynomialSum([]);
    } else {
      assert (s + [x])[1..] == s[1..] + [x];
      PolynomialSumAppend(s[1..], x);
      calc {
        PolynomialSum(s + [x]);
        s[0] * Pow31(|s|) + PolynomialSum(s[1..] + [x]);
        s[0] * (31 * Pow31(|s| - 1)) + 31 * PolynomialSum(s[1..]) + x;
        { assert s[0] * (31 * Pow31(|s| - 1)) == 31 * (s[0] * Pow31(|s| - 1)); }
        31 * (s[0] * Pow31(|s| - 1) + PolynomialSum(s[1..])) + x;
      }
    }
  }

  /**
   * Overflow during the accumulation is harmless: the hash is the exact
   * polynomial `31^n + s[0] * 31^(n-1) + ... + s[n-1]` reduced to an `int`.
   */
  lemma {:induction false} ArraysHashCodeIsPolynomial(s: seq<Int32>)
    ensures ArraysHashCode(s) == Wrap(Pow31(|s|) + PolynomialSum(s))
  {
    if s != [] {
      var init, x := s[..|s| - 1], s[|s| - 1];
      assert s == init + [x];
      ArraysHashCodeIsPolynomial(init);
      PolynomialSumAppend(init, x);
      WrapMulAdd(31, Pow31(|init|) + PolynomialSum(init), x);
      assert 31 * (Pow31(|init|) + PolynomialSum(init)) + x == Pow31(|s|) + PolynomialSum(s);
    }
  }

  /**
   * The values `hashCode` combines: branch id and instruction id (0 for a root
   * goal), the hashes of the class and method names, and 1231/1237 for
   * `true`/`false`. Nothing derived from the control-flow graph enters.
   */
  function HashComponents(g: BranchCoverageGoal, env: Collaborators): (c: seq<Int32>)
    ensures |c| == 5
  {
    [ if g.branch.None? then 0 else g.branch.value.actualBranchId,
      if g.branch.None? then 0 else g.branch.value.instructionId,
      env.stringHashCode(g.className),
      env.stringHashCode(g.methodName),
      if g.value then 1231 else 1237 ]
  }

  /** The goal's hash in closed form: `31^5 + 31^4 * c0 + 31^3 * c1 + 31^2 * c2 + 31 * c3 + c4`. */
  lemma HashCodeClosedForm(g: BranchCoverageGoal, env: Collaborators)
    ensures var c := HashComponents(g, env);
            ArraysHashCode(c)
            == Wrap(28629151 + 923521 * (c[0] as int) + 29791 * (c[1] as int) + 961 * (c[2] as int)
                    + 31 * (c[3] as int) + c[4])
  {
    var c := HashComponents(g, env);
    ArraysHashCodeIsPolynomial(c);
    assert Pow31(4) == 923521 && Pow31(3) == 29791 && Pow31(2) == 961 && Pow31(1) == 31;
    assert c[1..][1..] == c[2..] && c[2..][1..] == c[3..] && c[3..][1..] == c[4..] && c[4..][1..] == [];
    assert PolynomialSum(c[4..]) == c[4];
    assert PolynomialSum(c[3..]) == 31 * (c[3] as int) + c[4];
    assert PolynomialSum(c[2..]) == 961 * (c[2] as int) + 31 * (c[3] as int) + c[4];
    assert PolynomialSum(c[1..]) == 29791 * (c[1] as int) + 961 * (c[2] as int) + 31 * (c[3] as int) + c[4];
    assert PolynomialSum(c) == 923521 * (c[0] as int) + 29791 * (c[1] as int) + 961 * (c[2] as int)
                               + 31 * (c[3] as int) + c[4];
  }

  /** One step of `result = prime * result + x` in `int` arithmetic. */
  lemma HashStep(s: seq<Int32>, result: Int32, x: Int32)
    requires result == ArraysHashCode(s)
    ensures Wrap(Wrap(31 * result) + x) == ArraysHashCode(s + [x])
  {
    WrapAdd(31 * result, x);
    assert (s + [x])[..|s|] == s;
  }

  /** `hashCode`: accumulates the components one at a time, as the source does. */
  method HashCode(g: BranchCoverageGoal, env: Collaborators) returns (h: Int32)
    ensures h == ArraysHashCode(HashComponents(g, env))
  {
    var prime := 31;
    var result: Int32 := 1;
    ghost var done: seq<Int32> := [];
    var x: Int32 := if g.branch.None? then 0 else g.branch.value.actualBranchId;
    HashStep(done, result, x);
    result, done := Wrap(Wrap(prime * result) + x), done + [x];
    x := if g.branch.None? then 0 else g.branch.value.instructionId;
    HashStep(done, result, x);
    result, done := Wrap(Wrap(prime * result) + x), done + [x];
    x := env.stringHashCode(g.className);
    HashStep(done, result, x);
    result, done := Wrap(Wrap(prime * result) + x), done + [x];
    x := env.stringHashCode(g.methodName);
    HashStep(done, result, x);
    result, done := Wrap(Wrap(prime * result) + x), done + [x];
    x := if g.value then 1231 else 1237;
    HashStep(done, result, x);
    result, done := Wrap(Wrap(prime * result) + x), done + [x];
    assert done == HashComponents(g, env);
    h := result;
  }

  // ---------------------------------------------------------------- equals

  /** `equals(Object)`. The identity test `this == obj` is modelled as value equality. */
  function Equals(g: BranchCoverageGoal, obj: Obj, env: Collaborators): (r: bool)
    ensures obj.NullRef? || obj.ForeignRef? ==> !r
    ensures obj == GoalRef(g) ==> r
    ensures obj.GoalRef? && IsRoot(g) && IsRoot(obj.goal) ==>
              (r <==> g.className == obj.goal.className && g.methodName == obj.goal.methodName)
    ensures obj.GoalRef? && IsRoot(g) != IsRoot(obj.goal) ==> !r
    ensures obj.GoalRef? && !IsRoot(g) && !IsRoot(obj.goal) && obj.goal != g ==>
              (r <==> env.branchEquals(g.branch.value, obj.goal.branch.value) && g.value == obj.goal.value)
  {
    if obj == GoalRef(g) then
      true
    else if obj.NullRef? || obj.ForeignRef? then
      false
    else
      var other := obj.goal;
      if g.branch.None? then
        if other.branch.Some? then false
        else g.methodName == other.methodName && g.className == other.className
      else if other.branch.None? then
        false
      else if !env.branchEquals(g.branch.value, other.branch.value) then
        false
      else
        g.value == other.value
  }

  /**
   * With a reflexive `Branch.equals` the identity shortcut changes no result:
   * two branch goals are equal exactly when their branches are equal and they
   * want the same outcome.
   */
  lemma EqualsBranchGoals(g1: BranchCoverageGoal, g2: BranchCoverageGoal, env: Collaborators)
    requires LawfulBranchEquality(env.branchEquals)
    requires !IsRoot(g1) && !IsRoot(g2)
    ensures Equals(g1, GoalRef(g2), env) <==>
              env.branchEquals(g1.branch.value, g2.branch.value) && g1.value == g2.value
  {
    if g1 == g2 {
      assert env.branchEquals(g1.branch.value, g1.branch.value);
    }
  }

  lemma EqualsSymmetric(g1: BranchCoverageGoal, g2: BranchCoverageGoal, env: Collaborators)
    requires LawfulBranchEquality(env.branchEquals)
    ensures Equals(g1, GoalRef(g2), env) == Equals(g2, GoalRef(g1), env)
  {
    if !IsRoot(g1) && !IsRoot(g2) {
      EqualsBranchGoals(g1, g2, env);
      EqualsBranchGoals(g2, g1, env);
    }
  }

  lemma EqualsTransitive(g1: BranchCoverageGoal, g2: BranchCoverageGoal, g3: BranchCoverageGoal,
                         env: Collaborators)
    requires LawfulBranchEquality(env.branchEquals)
    requires Equals(g1, GoalRef(g2), env) && Equals(g2, GoalRef(g3), env)
    ensures Equals(g1, GoalRef(g3), env)
  {
    if !IsRoot(g1) && !IsRoot(g2) && !IsRoot(g3) {
      EqualsBranchGoals(g1, g2, env);
      EqualsBranchGoals(g2, g3, env);
      EqualsBranchGoals(g1, g3, env);
    }
  }

  /** Goals built from one branch with opposite outcomes are never equal. */
  lemma OppositeOutcomesDiffer(g: BranchCoverageGoal, env: Collaborators)
    requires LawfulBranchEquality(env.branchEquals)
    requires !IsRoot(g)
    ensures !Equals(g, GoalRef(g.(value := !g.value)), env)
  {
    EqualsBranchGoals(g, g.(value := !g.value), env);
  }

  /**
   * `hashCode` agrees with `equals` on goals that satisfy the constructors'
   * invariant, given a lawful `Branch.equals`.
   */
  lemma EqualGoalsHaveEqualHashCodes(g1: BranchCoverageGoal, g2: BranchCoverageGoal,
                                     env: Collaborators)
    requires LawfulBranchEquality(env.branchEquals)
    requires Valid(g1, env) && Valid(g2, env)
    requires Equals(g1, GoalRef(g2), env)
    ensures HashComponents(g1, env) == HashComponents(g2, env)
    ensures ArraysHashCode(HashComponents(g1, env)) == ArraysHashCode(HashComponents(g2, env))
  {
    if !IsRoot(g1) && !IsRoot(g2) {
      EqualsBranchGoals(g1, g2, env);
      assert SameLocation(g1.branch.value, g2.branch.value);
    }
  }

  /**
   * Without the invariant the agreement fails: two root goals that differ only
   * in `value` are equal, yet their hashes differ (the last component is 1231
   * against 1237). The constructors never build the second one.
   */
  lemma HashNeedsRootValueTrue(g: BranchCoverageGoal, env: Collaborators)
    requires IsRoot(g) && g.value
    ensures Equals(g, GoalRef(g.(value := false)), env)
    ensures ArraysHashCode(HashComponents(g, env)) != ArraysHashCode(HashComponents(g.(value := false), env))
  {
    var f := g.(value := false);
    var c, d := HashComponents(g, env), HashComponents(f, env);
    assert c[..4] == d[..4];
    var p: int := ArraysHashCode(c[..4]);
    assert ArraysHashCode(c) == Wrap(31 * p + 1231);
    assert ArraysHashCode(d) == Wrap(31 * p + 1237);
  }

  // ---------------------------------------------------------------- compareTo

  /** `compareTo`: `lineNumber - o.lineNumber` in `int` arithmetic. */
  function CompareTo(g: BranchCoverageGoal, o: BranchCoverageGoal): (r: Int32)
    ensures r == 0 <==> g.lineNumber == o.lineNumber
    ensures InRange(g.lineNumber - o.lineNumber) ==> r == g.lineNumber - o.lineNumber
  {
    WrapDifferenceZero(g.lineNumber, o.lineNumber);
    WrapSpec(g.lineNumber - o.lineNumber);
    Wrap(g.lineNumber - o.lineNumber)
  }

  /** While the difference of the lines fits in an `int`, the order is antisymmetric. */
  lemma CompareToAntisymmetric(g1: BranchCoverageGoal, g2: BranchCoverageGoal)
    requires InRange(g1.lineNumber - g2.lineNumber) && InRange(g2.lineNumber - g1.lineNumber)
    ensures CompareTo(g1, g2) as int == -(CompareTo(g2, g1) as int)
    ensures CompareTo(g1, g2) < 0 <==> CompareTo(g2, g1) > 0
  {
  }

  /**
   * When the difference overflows, both directions can come out negative:
   * line 2147483647 against line -1.
   */
  lemma CompareToOverflows(g1: BranchCoverageGoal, g2: BranchCoverageGoal)
    requires g1.lineNumber == 0x7fff_ffff && g2.lineNumber == -1
    ensures CompareTo(g1, g2) < 0 && CompareTo(g2, g1) < 0
  {
  }

  /** Equal goals share a line, so `compareTo` is 0 on them. */
  lemma EqualGoalsCompareEqual(g1: BranchCoverageGoal, g2: BranchCoverageGoal, env: Collaborators)
    requires LawfulBranchEquality(env.branchEquals)
    requires Valid(g1, env) && Valid(g2, env)
    requires Equals(g1, GoalRef(g2), env)
    ensures CompareTo(g1, g2) == 0
  {
    if !IsRoot(g1) && !IsRoot(g2) {
      EqualsBranchGoals(g1, g2, env);
      assert SameLocation(g1.branch.value, g2.branch.value);
    }
  }

  // ---------------------------------------------------------------- serialisation

  /** The persisted form: the default-serialised fields plus the branch's registry id. */
  datatype SerializedGoal = SerializedGoal(
    value: bool,
    className: string,
    methodName: string,
    lineNumber: Int32,
    branchId: Int32)

  datatype DeserializationError = UnknownBranchId(id: int)

  /** `writeObject`: the branch, a transient field, is written as its id, or -1 when absent. */
  function WriteObject(g: BranchCoverageGoal): (p: SerializedGoal)
    ensures p.branchId == if IsRoot(g) then -1 else g.branch.value.actualBranchId
    ensures p.value == g.value && p.className == g.className
    ensures p.methodName == g.methodName && p.lineNumber == g.lineNumber
  {
    SerializedGoal(g.value, g.className, g.methodName, g.lineNumber,
                   if g.branch.Some? then g.branch.value.actualBranchId else -1)
  }

  /**
   * `readObject`: restores the fields and looks a non-negative id up in the
   * registry; any negative id gives a root goal. No constructor check is rerun.
   */
  function ReadObject(p: SerializedGoal, pool: BranchPool)
    : (r: Result<BranchCoverageGoal, DeserializationError>)
    ensures r.Err? <==> p.branchId >= 0 && p.branchId !in pool
    ensures r.Err? ==> r.error == UnknownBranchId(p.branchId)
    ensures r.Ok? ==>
              && r.value.value == p.value && r.value.className == p.className
              && r.value.methodName == p.methodName && r.value.lineNumber == p.lineNumber
    ensures r.Ok? ==> (IsRoot(r.value) <==> p.branchId < 0)
    ensures r.Ok? && p.branchId >= 0 ==> r.value.branch == Some(pool[p.branchId])
  {
    var branch :=
      if p.branchId >= 0 then
        if p.branchId in pool then Some(Some(pool[p.branchId])) else None
      else
        Some(None);
    match branch
    case None => Err(UnknownBranchId(p.branchId))
    case Some(b) => Ok(BranchCoverageGoal(b, p.value, p.className, p.methodName, p.lineNumber))
  }

  /** Ids the registry maps back to the goal's own branch. */
  predicate PoolResolves(pool: BranchPool, g: BranchCoverageGoal) {
    g.branch.Some? ==>
      var id := g.branch.value.actualBranchId;
      id >= 0 && id in pool && pool[id] == g.branch.value
  }

  /** Writing a goal and reading it back through a registry that knows its branch restores it. */
  lemma ReadObjectInvertsWriteObject(g: BranchCoverageGoal, pool: BranchPool)
    requires PoolResolves(pool, g)
    ensures ReadObject(WriteObject(g), pool) == Ok(g)
  {
  }

  /**
   * Through a registry that holds a branch merely equal to the goal's, the
   * goal read back is valid, equal to the original both ways, and has the same hash.
   */
  lemma ReadObjectRestoresEqualGoal(g: BranchCoverageGoal, pool: BranchPool, env: Collaborators)
    requires LawfulBranchEquality(env.branchEquals)
    requires Valid(g, env)
    requires !IsRoot(g) ==>
               var id := g.branch.value.actualBranchId;
               id >= 0 && id in pool && env.branchEquals(pool[id], g.branch.value)
    ensures ReadObject(WriteObject(g), pool).Ok?
    ensures Valid(ReadObject(WriteObject(g), pool).value, env)
    ensures Equals(ReadObject(WriteObject(g), pool).value, GoalRef(g), env)
    ensures Equals(g, GoalRef(ReadObject(WriteObject(g), pool).value), env)
    ensures ArraysHashCode(HashComponents(ReadObject(WriteObject(g), pool).value, env))
            == ArraysHashCode(HashComponents(g, env))
  {
    var r := ReadObject(WriteObject(g), pool).value;
    if !IsRoot(g) {
      assert SameLocation(r.branch.value, g.branch.value);
      EqualsBranchGoals(r, g, env);
    }
    EqualsSymmetric(r, g, env);
    EqualGoalsHaveEqualHashCodes(r, g, env);
  }

  /**
   * A branch whose id is negative is persisted like "no branch": reading the
   * goal back drops the branch.
   */
  lemma NegativeBranchIdIsLost(g: BranchCoverageGoal, pool: BranchPool)
    requires !IsRoot(g) && g.branch.value.actualBranchId < 0
    ensures ReadObject(WriteObject(g), pool) == Ok(g.(branch := None))
  {
  }

  // ---------------------------------------------------------------- CoverageGoal interface

  /** `getTargetClass`. */
  function TargetClass(g: BranchCoverageGoal): (c: string)
    ensures c == g.className
  {
    g.className
  }

  /** `getTargetMethods`: a fresh set holding just the goal's method. */
  method TargetMethods(g: BranchCoverageGoal) returns (targetMethods: set<string>)
    ensures targetMethods == {g.methodName}
    ensures |targetMethods| == 1
  {
    targetMethods := {};
    targetMethods := targetMethods + {g.methodName};
  }
}
