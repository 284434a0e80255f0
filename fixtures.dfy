/**
 * The `when` expressions of the resolve test data file `exhaustiveness.kt`,
 * written as condition trees, with the verdict the model gives each, and two
 * cases that show how nullability is (and is not) taken into account.
 */
module ExhaustivenessTestData {
  import opened Wrappers
  import opened Fir
  import opened Coverage

  /** `when (x)` on a parameter `x` of the given type. */
  function SubjectOfType(t: ConeType): (s: WhenSubject) {
    WhenSubject(None, Some(SubjectExpression(true, ResolvedTypeRef(t))))
  }

  /** The branch `arg -> ...`, which FIR builds as the condition `$subj$ == arg`. */
  function EqualsBranch(arg: Condition): (b: Branch) {
    Branch(OperatorCall(Eq, [OtherExpression, arg]))
  }

  function BooleanType(nullability: Nullability): (t: ConeType) {
    ConeType(Some(LookupTag(Some(BooleanClassId), None)), nullability)
  }

  const EnumDeclaration := RegularClass(EnumClass, Final, ["Enum.A", "Enum.B", "Enum.C"])

  function EnumType(nullability: Nullability): (t: ConeType) {
    ConeType(Some(LookupTag(Some("Enum"), Some(EnumDeclaration))), nullability)
  }

  const IsTrue := EqualsBranch(Const(BooleanValue(true)))
  const IsFalse := EqualsBranch(Const(BooleanValue(false)))
  const IsNull := EqualsBranch(Const(NullValue))
  const IsA := EqualsBranch(ResolvedQualifier(Some("Enum.A")))
  const IsB := EqualsBranch(ResolvedQualifier(Some("Enum.B")))
  const IsC := EqualsBranch(ResolvedQualifier(Some("Enum.C")))
  const Else := Branch(ElseIfTrue)

  /** `when (b) { true -> 1 }` is not exhaustive. */
  lemma BooleanTrueOnly()
    ensures Decide(SubjectOfType(BooleanType(NotNull)), [IsTrue]) == Verdict(false)
  {
  }

  /** `when (b) { true -> 1; false -> 2 }` is exhaustive. */
  lemma BooleanTrueFalse()
    ensures Decide(SubjectOfType(BooleanType(NotNull)), [IsTrue, IsFalse]) == Verdict(true)
  {
    var branches := [IsTrue, IsFalse];
    assert Target(branches[0].condition) == Const(BooleanValue(true));
    assert Target(branches[1].condition) == Const(BooleanValue(false));
  }

  /** `when (b) { true -> 1; else -> 2 }` is exhaustive through its `else` branch. */
  lemma BooleanTrueElse()
    ensures Decide(SubjectOfType(BooleanType(NotNull)), [IsTrue, Else]) == ElseBranch
  {
    assert [IsTrue, Else][1].condition == ElseIfTrue;
  }

  /** `when (e) { Enum.A -> 1; Enum.B -> 2 }` misses `Enum.C`. */
  lemma EnumMissingEntry()
    ensures Decide(SubjectOfType(EnumType(NotNull)), [IsA, IsB]) == Verdict(false)
  {
    var branches := [IsA, IsB];
    assert "Enum.C" in EnumDeclaration.enumEntries;
    assert !Covered(branches, ResolvedQualifier(Some("Enum.C")));
  }

  /** An `is String` branch adds nothing: `Enum.C` is still missing. */
  lemma EnumMissingEntryWithIsCheck()
    ensures Decide(SubjectOfType(EnumType(NotNull)), [IsA, IsB, Branch(OperatorCall(Is, [OtherExpression]))])
      == Verdict(false)
  {
    var branches := [IsA, IsB, Branch(OperatorCall(Is, [OtherExpression]))];
    assert "Enum.C" in EnumDeclaration.enumEntries;
    assert !Covered(branches, ResolvedQualifier(Some("Enum.C")));
  }

  /** `when (e) { Enum.A -> 1; Enum.B -> 2; Enum.C -> 3 }` on a non-null subject needs no null branch. */
  lemma EnumAllEntries()
    ensures Decide(SubjectOfType(EnumType(NotNull)), [IsA, IsB, IsC]) == Verdict(true)
  {
    var branches := [IsA, IsB, IsC];
    assert Target(branches[0].condition) == ResolvedQualifier(Some("Enum.A"));
    assert Target(branches[1].condition) == ResolvedQualifier(Some("Enum.B"));
    assert Target(branches[2].condition) == ResolvedQualifier(Some("Enum.C"));
  }

  /** `when (e) { Enum.A -> 1; else -> 2 }` is exhaustive through its `else` branch. */
  lemma EnumElse()
    ensures Decide(SubjectOfType(EnumType(NotNull)), [IsA, Else]) == ElseBranch
  {
    assert [IsA, Else][1].condition == ElseIfTrue;
  }

  /** On a nullable enum subject every entry is not enough; a `null` branch completes it. */
  lemma NullableEnumNeedsNullBranch()
    ensures Decide(SubjectOfType(EnumType(Nullable)), [IsA, IsB, IsC]) == Verdict(false)
    ensures Decide(SubjectOfType(EnumType(Nullable)), [IsA, IsB, IsC, IsNull]) == Verdict(true)
  {
    var branches := [IsA, IsB, IsC, IsNull];
    assert Target(branches[0].condition) == ResolvedQualifier(Some("Enum.A"));
    assert Target(branches[1].condition) == ResolvedQualifier(Some("Enum.B"));
    assert Target(branches[2].condition) == ResolvedQualifier(Some("Enum.C"));
    assert Target(branches[3].condition) == Const(NullValue);
    assert !Covered([IsA, IsB, IsC], Const(NullValue));
  }

  /**
   * The Boolean check does not look at nullability: on a `Boolean?` subject,
   * `true` and `false` branches mark the expression without a `null` branch.
   */
  lemma NullableBooleanIgnoresNull()
    ensures Decide(SubjectOfType(BooleanType(Nullable)), [IsTrue, IsFalse]) == Verdict(true)
  {
    var branches := [IsTrue, IsFalse];
    assert Target(branches[0].condition) == Const(BooleanValue(true));
    assert Target(branches[1].condition) == Const(BooleanValue(false));
  }

  /**
   * An inequality is not coverage: branches with the conditions `$subj$ != true`
   * and `$subj$ == false` are not exhaustive.
   */
  lemma NotEqualIsNoCoverage()
    ensures Decide(SubjectOfType(BooleanType(NotNull)),
                   [Branch(OperatorCall(NotEq, [OtherExpression, Const(BooleanValue(true))])), IsFalse])
      == Verdict(false)
  {
  }
}
