/**
 * The specification of the `when`-exhaustiveness check as functions of the
 * subject and the branches: which node each visitor acts on, what the
 * accumulators hold after all branches, how the subject type is classified,
 * and the verdict. The imperative check in module Transformer is proved
 * against these; the lemmas below state what the verdict promises.
 */
module Coverage {
  import opened Wrappers
  import opened Fir

  // ------------------------ The node a visitor acts on ------------------------

  /**
   * Both visitors index `arguments[1]` of every EQ call they meet; this is the
   * shape that indexing needs along the chain of EQ calls they follow.
   */
  predicate WellFormed(c: Condition) {
    c.OperatorCall? && c.operation == Eq ==> |c.arguments| >= 2 && WellFormed(c.arguments[1])
  }

  predicate AllWellFormed(branches: seq<Branch>) {
    forall i | 0 <= i < |branches| :: WellFormed(branches[i].condition)
  }

  /**
   * The node a visitor finally acts on: an EQ call is followed into its
   * second argument, any other node is acted on as it is.
   */
  function Target(c: Condition): (t: Condition)
    requires WellFormed(c)
    ensures !(t.OperatorCall? && t.operation == Eq)
    ensures t != c ==> c.OperatorCall? && c.operation == Eq
  {
    if c.OperatorCall? && c.operation == Eq then Target(c.arguments[1]) else c
  }

  /**
   * Only the second argument of an EQ call matters: whatever stands in its
   * first argument (the subject), the visitor acts on the same node.
   */
  lemma OnlySecondArgumentFollowed(arguments: seq<Condition>, first: Condition)
    requires |arguments| >= 2 && WellFormed(arguments[1])
    ensures WellFormed(OperatorCall(Eq, arguments)) && WellFormed(OperatorCall(Eq, arguments[0 := first]))
    ensures Target(OperatorCall(Eq, arguments[0 := first])) == Target(OperatorCall(Eq, arguments)) == Target(arguments[1])
  {
  }

  /** Some branch's condition leads its visitor to `leaf`. */
  predicate Covered(branches: seq<Branch>, leaf: Condition)
    requires AllWellFormed(branches)
  {
    exists i | 0 <= i < |branches| :: Target(branches[i].condition) == leaf
  }

  /** The final test of the Boolean check: both `true` and `false` were seen. */
  predicate BooleanCovered(branches: seq<Branch>)
    requires AllWellFormed(branches)
  {
    Covered(branches, Const(BooleanValue(true))) && Covered(branches, Const(BooleanValue(false)))
  }

  /**
   * The final test of the enum check: the null flag, which starts out set for
   * a NOT_NULL subject type, is set, and every entry was seen.
   */
  predicate EnumCovered(entries: seq<ClassId>, nullability: Nullability, branches: seq<Branch>)
    requires AllWellFormed(branches)
  {
    (nullability == NotNull || Covered(branches, Const(NullValue)))
    && forall e | e in entries :: Covered(branches, ResolvedQualifier(Some(e)))
  }

  // ------------------------ Classification of the subject ------------------------

  /**
   * The subject's type: the subject variable's return type ref when there is
   * a subject variable, otherwise the type ref of a qualified-access subject
   * expression; `None` unless that type ref is resolved.
   */
  function SubjectType(s: WhenSubject): (t: Option<ConeType>)
    ensures s.variableTypeRef.Some? ==> (t.Some? <==> s.variableTypeRef.value.ResolvedTypeRef?)
    ensures t.Some? ==>
      s.variableTypeRef == Some(ResolvedTypeRef(t.value))
      || (s.variableTypeRef.None? && s.expression == Some(SubjectExpression(true, ResolvedTypeRef(t.value))))
    ensures s.variableTypeRef.None? && (s.expression.None? || !s.expression.value.isQualifiedAccess) ==> t.None?
    ensures (s.variableTypeRef.None? && s.expression.Some? && s.expression.value.isQualifiedAccess
             && s.expression.value.typeRef.ResolvedTypeRef?) ==> t == Some(s.expression.value.typeRef.coneType)
  {
    var typeRef :=
      if s.variableTypeRef.Some? then s.variableTypeRef
      else if s.expression.Some? && s.expression.value.isQualifiedAccess then Some(s.expression.value.typeRef)
      else None;
    if typeRef.Some? && typeRef.value.ResolvedTypeRef? then Some(typeRef.value.coneType) else None
  }

  datatype SubjectKind =
    | BooleanSubject
    | EnumSubject(enumClass: RegularClass, typeRef: ConeType)
    | SealedSubject
    | UnsupportedSubject

  /**
   * Which check applies to the subject. The Boolean test on the lookup tag
   * comes first; otherwise the tag must resolve to a regular class, and an
   * enum class wins over a sealed one.
   */
  function Classify(s: WhenSubject): (k: SubjectKind)
    ensures k == BooleanSubject <==>
      SubjectType(s).Some? && SubjectType(s).value.lookupTag.Some?
      && SubjectType(s).value.lookupTag.value.classLikeId == Some(BooleanClassId)
    ensures k.EnumSubject? ==>
      SubjectType(s) == Some(k.typeRef) && k.typeRef.lookupTag.Some?
      && k.typeRef.lookupTag.value.symbol == Some(k.enumClass) && k.enumClass.classKind == EnumClass
    ensures k.SealedSubject? ==>
      SubjectType(s).Some? && SubjectType(s).value.lookupTag.Some?
      && var symbol := SubjectType(s).value.lookupTag.value.symbol;
         symbol.Some? && symbol.value.classKind != EnumClass && symbol.value.modality == Sealed
    ensures (SubjectType(s).Some? && SubjectType(s).value.lookupTag.Some?
             && SubjectType(s).value.lookupTag.value.classLikeId != Some(BooleanClassId)
             && SubjectType(s).value.lookupTag.value.symbol.Some?) ==>
      var klass := SubjectType(s).value.lookupTag.value.symbol.value;
      (klass.classKind == EnumClass ==> k == EnumSubject(klass, SubjectType(s).value))
      && (klass.classKind != EnumClass && klass.modality == Sealed ==> k == SealedSubject)
      && (klass.classKind != EnumClass && klass.modality != Sealed ==> k == UnsupportedSubject)
  {
    match SubjectType(s)
    case None => UnsupportedSubject
    case Some(coneType) =>
      match coneType.lookupTag
      case None => UnsupportedSubject
      case Some(tag) =>
        if tag.classLikeId == Some(BooleanClassId) then BooleanSubject
        else match tag.symbol
          case None => UnsupportedSubject
          case Some(klass) =>
            if klass.classKind == EnumClass then EnumSubject(klass, coneType)
            else if klass.modality == Sealed then SealedSubject
            else UnsupportedSubject
  }

  // ------------------------ The verdict ------------------------

  predicate HasElseBranch(branches: seq<Branch>) {
    exists i | 0 <= i < |branches| :: branches[i].condition == ElseIfTrue
  }

  /**
   * What `processExhaustivenessCheck` concludes: an `else` branch, a subject it
   * does not check (the result is null and the flag is left alone), a verdict,
   * or the index fault of a visitor meeting an EQ call with fewer than two
   * arguments.
   */
  datatype Decision = ElseBranch | Unchecked | Verdict(exhaustive: bool) | IndexFault

  function Decide(s: WhenSubject, branches: seq<Branch>): (d: Decision)
    ensures d == ElseBranch <==> HasElseBranch(branches)
    ensures d == Unchecked <==> !HasElseBranch(branches) && Classify(s) == UnsupportedSubject
    ensures d == IndexFault ==> !AllWellFormed(branches)
    ensures d == Verdict(true) <==>
      !HasElseBranch(branches) && AllWellFormed(branches)
      && ((Classify(s) == BooleanSubject && BooleanCovered(branches))
          || (Classify(s).EnumSubject?
              && EnumCovered(Classify(s).enumClass.enumEntries, Classify(s).typeRef.nullability, branches)))
  {
    if HasElseBranch(branches) then ElseBranch
    else match Classify(s)
      case UnsupportedSubject => Unchecked
      case SealedSubject => Verdict(false)
      case BooleanSubject =>
        if AllWellFormed(branches) then Verdict(BooleanCovered(branches)) else IndexFault
      case EnumSubject(enumClass, typeRef) =>
        if AllWellFormed(branches) then Verdict(EnumCovered(enumClass.enumEntries, typeRef.nullability, branches))
        else IndexFault
  }

  /** The decisions on which the expression gets marked exhaustive. */
  predicate Marks(d: Decision) {
    d == ElseBranch || d == Verdict(true)
  }

  // ------------------------ Properties of the verdict ------------------------

  /** An `else` branch anywhere marks the expression, whatever the subject and the other branches. */
  lemma ElseBranchMarks(s: WhenSubject, branches: seq<Branch>, k: nat)
    requires k < |branches| && branches[k].condition == ElseIfTrue
    ensures Decide(s, branches) == ElseBranch && Marks(Decide(s, branches))
  {
  }

  /**
   * The subject variable's type ref is taken even when it is unresolved: a
   * resolved subject expression does not stand in for it.
   */
  lemma UnresolvedVariableUnchecked(s: WhenSubject, branches: seq<Branch>)
    requires s.variableTypeRef == Some(UnresolvedTypeRef) && !HasElseBranch(branches)
    ensures Decide(s, branches) == Unchecked
  {
  }

  /** A sealed class that is not an enum is never found exhaustive without an `else` branch. */
  lemma SealedNeverExhaustive(s: WhenSubject, branches: seq<Branch>)
    requires Classify(s) == SealedSubject && !HasElseBranch(branches)
    ensures Decide(s, branches) == Verdict(false)
  {
  }

  /** Every branch of `small` is a branch of `large`. */
  predicate Included(small: seq<Branch>, large: seq<Branch>) {
    forall i | 0 <= i < |small| :: small[i] in large
  }

  /** Everything the verdict reads carries over to a list that holds all of the branches. */
  lemma {:induction false} IncludedCovers(small: seq<Branch>, large: seq<Branch>)
    requires Included(small, large)
    ensures HasElseBranch(small) ==> HasElseBranch(large)
    ensures AllWellFormed(large) ==> AllWellFormed(small)
    ensures AllWellFormed(large) ==>
      forall leaf :: Covered(small, leaf) ==> Covered(large, leaf)
  {
    if HasElseBranch(small) {
      var i :| 0 <= i < |small| && small[i].condition == ElseIfTrue;
      var j :| 0 <= j < |large| && large[j] == small[i];
      assert large[j].condition == ElseIfTrue;
    }
    if AllWellFormed(large) {
      forall i | 0 <= i < |small|
        ensures WellFormed(small[i].condition)
      {
        var j :| 0 <= j < |large| && large[j] == small[i];
      }
      forall leaf | Covered(small, leaf)
        ensures Covered(large, leaf)
      {
        var i :| 0 <= i < |small| && Target(small[i].condition) == leaf;
        var j :| 0 <= j < |large| && large[j] == small[i];
        assert Target(large[j].condition) == leaf;
      }
    }
  }

  /** Lists that hold the same branches, in any order, get the same verdict. */
  lemma {:induction false} SameBranchesSameDecision(s: WhenSubject, b1: seq<Branch>, b2: seq<Branch>)
    requires Included(b1, b2) && Included(b2, b1)
    ensures Decide(s, b1) == Decide(s, b2)
  {
    IncludedCovers(b1, b2);
    IncludedCovers(b2, b1);
    if AllWellFormed(b1) {
      assert forall leaf :: Covered(b1, leaf) == Covered(b2, leaf);
    }
  }

  /** Permuting the branches never changes the verdict. */
  lemma {:induction false} DecideOrderIndependent(s: WhenSubject, b1: seq<Branch>, b2: seq<Branch>)
    requires multiset(b1) == multiset(b2)
    ensures Decide(s, b1) == Decide(s, b2)
  {
    forall i | 0 <= i < |b1| ensures b1[i] in b2 {
      assert b1[i] in multiset(b1);
    }
    forall i | 0 <= i < |b2| ensures b2[i] in b1 {
      assert b2[i] in multiset(b2);
    }
    SameBranchesSameDecision(s, b1, b2);
  }

  /**
   * The accumulators only move from false to true, so more branches never
   * undo a mark (as long as the added branches can be visited).
   */
  lemma {:induction false} MoreBranchesKeepMark(s: WhenSubject, branches: seq<Branch>, extra: seq<Branch>)
    requires Marks(Decide(s, branches))
    requires Decide(s, branches + extra) != IndexFault
    ensures Marks(Decide(s, branches + extra))
  {
    var all := branches + extra;
    forall i | 0 <= i < |branches| ensures branches[i] in all {
      assert all[i] == branches[i];
    }
    IncludedCovers(branches, all);
  }

  /**
   * A condition that neither visitor can draw coverage from: not `else`, and
   * leading to no Boolean constant, no null constant and no qualifier with a
   * class id (a non-EQ comparison, an `is` check, a call, a number).
   */
  predicate Inert(c: Condition) {
    c != ElseIfTrue && WellFormed(c)
    && match Target(c)
       case Const(value) => value.OtherValue?
       case ResolvedQualifier(classId) => classId.None?
       case _ => true
  }

  /** Adding a branch that the visitors ignore never changes the verdict. */
  lemma {:induction false} InertBranchIgnored(s: WhenSubject, branches: seq<Branch>, b: Branch)
    requires Inert(b.condition)
    ensures Decide(s, branches + [b]) == Decide(s, branches)
  {
    var all := branches + [b];
    forall i | 0 <= i < |branches| ensures branches[i] in all {
      assert all[i] == branches[i];
    }
    IncludedCovers(branches, all);
    if HasElseBranch(all) {
      var i :| 0 <= i < |all| && all[i].condition == ElseIfTrue;
      assert i < |branches| && branches[i] == all[i];
    }
    if AllWellFormed(branches) {
      forall i | 0 <= i < |all| ensures WellFormed(all[i].condition) {
        if i < |branches| { assert all[i] == branches[i]; }
      }
      forall leaf | Covered(all, leaf) && (leaf.Const? || leaf.ResolvedQualifier?) && leaf != Const(OtherValue)
          && leaf != ResolvedQualifier(None)
        ensures Covered(branches, leaf)
      {
        var i :| 0 <= i < |all| && Target(all[i].condition) == leaf;
        assert i < |branches|;
        assert Target(branches[i].condition) == leaf;
      }
    }
  }
}
