/**
 * The exhaustiveness transformer as the compiler runs it: a fresh accumulator
 * per `when`, a loop that lets a visitor fold every branch condition into it,
 * a final test, and the one write to the expression, `isExhaustive := true`.
 */
module Transformer {
  import opened Wrappers
  import opened Fir
  import opened Coverage

  // ------------------------ Enum exhaustiveness ------------------------

  /** The enum accumulator: a "seen" flag per entry and the null flag. */
  class EnumExhaustivenessData {
    var visitedEntries: map<ClassId, bool>
    var containsNull: bool

    constructor (visitedEntries: map<ClassId, bool>, containsNull: bool)
      ensures this.visitedEntries == visitedEntries && this.containsNull == containsNull
    {
      this.visitedEntries := visitedEntries;
      this.containsNull := containsNull;
    }
  }

  /**
   * `condition.accept(EnumExhaustivenessVisitor, data)`: follow an EQ call into
   * its second argument; a qualifier with a class id flips that entry's flag
   * if the entry is a key (`replace` never adds one); the null constant sets
   * the null flag; anything else is left alone.
   */
  method AcceptEnumVisitor(c: Condition, data: EnumExhaustivenessData)
    requires WellFormed(c)
    modifies data
    ensures data.visitedEntries.Keys == old(data.visitedEntries).Keys
    ensures forall e | e in data.visitedEntries ::
      data.visitedEntries[e] == (old(data.visitedEntries)[e] || Target(c) == ResolvedQualifier(Some(e)))
    ensures data.containsNull == (old(data.containsNull) || Target(c) == Const(NullValue))
    decreases c
  {
    match c
    case OperatorCall(operation, arguments) =>
      if operation == Eq {
        AcceptEnumVisitor(arguments[1], data);
      }
    case ResolvedQualifier(classId) =>
      if classId.Some? && classId.value in data.visitedEntries {
        data.visitedEntries := data.visitedEntries[classId.value := true];
      }
    case Const(value) =>
      if value == NullValue {
        data.containsNull := true;
      }
    case _ =>
  }

  /**
   * `checkEnumExhaustiveness`: every entry of the enum starts unseen, the null
   * flag starts set exactly when the subject type is NOT_NULL, and the answer
   * is the null flag together with every entry's flag.
   */
  method CheckEnumExhaustiveness(whenExpression: WhenExpression, enumClass: RegularClass, typeRef: ConeType)
    returns (exhaustive: bool)
    requires AllWellFormed(whenExpression.branches)
    ensures exhaustive == EnumCovered(enumClass.enumEntries, typeRef.nullability, whenExpression.branches)
  {
    var entries := enumClass.enumEntries;
    var data := new EnumExhaustivenessData(map e | e in entries :: false, typeRef.nullability == NotNull);
    var branches := whenExpression.branches;
    for i := 0 to |branches|
      invariant AllWellFormed(branches[..i])
      invariant data.visitedEntries.Keys == set e | e in entries
      invariant forall e | e in data.visitedEntries ::
        data.visitedEntries[e] == Covered(branches[..i], ResolvedQualifier(Some(e)))
      invariant data.containsNull == (typeRef.nullability == NotNull || Covered(branches[..i], Const(NullValue)))
    {
      AcceptEnumVisitor(branches[i].condition, data);
      CoveredExtend(branches, i);
    }
    assert branches[..|branches|] == branches;
    exhaustive := data.containsNull && forall visited | visited in data.visitedEntries.Values :: visited;
    if !exhaustive && data.containsNull {
      var visited :| visited in data.visitedEntries.Values && !visited;
      var e :| e in data.visitedEntries && data.visitedEntries[e] == visited;
    }
    if exhaustive {
      forall e | e in data.visitedEntries ensures data.visitedEntries[e] {
        assert data.visitedEntries[e] in data.visitedEntries.Values;
      }
    }
  }

  // ------------------------ Sealed class exhaustiveness ------------------------

  /** `checkSealedClassExhaustiveness` is a stub that never finds a `when` exhaustive. */
  method CheckSealedClassExhaustiveness(whenExpression: WhenExpression) returns (exhaustive: bool)
    ensures !exhaustive
  {
    exhaustive := false;
  }

  // ------------------------ Boolean exhaustiveness ------------------------

  /** The Boolean accumulator: whether `true` and whether `false` were seen. */
  class BooleanExhaustivenessFlags {
    var containsTrue: bool
    var containsFalse: bool

    constructor ()
      ensures !containsTrue && !containsFalse
    {
      containsTrue := false;
      containsFalse := false;
    }
  }

  /**
   * `condition.accept(BooleanExhaustivenessVisitor, flags)`: follow an EQ call
   * into its second argument; a `true` or `false` constant sets its flag;
   * anything else is left alone.
   */
  method AcceptBooleanVisitor(c: Condition, flags: BooleanExhaustivenessFlags)
    requires WellFormed(c)
    modifies flags
    ensures flags.containsTrue == (old(flags.containsTrue) || Target(c) == Const(BooleanValue(true)))
    ensures flags.containsFalse == (old(flags.containsFalse) || Target(c) == Const(BooleanValue(false)))
    decreases c
  {
    match c
    case OperatorCall(operation, arguments) =>
      if operation == Eq {
        AcceptBooleanVisitor(arguments[1], flags);
      }
    case Const(value) =>
      if value == BooleanValue(true) {
        flags.containsTrue := true;
      } else if value == BooleanValue(false) {
        flags.containsFalse := true;
      }
    case _ =>
  }

  /** `checkBooleanExhaustiveness`: exhaustive when both `true` and `false` were seen. */
  method CheckBooleanExhaustiveness(whenExpression: WhenExpression) returns (exhaustive: bool)
    requires AllWellFormed(whenExpression.branches)
    ensures exhaustive == BooleanCovered(whenExpression.branches)
  {
    var flags := new BooleanExhaustivenessFlags();
    var branches := whenExpression.branches;
    for i := 0 to |branches|
      invariant AllWellFormed(branches[..i])
      invariant flags.containsTrue == Covered(branches[..i], Const(BooleanValue(true)))
      invariant flags.containsFalse == Covered(branches[..i], Const(BooleanValue(false)))
    {
      AcceptBooleanVisitor(branches[i].condition, flags);
      CoveredExtend(branches, i);
    }
    assert branches[..|branches|] == branches;
    exhaustive := flags.containsTrue && flags.containsFalse;
  }

  /** One more branch adds exactly what its own condition leads to. */
  lemma CoveredExtend(branches: seq<Branch>, i: nat)
    requires AllWellFormed(branches) && i < |branches|
    ensures AllWellFormed(branches[..i + 1])
    ensures forall leaf {:trigger Covered(branches[..i + 1], leaf)} ::
      Covered(branches[..i + 1], leaf) == (Covered(branches[..i], leaf) || Target(branches[i].condition) == leaf)
  {
    var next := branches[..i + 1];
    forall leaf
      ensures Covered(next, leaf) == (Covered(branches[..i], leaf) || Target(branches[i].condition) == leaf)
    {
      if Covered(next, leaf) {
        var j :| 0 <= j < |next| && Target(next[j].condition) == leaf;
        if j < i {
          assert branches[..i][j] == next[j];
        }
      }
      if Covered(branches[..i], leaf) {
        var j :| 0 <= j < i && Target(branches[..i][j].condition) == leaf;
        assert next[j] == branches[..i][j];
      }
      if Target(branches[i].condition) == leaf {
        assert next[i] == branches[i];
      }
    }
  }

  // ------------------------ The transformer ------------------------

  /**
   * `processExhaustivenessCheck`: an `else` branch marks the expression at
   * once; a subject that is not checkable yields null and leaves the flag
   * alone; otherwise the matching check runs and a positive answer marks the
   * expression. The flag is only ever set to true.
   */
  method ProcessExhaustivenessCheck(whenExpression: WhenExpression) returns (result: Option<WhenExpression>)
    requires Decide(whenExpression.subject, whenExpression.branches) != IndexFault
    modifies whenExpression
    ensures Marks(Decide(whenExpression.subject, whenExpression.branches)) ==>
      whenExpression.isExhaustive && result == Some(whenExpression)
    ensures !Marks(Decide(whenExpression.subject, whenExpression.branches)) ==>
      whenExpression.isExhaustive == old(whenExpression.isExhaustive) && result == None
  {
    if HasElseBranch(whenExpression.branches) {
      whenExpression.ReplaceIsExhaustive(true);
      return Some(whenExpression);
    }
    var isExhaustive: bool;
    match Classify(whenExpression.subject) {
      case UnsupportedSubject =>
        return None;
      case BooleanSubject =>
        isExhaustive := CheckBooleanExhaustiveness(whenExpression);
      case EnumSubject(enumClass, typeRef) =>
        isExhaustive := CheckEnumExhaustiveness(whenExpression, enumClass, typeRef);
      case SealedSubject =>
        isExhaustive := CheckSealedClassExhaustiveness(whenExpression);
    }
    if isExhaustive {
      whenExpression.ReplaceIsExhaustive(true);
      result := Some(whenExpression);
    } else {
      result := None;
    }
  }

  /**
   * `transformWhenExpression`: the result is always the same node; its flag
   * ends up set exactly when it was set before or the check marks it, so a
   * second run changes nothing.
   */
  method TransformWhenExpression(whenExpression: WhenExpression) returns (result: WhenExpression)
    requires Decide(whenExpression.subject, whenExpression.branches) != IndexFault
    modifies whenExpression
    ensures result == whenExpression
    ensures whenExpression.isExhaustive ==
      (old(whenExpression.isExhaustive) || Marks(Decide(whenExpression.subject, whenExpression.branches)))
  {
    var processed := ProcessExhaustivenessCheck(whenExpression);
    result := if processed.Some? then processed.value else whenExpression;
  }
}
