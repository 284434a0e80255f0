/**
 * The part of the FIR (frontend intermediate representation) tree that the
 * `when`-exhaustiveness check reads: the resolved subject type, the branch
 * conditions, and the `isExhaustive` flag of the `when` expression itself.
 * Session and symbol resolution are folded into these values: a lookup tag
 * carries the class it resolves to, a class carries its enum entries.
 */
module Fir {
  import opened Wrappers

  /** A fully qualified class name, such as `kotlin/Boolean` or `Enum.A`. */
  type ClassId = string

  /** The class id of the built-in `kotlin.Boolean` type. */
  const BooleanClassId: ClassId := "kotlin/Boolean"

  // ------------------------ Types and classes ------------------------

  datatype ClassKind = EnumClass | OrdinaryClass | InterfaceClass | ObjectClass | AnnotationClass

  datatype Modality = Final | Open | Abstract | Sealed

  /**
   * A `FirRegularClass`: its kind, its modality and, for an enum class, the
   * class ids of its entries in declaration order.
   */
  datatype RegularClass = RegularClass(classKind: ClassKind, modality: Modality, enumEntries: seq<ClassId>)

  /**
   * The lookup tag of a `ConeLookupTagBasedType`. `classLikeId` is the class id
   * when the tag is a `ConeClassLikeLookupTag`; `symbol` is what resolving the
   * tag in the session yields when that is a regular class.
   */
  datatype LookupTag = LookupTag(classLikeId: Option<ClassId>, symbol: Option<RegularClass>)

  datatype Nullability = Nullable | UnknownNullability | NotNull

  /** A cone type; `lookupTag` is `None` when the type is not lookup-tag based. */
  datatype ConeType = ConeType(lookupTag: Option<LookupTag>, nullability: Nullability)

  datatype TypeRef = ResolvedTypeRef(coneType: ConeType) | UnresolvedTypeRef

  /** The subject expression of a `when`; only a qualified access contributes its type ref. */
  datatype SubjectExpression = SubjectExpression(isQualifiedAccess: bool, typeRef: TypeRef)

  /**
   * What a `when` says about its subject: the return type ref of its subject
   * variable (`when (val x = e)`), and its subject expression, either of which
   * may be absent.
   */
  datatype WhenSubject = WhenSubject(variableTypeRef: Option<TypeRef>, expression: Option<SubjectExpression>)

  // ------------------------ Branch conditions ------------------------

  datatype Operation = Eq | NotEq | Identity | NotIdentity | Lt | Gt | LtEq | GtEq | Is | NotIs | As | SafeAs | OtherOperation

  /** The value of a `FirConstExpression`; `OtherValue` stands for numbers, characters and strings. */
  datatype ConstValue = BooleanValue(b: bool) | NullValue | OtherValue

  /**
   * The shapes of condition trees that the visitors tell apart. A branch
   * `Enum.A -> ...` of `when (e)` has the condition
   * `OperatorCall(Eq, [subject, ResolvedQualifier(Some("Enum.A"))])`, a
   * branch `true -> ...` has `OperatorCall(Eq, [subject, Const(BooleanValue(true))])`,
   * and an `else` branch has `ElseIfTrue`.
   */
  datatype Condition =
    | ElseIfTrue
    | OperatorCall(operation: Operation, arguments: seq<Condition>)
    | Const(value: ConstValue)
    | ResolvedQualifier(classId: Option<ClassId>)
    | OtherExpression

  /** A `FirWhenBranch`; its result expression plays no part in the check. */
  datatype Branch = Branch(condition: Condition)

  /**
   * A `FirWhenExpression`. The check never restructures the tree, so subject
   * and branches are constant; `isExhaustive` is the one field it writes.
   */
  class WhenExpression {
    const subject: WhenSubject
    const branches: seq<Branch>
    var isExhaustive: bool

    constructor (subject: WhenSubject, branches: seq<Branch>)
      ensures this.subject == subject && this.branches == branches
      ensures !isExhaustive
    {
      this.subject := subject;
      this.branches := branches;
      isExhaustive := false;
    }

    /** `replaceIsExhaustive`: overwrite the flag. */
    method ReplaceIsExhaustive(newIsExhaustive: bool)
      modifies this
      ensures isExhaustive == newIsExhaustive
    {
      isExhaustive := newIsExhaustive;
    }
  }
}
