# Exhaustiveness of Kotlin `when` expressions in the FIR resolver

This project models `FirWhenExhaustivenessTransformer`, the step of the Kotlin
compiler's FIR (frontend intermediate representation) resolver that decides
whether the branches of a resolved `when` expression cover every value of its
subject's type and, if they do, sets the expression's `isExhaustive` flag.

- `fir.dfy` (module `Fir`): the tree the check reads. Branch conditions are a
  datatype (the `else` marker, operator calls with their operation and
  arguments, constants, resolved qualifiers with an optional class id, anything
  else); the subject is the return type ref of its subject variable and/or its
  subject expression; a cone type carries its lookup tag (its class-like class
  id and the regular class it resolves to) and its nullability. The
  `WhenExpression` is a class whose one mutable field is `isExhaustive`.
- `coverage.dfy` (module `Coverage`): the specification. `Target` is the
  node a visitor finally acts on (EQ calls are followed into `arguments[1]`,
  every other node is a leaf); `Covered` says some branch leads to a given
  leaf; `Classify` is the dispatch on the subject type; `Decide` is the
  verdict. Lemmas state order independence, monotonicity, that ignored branch
  shapes change nothing, and the `else` short-circuit.
- `transformer.dfy` (module `Transformer`): the check as the compiler runs
  it. The two accumulators are classes (`BooleanExhaustivenessFlags`,
  `EnumExhaustivenessData` with its `visitedEntries` map); the visitors are
  recursive methods that update them; the checks loop over the branches and are
  proved equal to the specification's verdicts; `ProcessExhaustivenessCheck`
  and `TransformWhenExpression` write the flag.
- `fixtures.dfy`: the `when` expressions of the resolve test data file
  `exhaustiveness.kt`, with the verdict proved for each.

Behaviours of the code a reader might not expect; the model follows the code in each:

- The enum null flag starts out set when the subject type is NOT_NULL, so a
  non-null enum subject whose entries are all covered is exhaustive without a
  `null` branch (`EnumAllEntries`). Only a nullable (or unknown-nullability)
  subject needs the `null` branch (`NullableEnumNeedsNullBranch`).
- Only the `else` marker (`FirElseIfTrueCondition`) short-circuits the check;
  a branch whose condition is the constant `true` is visited like any other.
- The Boolean check does not look at nullability, so on a `Boolean?` subject
  the branches `true` and `false` mark the expression
  (`NullableBooleanIgnoresNull`).
- The subject variable's type ref is used whenever a subject variable exists,
  even when it is unresolved (`UnresolvedVariableUnchecked`).

## Model

| member | source | states |
|---|---|---|
| `Coverage.Target` | compiler/fir/resolve/src/org/jetbrains/kotlin/fir/resolve/transformers/FirWhenExhaustivenessTransformer.kt:87-91 | the node a visitor acts on is never an EQ call, and differs from the condition only when the condition is an EQ call (only `arguments[1]` of EQ calls is followed) |
| `Coverage.OnlySecondArgumentFollowed` | compiler/fir/resolve/src/org/jetbrains/kotlin/fir/resolve/transformers/FirWhenExhaustivenessTransformer.kt:87-91 | the node an EQ call leads to is the one its second argument leads to, whatever its first argument is |
| `Coverage.SubjectType` | compiler/fir/resolve/src/org/jetbrains/kotlin/fir/resolve/transformers/FirWhenExhaustivenessTransformer.kt:42-44 | the subject type comes from the subject variable's type ref whenever there is a subject variable (and is absent when that ref is unresolved), otherwise from a qualified-access subject expression's resolved type ref; absent in every other case |
| `Coverage.Decide` | compiler/fir/resolve/src/org/jetbrains/kotlin/fir/resolve/transformers/FirWhenExhaustivenessTransformer.kt:36-67 | the outcome of the check: `else` branch exactly when some branch is the else-marker; gives up exactly when there is no `else` and the subject kind is unsupported; an index fault only on a malformed EQ call; exhaustive exactly when there is no `else`, every condition can be visited, and the Boolean subject has both `true` and `false` covered or the enum subject has its null flag set and every entry covered |
| `Coverage.Classify` | compiler/fir/resolve/src/org/jetbrains/kotlin/fir/resolve/transformers/FirWhenExhaustivenessTransformer.kt:42-59 | Boolean exactly when the subject's resolved, lookup-tag based type has the `kotlin/Boolean` class id; otherwise, when the tag resolves to a regular class: enum (carrying that class and the subject type) for an enum class, sealed for a non-enum class with sealed modality, unsupported for any other class; enum and sealed in no other case |
| `Coverage.ElseBranchMarks` | compiler/fir/resolve/src/org/jetbrains/kotlin/fir/resolve/transformers/FirWhenExhaustivenessTransformer.kt:37-40 | an `else` branch anywhere marks the expression, whatever the subject and the other branches |
| `Coverage.UnresolvedVariableUnchecked` | compiler/fir/resolve/src/org/jetbrains/kotlin/fir/resolve/transformers/FirWhenExhaustivenessTransformer.kt:42-44 | a subject variable with an unresolved type ref makes the check give up, even when the subject expression has a resolved type |
| `Coverage.SealedNeverExhaustive` | compiler/fir/resolve/src/org/jetbrains/kotlin/fir/resolve/transformers/FirWhenExhaustivenessTransformer.kt:53-56 | a sealed, non-enum subject without `else` is never exhaustive |
| `Coverage.DecideOrderIndependent` | compiler/fir/resolve/src/org/jetbrains/kotlin/fir/resolve/transformers/FirWhenExhaustivenessTransformer.kt:76-79 | permuting the branches never changes the verdict |
| `Coverage.SameBranchesSameDecision` | compiler/fir/resolve/src/org/jetbrains/kotlin/fir/resolve/transformers/FirWhenExhaustivenessTransformer.kt:76-79 | two branch lists holding the same branches get the same verdict |
| `Coverage.MoreBranchesKeepMark` | compiler/fir/resolve/src/org/jetbrains/kotlin/fir/resolve/transformers/FirWhenExhaustivenessTransformer.kt:93-102 | accumulators only move from false to true: adding branches never turns a marked expression into an unmarked one |
| `Coverage.InertBranchIgnored` | compiler/fir/resolve/src/org/jetbrains/kotlin/fir/resolve/transformers/FirWhenExhaustivenessTransformer.kt:85-91 | adding a branch whose condition leads to no Boolean constant, no null and no qualifier with a class id (a non-EQ comparison, an `is` check, a call) leaves the verdict unchanged |
| `Transformer.EnumExhaustivenessData.constructor` | compiler/fir/resolve/src/org/jetbrains/kotlin/fir/resolve/transformers/FirWhenExhaustivenessTransformer.kt:82 | the accumulator holds the given entry map and null flag |
| `Transformer.AcceptEnumVisitor` | compiler/fir/resolve/src/org/jetbrains/kotlin/fir/resolve/transformers/FirWhenExhaustivenessTransformer.kt:84-103 | the entry map keeps exactly its keys; an entry's flag becomes set iff it was set or the condition leads to a qualifier with that entry's class id; the null flag becomes set iff it was set or the condition leads to the null constant |
| `Transformer.CheckEnumExhaustiveness` | compiler/fir/resolve/src/org/jetbrains/kotlin/fir/resolve/transformers/FirWhenExhaustivenessTransformer.kt:71-80 | the answer is: the subject type is NOT_NULL or some branch leads to `null`, and every entry of the enum is reached by some branch's qualifier |
| `Transformer.CheckSealedClassExhaustiveness` | compiler/fir/resolve/src/org/jetbrains/kotlin/fir/resolve/transformers/FirWhenExhaustivenessTransformer.kt:107-110 | the answer is always "not exhaustive" |
| `Transformer.BooleanExhaustivenessFlags.constructor` | compiler/fir/resolve/src/org/jetbrains/kotlin/fir/resolve/transformers/FirWhenExhaustivenessTransformer.kt:122-125 | both flags start cleared |
| `Transformer.AcceptBooleanVisitor` | compiler/fir/resolve/src/org/jetbrains/kotlin/fir/resolve/transformers/FirWhenExhaustivenessTransformer.kt:127-142 | the true flag becomes set iff it was set or the condition leads to the constant `true`; likewise for `false`; nothing else changes |
| `Transformer.CheckBooleanExhaustiveness` | compiler/fir/resolve/src/org/jetbrains/kotlin/fir/resolve/transformers/FirWhenExhaustivenessTransformer.kt:114-120 | the answer is: some branch leads to `true` and some branch leads to `false` |
| `Fir.WhenExpression.ReplaceIsExhaustive` | compiler/fir/resolve/src/org/jetbrains/kotlin/fir/resolve/transformers/FirWhenExhaustivenessTransformer.kt:62 | the flag takes the given value |
| `Transformer.ProcessExhaustivenessCheck` | compiler/fir/resolve/src/org/jetbrains/kotlin/fir/resolve/transformers/FirWhenExhaustivenessTransformer.kt:36-67 | when the verdict marks the expression, its flag is set and the expression is returned; otherwise the result is null and the flag is untouched |
| `Transformer.TransformWhenExpression` | compiler/fir/resolve/src/org/jetbrains/kotlin/fir/resolve/transformers/FirWhenExhaustivenessTransformer.kt:31-34 | returns the same node, whose flag is its old value or the verdict's mark, so a second run changes nothing |
| `ExhaustivenessTestData.BooleanTrueOnly` | compiler/fir/resolve/testData/resolve/exhaustiveness.kt:6-8 | a lone `true` branch is not exhaustive |
| `ExhaustivenessTestData.BooleanTrueFalse` | compiler/fir/resolve/testData/resolve/exhaustiveness.kt:9-12 | `true` and `false` branches are exhaustive |
| `ExhaustivenessTestData.BooleanTrueElse` | compiler/fir/resolve/testData/resolve/exhaustiveness.kt:13-16 | `true` and `else` are exhaustive through `else` |
| `ExhaustivenessTestData.EnumMissingEntry` | compiler/fir/resolve/testData/resolve/exhaustiveness.kt:20-23 | `Enum.A`, `Enum.B` without `Enum.C` are not exhaustive |
| `ExhaustivenessTestData.EnumMissingEntryWithIsCheck` | compiler/fir/resolve/testData/resolve/exhaustiveness.kt:25-29 | an `is String` branch does not make up for the missing entry |
| `ExhaustivenessTestData.EnumAllEntries` | compiler/fir/resolve/testData/resolve/exhaustiveness.kt:31-35 | all three entries on a non-null subject are exhaustive without a `null` branch |
| `ExhaustivenessTestData.EnumElse` | compiler/fir/resolve/testData/resolve/exhaustiveness.kt:37-40 | one entry and `else` are exhaustive through `else` |
| `ExhaustivenessTestData.NullableEnumNeedsNullBranch` | compiler/fir/resolve/src/org/jetbrains/kotlin/fir/resolve/transformers/FirWhenExhaustivenessTransformer.kt:74 | on a nullable enum subject all entries are not exhaustive, all entries plus `null` are |
| `ExhaustivenessTestData.NullableBooleanIgnoresNull` | compiler/fir/resolve/src/org/jetbrains/kotlin/fir/resolve/transformers/FirWhenExhaustivenessTransformer.kt:47-49 | on a `Boolean?` subject, `true` and `false` branches are exhaustive without `null` |
| `ExhaustivenessTestData.NotEqualIsNoCoverage` | compiler/fir/resolve/src/org/jetbrains/kotlin/fir/resolve/transformers/FirWhenExhaustivenessTransformer.kt:130-134 | a `!= true` branch is not coverage of `true` |

## Left out

- `transformElement` throws `IllegalArgumentException` for any node other than a `when` expression; the model has only the `when` entry point.
- An EQ call with fewer than two arguments makes the source's visitors throw an index exception; `Decide` reports it as `IndexFault` and the imperative entry points require that it does not occur.
- Session and symbol resolution (`toSymbol`, the built-in Boolean type, `collectEnumEntries`) are inputs: a lookup tag carries its class id and the class it resolves to, a class carries its entries.
- Branch result expressions, source positions and diagnostics play no part in the check and are not modelled.
- `FirWhenExpression` is not part of this model beyond its subject, its branch conditions and its `isExhaustive` flag; the branches are treated as constant because the check never changes them.
