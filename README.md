# Chloe query-construction helpers, modelled in Dafny

This project models the three query-construction helpers of the Chloe ORM's `DbContext`
(`src/DotNet/Chloe/DbContext_Helper.cs`), and proves properties of that model:

- **Key predicate builder.** `BuildPredicate` turns a key value into the predicate
  `a => a.K1 == v1 && … && a.Kn == vn` over the entity. `EnsureEntityHasPrimaryKey` is its guard.
  A single primary key is bound to the key value itself. Several keys are read, in declaration
  order, from the same-named properties of a composite key object.
- **Join specification resolver.** `ResolveJoinInfo` takes a join lambda over `N` tables whose
  body is an array literal of `2*(N-1)` elements. These alternate a join type and a condition.
  It returns the `(join type, condition lambda)` steps in order. Step `i` is bound over the
  first `i+2` parameters.
- **Key condition map.** `CreateKeyValueMap` creates a dictionary with one unset entry per
  primary key. `MakeCondition` compiles a filled dictionary and a table into the database
  condition `col1 == @v1 AND … AND coln == @vn`.

`BuildPredicate`, `ResolveJoinInfo` and `MakeCondition` are methods with the loops of the C#
methods: they fill a list, append steps or update an accumulator. Each is proved equal to a
specification function: `KeyPredicate`, `JoinInfoResolution` and `KeyCondition` respectively.
The lemmas state what those functions guarantee. `CreateKeyValueMap` is a method with its loop
whose ensures give the new dictionary outright. `EnsureEntityHasPrimaryKey` has no loop and is
a function.
Exceptions become `Failure(Error)`, with the offending key or expression as the payload. Null
becomes `None`. The dictionaries and lists the code builds become ordered sequences, filled in
the order the code fills them.

Files:
- `Wrappers.dfy`: `Option` and `Result`.
- `LinqExpressions.dfy`: the LINQ expression nodes used here and runtime objects with their
  public properties. Also the left-nested `AndAlso` fold, its inverse `Conjuncts`, and the truth
  of a key predicate on an entity (`Holds`).
- `DbExpressions.dfy`: the database expression tree, the left-nested `DbAnd` fold and its inverse.
- `Descriptors.dfy`: entity metadata (entity type and primary-key descriptors).
- `DbContextHelper.dfy`: errors, the five routines, their specification functions and lemmas.

Behaviour of the code worth noting:
- `BuildPredicate` checks for a null key before it checks the metadata. A null key on a key-less
  entity therefore fails with `NullKey`, not `MissingPrimaryKey`.
- Evaluating a join-type slot can throw. The code does not catch that exception, so the
  model has its own error, `JoinTypeEvaluationFailed`. The code does not report it as an
  unsupported join type.
- The code never checks that step `i`'s condition mentions only `t0..t(i+1)`. It only binds
  the condition over that prefix. `JoinConditionScopeIsNotChecked` shows a condition that
  mentions a later table and is accepted.
- `MakeCondition` builds terms for the entries before the first unset one. Those terms are
  local and are dropped when it throws, so on failure no tree is returned. On an empty
  dictionary it returns null, not an empty condition.

## Model

| member | source | states |
|---|---|---|
| `LinqExpressions.FindProperty` | src/DotNet/Chloe/DbContext_Helper.cs:48 | `GetProperty(name)` finds a property exactly when the object has one with that name, and what it finds carries that name |
| `LinqExpressions.StripConvert` | src/DotNet/Chloe/DbContext_Helper.cs:139 | the unwrapped join condition is never a conversion node, and a node that is not a conversion is returned unchanged |
| `LinqExpressions.ConjunctsOfFoldAndAlso` | src/DotNet/Chloe/DbContext_Helper.cs:61-69 | the `lambdaBody == null ? e : AndAlso(lambdaBody, e)` accumulation is a left-nested conjunction. Read back along its left spine, it gives exactly the terms in order, and a single term stands alone |
| `LinqExpressions.FoldAndAlsoUnique` | src/DotNet/Chloe/DbContext_Helper.cs:61-69 | the accumulated conjunction is the only tree whose left-spine conjuncts are those terms |
| `LinqExpressions.HoldsFoldAndAlso` | src/DotNet/Chloe/DbContext_Helper.cs:63-71 | the accumulated conjunction holds of an entity exactly when every term holds |
| `DbExpressions.DbConjunctsOfFoldDbAnd` | src/DotNet/Chloe/DbContext_Helper.cs:171-186 | the `conditionExp == null ? equalExp : And(conditionExp, equalExp)` accumulation reads back as exactly its terms, in order |
| `DbExpressions.FoldDbAndUnique` | src/DotNet/Chloe/DbContext_Helper.cs:171-186 | the accumulated database condition is the only tree whose left-spine conjuncts are those terms |
| `DbContextHelper.EnsureEntityHasPrimaryKey` | src/DotNet/Chloe/DbContext_Helper.cs:75-79 | passes exactly when the entity declares at least one primary key, and otherwise fails with `MissingPrimaryKey` naming the entity type |
| `DbContextHelper.LookupKeyMember` | src/DotNet/Chloe/DbContext_Helper.cs:47-54 | a key is resolved exactly when the key object has a non-null same-named property, to that property's value. It fails with `MissingKeyMember` when there is no such property and with `NullKeyValue` when its value is null, both naming the key |
| `DbContextHelper.FirstUnresolvedKey` | src/DotNet/Chloe/DbContext_Helper.cs:45-57 | finds the first primary key, in declaration order, that the key object cannot supply: every earlier key resolves. It finds none exactly when every key resolves |
| `DbContextHelper.KeyValueMap` | src/DotNet/Chloe/DbContext_Helper.cs:30-58 | a key-value list that was built has one entry per primary key, in declaration order. Entry `k` binds `pks[k]` to the key itself when there is a single key, and otherwise to the value of the key object's same-named property, which is not null |
| `DbContextHelper.BuildPredicate` | src/DotNet/Chloe/DbContext_Helper.cs:22-74 | the method with the two loops (fill the key-value list, accumulate the body) returns exactly `KeyPredicate(key, entity)`, error or predicate |
| `DbContextHelper.KeyPredicateGuards` | src/DotNet/Chloe/DbContext_Helper.cs:24-28 | a null key fails with `NullKey` whatever the metadata. A non-null key for an entity without a primary key fails with `MissingPrimaryKey` |
| `DbContextHelper.SingleKeyPredicate` | src/DotNet/Chloe/DbContext_Helper.cs:32-35 | with one primary key `K` the predicate is `a => a.K == wrap(key)`, with no property lookup on the key. It holds of an entity exactly when the entity's `K` equals the key |
| `DbContextHelper.CompositeKeyPredicateOutcome` | src/DotNet/Chloe/DbContext_Helper.cs:42-57 | with several primary keys, the predicate is built exactly when every key has a non-null same-named property. Otherwise the error names the first key, in declaration order, that lacks one: `MissingKeyMember` if the property is absent, `NullKeyValue` if it is null |
| `DbContextHelper.KeyPredicateBody` | src/DotNet/Chloe/DbContext_Helper.cs:60-73 | a built predicate has the single parameter `a` of the entity type and delegate `Func<TEntity, bool>`. Its body is a left-nested conjunction of exactly one `a.K == wrap(v, type of K)` per primary key, in declaration order. `v` is the key itself for a single key and the same-named property otherwise |
| `DbContextHelper.KeyPredicateSemantics` | src/DotNet/Chloe/DbContext_Helper.cs:60-71 | a built predicate holds of an entity exactly when the entity agrees with the key on every primary key |
| `DbContextHelper.ResolveJoinStep` | src/DotNet/Chloe/DbContext_Helper.cs:129-154 | step `i` is resolved exactly when element `2i` evaluates to a `JoinType` and element `2i+1`, unwrapped, is boolean. A slot whose evaluation throws gives `JoinTypeEvaluationFailed` naming the slot. A slot that is null or another object gives `UnsupportedJoinType` naming the slot. A non-boolean condition gives `InvalidJoinCondition` naming the unwrapped condition |
| `DbContextHelper.FirstFailingStep` | src/DotNet/Chloe/DbContext_Helper.cs:120-155 | finds the first rejected step: every earlier step is accepted. It finds none exactly when every step is accepted |
| `DbContextHelper.JoinInfoFailsAtFirstRejectedStep` | src/DotNet/Chloe/DbContext_Helper.cs:120-155 | a well-shaped specification whose first rejected step is `i` fails with that step's error, and returns no steps |
| `DbContextHelper.JoinInfoSucceedsWithSteps` | src/DotNet/Chloe/DbContext_Helper.cs:120-157 | when every step resolves, the result is exactly those steps, in order |
| `DbContextHelper.ResolveJoinInfo` | src/DotNet/Chloe/DbContext_Helper.cs:87-158 | the indexed loop that appends to `ret` returns exactly `JoinInfoResolution(joinInfo, evaluate)` |
| `DbContextHelper.JoinInfoShapeChecks` | src/DotNet/Chloe/DbContext_Helper.cs:106-118 | a body that is not an array literal fails with `InvalidJoinInfo`. A length other than `2*(parameters-1)` fails with `JoinArityMismatch`. Zero parameters always fail, and one parameter with an empty array yields no steps |
| `DbContextHelper.JoinInfoSucceedsIff` | src/DotNet/Chloe/DbContext_Helper.cs:106-157 | resolution succeeds exactly when the body is an array literal of the right length and every step's join type and condition are accepted |
| `DbContextHelper.JoinInfoSteps` | src/DotNet/Chloe/DbContext_Helper.cs:120-157 | a resolved join has `parameters-1` steps in input order. Step `i` takes its join type from element `2i` and its condition, unwrapped and boolean, from element `2i+1`. That condition is bound over exactly the first `i+2` parameters, with delegate type arguments their types followed by `bool` |
| `DbContextHelper.JoinConditionScopeIsNotChecked` | src/DotNet/Chloe/DbContext_Helper.cs:146-152 | a step-0 condition that mentions the third table is accepted and bound over the first two parameters only: no scope check is made |
| `DbContextHelper.CreateKeyValueMap` | src/DotNet/Chloe/DbContext_Helper.cs:159-168 | the dictionary has exactly one entry per primary key, in declaration order, each unset |
| `DbContextHelper.FirstUnsetEntry` | src/DotNet/Chloe/DbContext_Helper.cs:172-178 | finds the first entry holding no value, with every earlier entry set. It finds none exactly when every entry is set |
| `DbContextHelper.MakeCondition` | src/DotNet/Chloe/DbContext_Helper.cs:169-187 | the loop with the early throw returns exactly `KeyCondition(map, table)` |
| `DbContextHelper.KeyConditionOutcome` | src/DotNet/Chloe/DbContext_Helper.cs:172-178 | compiling succeeds exactly when every entry holds a value. Otherwise it fails with `NullKeyValue` naming the first unset entry |
| `DbContextHelper.FreshKeyValueMapNeverCompiles` | src/DotNet/Chloe/DbContext_Helper.cs:159-178 | compiling a freshly created dictionary of a keyed entity fails, naming the first primary key |
| `DbContextHelper.KeyConditionShape` | src/DotNet/Chloe/DbContext_Helper.cs:171-186 | the compiled condition is null exactly for an empty dictionary. Otherwise it is a left-nested `And` of exactly one `Equal(ColumnAccess(table, key.Column), Parameter(value, key.MemberInfoType))` per entry, in dictionary order |
| `DbContextHelper.KeyConditionIsStructural` | src/DotNet/Chloe/DbContext_Helper.cs:180-186 | two filled dictionaries that agree, entry by entry, on column, declared type and value compile to the same tree |

## Left out

- Reflection and metadata lookup (`TypeDescriptor.GetDescriptor`, `GetMemberValue`) are not modelled. The entity metadata is given as a `TypeDescriptor` value. A key object is given as a value with its public properties in order, and `GetProperty` is the first property with the name. `AmbiguousMatchException` for duplicate names is not modelled.
- A scalar key object is treated as having no public properties. So with several primary keys, a scalar key always fails with `MissingKeyMember` for the first key. In .NET, `GetProperty` could find a property such as `Length` on a string.
- `ExpressionEvaluator.Evaluate` is not modelled. It is a parameter `evaluate` that classifies a join-type slot as a `JoinType`, null, another object, or an exception.
- `StripConvert` (in `ExpressionExtension`) is not part of this model. Here it removes every `Convert` node around an expression. `ConvertChecked` nodes are not modelled.
- `Expression.Type` of nodes other than comparisons and conjunctions is taken from the node. Overloaded or lifted operators are not modelled.
- `MakeWrapperAccess` coerces a value in a type-driven way, and that coercion is not modelled: `Wrapper(value, type)` stands for its result. `Holds` treats the wrapped value as the value itself.
- `ConvertIdentityType` is not modelled, since it is runtime type conversion through `Convert.ChangeType`.
- `Utils.GetFuncDelegateType` and `Expression.Lambda` are not modelled. A lambda is recorded as its delegate type arguments, body and parameters. Exceptions that `Expression.Equal`, `Expression.PropertyOrField` or `Expression.Lambda` could raise for ill-typed input are not modelled.
- `Dictionary.Add` throws on a repeated key, and this is not modelled. The descriptors of one entity are distinct objects, so it cannot happen. The dictionary is an ordered sequence in insertion order, which is how the code fills it; .NET enumeration order is not separately modelled.
- Exception types and message texts are not modelled. Each error records its kind and the key, expression or join specification that the message names.
