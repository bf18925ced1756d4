/**
  The query-construction helpers of DbContext: the key predicate builder
  (BuildPredicate, EnsureEntityHasPrimaryKey), the join specification resolver
  (ResolveJoinInfo) and the key condition map (CreateKeyValueMap, MakeCondition).
  BuildPredicate, ResolveJoinInfo and MakeCondition are methods with the loops of
  the C# methods, each proved equal to a specification function (KeyPredicate,
  JoinInfoResolution, KeyCondition); the lemmas state what those functions
  guarantee. CreateKeyValueMap is a method with its loop whose ensures give the
  dictionary outright, and EnsureEntityHasPrimaryKey, a guard without a loop, is
  a function.
 */
module DbContextHelper {
  import opened Wrappers
  import opened LinqExpressions
  import opened DbExpressions
  import opened Descriptors

  /** The exceptions the helpers throw, each with what its message names. */
  datatype Error =
    | NullKey                                  // the key argument itself is null
    | MissingPrimaryKey(entityType: ClrType)   // the entity type defines no primary key
    | MissingKeyMember(keyName: string)        // the key object has no property for this key
    | NullKeyValue(keyName: string)            // this key's value is null
    | InvalidJoinInfo(joinInfo: LambdaExpr)    // the join body is not an array literal
    | JoinArityMismatch(joinInfo: LambdaExpr)  // the array does not hold two elements per joined table
    | JoinTypeEvaluationFailed(slot: Expr)     // evaluating the join-type slot threw
    | UnsupportedJoinType(slot: Expr)          // the join-type slot is not a JoinType value
    | InvalidJoinCondition(condition: Expr)    // the join condition is not boolean

  // ===================================================================
  // Key predicate builder
  // ===================================================================

  /** Fails exactly when the entity type declares no primary key. */
  function EnsureEntityHasPrimaryKey(td: TypeDescriptor): (r: Option<Error>)
    ensures r.None? <==> |td.primaryKeys| > 0
    ensures r.Some? ==> r.value == MissingPrimaryKey(td.entityType)
  {
    if td.HasPrimaryKey() then None else Some(MissingPrimaryKey(td.entityType))
  }

  /** An entry of the key-value list: a primary-key member and the value it must equal. */
  datatype KeyValuePair = KeyValuePair(key: MappingMemberDescriptor, value: Value)

  /** The value a composite key object supplies for one primary key, or the error naming that key. */
  function LookupKeyMember(key: Value, pk: MappingMemberDescriptor): (r: Result<Value, Error>)
    ensures r.Success? <==> MemberValue(key, pk.memberName).Some?
    ensures r.Success? ==> MemberValue(key, pk.memberName) == Some(r.value)
    ensures r.Failure? && FindProperty(PropertiesOf(key), pk.memberName).None? ==> r.error == MissingKeyMember(pk.memberName)
    ensures r.Failure? && FindProperty(PropertiesOf(key), pk.memberName).Some? ==> r.error == NullKeyValue(pk.memberName)
  {
    match FindProperty(PropertiesOf(key), pk.memberName)
    case None => Failure(MissingKeyMember(pk.memberName))
    case Some(p) =>
      match p.value
      case None => Failure(NullKeyValue(pk.memberName))
      case Some(v) => Success(v)
  }

  /** The first primary key at or after `from` that the key object does not supply. */
  function FirstUnresolvedKey(key: Value, pks: seq<MappingMemberDescriptor>, from: nat): (r: Option<nat>)
    requires from <= |pks|
    ensures r.Some? ==> from <= r.value < |pks| && LookupKeyMember(key, pks[r.value]).Failure?
    ensures r.Some? ==> forall k :: from <= k < r.value ==> LookupKeyMember(key, pks[k]).Success?
    ensures r.None? ==> forall k :: from <= k < |pks| ==> LookupKeyMember(key, pks[k]).Success?
    decreases |pks| - from
  {
    if from == |pks| then None
    else if LookupKeyMember(key, pks[from]).Failure? then Some(from)
    else FirstUnresolvedKey(key, pks, from + 1)
  }

  /** A composite key: every primary key with its member value in key order, or the first key's error. */
  function ResolveKeyMembers(key: Value, pks: seq<MappingMemberDescriptor>): (r: Result<seq<KeyValuePair>, Error>)
  {
    match FirstUnresolvedKey(key, pks, 0)
    case Some(f) => Failure(LookupKeyMember(key, pks[f]).error)
    case None => Success(seq(|pks|, k requires 0 <= k < |pks| => KeyValuePair(pks[k], LookupKeyMember(key, pks[k]).value)))
  }

  /** The key-value list of BuildPredicate: a single key is bound to the key value itself. */
  function KeyValueMap(key: Value, pks: seq<MappingMemberDescriptor>): (r: Result<seq<KeyValuePair>, Error>)
    ensures r.Success? ==> |r.value| == |pks|
    ensures r.Success? ==> forall k :: 0 <= k < |pks| ==>
      && r.value[k].key == pks[k]
      && (|pks| == 1 ==> r.value[k].value == key)
      && (|pks| != 1 ==> MemberValue(key, pks[k].memberName) == Some(r.value[k].value))
  {
    assert |pks| != 1 && ResolveKeyMembers(key, pks).Success? ==> FirstUnresolvedKey(key, pks, 0).None?;
    if |pks| == 1 then Success([KeyValuePair(pks[0], key)]) else ResolveKeyMembers(key, pks)
  }

  /** `a.K == wrapped value` for one entry. */
  function KeyEquality(a: ParameterExpr, kv: KeyValuePair): Expr
  {
    Equal(PropertyOrField(Parameter(a), kv.key.memberName, kv.key.memberType), Wrapper(kv.value, kv.key.memberType))
  }

  function KeyEqualities(a: ParameterExpr, m: seq<KeyValuePair>): (r: seq<Expr>)
    ensures |r| == |m| && forall k :: 0 <= k < |m| ==> r[k] == KeyEquality(a, m[k])
  {
    seq(|m|, k requires 0 <= k < |m| => KeyEquality(a, m[k]))
  }

  /** The predicate's parameter `a`, of the entity type. */
  function PredicateParameter(td: TypeDescriptor): ParameterExpr
  {
    ParameterExpr("a", td.entityType)
  }

  /** The predicate `a => a.K1 == v1 && … && a.Kn == vn` for a key value, or the error. */
  function KeyPredicate(key: Option<Value>, td: TypeDescriptor): Result<LambdaExpr, Error>
  {
    if key.None? then Failure(NullKey)
    else match EnsureEntityHasPrimaryKey(td)
      case Some(e) => Failure(e)
      case None =>
        match KeyValueMap(key.value, td.primaryKeys)
        case Failure(e) => Failure(e)
        case Success(m) =>
          var a := PredicateParameter(td);
          Success(LambdaExpr([td.entityType, TypeOfBoolean], FoldAndAlso(KeyEqualities(a, m)).value, [a]))
  }

  method BuildPredicate(key: Option<Value>, td: TypeDescriptor) returns (r: Result<LambdaExpr, Error>)
    ensures r == KeyPredicate(key, td)
  {
    if key.None? {
      return Failure(NullKey);
    }
    var missing := EnsureEntityHasPrimaryKey(td);
    if missing.Some? {
      return Failure(missing.value);
    }
    var pks := td.primaryKeys;
    var keyValueMap: seq<KeyValuePair> := [];
    if |pks| == 1 {
      keyValueMap := [KeyValuePair(pks[0], key.value)];
    } else {
      var multipleKeyObject := key.value;
      for i := 0 to |pks|
        invariant |keyValueMap| == i
        invariant forall k :: 0 <= k < i ==> LookupKeyMember(multipleKeyObject, pks[k]) == Success(keyValueMap[k].value)
        invariant forall k :: 0 <= k < i ==> keyValueMap[k].key == pks[k]
      {
        var keyMember := FindProperty(PropertiesOf(multipleKeyObject), pks[i].memberName);
        if keyMember.None? {
          return Failure(MissingKeyMember(pks[i].memberName));
        }
        var value := keyMember.value.value;
        if value.None? {
          return Failure(NullKeyValue(pks[i].memberName));
        }
        keyValueMap := keyValueMap + [KeyValuePair(pks[i], value.value)];
      }
      assert FirstUnresolvedKey(multipleKeyObject, pks, 0).None?;
      ghost var resolved := ResolveKeyMembers(multipleKeyObject, pks).value;
      assert resolved == keyValueMap by {
        forall k | 0 <= k < |pks| ensures resolved[k] == keyValueMap[k] { }
      }
    }
    var a := ParameterExpr("a", td.entityType);
    ghost var terms := KeyEqualities(a, keyValueMap);
    var lambdaBody: Option<Expr> := None;
    for i := 0 to |keyValueMap|
      invariant lambdaBody == FoldAndAlso(terms[..i])
    {
      var e := KeyEquality(a, keyValueMap[i]);
      assert terms[..i + 1][..i] == terms[..i];
      lambdaBody := if lambdaBody.None? then Some(e) else Some(AndAlso(lambdaBody.value, e));
    }
    assert terms[..|keyValueMap|] == terms;
    return Success(LambdaExpr([td.entityType, TypeOfBoolean], lambdaBody.value, [a]));
  }

  /** A null key is rejected before the metadata is consulted; then a key-less entity is rejected. */
  lemma KeyPredicateGuards(key: Option<Value>, td: TypeDescriptor)
    ensures key.None? ==> KeyPredicate(key, td) == Failure(NullKey)
    ensures key.Some? && |td.primaryKeys| == 0 ==> KeyPredicate(key, td) == Failure(MissingPrimaryKey(td.entityType))
  {
  }

  /** With one primary key `K` the predicate is `a => a.K == key`, whatever properties the key has. */
  lemma SingleKeyPredicate(key: Value, td: TypeDescriptor, entity: Value)
    requires |td.primaryKeys| == 1
    ensures var pk := td.primaryKeys[0]; var a := PredicateParameter(td);
      var body := Equal(PropertyOrField(Parameter(a), pk.memberName, pk.memberType), Wrapper(key, pk.memberType));
      && KeyPredicate(Some(key), td) == Success(LambdaExpr([td.entityType, TypeOfBoolean], body, [a]))
      && (Holds(body, a, entity) <==> MemberValue(entity, pk.memberName) == Some(key))
  {
    var pk := td.primaryKeys[0];
    var a := PredicateParameter(td);
    assert KeyEqualities(a, [KeyValuePair(pk, key)]) == [KeyEquality(a, KeyValuePair(pk, key))];
  }

  /**
    With several primary keys, the predicate is built exactly when the key object has a
    non-null same-named property for every key; otherwise the error names the first key,
    in declaration order, that has none.
   */
  lemma {:induction false} CompositeKeyPredicateOutcome(key: Value, td: TypeDescriptor)
    requires |td.primaryKeys| > 1
    ensures var pks := td.primaryKeys;
      KeyPredicate(Some(key), td).Success? <==> forall k :: 0 <= k < |pks| ==> MemberValue(key, pks[k].memberName).Some?
    ensures var pks := td.primaryKeys; var r := KeyPredicate(Some(key), td);
      r.Failure? ==>
        exists f :: 0 <= f < |pks|
          && (forall k :: 0 <= k < f ==> MemberValue(key, pks[k].memberName).Some?)
          && MemberValue(key, pks[f].memberName).None?
          && r.error == (if FindProperty(PropertiesOf(key), pks[f].memberName).None?
                         then MissingKeyMember(pks[f].memberName) else NullKeyValue(pks[f].memberName))
  {
    var pks := td.primaryKeys;
    var first := FirstUnresolvedKey(key, pks, 0);
    if first.Some? {
      var f := first.value;
      assert forall k :: 0 <= k < f ==> MemberValue(key, pks[k].memberName).Some? by {
        forall k | 0 <= k < f ensures MemberValue(key, pks[k].memberName).Some? {
          assert LookupKeyMember(key, pks[k]).Success?;
        }
      }
    } else {
      forall k | 0 <= k < |pks| ensures MemberValue(key, pks[k].memberName).Some? {
        assert LookupKeyMember(key, pks[k]).Success?;
      }
    }
  }

  /**
    The body of a built predicate is a left-nested conjunction with one `a.K == value` term
    per primary key, in declaration order: the value is the key itself for a single key and
    the key object's same-named property otherwise.
   */
  lemma {:induction false} KeyPredicateBody(key: Value, td: TypeDescriptor)
    requires KeyPredicate(Some(key), td).Success?
    ensures var pks := td.primaryKeys; var lambda := KeyPredicate(Some(key), td).value;
      var a := PredicateParameter(td); var terms := Conjuncts(lambda.body);
      && lambda.parameters == [a]
      && lambda.delegateType == [td.entityType, TypeOfBoolean]
      && |terms| == |pks|
      && forall k :: 0 <= k < |pks| ==>
           terms[k] == Equal(PropertyOrField(Parameter(a), pks[k].memberName, pks[k].memberType),
                             Wrapper(if |pks| == 1 then key else MemberValue(key, pks[k].memberName).value, pks[k].memberType))
  {
    var pks := td.primaryKeys;
    var a := PredicateParameter(td);
    var m := KeyValueMap(key, pks).value;
    var terms := KeyEqualities(a, m);
    ConjunctsOfFoldAndAlso(terms);
    if |pks| != 1 {
      forall k | 0 <= k < |pks| ensures m[k] == KeyValuePair(pks[k], MemberValue(key, pks[k].memberName).value) {
        assert FirstUnresolvedKey(key, pks, 0).None?;
      }
    }
  }

  /** A built predicate holds of an entity exactly when the entity agrees with every entry of the key-value list. */
  lemma {:induction false} KeyPredicateSemantics(key: Value, td: TypeDescriptor, entity: Value)
    requires KeyPredicate(Some(key), td).Success?
    ensures var pks := td.primaryKeys; var lambda := KeyPredicate(Some(key), td).value;
      Holds(lambda.body, PredicateParameter(td), entity) <==>
        forall k :: 0 <= k < |pks| ==>
          MemberValue(entity, pks[k].memberName) == Some(if |pks| == 1 then key else MemberValue(key, pks[k].memberName).value)
  {
    var pks := td.primaryKeys;
    var a := PredicateParameter(td);
    var m := KeyValueMap(key, pks).value;
    var terms := KeyEqualities(a, m);
    HoldsFoldAndAlso(terms, a, entity);
    if |pks| != 1 {
      assert FirstUnresolvedKey(key, pks, 0).None?;
    }
    forall k | 0 <= k < |pks|
      ensures Holds(terms[k], a, entity) <==>
        MemberValue(entity, pks[k].memberName) == Some(if |pks| == 1 then key else MemberValue(key, pks[k].memberName).value)
    {
      assert m[k].key == pks[k];
      assert m[k].value == (if |pks| == 1 then key else MemberValue(key, pks[k].memberName).value);
    }
  }

  // ===================================================================
  // Join specification resolver
  // ===================================================================

  datatype JoinType = InnerJoin | LeftJoin | RightJoin | FullJoin

  /** What constant-folding a join-type slot yields: null, a JoinType, another object, or an exception. */
  datatype EvaluationOutcome =
    | NullObject
    | JoinTypeConstant(joinType: JoinType)
    | OtherObject(objectType: ClrType)
    | Throws

  /** A resolved step: how to join the next table, and the condition over the tables joined so far. */
  datatype JoinStep = JoinStep(joinType: JoinType, condition: LambdaExpr)

  /** Step `i` is accepted when element `2i` folds to a JoinType and element `2i+1`, unwrapped, is boolean. */
  predicate JoinStepAccepted(elements: seq<Expr>, evaluate: Expr -> EvaluationOutcome, i: nat)
  {
    && 2 * i + 1 < |elements|
    && evaluate(elements[2 * i]).JoinTypeConstant?
    && TypeOf(StripConvert(elements[2 * i + 1])) == TypeOfBoolean
  }

  /** Step `i` of a join: its join type from element `2i`, its condition from element `2i+1` over the first `i+2` parameters. */
  function ResolveJoinStep(parameters: seq<ParameterExpr>, elements: seq<Expr>, evaluate: Expr -> EvaluationOutcome, i: nat)
    : (r: Result<JoinStep, Error>)
    requires 2 * i + 1 < |elements| && i + 2 <= |parameters|
    ensures r.Success? <==> JoinStepAccepted(elements, evaluate, i)
    ensures evaluate(elements[2 * i]).Throws? ==> r == Failure(JoinTypeEvaluationFailed(elements[2 * i]))
    ensures evaluate(elements[2 * i]).NullObject? || evaluate(elements[2 * i]).OtherObject?
      ==> r == Failure(UnsupportedJoinType(elements[2 * i]))
    ensures evaluate(elements[2 * i]).JoinTypeConstant? && TypeOf(StripConvert(elements[2 * i + 1])) != TypeOfBoolean
      ==> r == Failure(InvalidJoinCondition(StripConvert(elements[2 * i + 1])))
  {
    var slot := elements[2 * i];
    match evaluate(slot)
    case JoinTypeConstant(joinType) =>
      var condition := StripConvert(elements[2 * i + 1]);
      if TypeOf(condition) != TypeOfBoolean then Failure(InvalidJoinCondition(condition))
      else
        var ps := parameters[..i + 2];
        Success(JoinStep(joinType, LambdaExpr(ParameterTypes(ps) + [TypeOfBoolean], condition, ps)))
    case Throws => Failure(JoinTypeEvaluationFailed(slot))
    case _ => Failure(UnsupportedJoinType(slot))
  }

  /** The first step at or after `from` that is not accepted. */
  function FirstFailingStep(parameters: seq<ParameterExpr>, elements: seq<Expr>, evaluate: Expr -> EvaluationOutcome, from: nat)
    : (r: Option<nat>)
    requires |elements| == 2 * (|parameters| - 1) && from <= |parameters| - 1
    ensures r.Some? ==> from <= r.value < |parameters| - 1 && !JoinStepAccepted(elements, evaluate, r.value)
    ensures r.Some? ==> forall k :: from <= k < r.value ==> JoinStepAccepted(elements, evaluate, k)
    ensures r.None? ==> forall k :: from <= k < |parameters| - 1 ==> JoinStepAccepted(elements, evaluate, k)
    decreases |parameters| - 1 - from
  {
    if from == |parameters| - 1 then None
    else if ResolveJoinStep(parameters, elements, evaluate, from).Failure? then Some(from)
    else FirstFailingStep(parameters, elements, evaluate, from + 1)
  }

  /** The join steps of a join specification, in order, or the first error. */
  function JoinInfoResolution(joinInfo: LambdaExpr, evaluate: Expr -> EvaluationOutcome): Result<seq<JoinStep>, Error>
  {
    if !joinInfo.body.NewArray? then Failure(InvalidJoinInfo(joinInfo))
    else
      var ps := joinInfo.parameters;
      var elements := joinInfo.body.expressions;
      if (|ps| - 1) * 2 != |elements| then Failure(JoinArityMismatch(joinInfo))
      else
        match FirstFailingStep(ps, elements, evaluate, 0)
        case Some(f) => Failure(ResolveJoinStep(ps, elements, evaluate, f).error)
        case None => Success(seq(|ps| - 1, i requires 0 <= i < |ps| - 1 => ResolveJoinStep(ps, elements, evaluate, i).value))
  }

  /** A well-shaped join specification fails with the error of its first rejected step, and with no steps. */
  lemma JoinInfoFailsAtFirstRejectedStep(joinInfo: LambdaExpr, evaluate: Expr -> EvaluationOutcome, i: nat)
    requires joinInfo.body.NewArray? && |joinInfo.body.expressions| == 2 * (|joinInfo.parameters| - 1)
    requires i < |joinInfo.parameters| - 1
    requires forall k :: 0 <= k < i ==> JoinStepAccepted(joinInfo.body.expressions, evaluate, k)
    requires !JoinStepAccepted(joinInfo.body.expressions, evaluate, i)
    ensures JoinInfoResolution(joinInfo, evaluate)
         == Failure(ResolveJoinStep(joinInfo.parameters, joinInfo.body.expressions, evaluate, i).error)
  {
    var first := FirstFailingStep(joinInfo.parameters, joinInfo.body.expressions, evaluate, 0);
    assert first == Some(i);
  }

  /** A well-shaped join specification whose every step is accepted yields exactly those steps, in order. */
  lemma JoinInfoSucceedsWithSteps(joinInfo: LambdaExpr, evaluate: Expr -> EvaluationOutcome, steps: seq<JoinStep>)
    requires joinInfo.body.NewArray? && |joinInfo.body.expressions| == 2 * (|joinInfo.parameters| - 1)
    requires |steps| == |joinInfo.parameters| - 1
    requires forall k :: 0 <= k < |steps| ==> ResolveJoinStep(joinInfo.parameters, joinInfo.body.expressions, evaluate, k) == Success(steps[k])
    ensures JoinInfoResolution(joinInfo, evaluate) == Success(steps)
  {
    var ps, elements := joinInfo.parameters, joinInfo.body.expressions;
    forall k | 0 <= k < |steps| ensures JoinStepAccepted(elements, evaluate, k) {
      assert ResolveJoinStep(ps, elements, evaluate, k).Success?;
    }
    assert FirstFailingStep(ps, elements, evaluate, 0).None?;
    var resolved := JoinInfoResolution(joinInfo, evaluate).value;
    assert resolved == steps by {
      forall k | 0 <= k < |steps| ensures resolved[k] == steps[k] { }
    }
  }

  method ResolveJoinInfo(joinInfo: LambdaExpr, evaluate: Expr -> EvaluationOutcome) returns (r: Result<seq<JoinStep>, Error>)
    ensures r == JoinInfoResolution(joinInfo, evaluate)
  {
    if !joinInfo.body.NewArray? {
      return Failure(InvalidJoinInfo(joinInfo));
    }
    var body := joinInfo.body;
    var ret: seq<JoinStep> := [];
    if (|joinInfo.parameters| - 1) * 2 != |body.expressions| {
      return Failure(JoinArityMismatch(joinInfo));
    }
    for i := 0 to |joinInfo.parameters| - 1
      invariant |ret| == i
      invariant forall k :: 0 <= k < i ==> ResolveJoinStep(joinInfo.parameters, body.expressions, evaluate, k) == Success(ret[k])
      invariant forall k :: 0 <= k < i ==> JoinStepAccepted(body.expressions, evaluate, k)
    {
      var indexOfJoinType := i * 2;
      assert indexOfJoinType == 2 * i;
      var joinTypeExpression := body.expressions[indexOfJoinType];
      var inputJoinType := evaluate(joinTypeExpression);
      if inputJoinType.Throws? {
        JoinInfoFailsAtFirstRejectedStep(joinInfo, evaluate, i);
        return Failure(JoinTypeEvaluationFailed(joinTypeExpression));
      }
      if !inputJoinType.JoinTypeConstant? {
        JoinInfoFailsAtFirstRejectedStep(joinInfo, evaluate, i);
        return Failure(UnsupportedJoinType(joinTypeExpression));
      }
      var joinCondition := StripConvert(body.expressions[indexOfJoinType + 1]);
      if TypeOf(joinCondition) != TypeOfBoolean {
        JoinInfoFailsAtFirstRejectedStep(joinInfo, evaluate, i);
        return Failure(InvalidJoinCondition(joinCondition));
      }
      var parameters := joinInfo.parameters[..i + 2];
      var typeArguments := ParameterTypes(parameters) + [TypeOfBoolean];
      ret := ret + [JoinStep(inputJoinType.joinType, LambdaExpr(typeArguments, joinCondition, parameters))];
    }
    JoinInfoSucceedsWithSteps(joinInfo, evaluate, ret);
    return Success(ret);
  }

  /**
    The shape checks: a body that is not an array literal, or an array whose length is not
    `2 * (parameters - 1)`, is rejected; so zero parameters always fail, and one parameter
    with an empty array gives no steps.
   */
  lemma JoinInfoShapeChecks(joinInfo: LambdaExpr, evaluate: Expr -> EvaluationOutcome)
    ensures !joinInfo.body.NewArray? ==> JoinInfoResolution(joinInfo, evaluate) == Failure(InvalidJoinInfo(joinInfo))
    ensures joinInfo.body.NewArray? && |joinInfo.body.expressions| != 2 * (|joinInfo.parameters| - 1)
      ==> JoinInfoResolution(joinInfo, evaluate) == Failure(JoinArityMismatch(joinInfo))
    ensures |joinInfo.parameters| == 0 ==> JoinInfoResolution(joinInfo, evaluate).Failure?
    ensures |joinInfo.parameters| == 1 && joinInfo.body.NewArray? && joinInfo.body.expressions == []
      ==> JoinInfoResolution(joinInfo, evaluate) == Success([])
  {
    if |joinInfo.parameters| == 1 && joinInfo.body.NewArray? && joinInfo.body.expressions == [] {
      assert FirstFailingStep(joinInfo.parameters, joinInfo.body.expressions, evaluate, 0).None?;
      assert |JoinInfoResolution(joinInfo, evaluate).value| == 0;
    }
  }

  /** A join specification resolves exactly when it is well shaped and every step is accepted. */
  lemma JoinInfoSucceedsIff(joinInfo: LambdaExpr, evaluate: Expr -> EvaluationOutcome)
    ensures JoinInfoResolution(joinInfo, evaluate).Success? <==>
      && joinInfo.body.NewArray?
      && |joinInfo.body.expressions| == 2 * (|joinInfo.parameters| - 1)
      && forall i :: 0 <= i < |joinInfo.parameters| - 1 ==> JoinStepAccepted(joinInfo.body.expressions, evaluate, i)
  {
    if joinInfo.body.NewArray? && |joinInfo.body.expressions| == 2 * (|joinInfo.parameters| - 1) {
      var first := FirstFailingStep(joinInfo.parameters, joinInfo.body.expressions, evaluate, 0);
      if first.Some? {
        assert !JoinStepAccepted(joinInfo.body.expressions, evaluate, first.value);
      }
    }
  }

  /**
    A resolved join has one step per joined table after the first, in input order: step `i`
    takes its join type from element `2i` and its condition, unwrapped, from element `2i+1`,
    bound over exactly the first `i+2` parameters in their original order.
   */
  lemma JoinInfoSteps(joinInfo: LambdaExpr, evaluate: Expr -> EvaluationOutcome)
    requires JoinInfoResolution(joinInfo, evaluate).Success?
    ensures var steps := JoinInfoResolution(joinInfo, evaluate).value;
      var ps := joinInfo.parameters; var elements := joinInfo.body.expressions;
      && |steps| == |ps| - 1
      && forall i :: 0 <= i < |steps| ==>
           && 2 * i + 1 < |elements|
           && evaluate(elements[2 * i]) == JoinTypeConstant(steps[i].joinType)
           && steps[i].condition.body == StripConvert(elements[2 * i + 1])
           && TypeOf(steps[i].condition.body) == TypeOfBoolean
           && steps[i].condition.parameters == ps[..i + 2]
           && steps[i].condition.delegateType == ParameterTypes(ps[..i + 2]) + [TypeOfBoolean]
  {
  }

  /**
    The resolver does not check that step `i`'s condition mentions only the first `i+2`
    parameters: here step 0 of a three-table join compares the first table with the third,
    and it is accepted, bound over the first two parameters only.
   */
  lemma JoinConditionScopeIsNotChecked()
    ensures
      var user, city, province := ParameterExpr("user", ClrType("User")), ParameterExpr("city", ClrType("City")),
                                  ParameterExpr("province", ClrType("Province"));
      var slot := Convert(Constant(Some(Scalar(ClrType("Chloe.JoinType"), "LeftJoin")), ClrType("Chloe.JoinType")), ClrType("System.Object"));
      var condition := Equal(PropertyOrField(Parameter(user), "Id", ClrType("System.Int32")),
                             PropertyOrField(Parameter(province), "Id", ClrType("System.Int32")));
      var joinInfo := LambdaExpr([], NewArray(ClrType("System.Object"), [slot, Convert(condition, ClrType("System.Object")), slot, Convert(condition, ClrType("System.Object"))]), [user, city, province]);
      var steps := JoinInfoResolution(joinInfo, e => if e == slot then JoinTypeConstant(LeftJoin) else Throws);
      && steps.Success?
      && steps.value[0].condition == LambdaExpr([ClrType("User"), ClrType("City"), TypeOfBoolean], condition, [user, city])
      && province !in steps.value[0].condition.parameters
  {
    var user, city, province := ParameterExpr("user", ClrType("User")), ParameterExpr("city", ClrType("City")),
                                ParameterExpr("province", ClrType("Province"));
    var slot := Convert(Constant(Some(Scalar(ClrType("Chloe.JoinType"), "LeftJoin")), ClrType("Chloe.JoinType")), ClrType("System.Object"));
    var condition := Equal(PropertyOrField(Parameter(user), "Id", ClrType("System.Int32")),
                           PropertyOrField(Parameter(province), "Id", ClrType("System.Int32")));
    var joinInfo := LambdaExpr([], NewArray(ClrType("System.Object"), [slot, Convert(condition, ClrType("System.Object")), slot, Convert(condition, ClrType("System.Object"))]), [user, city, province]);
    var evaluate: Expr -> EvaluationOutcome := e => if e == slot then JoinTypeConstant(LeftJoin) else Throws;
    JoinInfoSucceedsIff(joinInfo, evaluate);
    assert JoinStepAccepted(joinInfo.body.expressions, evaluate, 0);
    assert JoinStepAccepted(joinInfo.body.expressions, evaluate, 1);
    JoinInfoSteps(joinInfo, evaluate);
    assert [user, city, province][..2] == [user, city];
  }

  // ===================================================================
  // Key condition map
  // ===================================================================

  /** An entry of the key-value dictionary: a primary key and the value the caller set, if any. */
  datatype KeyEntry = KeyEntry(key: MappingMemberDescriptor, value: Option<Value>)

  /** The dictionary has one unset entry per primary key, in declaration order. */
  method CreateKeyValueMap(td: TypeDescriptor) returns (keyValueMap: seq<KeyEntry>)
    ensures |keyValueMap| == |td.primaryKeys|
    ensures forall k :: 0 <= k < |keyValueMap| ==> keyValueMap[k] == KeyEntry(td.primaryKeys[k], None)
  {
    keyValueMap := [];
    for i := 0 to |td.primaryKeys|
      invariant |keyValueMap| == i
      invariant forall k :: 0 <= k < i ==> keyValueMap[k] == KeyEntry(td.primaryKeys[k], None)
    {
      keyValueMap := keyValueMap + [KeyEntry(td.primaryKeys[i], None)];
    }
  }

  /** The first entry at or after `from` that holds no value. */
  function FirstUnsetEntry(entries: seq<KeyEntry>, from: nat): (r: Option<nat>)
    requires from <= |entries|
    ensures r.Some? ==> from <= r.value < |entries| && entries[r.value].value.None?
    ensures r.Some? ==> forall k :: from <= k < r.value ==> entries[k].value.Some?
    ensures r.None? ==> forall k :: from <= k < |entries| ==> entries[k].value.Some?
    decreases |entries| - from
  {
    if from == |entries| then None
    else if entries[from].value.None? then Some(from)
    else FirstUnsetEntry(entries, from + 1)
  }

  /** `table.column == @parameter` for one primary key and its value. */
  function KeyColumnEquality(table: DbTable, key: MappingMemberDescriptor, value: Value): DbExpr
  {
    DbEqual(DbColumnAccess(table, key.column), DbParameter(value, key.memberType))
  }

  function KeyColumnEqualities(entries: seq<KeyEntry>, table: DbTable): (r: seq<DbExpr>)
    requires forall k :: 0 <= k < |entries| ==> entries[k].value.Some?
    ensures |r| == |entries|
    ensures forall k :: 0 <= k < |entries| ==> r[k] == KeyColumnEquality(table, entries[k].key, entries[k].value.value)
  {
    seq(|entries|, k requires 0 <= k < |entries| => KeyColumnEquality(table, entries[k].key, entries[k].value.value))
  }

  /** The condition of a filled dictionary: the conjunction of its key equalities, or the first unset key's error. */
  function KeyCondition(entries: seq<KeyEntry>, table: DbTable): Result<Option<DbExpr>, Error>
  {
    match FirstUnsetEntry(entries, 0)
    case Some(f) => Failure(NullKeyValue(entries[f].key.memberName))
    case None => Success(FoldDbAnd(KeyColumnEqualities(entries, table)))
  }

  method MakeCondition(keyValueMap: seq<KeyEntry>, dbTable: DbTable) returns (r: Result<Option<DbExpr>, Error>)
    ensures r == KeyCondition(keyValueMap, dbTable)
  {
    var conditionExp: Option<DbExpr> := None;
    ghost var terms: seq<DbExpr> := [];
    for i := 0 to |keyValueMap|
      invariant forall k :: 0 <= k < i ==> keyValueMap[k].value.Some?
      invariant |terms| == i
      invariant forall k :: 0 <= k < i ==> terms[k] == KeyColumnEquality(dbTable, keyValueMap[k].key, keyValueMap[k].value.value)
      invariant conditionExp == FoldDbAnd(terms)
    {
      var keyMemberDescriptor := keyValueMap[i].key;
      var keyVal := keyValueMap[i].value;
      if keyVal.None? {
        assert FirstUnsetEntry(keyValueMap, 0) == Some(i);
        return Failure(NullKeyValue(keyMemberDescriptor.memberName));
      }
      var left := DbColumnAccess(dbTable, keyMemberDescriptor.column);
      var right := DbParameter(keyVal.value, keyMemberDescriptor.memberType);
      var equalExp := DbEqual(left, right);
      assert (terms + [equalExp])[..i] == terms;
      terms := terms + [equalExp];
      conditionExp := if conditionExp.None? then Some(equalExp) else Some(DbAnd(conditionExp.value, equalExp));
    }
    assert FirstUnsetEntry(keyValueMap, 0).None?;
    assert terms == KeyColumnEqualities(keyValueMap, dbTable);
    return Success(conditionExp);
  }

  /**
    Compiling succeeds exactly when every entry holds a value; otherwise the error names
    the first entry, in dictionary order, that holds none.
   */
  lemma {:induction false} KeyConditionOutcome(entries: seq<KeyEntry>, table: DbTable)
    ensures KeyCondition(entries, table).Success? <==> forall k :: 0 <= k < |entries| ==> entries[k].value.Some?
    ensures var r := KeyCondition(entries, table);
      r.Failure? ==>
        exists f :: 0 <= f < |entries|
          && entries[f].value.None?
          && (forall k :: 0 <= k < f ==> entries[k].value.Some?)
          && r.error == NullKeyValue(entries[f].key.memberName)
  {
    var first := FirstUnsetEntry(entries, 0);
    if first.Some? {
      assert entries[first.value].value.None?;
    }
  }

  /** A dictionary freshly created for a keyed entity never compiles: its first key is unset. */
  lemma FreshKeyValueMapNeverCompiles(td: TypeDescriptor, keyValueMap: seq<KeyEntry>, table: DbTable)
    requires |td.primaryKeys| > 0
    requires |keyValueMap| == |td.primaryKeys|
    requires forall k :: 0 <= k < |keyValueMap| ==> keyValueMap[k] == KeyEntry(td.primaryKeys[k], None)
    ensures KeyCondition(keyValueMap, table) == Failure(NullKeyValue(td.primaryKeys[0].memberName))
  {
    assert FirstUnsetEntry(keyValueMap, 0) == Some(0);
  }

  /**
    A compiled condition is null exactly for an empty dictionary; otherwise it is a
    left-nested conjunction of `table.column == @value` terms, one per entry, in order.
   */
  lemma {:induction false} KeyConditionShape(entries: seq<KeyEntry>, table: DbTable)
    requires KeyCondition(entries, table).Success?
    ensures var c := KeyCondition(entries, table).value;
      && (c.None? <==> entries == [])
      && (c.Some? ==>
            && |DbConjuncts(c.value)| == |entries|
            && forall k :: 0 <= k < |entries| ==>
                 entries[k].value.Some? &&
                 DbConjuncts(c.value)[k] == DbEqual(DbColumnAccess(table, entries[k].key.column),
                                                    DbParameter(entries[k].value.value, entries[k].key.memberType)))
  {
    assert FirstUnsetEntry(entries, 0).None?;
    if entries != [] {
      DbConjunctsOfFoldDbAnd(KeyColumnEqualities(entries, table));
    }
  }

  /**
    The condition depends only on each entry's column, declared type and value, in order:
    two filled dictionaries that agree on those give the same tree, whatever the member names.
   */
  lemma {:induction false} KeyConditionIsStructural(entries1: seq<KeyEntry>, entries2: seq<KeyEntry>, table: DbTable)
    requires |entries1| == |entries2|
    requires forall k :: 0 <= k < |entries1| ==> entries1[k].value.Some?
    requires forall k :: 0 <= k < |entries1| ==>
      && entries1[k].key.column == entries2[k].key.column
      && entries1[k].key.memberType == entries2[k].key.memberType
      && entries1[k].value == entries2[k].value
    ensures KeyCondition(entries1, table) == KeyCondition(entries2, table)
    ensures KeyCondition(entries1, table).Success?
  {
    assert FirstUnsetEntry(entries1, 0).None?;
    assert FirstUnsetEntry(entries2, 0).None?;
    assert KeyColumnEqualities(entries1, table) == KeyColumnEqualities(entries2, table);
  }
}
