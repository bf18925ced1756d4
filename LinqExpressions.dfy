/**
  The part of System.Linq.Expressions that the query-construction helpers of
  DbContext consume and produce, as an immutable tree, together with the
  runtime objects whose public properties reflection would expose.
 */
module LinqExpressions {
  import opened Wrappers

  /** A runtime type, identified by its full name. */
  datatype ClrType = ClrType(fullName: string)

  const TypeOfBoolean := ClrType("System.Boolean")

  /** A runtime object: a scalar, or an object with public properties in declaration order. */
  datatype Value =
    | Scalar(valueType: ClrType, text: string)
    | Composite(valueType: ClrType, properties: seq<Property>)

  /** A public property of an object and its current value; `None` is null. */
  datatype Property = Property(name: string, value: Option<Value>)

  function PropertiesOf(v: Value): seq<Property>
  {
    match v
    case Scalar(_, _) => []
    case Composite(_, properties) => properties
  }

  /** `Type.GetProperty(name)`: the first public property called `name`, or null. */
  function FindProperty(properties: seq<Property>, name: string): (r: Option<Property>)
    ensures r.Some? <==> exists p :: p in properties && p.name == name
    ensures r.Some? ==> r.value in properties && r.value.name == name
  {
    if properties == [] then None
    else if properties[0].name == name then Some(properties[0])
    else FindProperty(properties[1..], name)
  }

  /** The value of the property `name` of `obj`, when it has one and it is not null. */
  function MemberValue(obj: Value, name: string): Option<Value>
  {
    match FindProperty(PropertiesOf(obj), name)
    case Some(Property(_, Some(v))) => Some(v)
    case _ => None
  }

  datatype ParameterExpr = ParameterExpr(name: string, parameterType: ClrType)

  /** Expression nodes; `Other` is any node kind of which only the static type is observed here. */
  datatype Expr =
    | Parameter(parameter: ParameterExpr)
    | PropertyOrField(target: Expr, memberName: string, memberType: ClrType)
    | Wrapper(value: Value, targetType: ClrType)
    | Constant(constant: Option<Value>, constantType: ClrType)
    | Convert(operand: Expr, targetType: ClrType)
    | Equal(left: Expr, right: Expr)
    | AndAlso(left: Expr, right: Expr)
    | NewArray(elementType: ClrType, expressions: seq<Expr>)
    | Other(nodeType: ClrType)

  /** A lambda: the type arguments of its `Func<…>` delegate type, its body and its parameters. */
  datatype LambdaExpr = LambdaExpr(delegateType: seq<ClrType>, body: Expr, parameters: seq<ParameterExpr>)

  /** `Expression.Type`, the static type of a node. */
  function TypeOf(e: Expr): ClrType
  {
    match e
    case Parameter(p) => p.parameterType
    case PropertyOrField(_, _, t) => t
    case Wrapper(_, t) => t
    case Constant(_, t) => t
    case Convert(_, t) => t
    case Equal(_, _) => TypeOfBoolean
    case AndAlso(_, _) => TypeOfBoolean
    case NewArray(t, _) => ClrType(t.fullName + "[]")
    case Other(t) => t
  }

  /** Removes every conversion wrapped around an expression. */
  function StripConvert(e: Expr): (r: Expr)
    ensures !r.Convert?
    ensures !e.Convert? ==> r == e
  {
    match e
    case Convert(operand, _) => StripConvert(operand)
    case _ => e
  }

  /** The types of a parameter list, in order. */
  function ParameterTypes(ps: seq<ParameterExpr>): (r: seq<ClrType>)
    ensures |r| == |ps| && forall k :: 0 <= k < |ps| ==> r[k] == ps[k].parameterType
  {
    seq(|ps|, k requires 0 <= k < |ps| => ps[k].parameterType)
  }

  /**
    The accumulation `body = body == null ? e : Expression.AndAlso(body, e)` over
    `terms` in order, starting from null: a left-nested conjunction whose first
    term stands alone.
   */
  function FoldAndAlso(terms: seq<Expr>): (r: Option<Expr>)
    ensures r.None? <==> terms == []
    decreases |terms|
  {
    if terms == [] then None
    else
      var last := terms[|terms| - 1];
      match FoldAndAlso(terms[..|terms| - 1])
      case None => Some(last)
      case Some(acc) => Some(AndAlso(acc, last))
  }

  /** The terms along the left spine of a conjunction, left to right. */
  function Conjuncts(e: Expr): (r: seq<Expr>)
    ensures r != []
  {
    match e
    case AndAlso(l, r) => Conjuncts(l) + [r]
    case _ => [e]
  }

  /** Reading the terms back from the conjunction gives exactly the terms folded, in order. */
  lemma {:induction false} ConjunctsOfFoldAndAlso(terms: seq<Expr>)
    requires terms != []
    requires forall k :: 0 <= k < |terms| ==> !terms[k].AndAlso?
    ensures Conjuncts(FoldAndAlso(terms).value) == terms
  {
    var n := |terms|;
    var init := terms[..n - 1];
    if init != [] {
      ConjunctsOfFoldAndAlso(init);
      assert init + [terms[n - 1]] == terms;
    }
  }

  /** The fold is the only tree whose conjuncts are the given terms. */
  lemma {:induction false} FoldAndAlsoUnique(e: Expr, terms: seq<Expr>)
    requires forall k :: 0 <= k < |terms| ==> !terms[k].AndAlso?
    requires Conjuncts(e) == terms
    ensures FoldAndAlso(terms) == Some(e)
  {
    match e
    case AndAlso(l, r) =>
      var init := terms[..|terms| - 1];
      assert Conjuncts(l) == init;
      FoldAndAlsoUnique(l, init);
    case _ =>
  }

  /**
    Truth of a key predicate on the entity `entity` bound to parameter `a`:
    `a.K == wrapped value` holds when the entity's member `K` holds that value,
    and a conjunction holds when both sides do. The coercion performed by the
    wrapper is taken as preserving the value.
   */
  predicate Holds(e: Expr, a: ParameterExpr, entity: Value)
  {
    match e
    case Equal(PropertyOrField(Parameter(p), name, _), Wrapper(v, _)) => p == a && MemberValue(entity, name) == Some(v)
    case AndAlso(l, r) => Holds(l, a, entity) && Holds(r, a, entity)
    case _ => false
  }

  /** A left-nested conjunction holds exactly when every one of its terms holds. */
  lemma {:induction false} HoldsFoldAndAlso(terms: seq<Expr>, a: ParameterExpr, entity: Value)
    requires terms != []
    ensures Holds(FoldAndAlso(terms).value, a, entity) <==> forall k :: 0 <= k < |terms| ==> Holds(terms[k], a, entity)
  {
    var n := |terms|;
    var init := terms[..n - 1];
    if init != [] {
      HoldsFoldAndAlso(init, a, entity);
      assert forall k :: 0 <= k < n - 1 ==> init[k] == terms[k];
    }
  }
}
