/** A call of a built-in function or of a user-defined function (UDF) in an
    expression tree. The children are kept abstract: what the call needs
    of a child is its declared value type, and evaluating a child is a
    parameter. The built-in function behind the pointer and the UDF catalog
    are parameters too. */
module FunctionExpression {
  import opened Results
  import opened Types

  /** A built-in function, by identity (the source's function pointer). */
  type FunctionId = nat

  /** A child expression: its declared value type and, standing for the
      rest of the subtree, an identity. */
  datatype ChildExpression = ChildExpression(valueType: TypeId, node: nat)

  /** A runtime value: its type and an abstract payload. */
  datatype Value = Value(typ: TypeId, payload: nat)

  /** A default-constructed value has the INVALID type. */
  function DefaultValue(): (v: Value)
    ensures v.typ == Invalid
  {
    Value(Invalid, 0)
  }

  /** What the UDF catalog reports about a function name. */
  datatype UdfData = UdfData(present: bool, argumentTypes: seq<TypeId>, returnType: TypeId)

  datatype FunctionExpr = FunctionExpr(
    name: string,
    funcPtr: Option<FunctionId>,
    returnValueType: TypeId,
    isUdf: bool,
    children: seq<ChildExpression>)

  /** The exceptions the expression throws, and its PL_ASSERT. */
  datatype ExpressionError =
    | ArgumentCountMismatch(functionName: string, expectedCount: nat, actualCount: nat)
    | ArgumentTypeMismatch(functionName: string, position: nat, expected: TypeId, found: TypeId)
    | UnexpectedReturnType(functionName: string)
    | FunctionNotFound(functionName: string)
    | MissingFunctionPointer

  /** The reference meaning of a well-typed call: as many children as
      declared arguments, and each child of its argument's type. */
  predicate ArgumentsMatch(argTypes: seq<TypeId>, children: seq<ChildExpression>)
  {
    |argTypes| == |children| && forall i :: 0 <= i < |children| ==> children[i].valueType == argTypes[i]
  }

  /** The first position at or after `from` whose child type differs from
      the declared argument type, if any. */
  function FirstTypeMismatch(argTypes: seq<TypeId>, children: seq<ChildExpression>, from: nat): (r: Option<nat>)
    requires |argTypes| == |children| && from <= |children|
    ensures r.None? <==> forall i :: from <= i < |children| ==> children[i].valueType == argTypes[i]
    ensures r.Some? ==>
      && from <= r.value < |children|
      && children[r.value].valueType != argTypes[r.value]
      && forall i :: from <= i < r.value ==> children[i].valueType == argTypes[i]
    decreases |children| - from
  {
    if from == |children| then None
    else if children[from].valueType != argTypes[from] then Some(from)
    else FirstTypeMismatch(argTypes, children, from + 1)
  }

  /** CheckChildrenTypes: the argument count is checked first, then the
      types position by position; the first mismatch is reported. */
  function CheckChildrenTypes(argTypes: seq<TypeId>, children: seq<ChildExpression>, name: string)
    : (r: Outcome<ExpressionError>)
    ensures r.Pass? <==> ArgumentsMatch(argTypes, children)
    ensures |argTypes| != |children| ==> r == Fail(ArgumentCountMismatch(name, |argTypes|, |children|))
    ensures |argTypes| == |children| && r.Fail? ==>
      && r.error.ArgumentTypeMismatch?
      && r.error.functionName == name
      && var p := r.error.position;
      && p < |children|
      && r.error.expected == argTypes[p]
      && r.error.found == children[p].valueType
      && r.error.expected != r.error.found
      && forall i :: 0 <= i < p ==> children[i].valueType == argTypes[i]
  {
    if |argTypes| != |children| then Fail(ArgumentCountMismatch(name, |argTypes|, |children|))
    else
      match FirstTypeMismatch(argTypes, children, 0)
      case None => Pass
      case Some(p) => Fail(ArgumentTypeMismatch(name, p, argTypes[p], children[p].valueType))
  }

  /** The by-name constructor: no function pointer, not a UDF, and the
      return type left INVALID until the parameters are set. */
  function NewByName(name: string, children: seq<ChildExpression>): (f: FunctionExpr)
    ensures f.name == name && f.children == children
    ensures f.funcPtr == None && !f.isUdf && f.returnValueType == Invalid
  {
    FunctionExpr(name, None, Invalid, false, children)
  }

  /** The function-pointer constructor: the name stays empty and the
      children's types are checked at once, so a badly typed call is never
      built. */
  function NewWithPointer(ptr: FunctionId, returnType: TypeId, argTypes: seq<TypeId>,
                          children: seq<ChildExpression>): (r: Result<FunctionExpr, ExpressionError>)
    ensures r.Ok? <==> ArgumentsMatch(argTypes, children)
    ensures r.Err? ==> Fail(r.error) == CheckChildrenTypes(argTypes, children, "")
    ensures r.Ok? ==> r.value == FunctionExpr("", Some(ptr), returnType, false, children)
  {
    match CheckChildrenTypes(argTypes, children, "")
    case Fail(err) => Err(err)
    case Pass => Ok(FunctionExpr("", Some(ptr), returnType, false, children))
  }

  /** SetFunctionExpressionParameters: the pointer and return type are
      stored before the check runs, so they are set even when it fails; the
      UDF flag argument is ignored. */
  function SetFunctionExpressionParameters(f: FunctionExpr, ptr: FunctionId, returnType: TypeId,
                                           argTypes: seq<TypeId>, isUdf: bool)
    : (r: (FunctionExpr, Outcome<ExpressionError>))
    ensures r.0.funcPtr == Some(ptr) && r.0.returnValueType == returnType
    ensures r.0.name == f.name && r.0.children == f.children && r.0.isUdf == f.isUdf
    ensures r.1.Pass? <==> ArgumentsMatch(argTypes, f.children)
  {
    (f.(funcPtr := Some(ptr), returnValueType := returnType), CheckChildrenTypes(argTypes, f.children, f.name))
  }

  function SetUDFType(f: FunctionExpr, isUdf: bool): (r: FunctionExpr)
    ensures r.isUdf == isUdf
    ensures r.name == f.name && r.funcPtr == f.funcPtr && r.returnValueType == f.returnValueType
    ensures r.children == f.children
  {
    f.(isUdf := isUdf)
  }

  /** The children are evaluated left to right; the first one that fails
      ends the evaluation with its error. */
  function ChildValues(children: seq<ChildExpression>, evalChild: ChildExpression -> Result<Value, ExpressionError>)
    : (r: Result<seq<Value>, ExpressionError>)
    ensures r.Ok? <==> forall i :: 0 <= i < |children| ==> evalChild(children[i]).Ok?
    ensures r.Ok? ==> |r.value| == |children|
    ensures r.Ok? ==> forall i :: 0 <= i < |children| ==> r.value[i] == evalChild(children[i]).value
    ensures r.Err? ==>
      exists i :: && 0 <= i < |children|
                  && evalChild(children[i]).Err?
                  && r.error == evalChild(children[i]).error
                  && forall j :: 0 <= j < i ==> evalChild(children[j]).Ok?
  {
    if |children| == 0 then Ok([])
    else
      match evalChild(children[0])
      case Err(err) => Err(err)
      case Ok(v) =>
        match ChildValues(children[1..], evalChild)
        case Err(err) =>
          ghost var i :| && 0 <= i < |children[1..]|
                         && evalChild(children[1..][i]).Err?
                         && err == evalChild(children[1..][i]).error
                         && forall j :: 0 <= j < i ==> evalChild(children[1..][j]).Ok?;
          assert forall j :: 0 <= j < i + 1 ==> evalChild(children[j]).Ok? by {
            forall j | 0 <= j < i + 1
              ensures evalChild(children[j]).Ok?
            {
              if j > 0 {
                assert children[j] == children[1..][j - 1];
              }
            }
          }
          assert children[i + 1] == children[1..][i];
          Err(err)
        case Ok(rest) =>
          assert forall i :: 1 <= i < |children| ==> children[i] == children[1..][i - 1];
          Ok([v] + rest)
  }

  /** Evaluate. The children come first, whichever path follows. A UDF is
      looked up by name in the catalog and its children checked against the
      catalog's argument types; no UDF body runs, so the result is the
      default value, which is accepted only if the catalog's return type is
      INVALID. A built-in needs its pointer and gets the child values in
      order; an exception it throws propagates, and its result is accepted
      only with the declared return type. */
  function Evaluate(f: FunctionExpr,
                    evalChild: ChildExpression -> Result<Value, ExpressionError>,
                    catalog: string -> UdfData,
                    invoke: (FunctionId, seq<Value>) -> Result<Value, ExpressionError>)
    : (r: Result<Value, ExpressionError>)
    // the declared type is the only type a successful call can have
    ensures r.Ok? ==> r.value.typ == (if f.isUdf then catalog(f.name).returnType else f.returnValueType)
    // a failing child wins over every later check
    ensures ChildValues(f.children, evalChild).Err? ==> r == Err(ChildValues(f.children, evalChild).error)
    ensures ChildValues(f.children, evalChild).Ok? && !f.isUdf ==>
      var values := ChildValues(f.children, evalChild).value;
      if f.funcPtr.None? then r == Err(MissingFunctionPointer)
      else
        var called := invoke(f.funcPtr.value, values);
        if called.Err? then r == Err(called.error)
        else if called.value.typ == f.returnValueType then r == Ok(called.value)
        else r == Err(UnexpectedReturnType(f.name))
    ensures ChildValues(f.children, evalChild).Ok? && f.isUdf ==>
      var data := catalog(f.name);
      && (!data.present ==> r == Err(FunctionNotFound(f.name)))
      && (data.present && !ArgumentsMatch(data.argumentTypes, f.children) ==>
            r == Err(CheckChildrenTypes(data.argumentTypes, f.children, f.name).error))
      && (data.present && ArgumentsMatch(data.argumentTypes, f.children) ==>
            r == (if data.returnType == Invalid then Ok(DefaultValue()) else Err(UnexpectedReturnType(f.name))))
  {
    var values :- ChildValues(f.children, evalChild);
    var ret := DefaultValue();
    if f.isUdf then
      var data := catalog(f.name);
      if data.present then
        match CheckChildrenTypes(data.argumentTypes, f.children, f.name)
        case Fail(err) => Err(err)
        case Pass =>
          if ret.typ != data.returnType then Err(UnexpectedReturnType(f.name)) else Ok(ret)
      else Err(FunctionNotFound(f.name))
    else if f.funcPtr.None? then Err(MissingFunctionPointer)
    else
      var ret :- invoke(f.funcPtr.value, values);
      if ret.typ != f.returnValueType then Err(UnexpectedReturnType(f.name)) else Ok(ret)
  }

  /** The copy constructor as written: name, pointer, return type and
      children are copied, the UDF flag is reset to false. */
  function CopyAsWritten(f: FunctionExpr): (c: FunctionExpr)
    ensures c.name == f.name && c.funcPtr == f.funcPtr && c.returnValueType == f.returnValueType
    ensures c.children == f.children
    ensures !c.isUdf
  {
    FunctionExpr(f.name, f.funcPtr, f.returnValueType, false, f.children)
  }

  /** A UDF call built by name has no function pointer; its copy is no
      longer a UDF call, so evaluating the copy trips the missing-pointer
      assertion where the original consults the catalog. The original then
      yields the default value when the catalog declares the INVALID return
      type, and the unexpected-return-type error for any other. */
  lemma CopyAsWrittenLosesUdf(name: string, children: seq<ChildExpression>,
                              evalChild: ChildExpression -> Result<Value, ExpressionError>,
                              catalog: string -> UdfData,
                              invoke: (FunctionId, seq<Value>) -> Result<Value, ExpressionError>)
    requires forall i :: 0 <= i < |children| ==> evalChild(children[i]).Ok?
    requires catalog(name).present && ArgumentsMatch(catalog(name).argumentTypes, children)
    ensures var udf := SetUDFType(NewByName(name, children), true);
            && Evaluate(udf, evalChild, catalog, invoke)
               == (if catalog(name).returnType == Invalid then Ok(DefaultValue())
                   else Err(UnexpectedReturnType(name)))
            && Evaluate(CopyAsWritten(udf), evalChild, catalog, invoke) == Err(MissingFunctionPointer)
  {
  }

  /** The copy constructor as evidently intended, `is_udf_(other.is_udf_)`:
      every field, the UDF flag included, is carried over. Copy() returns
      such a copy; in the source it goes through the constructor above and
      so loses the flag. */
  function Copy(f: FunctionExpr): (c: FunctionExpr)
    ensures c.name == f.name && c.funcPtr == f.funcPtr && c.returnValueType == f.returnValueType
    ensures c.children == f.children && c.isUdf == f.isUdf
  {
    FunctionExpr(f.name, f.funcPtr, f.returnValueType, f.isUdf, f.children)
  }

  /** A copy evaluates exactly like the original, whatever the children,
      catalog and built-in functions do. */
  lemma CopyEvaluatesAlike(f: FunctionExpr,
                           evalChild: ChildExpression -> Result<Value, ExpressionError>,
                           catalog: string -> UdfData,
                           invoke: (FunctionId, seq<Value>) -> Result<Value, ExpressionError>)
    ensures Evaluate(Copy(f), evalChild, catalog, invoke) == Evaluate(f, evalChild, catalog, invoke)
  {
  }

  /** Changing the parameters after construction can only make a call
      checked against the new argument types: a passing check means the
      built-in call sees exactly one value per declared argument, each
      coming from the child of that argument's type. */
  lemma CheckedCallGetsTypedArguments(f: FunctionExpr, ptr: FunctionId, returnType: TypeId,
                                      argTypes: seq<TypeId>,
                                      evalChild: ChildExpression -> Result<Value, ExpressionError>)
    requires SetFunctionExpressionParameters(f, ptr, returnType, argTypes, false).1.Pass?
    requires ChildValues(f.children, evalChild).Ok?
    ensures var values := ChildValues(f.children, evalChild).value;
            && |values| == |argTypes|
            && forall i :: 0 <= i < |argTypes| ==> f.children[i].valueType == argTypes[i] && values[i] == evalChild(f.children[i]).value
  {
  }
}
