/**
 * The shape of the async trait generated for an interface
 * (`glass_codegen::generator::interface`). Token streams are abstracted to tagged
 * records: which associated types are declared, and for each function its request
 * parameter, its return type and its `where` bounds, with Rust types as text.
 */
module InterfaceGen {
  import opened Wrappers
  import opened Seqs
  import opened Ast
  import opened RustTypes

  /** The associated types a generated trait declares. */
  datatype AssociatedType = ErrorType | InputStreamType | OutputStreamType

  /** The request parameter: `Self::InputStream<T>` for a stream, plain `T` otherwise. */
  datatype GeneratedParam = InputStreamOf(item: string) | Plain(requestType: string)

  /** The declared return type: `Result<(), Self::Error>`, `Result<Self::OutputStream<T>, Self::Error>` or `Result<T, Self::Error>`. */
  datatype GeneratedReturn = UnitResult | OutputStreamResult(item: string) | ValueResult(okType: string)

  /** A bound `T: serde::Serialize + serde::de::DeserializeOwned + Send + Sync`. */
  datatype WhereClause = SerdeBound(typeIdent: string)

  /** One generated `async fn`; an empty clause list means the signature has no `where`. */
  datatype GeneratedFunction = GeneratedFunction(
    name: string,
    param: GeneratedParam,
    returnType: GeneratedReturn,
    whereClauses: seq<WhereClause>)

  predicate HasStreamReturn(f: Function)
  {
    f.returnType.Some? && f.returnType.value.Stream?
  }

  predicate HasSimpleReturn(f: Function)
  {
    f.returnType.Some? && f.returnType.value.Simple?
  }

  /** `functions.iter().any(|f| matches!(f.param, FunctionParam::Stream(_)))` */
  function AnyStreamParam(functions: seq<Function>): (b: bool)
    ensures b <==> exists i :: 0 <= i < |functions| && functions[i].param.Stream?
  {
    if |functions| == 0 then false
    else functions[0].param.Stream? || AnyStreamParam(functions[1..])
  }

  /** `functions.iter().any(|f| matches!(f.return_type, Some(FunctionReturn::Stream(_))))` */
  function AnyStreamReturn(functions: seq<Function>): (b: bool)
    ensures b <==> exists i :: 0 <= i < |functions| && HasStreamReturn(functions[i])
  {
    if |functions| == 0 then false
    else HasStreamReturn(functions[0]) || AnyStreamReturn(functions[1..])
  }

  /**
   * `generated_associated_types`: `Error` first, then `InputStream` when some function
   * takes a stream, then `OutputStream` when some function returns one.
   */
  method GeneratedAssociatedTypes(functions: seq<Function>) returns (r: seq<AssociatedType>)
    ensures |r| >= 1 && r[0] == ErrorType && Distinct(r)
    ensures InputStreamType in r <==> exists i :: 0 <= i < |functions| && functions[i].param.Stream?
    ensures OutputStreamType in r <==> exists i :: 0 <= i < |functions| && HasStreamReturn(functions[i])
    ensures forall i, j :: 0 <= i < |r| && 0 <= j < |r| && r[i] == InputStreamType && r[j] == OutputStreamType ==> i < j
  {
    r := [ErrorType];
    var hasInputStreams := AnyStreamParam(functions);
    var hasOutputStreams := AnyStreamReturn(functions);
    if hasInputStreams {
      r := r + [InputStreamType];
    }
    if hasOutputStreams {
      r := r + [OutputStreamType];
    }
  }

  /** The request parameter of one function. */
  function ParamOf(p: FunctionParam): (g: GeneratedParam)
    ensures g.InputStreamOf? <==> p.Stream?
    ensures g.InputStreamOf? ==> g.item == ConvertAstTypeToRustType(p.paramType)
    ensures g.Plain? ==> g.requestType == ConvertAstTypeToRustType(p.paramType)
  {
    match p
    case Stream(t) => InputStreamOf(ConvertAstTypeToRustType(t))
    case Simple(t) => Plain(ConvertAstTypeToRustType(t))
  }

  /** The return type of one function. */
  function ReturnOf(r: Option<FunctionReturn>): (g: GeneratedReturn)
    ensures r.None? <==> g.UnitResult?
    ensures r.Some? && r.value.Stream? <==> g.OutputStreamResult?
    ensures g.OutputStreamResult? ==> g.item == ConvertAstTypeToRustType(r.value.returnType)
    ensures g.ValueResult? ==> g.okType == ConvertAstTypeToRustType(r.value.returnType)
  {
    match r
    case None => UnitResult
    case Some(Stream(t)) => OutputStreamResult(ConvertAstTypeToRustType(t))
    case Some(Simple(t)) => ValueResult(ConvertAstTypeToRustType(t))
  }

  /**
   * `format_ident!` panics on a text that is not an identifier, so the source needs
   * every `Simple` parameter and return type to spell as one.
   */
  predicate BoundsAreIdents(f: Function)
  {
    (f.param.Simple? ==> IsRustIdent(ConvertAstTypeToRustType(f.param.paramType)))
    && (HasSimpleReturn(f) ==> IsRustIdent(ConvertAstTypeToRustType(f.returnType.value.returnType)))
  }

  /** One bound per `Simple` parameter and one per `Simple` return, in that order. */
  predicate BoundsFor(f: Function, clauses: seq<WhereClause>)
  {
    |clauses| == (if f.param.Simple? then 1 else 0) + (if HasSimpleReturn(f) then 1 else 0)
    && (f.param.Simple? ==> clauses[0] == SerdeBound(ConvertAstTypeToRustType(f.param.paramType)))
    && (HasSimpleReturn(f) ==>
          clauses[|clauses| - 1] == SerdeBound(ConvertAstTypeToRustType(f.returnType.value.returnType)))
  }

  /** `generate_where_clauses` */
  method GenerateWhereClauses(f: Function) returns (r: seq<WhereClause>)
    requires BoundsAreIdents(f)
    ensures BoundsFor(f, r)
    ensures r == [] <==> !f.param.Simple? && !HasSimpleReturn(f)
  {
    r := [];
    if f.param.Simple? {
      r := r + [SerdeBound(ConvertAstTypeToRustType(f.param.paramType))];
    }
    if HasSimpleReturn(f) {
      r := r + [SerdeBound(ConvertAstTypeToRustType(f.returnType.value.returnType))];
    }
  }

  /** `generate_functions`: one signature per function, in input order. */
  method GenerateFunctions(functions: seq<Function>) returns (r: seq<GeneratedFunction>)
    requires forall i :: 0 <= i < |functions| ==> BoundsAreIdents(functions[i])
    ensures |r| == |functions|
    ensures forall i :: 0 <= i < |functions| ==>
              r[i].name == functions[i].name
              && r[i].param == ParamOf(functions[i].param)
              && r[i].returnType == ReturnOf(functions[i].returnType)
              && BoundsFor(functions[i], r[i].whereClauses)
  {
    r := [];
    var i := 0;
    while i < |functions|
      invariant 0 <= i <= |functions| && |r| == i
      invariant forall k :: 0 <= k < i ==>
                  r[k].name == functions[k].name
                  && r[k].param == ParamOf(functions[k].param)
                  && r[k].returnType == ReturnOf(functions[k].returnType)
                  && BoundsFor(functions[k], r[k].whereClauses)
    {
      var fn := functions[i];
      var generatedParam := ParamOf(fn.param);
      var generatedReturn := ReturnOf(fn.returnType);
      var whereClauses := GenerateWhereClauses(fn);
      r := r + [GeneratedFunction(fn.name, generatedParam, generatedReturn, whereClauses)];
      i := i + 1;
    }
  }
}
