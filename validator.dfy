/**
 * Semantic validation of one parsed file (`glass_parser::validator`): duplicate
 * schemas, fields, interfaces and functions are rejected while the lookup maps are
 * built, then every type mentioned by a field, parameter or return must name a schema
 * of the file. The first failing phase decides the error.
 */
module Validator {
  import opened Wrappers
  import opened Seqs
  import opened Ast

  datatype ValidatorError =
    | DuplicateSchema(name: string)
    | DuplicateInterface(name: string)
    | DuplicateField(schema: string, field: string)
    | DuplicateFunction(interface: string, functionName: string)
    | SchemaNotFound(schemaRef: SchemaRef)

  datatype ValidatedFile = ValidatedFile(
    file: File,
    schemaMap: map<SchemaRef, Schema>,
    interfaceMap: map<string, Interface>)

  function FieldNames(s: Schema): (r: seq<string>)
    ensures |r| == |s.fields| && forall i :: 0 <= i < |r| ==> r[i] == s.fields[i].name
  {
    seq(|s.fields|, i requires 0 <= i < |s.fields| => s.fields[i].name)
  }

  function FunctionNames(itf: Interface): (r: seq<string>)
    ensures |r| == |itf.functions| && forall i :: 0 <= i < |r| ==> r[i] == itf.functions[i].name
  {
    seq(|itf.functions|, i requires 0 <= i < |itf.functions| => itf.functions[i].name)
  }

  /**
   * Scanning left to right and remembering what was seen (starting from `seen`), the
   * first name already seen: the `HashSet::insert` returning false.
   */
  function FirstRepeated(names: seq<string>, seen: set<string>): (r: Option<string>)
    ensures r.Some? ==> r.value in names
  {
    if |names| == 0 then None
    else if names[0] in seen then Some(names[0])
    else FirstRepeated(names[1..], seen + {names[0]})
  }

  /** `FirstRepeated` finds nothing exactly when the names are distinct and none was seen before. */
  lemma {:induction false} FirstRepeatedMeaning(names: seq<string>, seen: set<string>)
    ensures FirstRepeated(names, seen).None? <==>
              Distinct(names) && forall k :: 0 <= k < |names| ==> names[k] !in seen
  {
    if |names| > 0 && names[0] !in seen {
      var tail := names[1..];
      FirstRepeatedMeaning(tail, seen + {names[0]});
      if FirstRepeated(tail, seen + {names[0]}).None? {
        DistinctCons(names);
      } else if Distinct(names) {
        assert forall k :: 0 <= k < |tail| ==> tail[k] == names[k + 1];
      }
    }
  }

  lemma DistinctCons(names: seq<string>)
    requires |names| > 0 && Distinct(names[1..]) && names[0] !in names[1..]
    ensures Distinct(names)
  {
    forall p, q | 0 <= p < q < |names|
      ensures names[p] != names[q]
    {
      assert names[q] == names[1..][q - 1];
      if p > 0 {
        assert names[p] == names[1..][p - 1];
      }
    }
  }

  /**
   * What `FirstRepeated` finds is the earliest position whose name was seen before or
   * occurs earlier.
   */
  lemma {:induction false} FirstRepeatedWitness(names: seq<string>, seen: set<string>)
    ensures FirstRepeated(names, seen).Some? ==>
              exists j :: 0 <= j < |names| && names[j] == FirstRepeated(names, seen).value
                          && (names[j] in seen || names[j] in names[..j])
                          && Distinct(names[..j])
                          && (forall k :: 0 <= k < j ==> names[k] !in seen)
  {
    if |names| > 0 && names[0] !in seen {
      var tail := names[1..];
      FirstRepeatedWitness(tail, seen + {names[0]});
      if FirstRepeated(tail, seen + {names[0]}).Some? {
        var j :| 0 <= j < |tail| && tail[j] == FirstRepeated(names, seen).value
                 && (tail[j] in seen + {names[0]} || tail[j] in tail[..j])
                 && Distinct(tail[..j])
                 && (forall k :: 0 <= k < j ==> tail[k] !in seen + {names[0]});
        WitnessShift(names, seen, j);
      }
    }
  }

  lemma WitnessShift(names: seq<string>, seen: set<string>, j: nat)
    requires j + 1 < |names| && names[0] !in seen
    requires names[1..][j] in seen + {names[0]} || names[1..][j] in names[1..][..j]
    requires Distinct(names[1..][..j])
    requires forall k :: 0 <= k < j ==> names[1..][k] !in seen + {names[0]}
    ensures names[j + 1] in seen || names[j + 1] in names[..j + 1]
    ensures Distinct(names[..j + 1])
    ensures forall k :: 0 <= k < j + 1 ==> names[k] !in seen
  {
    assert names[..j + 1] == [names[0]] + names[1..][..j];
    assert names[j + 1] == names[1..][j];
    DistinctCons(names[..j + 1]);
  }

  /** The error `build_schema_map` stops at, for `schemas` after the names in `seen`. */
  function SchemaMapError(schemas: seq<Schema>, seen: set<string>): Option<ValidatorError>
  {
    if |schemas| == 0 then None
    else if schemas[0].name in seen then Some(DuplicateSchema(schemas[0].name))
    else match FirstRepeated(FieldNames(schemas[0]), {})
      case Some(f) => Some(DuplicateField(schemas[0].name, f))
      case None => SchemaMapError(schemas[1..], seen + {schemas[0].name})
  }

  /** The error `build_interface_map` stops at, for `interfaces` after the names in `seen`. */
  function InterfaceMapError(interfaces: seq<Interface>, seen: set<string>): Option<ValidatorError>
  {
    if |interfaces| == 0 then None
    else if interfaces[0].name in seen then Some(DuplicateInterface(interfaces[0].name))
    else match FirstRepeated(FunctionNames(interfaces[0]), {})
      case Some(f) => Some(DuplicateFunction(interfaces[0].name, f))
      case None => InterfaceMapError(interfaces[1..], seen + {interfaces[0].name})
  }

  /** The names of `xs`, in order, under the projection `name`. */
  function Names<T>(xs: seq<T>, name: T -> string): (r: seq<string>)
    ensures |r| == |xs| && forall i :: 0 <= i < |r| ==> r[i] == name(xs[i])
  {
    seq(|xs|, i requires 0 <= i < |xs| => name(xs[i]))
  }

  function SchemaName(s: Schema): string { s.name }

  function InterfaceName(d: Interface): string { d.name }

  /** The map `build_schema_map` fills, one insertion per schema in order. */
  function SchemaMapOf(schemas: seq<Schema>): map<SchemaRef, Schema>
  {
    if |schemas| == 0 then map[]
    else SchemaMapOf(schemas[..|schemas| - 1])[SchemaRef(schemas[|schemas| - 1].name) := schemas[|schemas| - 1]]
  }

  /** The map `build_interface_map` fills, one insertion per interface in order. */
  function InterfaceMapOf(interfaces: seq<Interface>): map<string, Interface>
  {
    if |interfaces| == 0 then map[]
    else InterfaceMapOf(interfaces[..|interfaces| - 1])[interfaces[|interfaces| - 1].name := interfaces[|interfaces| - 1]]
  }

  /**
   * Building the schema map succeeds exactly when the schema names are distinct and
   * new, and no schema repeats a field name.
   */
  lemma {:induction false} SchemaMapOkIff(schemas: seq<Schema>, seen: set<string>)
    ensures SchemaMapError(schemas, seen).None? <==>
              Distinct(Names(schemas, SchemaName))
              && (forall i :: 0 <= i < |schemas| ==> schemas[i].name !in seen)
              && (forall i :: 0 <= i < |schemas| ==> Distinct(FieldNames(schemas[i])))
    decreases |schemas|
  {
    if |schemas| > 0 {
      var rest := schemas[1..];
      SchemaMapOkIff(rest, seen + {schemas[0].name});
      FirstRepeatedMeaning(FieldNames(schemas[0]), {});
      assert forall i :: 1 <= i < |schemas| ==> schemas[i] == rest[i - 1];
      var names := Names(schemas, SchemaName);
      if Distinct(names) {
        assert Distinct(Names(rest, SchemaName)) by {
          forall p, q | 0 <= p < q < |rest|
            ensures rest[p].name != rest[q].name
          {
            assert names[p + 1] != names[q + 1];
          }
        }
      }
      if SchemaMapError(schemas, seen).None? {
        assert Distinct(names) by {
          forall p, q | 0 <= p < q < |names|
            ensures names[p] != names[q]
          {
            assert names[q] == rest[q - 1].name;
            if p > 0 {
              assert names[p] == rest[p - 1].name;
            }
          }
        }
      }
    }
  }

  /** A `DuplicateSchema` error names a schema that was seen before or occurs twice. */
  lemma {:induction false} DuplicateSchemaRepeats(schemas: seq<Schema>, seen: set<string>)
    requires SchemaMapError(schemas, seen).Some? && SchemaMapError(schemas, seen).value.DuplicateSchema?
    ensures var n := SchemaMapError(schemas, seen).value.name;
            exists j :: 0 <= j < |schemas| && schemas[j].name == n
                        && (n in seen || exists i :: 0 <= i < j && schemas[i].name == n)
    decreases |schemas|
  {
    var s0 := schemas[0];
    if s0.name !in seen && FirstRepeated(FieldNames(s0), {}).None? {
      var rest := schemas[1..];
      DuplicateSchemaRepeats(rest, seen + {s0.name});
      var n := SchemaMapError(schemas, seen).value.name;
      var j :| 0 <= j < |rest| && rest[j].name == n
               && (n in seen + {s0.name} || exists i :: 0 <= i < j && rest[i].name == n);
      assert schemas[j + 1].name == n;
      if n !in seen && n != s0.name {
        var i :| 0 <= i < j && rest[i].name == n;
        assert schemas[i + 1].name == n;
      }
    }
  }

  /** A `DuplicateField` error names a schema of the file and a field name it repeats. */
  lemma {:induction false} DuplicateFieldRepeats(schemas: seq<Schema>, seen: set<string>)
    requires SchemaMapError(schemas, seen).Some? && SchemaMapError(schemas, seen).value.DuplicateField?
    ensures var e := SchemaMapError(schemas, seen).value;
            exists i :: 0 <= i < |schemas| && schemas[i].name == e.schema
                        && (exists a, b :: 0 <= a < b < |schemas[i].fields|
                              && schemas[i].fields[a].name == e.field && schemas[i].fields[b].name == e.field)
    decreases |schemas|
  {
    var s0 := schemas[0];
    var fr := FirstRepeated(FieldNames(s0), {});
    if s0.name in seen {
    } else if fr.Some? {
      FirstRepeatedWitness(FieldNames(s0), {});
      var names := FieldNames(s0);
      var j :| 0 <= j < |names| && names[j] == fr.value && (names[j] in {} || names[j] in names[..j]);
      var a :| 0 <= a < j && names[a] == names[j];
      assert schemas[0].fields[a].name == fr.value && schemas[0].fields[j].name == fr.value;
    } else {
      var rest := schemas[1..];
      DuplicateFieldRepeats(rest, seen + {s0.name});
      var e := SchemaMapError(schemas, seen).value;
      var i :| 0 <= i < |rest| && rest[i].name == e.schema
               && (exists a, b :: 0 <= a < b < |rest[i].fields|
                     && rest[i].fields[a].name == e.field && rest[i].fields[b].name == e.field);
      assert schemas[i + 1] == rest[i];
    }
  }

  /**
   * Building the interface map succeeds exactly when the interface names are distinct
   * and new, and no interface repeats a function name.
   */
  lemma {:induction false} InterfaceMapOkIff(interfaces: seq<Interface>, seen: set<string>)
    ensures InterfaceMapError(interfaces, seen).None? <==>
              Distinct(Names(interfaces, InterfaceName))
              && (forall i :: 0 <= i < |interfaces| ==> interfaces[i].name !in seen)
              && (forall i :: 0 <= i < |interfaces| ==> Distinct(FunctionNames(interfaces[i])))
    decreases |interfaces|
  {
    if |interfaces| > 0 {
      var rest := interfaces[1..];
      InterfaceMapOkIff(rest, seen + {interfaces[0].name});
      FirstRepeatedMeaning(FunctionNames(interfaces[0]), {});
      assert forall i :: 1 <= i < |interfaces| ==> interfaces[i] == rest[i - 1];
      var names := Names(interfaces, InterfaceName);
      if Distinct(names) {
        assert Distinct(Names(rest, InterfaceName)) by {
          forall p, q | 0 <= p < q < |rest|
            ensures rest[p].name != rest[q].name
          {
            assert names[p + 1] != names[q + 1];
          }
        }
      }
      if InterfaceMapError(interfaces, seen).None? {
        assert Distinct(names) by {
          forall p, q | 0 <= p < q < |names|
            ensures names[p] != names[q]
          {
            assert names[q] == rest[q - 1].name;
            if p > 0 {
              assert names[p] == rest[p - 1].name;
            }
          }
        }
      }
    }
  }

  /** With no duplicates, the schema map has exactly the schema names as keys, each bound to its schema. */
  lemma {:induction false} SchemaMapContents(schemas: seq<Schema>)
    requires Distinct(Names(schemas, SchemaName))
    ensures forall k :: k in SchemaMapOf(schemas) <==> exists i :: 0 <= i < |schemas| && schemas[i].name == k.name
    ensures forall i :: 0 <= i < |schemas| ==> SchemaMapOf(schemas)[SchemaRef(schemas[i].name)] == schemas[i]
    decreases |schemas|
  {
    if |schemas| > 0 {
      var init := schemas[..|schemas| - 1];
      assert Names(init, SchemaName) == Names(schemas, SchemaName)[..|schemas| - 1];
      SchemaMapContents(init);
    }
  }

  /**
   * `build_schema_map`: stops at the first duplicate schema name or, within a schema,
   * the first repeated field name; otherwise maps every schema name to its schema.
   */
  method BuildSchemaMap(schemas: seq<Schema>) returns (r: Result<map<SchemaRef, Schema>, ValidatorError>)
    ensures r.Err? <==> SchemaMapError(schemas, {}).Some?
    ensures r.Err? ==> r.error == SchemaMapError(schemas, {}).value
    ensures r.Ok? ==> r.value == SchemaMapOf(schemas)
  {
    var schemaMap: map<SchemaRef, Schema> := map[];
    ghost var seen: set<string> := {};
    var i := 0;
    while i < |schemas|
      invariant 0 <= i <= |schemas|
      invariant seen == set k | 0 <= k < i :: schemas[k].name
      invariant schemaMap == SchemaMapOf(schemas[..i])
      invariant forall n :: SchemaRef(n) in schemaMap <==> n in seen
      invariant SchemaMapError(schemas, {}) == SchemaMapError(schemas[i..], seen)
    {
      var schema := schemas[i];
      assert schemas[i..][1..] == schemas[i + 1..];
      if SchemaRef(schema.name) in schemaMap {
        return Err(DuplicateSchema(schema.name));
      }
      var names := FieldNames(schema);
      var fieldNames: set<string> := {};
      var j := 0;
      while j < |schema.fields|
        invariant 0 <= j <= |schema.fields|
        invariant fieldNames == set k | 0 <= k < j :: names[k]
        invariant FirstRepeated(names, {}) == FirstRepeated(names[j..], fieldNames)
      {
        assert names[j..][1..] == names[j + 1..];
        var field := schema.fields[j];
        if field.name in fieldNames {
          return Err(DuplicateField(schema.name, field.name));
        }
        fieldNames := fieldNames + {field.name};
        j := j + 1;
      }
      assert names[j..] == [];
      assert schemas[..i + 1][..i] == schemas[..i];
      schemaMap := schemaMap[SchemaRef(schema.name) := schema];
      seen := seen + {schema.name};
      i := i + 1;
    }
    assert schemas[..i] == schemas;
    return Ok(schemaMap);
  }

  /**
   * `build_interface_map`: stops at the first duplicate interface name or, within an
   * interface, the first repeated function name; otherwise maps every interface name
   * to its interface.
   */
  method BuildInterfaceMap(interfaces: seq<Interface>) returns (r: Result<map<string, Interface>, ValidatorError>)
    ensures r.Err? <==> InterfaceMapError(interfaces, {}).Some?
    ensures r.Err? ==> r.error == InterfaceMapError(interfaces, {}).value
    ensures r.Ok? ==> r.value == InterfaceMapOf(interfaces)
  {
    var interfaceMap: map<string, Interface> := map[];
    ghost var seen: set<string> := {};
    var i := 0;
    while i < |interfaces|
      invariant 0 <= i <= |interfaces|
      invariant seen == set k | 0 <= k < i :: interfaces[k].name
      invariant interfaceMap == InterfaceMapOf(interfaces[..i])
      invariant forall n :: n in interfaceMap <==> n in seen
      invariant InterfaceMapError(interfaces, {}) == InterfaceMapError(interfaces[i..], seen)
    {
      var itf := interfaces[i];
      assert interfaces[i..][1..] == interfaces[i + 1..];
      if itf.name in interfaceMap {
        return Err(DuplicateInterface(itf.name));
      }
      var names := FunctionNames(itf);
      var functionNames: set<string> := {};
      var j := 0;
      while j < |itf.functions|
        invariant 0 <= j <= |itf.functions|
        invariant functionNames == set k | 0 <= k < j :: names[k]
        invariant FirstRepeated(names, {}) == FirstRepeated(names[j..], functionNames)
      {
        assert names[j..][1..] == names[j + 1..];
        var fn := itf.functions[j];
        if fn.name in functionNames {
          return Err(DuplicateFunction(itf.name, fn.name));
        }
        functionNames := functionNames + {fn.name};
        j := j + 1;
      }
      assert names[j..] == [];
      assert interfaces[..i + 1][..i] == interfaces[..i];
      interfaceMap := interfaceMap[itf.name := itf];
      seen := seen + {itf.name};
      i := i + 1;
    }
    assert interfaces[..i] == interfaces;
    return Ok(interfaceMap);
  }

  /** `validate_type`: only the innermost type matters, and a schema there must be a key. */
  function ValidateType(t: Type, schemaMap: map<SchemaRef, Schema>): (r: Result<(), ValidatorError>)
    ensures r.Ok? <==> (Leaf(t).Schema? ==> Leaf(t).schemaRef in schemaMap)
    ensures r.Err? ==> r.error == SchemaNotFound(Leaf(t).schemaRef)
  {
    match t
    case Primitive(_) => Ok(())
    case Schema(schemaRef) => if schemaRef !in schemaMap then Err(SchemaNotFound(schemaRef)) else Ok(())
    case Option(inner) => ValidateType(inner, schemaMap)
    case Vector(inner) => ValidateType(inner, schemaMap)
  }

  /** `validate_function_param` */
  function ValidateFunctionParam(p: FunctionParam, schemaMap: map<SchemaRef, Schema>): (r: Result<(), ValidatorError>)
    ensures r == ValidateType(p.paramType, schemaMap)
    ensures r.Ok? <==> (Leaf(p.paramType).Schema? ==> Leaf(p.paramType).schemaRef in schemaMap)
    ensures r.Err? ==> r.error == SchemaNotFound(Leaf(p.paramType).schemaRef)
  {
    match p
    case Stream(t) => ValidateType(t, schemaMap)
    case Simple(t) => ValidateType(t, schemaMap)
  }

  /** `validate_function_return` */
  function ValidateFunctionReturn(ret: FunctionReturn, schemaMap: map<SchemaRef, Schema>): (r: Result<(), ValidatorError>)
    ensures r == ValidateType(ret.returnType, schemaMap)
    ensures r.Ok? <==> (Leaf(ret.returnType).Schema? ==> Leaf(ret.returnType).schemaRef in schemaMap)
    ensures r.Err? ==> r.error == SchemaNotFound(Leaf(ret.returnType).schemaRef)
  {
    match ret
    case Stream(t) => ValidateType(t, schemaMap)
    case Simple(t) => ValidateType(t, schemaMap)
  }

  /** The types of a schema's fields, in order. */
  function FieldTypes(s: Schema): seq<Type>
  {
    seq(|s.fields|, i requires 0 <= i < |s.fields| => s.fields[i].ty)
  }

  /** A function's parameter type, then its return type when it has one. */
  function SignatureTypes(f: Function): seq<Type>
  {
    [f.param.paramType] + (if f.returnType.Some? then [f.returnType.value.returnType] else [])
  }

  function SchemasTypes(schemas: seq<Schema>): seq<Type>
  {
    if |schemas| == 0 then [] else FieldTypes(schemas[0]) + SchemasTypes(schemas[1..])
  }

  function FunctionsTypes(functions: seq<Function>): seq<Type>
  {
    if |functions| == 0 then [] else SignatureTypes(functions[0]) + FunctionsTypes(functions[1..])
  }

  function InterfacesTypes(interfaces: seq<Interface>): seq<Type>
  {
    if |interfaces| == 0 then [] else FunctionsTypes(interfaces[0].functions) + InterfacesTypes(interfaces[1..])
  }

  /** Every type reference checking visits, in the order it visits them. */
  function CheckedTypes(file: File): seq<Type>
  {
    SchemasTypes(file.schemas) + InterfacesTypes(file.interfaces)
  }

  /** The first failing check among `types`, or success when none fails. */
  function FirstTypeError(types: seq<Type>, schemaMap: map<SchemaRef, Schema>): (r: Result<(), ValidatorError>)
    ensures r.Ok? <==> forall i :: 0 <= i < |types| ==> ValidateType(types[i], schemaMap).Ok?
    ensures r.Err? ==> exists i :: 0 <= i < |types| && ValidateType(types[i], schemaMap) == r
                                   && forall k :: 0 <= k < i ==> ValidateType(types[k], schemaMap).Ok?
  {
    if |types| == 0 then Ok(())
    else
      var head := ValidateType(types[0], schemaMap);
      if head.Err? then head
      else
        var r := FirstTypeError(types[1..], schemaMap);
        if r.Err? then
          ghost var i :| 0 <= i < |types[1..]| && ValidateType(types[1..][i], schemaMap) == r
                         && forall k :: 0 <= k < i ==> ValidateType(types[1..][k], schemaMap).Ok?;
          assert ValidateType(types[i + 1], schemaMap) == r;
          r
        else r
  }

  /** A check that passes leaves the outcome to the rest of the sequence; one that fails decides it. */
  lemma FirstTypeErrorCons(t: Type, rest: seq<Type>, schemaMap: map<SchemaRef, Schema>)
    ensures FirstTypeError([t] + rest, schemaMap)
            == if ValidateType(t, schemaMap).Err? then ValidateType(t, schemaMap) else FirstTypeError(rest, schemaMap)
  {
    assert ([t] + rest)[1..] == rest;
  }

  /** Checking `a + b` meets the first failure of `a`, or else the first failure of `b`. */
  lemma {:induction false} FirstTypeErrorAppend(a: seq<Type>, b: seq<Type>, schemaMap: map<SchemaRef, Schema>)
    ensures FirstTypeError(a + b, schemaMap)
            == if FirstTypeError(a, schemaMap).Err? then FirstTypeError(a, schemaMap) else FirstTypeError(b, schemaMap)
  {
    if |a| == 0 {
      assert a + b == b;
    } else {
      assert (a + b)[0] == a[0];
      assert (a + b)[1..] == a[1..] + b;
      FirstTypeErrorAppend(a[1..], b, schemaMap);
    }
  }

  /** The first half of `validate_schema_ref`: the field types of every schema, in order. */
  method ValidateFieldRefs(schemas: seq<Schema>, schemaMap: map<SchemaRef, Schema>) returns (r: Result<(), ValidatorError>)
    ensures r == FirstTypeError(SchemasTypes(schemas), schemaMap)
  {
    ghost var goal := FirstTypeError(SchemasTypes(schemas), schemaMap);
    var i := 0;
    while i < |schemas|
      invariant 0 <= i <= |schemas|
      invariant goal == FirstTypeError(SchemasTypes(schemas[i..]), schemaMap)
    {
      assert schemas[i..][1..] == schemas[i + 1..];
      FirstTypeErrorAppend(FieldTypes(schemas[i]), SchemasTypes(schemas[i + 1..]), schemaMap);
      var check := ValidateSchemaFields(schemas[i], schemaMap);
      if check.Err? {
        return check;
      }
      i := i + 1;
    }
    assert SchemasTypes(schemas[i..]) == [];
    return Ok(());
  }

  /** The inner loop over one schema's fields. */
  method ValidateSchemaFields(schema: Schema, schemaMap: map<SchemaRef, Schema>) returns (r: Result<(), ValidatorError>)
    ensures r == FirstTypeError(FieldTypes(schema), schemaMap)
  {
    ghost var types := FieldTypes(schema);
    ghost var goal := FirstTypeError(types, schemaMap);
    var j := 0;
    while j < |schema.fields|
      invariant 0 <= j <= |schema.fields|
      invariant goal == FirstTypeError(types[j..], schemaMap)
    {
      var t := schema.fields[j].ty;
      FirstTypeErrorStep(types, j, schemaMap);
      var check := ValidateType(t, schemaMap);
      if check.Err? {
        return check;
      }
      j := j + 1;
    }
    assert types[j..] == [];
    return Ok(());
  }

  lemma FirstTypeErrorStep(types: seq<Type>, j: nat, schemaMap: map<SchemaRef, Schema>)
    requires j < |types|
    ensures FirstTypeError(types[j..], schemaMap)
            == if ValidateType(types[j], schemaMap).Err? then ValidateType(types[j], schemaMap) else FirstTypeError(types[j + 1..], schemaMap)
  {
    assert types[j..][1..] == types[j + 1..];
  }

  /** One function's part of `validate_schema_ref`: its parameter, then its return when present. */
  method ValidateSignature(fn: Function, schemaMap: map<SchemaRef, Schema>) returns (r: Result<(), ValidatorError>)
    ensures r == FirstTypeError(SignatureTypes(fn), schemaMap)
  {
    r := ValidateFunctionParam(fn.param, schemaMap);
    if fn.returnType.Some? {
      FirstTypeErrorCons(fn.param.paramType, [fn.returnType.value.returnType], schemaMap);
      FirstTypeErrorCons(fn.returnType.value.returnType, [], schemaMap);
      if r.Ok? {
        r := ValidateFunctionReturn(fn.returnType.value, schemaMap);
      }
    } else {
      FirstTypeErrorCons(fn.param.paramType, [], schemaMap);
    }
    assert r.Ok? ==> r.value == ();
  }

  /** The second half of `validate_schema_ref`: each function's parameter, then its return when present. */
  method ValidateSignatureRefs(interfaces: seq<Interface>, schemaMap: map<SchemaRef, Schema>) returns (r: Result<(), ValidatorError>)
    ensures r == FirstTypeError(InterfacesTypes(interfaces), schemaMap)
  {
    ghost var goal := FirstTypeError(InterfacesTypes(interfaces), schemaMap);
    var i := 0;
    while i < |interfaces|
      invariant 0 <= i <= |interfaces|
      invariant goal == FirstTypeError(InterfacesTypes(interfaces[i..]), schemaMap)
    {
      var itf := interfaces[i];
      ghost var after := InterfacesTypes(interfaces[i + 1..]);
      assert interfaces[i..][1..] == interfaces[i + 1..];
      assert InterfacesTypes(interfaces[i..]) == FunctionsTypes(itf.functions[0..]) + after;
      var j := 0;
      while j < |itf.functions|
        invariant 0 <= j <= |itf.functions|
        invariant goal == FirstTypeError(FunctionsTypes(itf.functions[j..]) + after, schemaMap)
      {
        var fn := itf.functions[j];
        ghost var next := FunctionsTypes(itf.functions[j + 1..]) + after;
        assert itf.functions[j..][1..] == itf.functions[j + 1..];
        assert FunctionsTypes(itf.functions[j..]) + after == SignatureTypes(fn) + next;
        FirstTypeErrorAppend(SignatureTypes(fn), next, schemaMap);
        var check := ValidateSignature(fn, schemaMap);
        if check.Err? {
          return check;
        }
        j := j + 1;
      }
      assert FunctionsTypes(itf.functions[j..]) + after == after;
      i := i + 1;
    }
    assert goal.value == ();
    return Ok(());
  }

  /**
   * `validate_schema_ref`: every schema field type, then each function's parameter and
   * its return type when present; the first failure is returned.
   */
  method ValidateSchemaRef(file: File, schemaMap: map<SchemaRef, Schema>) returns (r: Result<(), ValidatorError>)
    ensures r == FirstTypeError(CheckedTypes(file), schemaMap)
  {
    FirstTypeErrorAppend(SchemasTypes(file.schemas), InterfacesTypes(file.interfaces), schemaMap);
    r := ValidateFieldRefs(file.schemas, schemaMap);
    if r.Ok? {
      r := ValidateSignatureRefs(file.interfaces, schemaMap);
    }
  }

  /**
   * `ValidatedFile::validate`: the schema map first, then the interface map, then the
   * reference check; the first phase that fails decides the error.
   */
  method Validate(file: File) returns (r: Result<ValidatedFile, ValidatorError>)
    ensures SchemaMapError(file.schemas, {}).Some? ==> r == Err(SchemaMapError(file.schemas, {}).value)
    ensures SchemaMapError(file.schemas, {}).None? && InterfaceMapError(file.interfaces, {}).Some? ==>
              r == Err(InterfaceMapError(file.interfaces, {}).value)
    ensures SchemaMapError(file.schemas, {}).None? && InterfaceMapError(file.interfaces, {}).None? ==>
              match FirstTypeError(CheckedTypes(file), SchemaMapOf(file.schemas))
              case Err(e) => r == Err(e)
              case Ok(_) => r == Ok(ValidatedFile(file, SchemaMapOf(file.schemas), InterfaceMapOf(file.interfaces)))
  {
    var schemaMap := BuildSchemaMap(file.schemas);
    if schemaMap.Err? {
      return Err(schemaMap.error);
    }
    var interfaceMap := BuildInterfaceMap(file.interfaces);
    if interfaceMap.Err? {
      return Err(interfaceMap.error);
    }
    var check := ValidateSchemaRef(file, schemaMap.value);
    if check.Err? {
      return Err(check.error);
    }
    return Ok(ValidatedFile(file, schemaMap.value, interfaceMap.value));
  }

  /**
   * A file validates exactly when schema, field, interface and function names are free
   * of duplicates and every type it mentions bottoms out in a primitive or in the name
   * of one of its schemas.
   */
  lemma ValidateOkIff(file: File)
    ensures (SchemaMapError(file.schemas, {}).None? && InterfaceMapError(file.interfaces, {}).None?
             && FirstTypeError(CheckedTypes(file), SchemaMapOf(file.schemas)).Ok?)
            <==>
            (Distinct(Names(file.schemas, SchemaName))
             && (forall i :: 0 <= i < |file.schemas| ==> Distinct(FieldNames(file.schemas[i])))
             && Distinct(Names(file.interfaces, InterfaceName))
             && (forall i :: 0 <= i < |file.interfaces| ==> Distinct(FunctionNames(file.interfaces[i])))
             && (forall t :: t in CheckedTypes(file) && Leaf(t).Schema? ==>
                   exists i :: 0 <= i < |file.schemas| && file.schemas[i].name == Leaf(t).schemaRef.name))
  {
    SchemaMapOkIff(file.schemas, {});
    InterfaceMapOkIff(file.interfaces, {});
    if Distinct(Names(file.schemas, SchemaName)) {
      TypesResolveIff(CheckedTypes(file), file.schemas);
    }
  }

  /** Over a map without duplicates, every type check passes exactly when every referenced schema is declared. */
  lemma TypesResolveIff(types: seq<Type>, schemas: seq<Schema>)
    requires Distinct(Names(schemas, SchemaName))
    ensures FirstTypeError(types, SchemaMapOf(schemas)).Ok? <==>
            forall t :: t in types && Leaf(t).Schema? ==>
              exists i :: 0 <= i < |schemas| && schemas[i].name == Leaf(t).schemaRef.name
  {
    var m := SchemaMapOf(schemas);
    SchemaMapContents(schemas);
    if FirstTypeError(types, m).Ok? {
      forall t | t in types && Leaf(t).Schema?
        ensures exists i :: 0 <= i < |schemas| && schemas[i].name == Leaf(t).schemaRef.name
      {
        var k :| 0 <= k < |types| && types[k] == t;
        assert ValidateType(types[k], m).Ok?;
      }
    } else {
      var k :| 0 <= k < |types| && ValidateType(types[k], m).Err?;
      assert types[k] in types;
    }
  }
}
