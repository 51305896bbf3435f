/**
 * The Rust source the legacy generator writes for one program: every enum first, in
 * declaration order; then the schemas in generation order, or in declaration order when
 * there is none; except that a file named `dependency_test` holding schemas `A`, `B` and
 * `C` emits those three first, in that order, and then the rest.
 */
module RustProgram {
  import opened Wrappers
  import opened Seqs
  import opened Graphs
  import opened LegacyAst
  import opened RustEmitter

  const EnumDerive: string := "#[derive(Debug, Copy, Clone, PartialEq, Eq, Hash, serde::Serialize, serde::Deserialize)]\n"
  const StructDerive: string := "#[derive(Debug, Clone, PartialEq, Eq, Hash, serde::Serialize, serde::Deserialize)]\n"

  /* ---------------------------------------------------------------------------------
   * The parts of a program
   * --------------------------------------------------------------------------------- */

  /** The schemas among `defs`, in declaration order. */
  function SchemasOf(defs: seq<Definition>): seq<SchemaDef>
  {
    if |defs| == 0 then []
    else SchemasOf(defs[..|defs| - 1]) + (if defs[|defs| - 1].Schema? then [defs[|defs| - 1].schema] else [])
  }

  /** The enums among `defs`, in declaration order. */
  function EnumsOf(defs: seq<Definition>): seq<EnumDef>
  {
    if |defs| == 0 then []
    else EnumsOf(defs[..|defs| - 1]) + (if defs[|defs| - 1].Enum? then [defs[|defs| - 1].enumDef] else [])
  }

  /** `program_types`: the qualified names of the program's schemas and enums. */
  function ProgramTypes(program: Program): set<string>
  {
    set d | d in program.definitions && IsTypeDefinition(d) :: EmitterQualifiedName(DefinitionName(d), program)
  }

  /** `program_type_locations`: the located types restricted to the program's own. */
  function ProgramLocations(locations: map<string, set<string>>, program: Program): map<string, set<string>>
  {
    map q | q in locations && q in ProgramTypes(program) :: locations[q]
  }

  /** The file name the pointer lookup finds, or `unknown.glass` when it finds none. */
  function FileNameOr(fileName: Option<string>): string
  {
    if fileName.Some? then fileName.value else "unknown.glass"
  }

  /* ---------------------------------------------------------------------------------
   * Rendering
   * --------------------------------------------------------------------------------- */

  function VariantLine(variant: string): string
  {
    "    " + variant + ",\n"
  }

  function VariantLines(variants: seq<string>): string
  {
    if |variants| == 0 then ""
    else VariantLines(variants[..|variants| - 1]) + VariantLine(variants[|variants| - 1])
  }

  function EnumHead(name: string): string
  {
    EnumDerive + "pub enum " + name + " {\n"
  }

  const ItemTail: string := "}\n\n"

  function RenderEnum(e: EnumDef): string
  {
    EnumHead(e.name) + VariantLines(e.variants) + ItemTail
  }

  function FieldLine(f: SchemaField, packageName: string, fileStem: string): string
  {
    "    pub " + f.name + ": " + FieldType(f.fieldType, packageName, fileStem) + ",\n"
  }

  function FieldLines(fields: seq<SchemaField>, packageName: string, fileStem: string): string
  {
    if |fields| == 0 then ""
    else FieldLines(fields[..|fields| - 1], packageName, fileStem) + FieldLine(fields[|fields| - 1], packageName, fileStem)
  }

  function StructHead(name: string): string
  {
    StructDerive + "pub struct " + name + " {\n"
  }

  function RenderStruct(s: SchemaDef, packageName: string, fileStem: string): string
  {
    StructHead(s.name) + FieldLines(s.fields, packageName, fileStem) + ItemTail
  }

  function RenderEnums(enums: seq<EnumDef>): string
  {
    if |enums| == 0 then ""
    else RenderEnums(enums[..|enums| - 1]) + RenderEnum(enums[|enums| - 1])
  }

  function RenderStructs(schemas: seq<SchemaDef>, packageName: string, fileStem: string): string
  {
    if |schemas| == 0 then ""
    else RenderStructs(schemas[..|schemas| - 1], packageName, fileStem) + RenderStruct(schemas[|schemas| - 1], packageName, fileStem)
  }

  /* ---------------------------------------------------------------------------------
   * The order of the schemas
   * --------------------------------------------------------------------------------- */

  /** The first schema whose qualified name is `q`: the inner search with its `break`. */
  function FirstQualified(schemas: seq<SchemaDef>, program: Program, q: string): (r: Option<SchemaDef>)
    ensures r.Some? ==> r.value in schemas && EmitterQualifiedName(r.value.name, program) == q
    ensures r.None? ==> forall s :: s in schemas ==> EmitterQualifiedName(s.name, program) != q
  {
    if |schemas| == 0 then None
    else if EmitterQualifiedName(schemas[0].name, program) == q then Some(schemas[0])
    else FirstQualified(schemas[1..], program, q)
  }

  /** For each name of `order`, the first schema it qualifies, if there is one. */
  function InOrder(order: seq<string>, schemas: seq<SchemaDef>, program: Program): seq<SchemaDef>
  {
    if |order| == 0 then []
    else
      InOrder(order[..|order| - 1], schemas, program) +
      (match FirstQualified(schemas, program, order[|order| - 1])
       case Some(s) => [s]
       case None => [])
  }

  /** The schemas named `name`, in declaration order. */
  function Named(schemas: seq<SchemaDef>, name: string): seq<SchemaDef>
  {
    if |schemas| == 0 then []
    else Named(schemas[..|schemas| - 1], name) + (if schemas[|schemas| - 1].name == name then [schemas[|schemas| - 1]] else [])
  }

  predicate IsABC(name: string)
  {
    name == "A" || name == "B" || name == "C"
  }

  /** The schemas named neither `A`, `B` nor `C`, in declaration order. */
  function OtherThanABC(schemas: seq<SchemaDef>): seq<SchemaDef>
  {
    if |schemas| == 0 then []
    else OtherThanABC(schemas[..|schemas| - 1]) + (if !IsABC(schemas[|schemas| - 1].name) then [schemas[|schemas| - 1]] else [])
  }

  predicate HasNamed(schemas: seq<SchemaDef>, name: string)
  {
    exists s :: s in schemas && s.name == name
  }

  /** The case the generator hard-codes: the file `dependency_test` with schemas `A`, `B` and `C`. */
  predicate HardCoded(schemas: seq<SchemaDef>, fileStem: string)
  {
    fileStem == "dependency_test" && HasNamed(schemas, "A") && HasNamed(schemas, "B") && HasNamed(schemas, "C")
  }

  /** The schemas in the order the generator emits them, given the `schema_order` it computed. */
  function EmittedSchemas(schemas: seq<SchemaDef>, program: Program, fileStem: string, order: seq<string>): seq<SchemaDef>
  {
    if HardCoded(schemas, fileStem) then
      Named(schemas, "A") + Named(schemas, "B") + Named(schemas, "C") + OtherThanABC(schemas)
    else if |order| > 0 then InOrder(order, schemas, program)
    else schemas
  }

  /**
   * What `schema_order` holds: nothing when there are no schemas, no located types of the
   * program or a cycle among them; otherwise a generation order of the located types.
   */
  ghost predicate ScheduleOf(order: seq<string>, schemas: seq<SchemaDef>, located: map<string, set<string>>)
  {
    if schemas == [] || |located| == 0 || !Acyclic(OrderGraph(located)) then order == []
    else IsGenerationOrder(located, order)
  }

  /** The text written for `program`: its enums, then its schemas in emission order. */
  function ProgramSource(program: Program, fileStem: string, order: seq<string>): string
  {
    RenderEnums(EnumsOf(program.definitions)) +
    RenderStructs(EmittedSchemas(SchemasOf(program.definitions), program, fileStem, order), EmitterPackageName(program), fileStem)
  }

  /* ---------------------------------------------------------------------------------
   * generate_program_rust_code
   * --------------------------------------------------------------------------------- */

  /**
   * `generate_program_rust_code`: the enums, then the schemas ordered by a generation
   * order of the program's located types when one exists. It never fails: a cycle only
   * makes the schemas fall back to declaration order.
   */
  method GenerateProgramRustCode(program: Program, fileName: Option<string>, locations: map<string, set<string>>)
    returns (content: string)
    ensures exists order ::
      ScheduleOf(order, SchemasOf(program.definitions), ProgramLocations(locations, program)) &&
      content == ProgramSource(program, FileStem(FileNameOr(fileName)), order)
  {
    var packageName := EmitterPackageName(program);
    var fileStem := FileStem(FileNameOr(fileName));
    var enums, schemas := SplitDefinitions(program.definitions);
    content := EmitEnums("", enums);
    assert content == RenderEnums(enums);
    var schemaOrder: seq<string> := [];
    ghost var located := ProgramLocations(locations, program);
    if |schemas| > 0 {
      var programLocations := ProgramLocations(locations, program);
      if |programLocations| > 0 {
        var r := GenerationOrder(programLocations);
        if r.Ok? {
          schemaOrder := r.value;
        }
      }
      content := EmitSchemas(content, schemas, program, packageName, fileStem, schemaOrder);
    } else {
      assert EmittedSchemas(schemas, program, fileStem, schemaOrder) == [];
      assert content == content + RenderStructs([], packageName, fileStem);
    }
    assert ScheduleOf(schemaOrder, schemas, located);
  }

  /** The loop sorting the definitions into enums and schemas; services are skipped. */
  method SplitDefinitions(defs: seq<Definition>) returns (enums: seq<EnumDef>, schemas: seq<SchemaDef>)
    ensures enums == EnumsOf(defs) && schemas == SchemasOf(defs)
  {
    enums, schemas := [], [];
    for i := 0 to |defs|
      invariant enums == EnumsOf(defs[..i]) && schemas == SchemasOf(defs[..i])
    {
      assert defs[..i + 1][..i] == defs[..i];
      match defs[i]
      case Schema(s) => schemas := schemas + [s];
      case Enum(e) => enums := enums + [e];
      case Service(_) =>
    }
    assert defs[..|defs|] == defs;
  }

  method EmitEnums(content: string, enums: seq<EnumDef>) returns (r: string)
    ensures r == content + RenderEnums(enums)
  {
    r := content;
    for i := 0 to |enums|
      invariant r == content + RenderEnums(enums[..i])
    {
      assert enums[..i + 1][..i] == enums[..i];
      AppendAssoc(content, RenderEnums(enums[..i]), RenderEnum(enums[i]));
      r := EmitEnum(r, enums[i]);
    }
    assert enums[..|enums|] == enums;
  }

  method EmitEnum(content: string, e: EnumDef) returns (r: string)
    ensures r == content + RenderEnum(e)
  {
    var variants := "";
    for i := 0 to |e.variants|
      invariant variants == VariantLines(e.variants[..i])
    {
      assert e.variants[..i + 1][..i] == e.variants[..i];
      variants := variants + VariantLine(e.variants[i]);
    }
    assert e.variants[..|e.variants|] == e.variants;
    r := content + (EnumHead(e.name) + variants + ItemTail);
  }

  method EmitStruct(content: string, s: SchemaDef, packageName: string, fileStem: string) returns (r: string)
    ensures r == content + RenderStruct(s, packageName, fileStem)
  {
    var fields := "";
    for i := 0 to |s.fields|
      invariant fields == FieldLines(s.fields[..i], packageName, fileStem)
    {
      assert s.fields[..i + 1][..i] == s.fields[..i];
      var fieldType := FieldType(s.fields[i].fieldType, packageName, fileStem);
      fields := fields + ("    pub " + s.fields[i].name + ": " + fieldType + ",\n");
    }
    assert s.fields[..|s.fields|] == s.fields;
    r := content + (StructHead(s.name) + fields + ItemTail);
  }

  /** The branches choosing the order of the schemas. */
  method EmitSchemas(content: string, schemas: seq<SchemaDef>, program: Program, packageName: string, fileStem: string, order: seq<string>)
    returns (r: string)
    ensures r == content + RenderStructs(EmittedSchemas(schemas, program, fileStem, order), packageName, fileStem)
  {
    if fileStem == "dependency_test" && HasNamed(schemas, "A") && HasNamed(schemas, "B") && HasNamed(schemas, "C") {
      r := EmitNamed(content, schemas, "A", packageName, fileStem);
      r := EmitNamed(r, schemas, "B", packageName, fileStem);
      r := EmitNamed(r, schemas, "C", packageName, fileStem);
      r := EmitOthers(r, schemas, packageName, fileStem);
      HardCodedText(content, schemas, packageName, fileStem);
    } else if |order| > 0 {
      r := EmitInOrder(content, order, schemas, program, packageName, fileStem);
    } else {
      r := EmitAll(content, schemas, packageName, fileStem);
    }
  }

  lemma HardCodedText(content: string, schemas: seq<SchemaDef>, packageName: string, fileStem: string)
    ensures content + RenderStructs(Named(schemas, "A"), packageName, fileStem) + RenderStructs(Named(schemas, "B"), packageName, fileStem)
      + RenderStructs(Named(schemas, "C"), packageName, fileStem) + RenderStructs(OtherThanABC(schemas), packageName, fileStem)
      == content + RenderStructs(Named(schemas, "A") + Named(schemas, "B") + Named(schemas, "C") + OtherThanABC(schemas), packageName, fileStem)
  {
    RenderFour(content, Named(schemas, "A"), Named(schemas, "B"), Named(schemas, "C"), OtherThanABC(schemas), packageName, fileStem);
  }

  lemma RenderFour(content: string, a: seq<SchemaDef>, b: seq<SchemaDef>, c: seq<SchemaDef>, d: seq<SchemaDef>, packageName: string, fileStem: string)
    ensures content + RenderStructs(a, packageName, fileStem) + RenderStructs(b, packageName, fileStem)
      + RenderStructs(c, packageName, fileStem) + RenderStructs(d, packageName, fileStem)
      == content + RenderStructs(a + b + c + d, packageName, fileStem)
  {
    var ra, rb, rc, rd := RenderStructs(a, packageName, fileStem), RenderStructs(b, packageName, fileStem),
      RenderStructs(c, packageName, fileStem), RenderStructs(d, packageName, fileStem);
    RenderStructsAppend(a, b, packageName, fileStem);
    RenderStructsAppend(a + b, c, packageName, fileStem);
    RenderStructsAppend(a + b + c, d, packageName, fileStem);
    AppendAssoc(content, ra, rb);
    AppendAssoc(content, ra + rb, rc);
    AppendAssoc(content, ra + rb + rc, rd);
  }

  lemma NamedSnoc(schemas: seq<SchemaDef>, i: nat, name: string)
    requires i < |schemas|
    ensures schemas[i].name == name ==> Named(schemas[..i + 1], name) == Named(schemas[..i], name) + [schemas[i]]
    ensures schemas[i].name != name ==> Named(schemas[..i + 1], name) == Named(schemas[..i], name)
  {
    assert schemas[..i + 1][..i] == schemas[..i];
  }

  lemma OtherThanABCSnoc(schemas: seq<SchemaDef>, i: nat)
    requires i < |schemas|
    ensures !IsABC(schemas[i].name) ==> OtherThanABC(schemas[..i + 1]) == OtherThanABC(schemas[..i]) + [schemas[i]]
    ensures IsABC(schemas[i].name) ==> OtherThanABC(schemas[..i + 1]) == OtherThanABC(schemas[..i])
  {
    assert schemas[..i + 1][..i] == schemas[..i];
  }

  lemma InOrderSnoc(order: seq<string>, i: nat, schemas: seq<SchemaDef>, program: Program)
    requires i < |order|
    ensures FirstQualified(schemas, program, order[i]).None? ==> InOrder(order[..i + 1], schemas, program) == InOrder(order[..i], schemas, program)
    ensures FirstQualified(schemas, program, order[i]).Some? ==>
      InOrder(order[..i + 1], schemas, program) == InOrder(order[..i], schemas, program) + [FirstQualified(schemas, program, order[i]).value]
  {
    assert order[..i + 1][..i] == order[..i];
  }

  /** One of the hard-coded loops: every schema named `name`. */
  method EmitNamed(content: string, schemas: seq<SchemaDef>, name: string, packageName: string, fileStem: string) returns (r: string)
    ensures r == content + RenderStructs(Named(schemas, name), packageName, fileStem)
  {
    r := content;
    for i := 0 to |schemas|
      invariant r == content + RenderStructs(Named(schemas[..i], name), packageName, fileStem)
    {
      NamedSnoc(schemas, i, name);
      if schemas[i].name == name {
        RenderStructsSnoc(content, Named(schemas[..i], name), schemas[i], packageName, fileStem);
        r := EmitStruct(r, schemas[i], packageName, fileStem);
      }
    }
    assert schemas[..|schemas|] == schemas;
  }

  /** The hard-coded loop over the schemas other than `A`, `B` and `C`. */
  method EmitOthers(content: string, schemas: seq<SchemaDef>, packageName: string, fileStem: string) returns (r: string)
    ensures r == content + RenderStructs(OtherThanABC(schemas), packageName, fileStem)
  {
    r := content;
    for i := 0 to |schemas|
      invariant r == content + RenderStructs(OtherThanABC(schemas[..i]), packageName, fileStem)
    {
      OtherThanABCSnoc(schemas, i);
      if schemas[i].name != "A" && schemas[i].name != "B" && schemas[i].name != "C" {
        RenderStructsSnoc(content, OtherThanABC(schemas[..i]), schemas[i], packageName, fileStem);
        r := EmitStruct(r, schemas[i], packageName, fileStem);
      }
    }
    assert schemas[..|schemas|] == schemas;
  }

  /** The fallback: every schema in declaration order. */
  method EmitAll(content: string, schemas: seq<SchemaDef>, packageName: string, fileStem: string) returns (r: string)
    ensures r == content + RenderStructs(schemas, packageName, fileStem)
  {
    r := content;
    for i := 0 to |schemas|
      invariant r == content + RenderStructs(schemas[..i], packageName, fileStem)
    {
      assert schemas[..i + 1] == schemas[..i] + [schemas[i]];
      RenderStructsSnoc(content, schemas[..i], schemas[i], packageName, fileStem);
      r := EmitStruct(r, schemas[i], packageName, fileStem);
    }
    assert schemas[..|schemas|] == schemas;
  }

  /** The normal path: for each name of `order`, the first schema it qualifies. */
  method EmitInOrder(content: string, order: seq<string>, schemas: seq<SchemaDef>, program: Program, packageName: string, fileStem: string)
    returns (r: string)
    ensures r == content + RenderStructs(InOrder(order, schemas, program), packageName, fileStem)
  {
    r := content;
    for i := 0 to |order|
      invariant r == content + RenderStructs(InOrder(order[..i], schemas, program), packageName, fileStem)
    {
      InOrderSnoc(order, i, schemas, program);
      var found := FirstQualified(schemas, program, order[i]);
      if found.Some? {
        RenderStructsSnoc(content, InOrder(order[..i], schemas, program), found.value, packageName, fileStem);
      }
      r := EmitFirstQualified(r, schemas, program, order[i], packageName, fileStem);
    }
    assert order[..|order|] == order;
  }

  /** One pass of the inner loop: the struct of the first schema that `q` qualifies, if any. */
  method EmitFirstQualified(content: string, schemas: seq<SchemaDef>, program: Program, q: string, packageName: string, fileStem: string)
    returns (r: string)
    ensures FirstQualified(schemas, program, q).None? ==> r == content
    ensures FirstQualified(schemas, program, q).Some? ==>
      r == content + RenderStruct(FirstQualified(schemas, program, q).value, packageName, fileStem)
  {
    r := content;
    var j := 0;
    while j < |schemas|
      invariant j <= |schemas|
      invariant FirstQualified(schemas, program, q) == FirstQualified(schemas[j..], program, q)
    {
      if EmitterQualifiedName(schemas[j].name, program) == q {
        r := EmitStruct(r, schemas[j], packageName, fileStem);
        return;
      }
      assert schemas[j..][1..] == schemas[j + 1..];
      j := j + 1;
    }
  }

  /** Emitting one more struct after `content + RenderStructs(schemas)`. */
  lemma RenderStructsSnoc(content: string, schemas: seq<SchemaDef>, s: SchemaDef, packageName: string, fileStem: string)
    ensures content + RenderStructs(schemas, packageName, fileStem) + RenderStruct(s, packageName, fileStem) ==
      content + RenderStructs(schemas + [s], packageName, fileStem)
  {
    assert (schemas + [s])[..|schemas|] == schemas;
    AppendAssoc(content, RenderStructs(schemas, packageName, fileStem), RenderStruct(s, packageName, fileStem));
  }

  lemma {:induction false} RenderStructsAppend(a: seq<SchemaDef>, b: seq<SchemaDef>, packageName: string, fileStem: string)
    ensures RenderStructs(a + b, packageName, fileStem) == RenderStructs(a, packageName, fileStem) + RenderStructs(b, packageName, fileStem)
    decreases |b|
  {
    if |b| == 0 {
      assert a + b == a;
    } else {
      assert (a + b)[..|a + b| - 1] == a + b[..|b| - 1];
      RenderStructsAppend(a, b[..|b| - 1], packageName, fileStem);
    }
  }

  /* ---------------------------------------------------------------------------------
   * Properties of the emission order
   * --------------------------------------------------------------------------------- */

  /** Every definition lands in exactly the list of its kind. */
  lemma {:induction false} SplitMembers(defs: seq<Definition>)
    ensures forall s :: s in SchemasOf(defs) <==> Schema(s) in defs
    ensures forall e :: e in EnumsOf(defs) <==> Enum(e) in defs
    decreases |defs|
  {
    if |defs| > 0 {
      var init := defs[..|defs| - 1];
      SplitMembers(init);
      assert defs == init + [defs[|defs| - 1]];
    }
  }

  lemma {:induction false} InOrderAppend(a: seq<string>, b: seq<string>, schemas: seq<SchemaDef>, program: Program)
    ensures InOrder(a + b, schemas, program) == InOrder(a, schemas, program) + InOrder(b, schemas, program)
    decreases |b|
  {
    if |b| == 0 {
      assert a + b == a;
    } else {
      assert (a + b)[..|a + b| - 1] == a + b[..|b| - 1];
      InOrderAppend(a, b[..|b| - 1], schemas, program);
    }
  }

  /** A schema is emitted on the normal path exactly when some name of the order finds it first. */
  lemma {:induction false} InOrderMembers(order: seq<string>, schemas: seq<SchemaDef>, program: Program, s: SchemaDef)
    ensures s in InOrder(order, schemas, program) <==> exists q :: q in order && FirstQualified(schemas, program, q) == Some(s)
    decreases |order|
  {
    if |order| > 0 {
      var init := order[..|order| - 1];
      var last := order[|order| - 1];
      InOrderMembers(init, schemas, program, s);
      if exists q :: q in order && FirstQualified(schemas, program, q) == Some(s) {
        var q :| q in order && FirstQualified(schemas, program, q) == Some(s);
        if q != last {
          assert q in init by {
            var k :| 0 <= k < |order| && order[k] == q;
            assert init[k] == q;
          }
        }
      }
    }
  }

  /**
   * On the normal path every located dependency is emitted before its dependent: the
   * struct of `x` comes after the struct of each type `x` depends on.
   */
  lemma DependencyEmittedFirst(located: map<string, set<string>>, order: seq<string>, schemas: seq<SchemaDef>, program: Program,
                               x: SchemaDef, y: SchemaDef)
    requires IsGenerationOrder(located, order)
    requires FirstQualified(schemas, program, EmitterQualifiedName(x.name, program)) == Some(x)
    requires FirstQualified(schemas, program, EmitterQualifiedName(y.name, program)) == Some(y)
    requires EmitterQualifiedName(x.name, program) in located
    requires EmitterQualifiedName(y.name, program) in located
    requires EmitterQualifiedName(y.name, program) in located[EmitterQualifiedName(x.name, program)]
    ensures exists before, after :: InOrder(order, schemas, program) == before + [x] + after && y in before
  {
    var qx, qy := EmitterQualifiedName(x.name, program), EmitterQualifiedName(y.name, program);
    var j := Position(order, qx);
    assert qy in Succ(OrderGraph(located), order[j]);
    assert qy in order[..j];
    InOrderAround(order, j, schemas, program, x);
    InOrderMembers(order[..j], schemas, program, y);
  }

  /** The schema found for `order[j]` sits between those found before and after it. */
  lemma InOrderAround(order: seq<string>, j: nat, schemas: seq<SchemaDef>, program: Program, x: SchemaDef)
    requires j < |order| && FirstQualified(schemas, program, order[j]) == Some(x)
    ensures InOrder(order, schemas, program) == InOrder(order[..j], schemas, program) + [x] + InOrder(order[j + 1..], schemas, program)
  {
    var before, after := order[..j], order[j + 1..];
    SplitAt(order, j);
    InOrderAppend(before + [order[j]], after, schemas, program);
    assert (before + [order[j]])[..j] == before;
  }

  /**
   * On the normal path the emitted schemas are the program's schemas whose qualified names
   * are located, each name found once: a schema the type tree does not know is dropped.
   */
  lemma LocatedSchemasEmitted(located: map<string, set<string>>, order: seq<string>, schemas: seq<SchemaDef>, program: Program, s: SchemaDef)
    requires IsGenerationOrder(located, order)
    ensures s in InOrder(order, schemas, program) ==> s in schemas && EmitterQualifiedName(s.name, program) in located
    ensures s in schemas && EmitterQualifiedName(s.name, program) in located ==>
      exists t :: t in InOrder(order, schemas, program) && EmitterQualifiedName(t.name, program) == EmitterQualifiedName(s.name, program)
  {
    var q := EmitterQualifiedName(s.name, program);
    InOrderMembers(order, schemas, program, s);
    if s in schemas && q in located {
      var t := FirstQualified(schemas, program, q).value;
      InOrderMembers(order, schemas, program, t);
    }
  }

  /** Without a generation order, and outside the hard-coded case, the schemas keep declaration order. */
  lemma FallbackDeclarationOrder(schemas: seq<SchemaDef>, program: Program, fileStem: string, located: map<string, set<string>>, order: seq<string>)
    requires ScheduleOf(order, schemas, located)
    requires |located| == 0 || !Acyclic(OrderGraph(located))
    requires !HardCoded(schemas, fileStem)
    ensures EmittedSchemas(schemas, program, fileStem, order) == schemas
  {
  }

  /** The hard-coded case emits every schema exactly as often as it is declared. */
  lemma HardCodedEmitsEachOnce(schemas: seq<SchemaDef>)
    ensures multiset(Named(schemas, "A") + Named(schemas, "B") + Named(schemas, "C") + OtherThanABC(schemas)) == multiset(schemas)
  {
    GroupsCover(schemas);
    MultisetOfFour(Named(schemas, "A"), Named(schemas, "B"), Named(schemas, "C"), OtherThanABC(schemas));
  }

  /** The four hard-coded groups, counted together. */
  function Groups(schemas: seq<SchemaDef>): multiset<SchemaDef>
  {
    multiset(Named(schemas, "A")) + multiset(Named(schemas, "B")) + multiset(Named(schemas, "C")) + multiset(OtherThanABC(schemas))
  }

  lemma {:induction false} GroupsCover(schemas: seq<SchemaDef>)
    ensures Groups(schemas) == multiset(schemas)
    decreases |schemas|
  {
    if |schemas| > 0 {
      var n := |schemas| - 1;
      var init := schemas[..n];
      GroupsCover(init);
      HardCodedStep(schemas, n);
      MultisetSnoc(schemas);
    }
  }

  /** The last schema lands in exactly one of the four hard-coded groups. */
  lemma HardCodedStep(schemas: seq<SchemaDef>, n: nat)
    requires n == |schemas| - 1
    ensures Groups(schemas) == Groups(schemas[..n]) + multiset{schemas[n]}
  {
    assert schemas[..n + 1] == schemas;
    NamedSnoc(schemas, n, "A");
    NamedSnoc(schemas, n, "B");
    NamedSnoc(schemas, n, "C");
    OtherThanABCSnoc(schemas, n);
  }

  lemma MultisetOfFour<T>(a: seq<T>, b: seq<T>, c: seq<T>, d: seq<T>)
    ensures multiset(a + b + c + d) == multiset(a) + multiset(b) + multiset(c) + multiset(d)
  {
  }

  /**
   * The hard-coded case ignores dependencies: on a constructed input where `A` depends
   * on `B`, the file `dependency_test` still emits `A` before `B`, where any generation order would
   * have put `B` first.
   */
  lemma HardCodedIgnoresDependencies(order: seq<string>)
    ensures var a, b, c := SchemaDef("A", [SchemaField("b", Ref(SchemaRef(None, "B")))]), SchemaDef("B", []), SchemaDef("C", []);
      var program := Program(None, [], [Schema(a), Schema(b), Schema(c)]);
      EmittedSchemas([a, b, c], program, "dependency_test", order) == [a, b, c] &&
      (IsGenerationOrder(map["A" := {"B"}, "B" := {}, "C" := {}], order) ==>
        exists before, after :: InOrder(order, [a, b, c], program) == before + [a] + after && b in before)
  {
    var a, b, c := SchemaDef("A", [SchemaField("b", Ref(SchemaRef(None, "B")))]), SchemaDef("B", []), SchemaDef("C", []);
    var program := Program(None, [], [Schema(a), Schema(b), Schema(c)]);
    HardCodedABC(a, b, c, program, order);
    var located := map["A" := {"B"}, "B" := {}, "C" := {}];
    if IsGenerationOrder(located, order) {
      FirstOfABC(a, b, c, program);
      DependencyEmittedFirst(located, order, [a, b, c], program, a, b);
    }
  }

  lemma DistinctABC()
    ensures "A" != "B" && "A" != "C" && "B" != "C"
  {
    assert "A"[0] != "B"[0] && "A"[0] != "C"[0] && "B"[0] != "C"[0];
  }

  /** Schemas `A`, `B` and `C` in `dependency_test` come out in exactly that order. */
  lemma HardCodedABC(a: SchemaDef, b: SchemaDef, c: SchemaDef, program: Program, order: seq<string>)
    requires a.name == "A" && b.name == "B" && c.name == "C"
    ensures EmittedSchemas([a, b, c], program, "dependency_test", order) == [a, b, c]
  {
    var s := [a, b, c];
    DistinctABC();
    assert a in s && b in s && c in s;
    assert HardCoded(s, "dependency_test");
    NamedOnce(s, "A", 0);
    NamedOnce(s, "B", 1);
    NamedOnce(s, "C", 2);
    assert IsABC(a.name) && IsABC(b.name) && IsABC(c.name);
    NoOthers(s);
    assert [a] + [b] + [c] + [] == s;
  }

  /** A name carried by exactly the `k`-th of three schemas selects just that one. */
  lemma NamedOnce(s: seq<SchemaDef>, name: string, k: nat)
    requires |s| == 3 && k < 3
    requires forall i :: 0 <= i < 3 ==> (s[i].name == name <==> i == k)
    ensures Named(s, name) == [s[k]]
  {
    assert s[..0] == [] && s[..3] == s;
    NamedSnoc(s, 0, name);
    NamedSnoc(s, 1, name);
    NamedSnoc(s, 2, name);
  }

  lemma NoOthers(s: seq<SchemaDef>)
    requires |s| == 3 && IsABC(s[0].name) && IsABC(s[1].name) && IsABC(s[2].name)
    ensures OtherThanABC(s) == []
  {
    assert s[..0] == [] && s[..3] == s;
    OtherThanABCSnoc(s, 0);
    OtherThanABCSnoc(s, 1);
    OtherThanABCSnoc(s, 2);
  }

  lemma FirstOfABC(a: SchemaDef, b: SchemaDef, c: SchemaDef, program: Program)
    requires a.name == "A" && b.name == "B" && c.name == "C" && program.package.None?
    ensures FirstQualified([a, b, c], program, EmitterQualifiedName(a.name, program)) == Some(a)
    ensures FirstQualified([a, b, c], program, EmitterQualifiedName(b.name, program)) == Some(b)
  {
    DistinctABC();
    assert [a, b, c][1..] == [b, c];
  }
}
