/**
 * The AST the type tree and the Rust emitter consume: programs with an optional package
 * declaration, import statements and schema, enum and service definitions. Spans are
 * not part of this model, and the primitive types are the fourteen of `Ast`.
 */
module LegacyAst {
  import opened Wrappers
  import opened Strings
  import Ast

  /** A dotted package path such as `com.example`, kept as its segments. */
  datatype PackagePath = PackagePath(segments: seq<string>)

  /** `PackagePath` as `Display` prints it: the segments joined by `.`. */
  function PathString(p: PackagePath): string
  {
    Join(p.segments, ".")
  }

  /** A reference to a schema, optionally qualified by a package. */
  datatype SchemaRef = SchemaRef(package: Option<PackagePath>, name: string)

  /** A field type; `Ref` is the `SchemaRef` variant. */
  datatype Type =
    | Primitive(primitive: Ast.PrimitiveType)
    | Option(inner: Type)
    | Vec(inner: Type)
    | Ref(schemaRef: SchemaRef)

  datatype SchemaField = SchemaField(name: string, fieldType: Type)

  datatype SchemaDef = SchemaDef(name: string, fields: seq<SchemaField>)

  datatype EnumDef = EnumDef(name: string, variants: seq<string>)

  datatype ServiceDef = ServiceDef(name: string)

  datatype Definition =
    | Schema(schema: SchemaDef)
    | Enum(enumDef: EnumDef)
    | Service(service: ServiceDef)

  datatype ImportStmt = ImportStmt(path: string)

  datatype Program = Program(package: Option<PackagePath>, imports: seq<ImportStmt>, definitions: seq<Definition>)

  /** The package a program declares, or `""` (the root package) when it declares none. */
  function PackageNameOf(p: Program): (r: string)
    ensures p.package.None? ==> r == ""
  {
    if p.package.Some? then PathString(p.package.value) else ""
  }

  /** `pkg.Name`, or the bare name in the root package. */
  function QualifiedName(pkg: string, name: string): (r: string)
    ensures pkg == "" ==> r == name
    ensures pkg != "" ==> r == pkg + "." + name
  {
    if pkg == "" then name else pkg + "." + name
  }

  /** The schema references a type mentions under its `Option`/`Vec` wrappers (at most one). */
  function Refs(t: Type): (r: seq<SchemaRef>)
    ensures |r| <= 1
  {
    match t
    case Primitive(_) => []
    case Option(inner) => Refs(inner)
    case Vec(inner) => Refs(inner)
    case Ref(s) => [s]
  }

  /** The schemas and enums of a program, in declaration order; services are skipped. */
  predicate IsTypeDefinition(d: Definition)
  {
    d.Schema? || d.Enum?
  }

  function DefinitionName(d: Definition): string
    requires IsTypeDefinition(d)
  {
    if d.Schema? then d.schema.name else d.enumDef.name
  }
}
