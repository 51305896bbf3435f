/**
 * The AST of the single-file pipeline (`glass_parser::ast`): primitive types, the
 * four-way `Type`, schemas, interfaces and a parsed file. Spans and the pest-driven
 * `try_parse` functions are not part of this model; the datatypes are the ones the
 * validator and the generators consume.
 */
module Ast {
  import opened Wrappers

  /** The fourteen primitive types of the Glass grammar. */
  datatype PrimitiveType =
    | String | U8 | U16 | U32 | U64 | U128
    | I8 | I16 | I32 | I64 | I128
    | F32 | F64 | Bool

  /** A reference to a schema by its bare name. */
  datatype SchemaRef = SchemaRef(name: string)

  /** A closed sum of four variants; `Option` and `Vector` each wrap exactly one inner type. */
  datatype Type =
    | Primitive(primitive: PrimitiveType)
    | Option(inner: Type)
    | Vector(inner: Type)
    | Schema(schemaRef: SchemaRef)

  datatype SchemaField = SchemaField(name: string, ty: Type)

  datatype Schema = Schema(name: string, fields: seq<SchemaField>)

  datatype FunctionParam = Stream(paramType: Type) | Simple(paramType: Type)

  datatype FunctionReturn = Stream(returnType: Type) | Simple(returnType: Type)

  datatype Function = Function(name: string, param: FunctionParam, returnType: Option<FunctionReturn>)

  datatype Interface = Interface(name: string, functions: seq<Function>)

  /** A parsed `.glass` file: its path, its interfaces and its schemas, in source order. */
  datatype File = File(path: string, interfaces: seq<Interface>, schemas: seq<Schema>)

  /** How many `Option`/`Vector` wrappers enclose the innermost type. */
  function Depth(t: Type): nat
  {
    match t
    case Option(inner) => 1 + Depth(inner)
    case Vector(inner) => 1 + Depth(inner)
    case _ => 0
  }

  /** The innermost type, under every `Option`/`Vector` wrapper. */
  function Leaf(t: Type): (r: Type)
    ensures !r.Option? && !r.Vector?
  {
    match t
    case Option(inner) => Leaf(inner)
    case Vector(inner) => Leaf(inner)
    case _ => t
  }

  /** The grammar keyword spelling each primitive type. */
  function Keyword(p: PrimitiveType): string
  {
    match p
    case String => "string"
    case U8 => "u8"
    case U16 => "u16"
    case U32 => "u32"
    case U64 => "u64"
    case U128 => "u128"
    case I8 => "i8"
    case I16 => "i16"
    case I32 => "i32"
    case I64 => "i64"
    case I128 => "i128"
    case F32 => "f32"
    case F64 => "f64"
    case Bool => "bool"
  }

  predicate IsPrimitiveKeyword(s: string)
  {
    s in {"string", "bool", "u8", "u16", "u32", "u64", "u128",
          "i8", "i16", "i32", "i64", "i128", "f32", "f64"}
  }

  /**
   * `Type::parse_string_to_primitive_type`. Any other text is declared unreachable in
   * the source (the grammar only lets these keywords through), hence the precondition.
   */
  function ParseStringToPrimitiveType(s: string): (p: PrimitiveType)
    requires IsPrimitiveKeyword(s)
    ensures Keyword(p) == s
  {
    match s
    case "string" => String
    case "bool" => Bool
    case "u8" => U8
    case "u16" => U16
    case "u32" => U32
    case "u64" => U64
    case "u128" => U128
    case "i8" => I8
    case "i16" => I16
    case "i32" => I32
    case "i64" => I64
    case "i128" => I128
    case "f32" => F32
    case "f64" => F64
  }

  /** Parsing is a bijection between the fourteen keywords and the fourteen variants. */
  lemma KeywordsAndVariants(p: PrimitiveType, a: string, b: string)
    ensures IsPrimitiveKeyword(Keyword(p)) && ParseStringToPrimitiveType(Keyword(p)) == p
    ensures IsPrimitiveKeyword(a) && IsPrimitiveKeyword(b) && a != b ==>
              ParseStringToPrimitiveType(a) != ParseStringToPrimitiveType(b)
  {
    match p
    case String =>
    case U8 =>
    case U16 =>
    case U32 =>
    case U64 =>
    case U128 =>
    case I8 =>
    case I16 =>
    case I32 =>
    case I64 =>
    case I128 =>
    case F32 =>
    case F64 =>
    case Bool =>
  }
}
