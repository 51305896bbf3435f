/**
 * Spelling AST types as Rust type text (`glass_codegen::generator::util`), and the
 * primitive-name table the Rust emitter of the older pipeline shares.
 */
module RustTypes {
  import opened Ast

  /** The Rust name of a primitive: `String` for `string`, the keyword itself otherwise. */
  function PrimitiveRustName(p: PrimitiveType): (r: string)
    ensures r == (if p == PrimitiveType.String then "String" else Keyword(p))
  {
    match p
    case String => "String"
    case U8 => "u8"
    case U16 => "u16"
    case U32 => "u32"
    case U64 => "u64"
    case U128 => "u128"
    case I8 => "i8"
    case I16 => "i16"
    case I32 => "i32"
    case I64 => "i64"
    case I128 => "i128"
    case F32 => "f32"
    case F64 => "f64"
    case Bool => "bool"
  }

  /** `convert_ast_type_to_rust_type`, with the option and vector helpers inlined. */
  function ConvertAstTypeToRustType(t: Type): string
  {
    match t
    case Primitive(p) => PrimitiveRustName(p)
    case Option(inner) => "Option<" + ConvertAstTypeToRustType(inner) + ">"
    case Vector(inner) => "Vec<" + ConvertAstTypeToRustType(inner) + ">"
    case Schema(r) => r.name
  }

  /** The text of the innermost type. */
  function LeafRustName(t: Type): string
  {
    ConvertAstTypeToRustType(Leaf(t))
  }

  function CountChar(s: string, c: char): nat
  {
    if |s| == 0 then 0 else (if s[0] == c then 1 else 0) + CountChar(s[1..], c)
  }

  lemma {:induction false} CountCharAppend(a: string, b: string, c: char)
    ensures CountChar(a + b, c) == CountChar(a, c) + CountChar(b, c)
    decreases |a|
  {
    if |a| > 0 {
      assert (a + b)[1..] == a[1..] + b;
      CountCharAppend(a[1..], b, c);
    } else {
      assert a + b == b;
    }
  }

  /**
   * Each keyword spells its own Rust type, except `string`, which becomes `String`.
   */
  lemma KeywordToRustName(kw: string)
    requires IsPrimitiveKeyword(kw)
    ensures PrimitiveRustName(ParseStringToPrimitiveType(kw)) == (if kw == "string" then "String" else kw)
  {
  }

  /**
   * Conversion is total and the output carries one `<`/`>` pair per wrapper: the
   * number of each bracket is the nesting depth plus those in the innermost name.
   */
  lemma {:induction false} WrapperBrackets(t: Type)
    ensures CountChar(ConvertAstTypeToRustType(t), '<') == Depth(t) + CountChar(LeafRustName(t), '<')
    ensures CountChar(ConvertAstTypeToRustType(t), '>') == Depth(t) + CountChar(LeafRustName(t), '>')
  {
    match t
    case Primitive(_) =>
    case Schema(_) =>
    case Option(inner) =>
      WrapperBrackets(inner);
      OpenerCounts();
      Wrapped("Option<", ConvertAstTypeToRustType(inner));
    case Vector(inner) =>
      WrapperBrackets(inner);
      OpenerCounts();
      Wrapped("Vec<", ConvertAstTypeToRustType(inner));
  }

  /** Wrapping `s` in an opener with one `<` and no `>`, and a closing `>`, adds one of each. */
  lemma Wrapped(opener: string, s: string)
    requires CountChar(opener, '<') == 1 && CountChar(opener, '>') == 0
    ensures CountChar(opener + s + ">", '<') == CountChar(s, '<') + 1
    ensures CountChar(opener + s + ">", '>') == CountChar(s, '>') + 1
  {
    CountCharAppend(opener + s, ">", '<');
    CountCharAppend(opener, s, '<');
    CountCharAppend(opener + s, ">", '>');
    CountCharAppend(opener, s, '>');
  }

  lemma OpenerCounts()
    ensures CountChar("Option<", '<') == 1 && CountChar("Option<", '>') == 0
    ensures CountChar("Vec<", '<') == 1 && CountChar("Vec<", '>') == 0
  {
    assert '<' !in "Option" && '>' !in "Option" && '<' !in "Vec" && '>' !in "Vec";
    CountAbsent("Option", '<');
    CountAbsent("Option", '>');
    CountAbsent("Vec", '<');
    CountAbsent("Vec", '>');
    CountCharAppend("Option", "<", '<');
    CountCharAppend("Option", "<", '>');
    CountCharAppend("Vec", "<", '<');
    CountCharAppend("Vec", "<", '>');
    assert "Option" + "<" == "Option<" && "Vec" + "<" == "Vec<";
  }

  /** Primitive names hold no angle bracket, so for them the count is exactly the depth. */
  lemma PrimitiveNamesHaveNoBrackets(p: PrimitiveType)
    ensures CountChar(PrimitiveRustName(p), '<') == 0 && CountChar(PrimitiveRustName(p), '>') == 0
  {
    var s := PrimitiveRustName(p);
    assert '<' !in s && '>' !in s by {
      match p
      case String =>
      case U8 =>
      case U16 =>
      case U32 =>
      case U64 =>
      case U128 =>
      case I8 =>
      case I16 =>
      case I32 =>
      case I64 =>
      case I128 =>
      case F32 =>
      case F64 =>
      case Bool =>
    }
    CountAbsent(s, '<');
    CountAbsent(s, '>');
  }

  lemma {:induction false} CountAbsent(s: string, c: char)
    requires c !in s
    ensures CountChar(s, c) == 0
  {
    if |s| > 0 {
      CountAbsent(s[1..], c);
    }
  }

  predicate IsIdentStart(ch: char)
  {
    ('a' <= ch <= 'z') || ('A' <= ch <= 'Z') || ch == '_'
  }

  predicate IsIdentContinue(ch: char)
  {
    IsIdentStart(ch) || ('0' <= ch <= '9')
  }

  /** A text that `format_ident!` accepts as an identifier (ASCII identifiers only). */
  predicate IsRustIdent(s: string)
  {
    |s| > 0 && IsIdentStart(s[0]) && forall i :: 1 <= i < |s| ==> IsIdentContinue(s[i])
  }

  /**
   * With identifier schema names, the Rust text is an identifier exactly when the
   * type has no `Option`/`Vector` wrapper.
   */
  lemma IdentExactlyUnwrapped(t: Type)
    requires t.Schema? ==> IsRustIdent(t.schemaRef.name)
    ensures IsRustIdent(ConvertAstTypeToRustType(t)) <==> !(t.Option? || t.Vector?)
  {
    match t
    case Primitive(p) =>
    case Schema(_) =>
    case Option(inner) =>
      var s := ConvertAstTypeToRustType(t);
      assert s[6] == '<';
    case Vector(inner) =>
      var s := ConvertAstTypeToRustType(t);
      assert s[3] == '<';
  }
}
