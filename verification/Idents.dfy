/** Rust identifiers for proto names (buffa-codegen/src/idents.rs, buffa-codegen/src/oneof.rs). */
module Idents {
  import opened Text

  /** The keywords that cannot be raw identifiers. */
  const SUFFIX_ESCAPED_KEYWORDS: seq<string> := ["self", "super", "Self", "crate"]

  predicate IsSuffixEscaped(name: string) { name in SUFFIX_ESCAPED_KEYWORDS }

  /** The other strict and reserved keywords, of all editions. */
  const RAW_KEYWORDS: set<string> := {
    "as", "break", "const", "continue", "else", "enum", "extern", "false", "fn", "for", "if", "impl", "in",
    "let", "loop", "match", "mod", "move", "mut", "pub", "ref", "return", "static", "struct", "trait", "true",
    "type", "unsafe", "use", "where", "while", "async", "await", "dyn", "gen", "abstract", "become", "box",
    "do", "final", "macro", "override", "priv", "try", "typeof", "unsized", "virtual", "yield"
  }

  predicate IsRustKeyword(name: string) { IsSuffixEscaped(name) || name in RAW_KEYWORDS }

  /** `make_field_ident`: a raw identifier is the name itself; the four keywords take an underscore. */
  function FieldIdent(name: string): string {
    if IsSuffixEscaped(name) then name + "_" else name
  }

  /** Primitive types that generated code names without a path. */
  const GENERATED_PRIMITIVES: set<string> :=
    {"bool", "str", "u8", "usize", "i32", "i64", "u32", "u64", "f32", "f64"}

  function EscapeTypeName(name: string): string {
    if name in GENERATED_PRIMITIVES || IsRustKeyword(name) then name + "_" else name
  }

  function LocalTypeName(prefix: string, name: string): string {
    EscapeTypeName(prefix + name)
  }

  /** `to_snake_case`, from position `i` on. */
  function SnakeFrom(s: string, i: nat): string
    requires i <= |s|
    decreases |s| - i
  {
    if i == |s| then ""
    else
      var boundary := IsUpper(s[i]) && i > 0 &&
        (IsLower(s[i - 1]) || (IsUpper(s[i - 1]) && i + 1 < |s| && IsLower(s[i + 1])));
      (if boundary then "_" else "") + [ToLower(s[i])] + SnakeFrom(s, i + 1)
  }

  /** The converter that names modules: `snake_case(Name)`. */
  function ToSnakeCase(name: string): string { SnakeFrom(name, 0) }

  lemma {:induction false} SnakeFromShape(s: string, i: nat)
    requires i <= |s|
    ensures NoUpper(SnakeFrom(s, i)) && |SnakeFrom(s, i)| >= |s| - i
    decreases |s| - i
  {
    if i < |s| { SnakeFromShape(s, i + 1); }
  }

  /** The conversion is lower case, no shorter than the name, and begins like it. */
  lemma SnakeShape(name: string)
    ensures NoUpper(ToSnakeCase(name)) && |ToSnakeCase(name)| >= |name|
    ensures name != "" ==> ToSnakeCase(name)[0] == ToLower(name[0])
  {
    SnakeFromShape(name, 0);
  }

  /**
    The Rust name of a type: prefix and proto name, behind which an underscore comes exactly for a keyword or one
    of the primitive types. It is then neither a primitive type nor a keyword that cannot be a raw identifier.
   */
  lemma TypeNameIs(prefix: string, name: string)
    ensures
      var whole, r := prefix + name, LocalTypeName(prefix, name);
      && (r == whole || r == whole + "_")
      && (r == whole + "_" <==>
          IsRustKeyword(whole)
          || whole in {"bool", "str", "u8", "usize", "i32", "i64", "u32", "u64", "f32", "f64"})
      && r !in GENERATED_PRIMITIVES && !IsSuffixEscaped(r)
  {
    var whole := prefix + name;
    assert (whole + "_")[|whole|] == '_';
  }

  /** The identifier of a field: only the four keywords that cannot be raw identifiers change. */
  lemma FieldIdentIs(name: string)
    ensures FieldIdent(name) ==
            if name == "self" || name == "super" || name == "Self" || name == "crate" then name + "_" else name
  {
  }
}
