/** The parsed declaration file, reduced to what the translator inspects.
    Every type node carries its own source text, because the translator reads
    names and compares alternatives only through that text. */
module Syntax {
  import opened Wrappers

  /** The literal inside a literal type node. `value` is the literal's `text`
      (for a string literal, without the quotes); an unsupported literal keeps
      its kind name and its raw source text. */
  datatype Literal =
    | NullLiteral
    | TrueLiteral
    | FalseLiteral
    | StringLiteral(value: string)
    | NumericLiteral(value: string)
    | OtherLiteral(kind: string, source: string)   // template, bigint, prefix-unary, ...

  datatype Keyword =
    | StringKeyword
    | NumberKeyword
    | BigIntKeyword
    | BooleanKeyword
    | AnyKeyword
    | UnknownKeyword
    | NullKeyword
    | UndefinedKeyword
    | OtherKeyword(kind: string)      // void, never, object, symbol, this, ...

  /** The name of a type reference: a plain identifier or `Left.Right`. */
  datatype EntityName = Identifier(id: string) | QualifiedName(left: string, right: string)

  datatype TypeNode =
    | ArrayType(elementType: TypeNode, text: string)
    | UnionType(types: seq<TypeNode>, text: string)
    | LiteralType(literal: Literal, text: string)
    | TypeReference(typeName: EntityName, typeArguments: Option<seq<TypeNode>>, text: string)
      /** An entry of an interface's `extends` clause. */
    | ExpressionWithTypeArguments(typeArguments: Option<seq<TypeNode>>, text: string)
      /** An inline object shape `{ ... }`. */
    | TypeLiteral(members: seq<Member>, text: string)
    | ParenthesizedType(inner: TypeNode, text: string)
    | KeywordType(keyword: Keyword, text: string)
      /** Any other form (intersection, tuple, function type, ...). */
    | OtherType(kind: string, text: string)

  /** A member of an object shape or interface body. `name` is the raw source
      text of the property name, so a computed name keeps its brackets. */
  datatype Member =
    | PropertySignature(name: string, optional: bool, typeAnnotation: Option<TypeNode>)
    | OtherMember(kind: string)       // method, index or call signature

  /** A top-level declaration. An interface's `parent` is its syntactic parent
      when that parent is itself a declaration; `None` stands for the source
      file, the parent of every top-level statement. */
  datatype Declaration =
    | InterfaceDeclaration(name: string, members: seq<Member>, heritageClauses: seq<HeritageClause>,
                           parent: Option<Declaration>)
    | EnumDeclaration(name: string, enumMembers: seq<string>)
    | TypeAliasDeclaration(name: string, aliased: TypeNode)

  /** One `extends` (or `implements`) clause of an interface. */
  datatype HeritageClause = HeritageClause(types: seq<TypeNode>)

  /** A top-level statement of the declaration file. */
  datatype Statement = Declared(decl: Declaration) | OtherStatement(kind: string)
}
