/** `declToDef`: the recursive translation of a type node, or of an interface
    declaration, into a schema fragment. It reads the declaration table, may
    push names onto the pending stack through `Request`, and never writes a
    definition. */
module Translator {
  import opened Wrappers
  import opened Syntax
  import opened JsonSchema
  import opened Worklist
  import opened DeclarationTable
  import Values

  /** Union alternatives dropped from a `oneOf`. */
  const ExcludedAlternatives: set<string> := {"RegExp", "RegExpLiteral", "BigIntLiteral"}
  /** Heritage entries that are not flattened into an `allOf`. */
  const MarkerBases: set<string> := {"NodeOrTokenData", "BaseNode", "BaseToken"}
  /** The namespaces whose qualified members are node or token kind constants. */
  const KindNamespaces: set<string> := {"AST_NODE_TYPES", "AST_TOKEN_TYPES"}
  /** The only accepted form of computed property name starts with this. */
  const SyntaxKindPrefix := "[SyntaxKind."
  /** The type-reference name of the special value-extraction form. */
  const ValueOfName := "ValueOf"

  // ---------------------------------------------------------------------------
  // Filtering nodes by their source text

  /** The nodes of `ts` whose text is not in `texts`, in order. */
  function WithoutTexts(ts: seq<TypeNode>, texts: set<string>): (r: seq<TypeNode>)
    ensures |r| <= |ts|
    ensures forall t :: t in r <==> t in ts && t.text !in texts
    decreases |ts|
  {
    if ts == [] then []
    else
      assert forall t :: t in ts ==> t == ts[0] || t in ts[1..];
      (if ts[0].text in texts then [] else [ts[0]]) + WithoutTexts(ts[1..], texts)
  }

  /** Filtering keeps the order: filtering `a + b` is filtering `a`, then `b`. */
  lemma {:induction false} WithoutTextsAppend(a: seq<TypeNode>, b: seq<TypeNode>, texts: set<string>)
    ensures WithoutTexts(a + b, texts) == WithoutTexts(a, texts) + WithoutTexts(b, texts)
    decreases |a|
  {
    if a != [] {
      assert (a + b)[0] == a[0] && (a + b)[1..] == a[1..] + b;
      WithoutTextsAppend(a[1..], b, texts);
    } else {
      assert a + b == b;
    }
  }

  /** How many nodes of `ts` have their text in `texts`. */
  function CountTexts(ts: seq<TypeNode>, texts: set<string>): nat
    decreases |ts|
  {
    if ts == [] then 0
    else (if ts[0].text in texts then 1 else 0) + CountTexts(ts[1..], texts)
  }

  /** Filtering removes exactly the counted nodes. */
  lemma {:induction false} WithoutTextsLength(ts: seq<TypeNode>, texts: set<string>)
    ensures |WithoutTexts(ts, texts)| == |ts| - CountTexts(ts, texts)
    decreases |ts|
  {
    if ts != [] {
      WithoutTextsLength(ts[1..], texts);
    }
  }

  /** The union alternatives that are translated. */
  function Kept(ts: seq<TypeNode>): seq<TypeNode> {
    WithoutTexts(ts, ExcludedAlternatives)
  }

  /** All heritage entries of all clauses, in clause order. */
  function HeritageTypes(clauses: seq<HeritageClause>): (r: seq<TypeNode>)
    ensures forall t :: t in r <==> exists c :: c in clauses && t in c.types
    decreases |clauses|
  {
    if clauses == [] then []
    else
      assert forall c :: c in clauses ==> c == clauses[0] || c in clauses[1..];
      clauses[0].types + HeritageTypes(clauses[1..])
  }

  /** Flattening keeps clause order: the entries of `c1 + c2` are those of
      `c1`, then those of `c2`. */
  lemma {:induction false} HeritageTypesAppend(c1: seq<HeritageClause>, c2: seq<HeritageClause>)
    ensures HeritageTypes(c1 + c2) == HeritageTypes(c1) + HeritageTypes(c2)
    decreases |c1|
  {
    if c1 != [] {
      assert (c1 + c2)[0] == c1[0] && (c1 + c2)[1..] == c1[1..] + c2;
      HeritageTypesAppend(c1[1..], c2);
    } else {
      assert c1 + c2 == c2;
    }
  }

  /** The bases of an interface that are flattened into its `allOf`. */
  function InheritedTypes(d: Declaration): (r: seq<TypeNode>)
    requires d.InterfaceDeclaration?
    ensures forall t :: t in r <==> t.text !in MarkerBases && exists c :: c in d.heritageClauses && t in c.types
  {
    WithoutTexts(HeritageTypes(d.heritageClauses), MarkerBases)
  }

  // ---------------------------------------------------------------------------
  // Leaf cases

  /** The schema of a literal type. */
  function TranslateLiteral(lit: Literal): (r: Result<Schema>)
    ensures r.Failure? <==> lit.OtherLiteral?
    ensures lit.NullLiteral? ==> r == Success(Primitive(NullType, None))
    ensures lit.TrueLiteral? || lit.FalseLiteral? ==>
              r == Success(Primitive(BooleanType, Some([Bool(lit.TrueLiteral?)])))
    ensures lit.StringLiteral? ==> r == Success(Primitive(StringType, Some([Str(lit.value)])))
    ensures lit.NumericLiteral? ==> r == Success(Primitive(NumberType, Some([Str(lit.value)])))
  {
    match lit
    case NullLiteral => Success(Primitive(NullType, None))
    case TrueLiteral => Success(Primitive(BooleanType, Some([Bool(true)])))
    case FalseLiteral => Success(Primitive(BooleanType, Some([Bool(false)])))
    case StringLiteral(v) => Success(Primitive(StringType, Some([Str(v)])))
    case NumericLiteral(v) => Success(Primitive(NumberType, Some([Str(v)])))
    case OtherLiteral(kind, source) => Failure("unexpected literal type: " + kind + " (" + source + ")")
  }

  /** The schema of a primitive keyword, or `None` for a keyword that falls
      through to the placeholder reference. */
  function KeywordSchema(kw: Keyword): (r: Option<Schema>)
    ensures r.None? <==> kw.OtherKeyword?
    ensures kw == StringKeyword ==> r == Some(Primitive(StringType, None))
    ensures kw == NumberKeyword || kw == BigIntKeyword ==> r == Some(Primitive(NumberType, None))
    ensures kw == BooleanKeyword ==> r == Some(Primitive(BooleanType, None))
    ensures kw == AnyKeyword || kw == UnknownKeyword ==> r == Some(Primitive(AnyType, None))
    ensures kw == NullKeyword || kw == UndefinedKeyword ==> r == Some(Primitive(NullType, None))
  {
    match kw
    case StringKeyword => Some(Primitive(StringType, None))
    case NumberKeyword => Some(Primitive(NumberType, None))
    case BigIntKeyword => Some(Primitive(NumberType, None))
    case BooleanKeyword => Some(Primitive(BooleanType, None))
    case AnyKeyword => Some(Primitive(AnyType, None))
    case UnknownKeyword => Some(Primitive(AnyType, None))
    case NullKeyword => Some(Primitive(NullType, None))
    case UndefinedKeyword => Some(Primitive(NullType, None))
    case OtherKeyword(_) => None
  }

  /** The best-effort placeholder for an unsupported form: a reference keyed
      by the node's raw text, made without requesting that name: it is the
      same schema `requestType` would return for that text. */
  function Placeholder(node: TypeNode): (r: Schema)
    ensures r == RefTo(node.text)
  {
    Ref(DefinitionsPrefix + node.text)
  }

  /** `s.slice(12, -1)` in JavaScript: from index 12 up to, not including, the
      last character; empty when that range is empty. */
  function SliceKindName(s: string): (r: string)
    ensures |r| == if |s| > 12 then |s| - 13 else 0
    ensures |s| > 12 ==> s == s[..12] + r + [s[|s| - 1]]
  {
    if |s| > 12 then s[12..|s| - 1] else ""
  }

  /** The key of a property: its raw name, except that a bracketed name must be
      `[SyntaxKind.X]` and becomes `X`. */
  function PropertyKey(raw: string): (r: Result<string>)
    ensures r.Failure? <==> |raw| > 0 && raw[0] == '[' && !(SyntaxKindPrefix <= raw)
    ensures (|raw| == 0 || raw[0] != '[') ==> r == Success(raw)
  {
    if |raw| > 0 && raw[0] == '[' then
      if SyntaxKindPrefix <= raw then Success(SliceKindName(raw))
      else Failure("unexpected computed property name")
    else Success(raw)
  }

  /** `[SyntaxKind.X]` is keyed `X`. */
  lemma SyntaxKindKey(x: string)
    ensures PropertyKey(SyntaxKindPrefix + x + "]") == Success(x)
  {
    var raw := SyntaxKindPrefix + x + "]";
    assert raw[..|SyntaxKindPrefix|] == SyntaxKindPrefix;
    assert raw[12..|raw| - 1] == x;
  }

  /** The `ValueOf<T>` form: a string enum of `valueOf(T)` for an interface `T`. */
  function TranslateValueOf(table: Table, args: Option<seq<TypeNode>>): (r: Result<Schema>)
    ensures r.Success? <==>
              && args.Some? && |args.value| == 1
              && args.value[0].text in table && table[args.value[0].text].InterfaceDeclaration?
    ensures r.Success? ==> r.value == StringEnum(Values.ValueOf(table[args.value[0].text]))
  {
    if args.Some? && |args.value| == 1 then
      var argName := args.value[0].text;
      if argName !in table then Failure("unknown type ValueOf<" + argName + ">")
      else if table[argName].InterfaceDeclaration? then Success(StringEnum(Values.ValueOf(table[argName])))
      else Failure("unexpected type ValueOf<" + argName + ">")
    else Failure("ValueOf missing or too many type arguments")
  }

  // ---------------------------------------------------------------------------
  // Object shapes

  /** One translated property signature: `[name, def, required]`. */
  datatype Entry = Entry(name: string, def: Schema, required: bool)

  /** `Object.fromEntries`: one key per distinct name, holding the last value given for it. */
  function PropertiesOf(entries: seq<Entry>): (r: map<string, Schema>)
    ensures entries != [] ==> var last := entries[|entries| - 1]; last.name in r && r[last.name] == last.def
    decreases |entries|
  {
    if entries == [] then map[]
    else
      var last := entries[|entries| - 1];
      PropertiesOf(entries[..|entries| - 1])[last.name := last.def]
  }

  /** The keys of `PropertiesOf` are the entries' names. */
  lemma {:induction false} PropertiesKeys(entries: seq<Entry>, k: string)
    ensures k in PropertiesOf(entries) <==> exists i :: 0 <= i < |entries| && entries[i].name == k
    decreases |entries|
  {
    if entries != [] {
      var init := entries[..|entries| - 1];
      PropertiesKeys(init, k);
      assert forall i :: 0 <= i < |init| ==> init[i] == entries[i];
    }
  }

  /** A key holds the value of the last entry with that name. */
  lemma {:induction false} PropertiesLast(entries: seq<Entry>, i: int)
    requires 0 <= i < |entries|
    requires forall j :: i < j < |entries| ==> entries[j].name != entries[i].name
    ensures entries[i].name in PropertiesOf(entries)
    ensures PropertiesOf(entries)[entries[i].name] == entries[i].def
    decreases |entries|
  {
    var init := entries[..|entries| - 1];
    if i < |init| {
      assert forall j :: 0 <= j < |init| ==> init[j] == entries[j];
      PropertiesLast(init, i);
    }
  }

  /** The names of the required entries, in order. */
  function RequiredOf(entries: seq<Entry>): (r: seq<string>)
    ensures forall x :: x in r <==> exists i :: 0 <= i < |entries| && entries[i].required && entries[i].name == x
    decreases |entries|
  {
    if entries == [] then []
    else
      assert forall i :: 0 < i < |entries| ==> entries[i] == entries[1..][i - 1];
      (if entries[0].required then [entries[0].name] else []) + RequiredOf(entries[1..])
  }

  function ObjectOf(entries: seq<Entry>): Schema {
    ObjectSchema(PropertiesOf(entries), RequiredOf(entries))
  }

  /** Member `m` can be translated: a property signature with a type and an acceptable name. */
  predicate WellFormedMember(m: Member) {
    m.PropertySignature? && m.typeAnnotation.Some? && PropertyKey(m.name).Success?
  }

  // ---------------------------------------------------------------------------
  // The names a translation requests, in request order

  /** The names `requestType` is called with while `node` is translated, in
      call order: plain references other than `ValueOf`, and heritage entries
      without type arguments. */
  function Requests(node: TypeNode): (r: seq<string>)
    // kind constants, keywords, literals and `ValueOf<T>` request nothing,
    // not even `T`
    ensures node.TypeReference? && node.typeName.QualifiedName? ==> r == []
    ensures node.TypeReference? && node.typeName == Identifier(ValueOfName) ==> r == []
    ensures node.KeywordType? || node.LiteralType? || node.OtherType? ==> r == []
    decreases node
  {
    match node
    case ArrayType(elem, _) => Requests(elem)
    case UnionType(ts, _) => AlternativeRequests(ts)
    case LiteralType(_, _) => []
    case ExpressionWithTypeArguments(args, text) => if args.None? then [text] else []
    case TypeReference(QualifiedName(_, _), _, _) => []
    case TypeReference(Identifier(name), _, _) => if name == ValueOfName then [] else [name]
    case TypeLiteral(ms, _) => MemberRequests(ms)
    case ParenthesizedType(inner, _) => Requests(inner)
    case KeywordType(_, _) => []
    case OtherType(_, _) => []
  }

  function AlternativeRequests(ts: seq<TypeNode>): seq<string>
    decreases ts
  {
    if ts == [] then []
    else if ts[0].text in ExcludedAlternatives then AlternativeRequests(ts[1..])
    else Requests(ts[0]) + AlternativeRequests(ts[1..])
  }

  function MemberRequests(ms: seq<Member>): seq<string>
    decreases ms
  {
    if ms == [] then []
    else
      var m := ms[0];
      if m.PropertySignature? && m.typeAnnotation.Some? then
        assert m.typeAnnotation.value < m;
        Requests(m.typeAnnotation.value) + MemberRequests(ms[1..])
      else MemberRequests(ms[1..])
  }

  function ListRequests(ts: seq<TypeNode>): seq<string>
    decreases |ts|
  {
    if ts == [] then [] else Requests(ts[0]) + ListRequests(ts[1..])
  }

  /** A union requests what its kept alternatives request, in order. */
  lemma {:induction false} AlternativeRequestsKept(ts: seq<TypeNode>)
    ensures AlternativeRequests(ts) == ListRequests(Kept(ts))
    decreases |ts|
  {
    if ts != [] {
      AlternativeRequestsKept(ts[1..]);
      if ts[0].text in ExcludedAlternatives {
        assert WithoutTexts(ts, ExcludedAlternatives) == [] + WithoutTexts(ts[1..], ExcludedAlternatives);
        assert Kept(ts) == Kept(ts[1..]);
      } else {
        var k := Kept(ts);
        assert k == [ts[0]] + Kept(ts[1..]);
        assert k[0] == ts[0] && k[1..] == Kept(ts[1..]);
        assert ListRequests(k) == Requests(ts[0]) + ListRequests(Kept(ts[1..]));
      }
    }
  }

  /** Own members first, then the flattened bases. */
  function InterfaceRequests(d: Declaration): seq<string>
    requires d.InterfaceDeclaration?
  {
    MemberRequests(d.members) + ListRequests(InheritedTypes(d))
  }

  // ---------------------------------------------------------------------------
  // The translation

  /** `declToDef` on a type node. On success the pending stack is the old one
      with the node's requests pushed in order. */
  function Translate(table: Table, defined: set<string>, pending: seq<string>, node: TypeNode)
    : (r: Result<Translated<Schema>>)
    ensures r.Success? ==> r.value.pending == PushAll(defined, pending, Requests(node))
    decreases node
  {
    match node
    case ArrayType(elem, _) =>
      var items :- Translate(table, defined, pending, elem);
      Success(Translated(ArraySchema(items.value), items.pending))
    case UnionType(ts, _) =>
      var alts :- TranslateAlternatives(table, defined, pending, ts);
      Success(Translated(OneOf(alts.value), alts.pending))
    case TypeLiteral(ms, _) =>
      var entries :- TranslateMembers(table, defined, pending, ms);
      Success(Translated(ObjectOf(entries.value), entries.pending))
    case ParenthesizedType(inner, _) =>
      Translate(table, defined, pending, inner)
    case _ =>
      TranslateLeaf(table, defined, pending, node)
  }

  /** A form with no type node inside that is translated: literals,
      references, keywords, and the placeholder for anything else. */
  predicate IsLeaf(node: TypeNode) {
    !(node.ArrayType? || node.UnionType? || node.TypeLiteral? || node.ParenthesizedType?)
  }

  /** The schema of a leaf; the names it requests are `Requests(node)`. */
  function LeafSchema(table: Table, node: TypeNode): (r: Result<Schema>)
    requires IsLeaf(node)
    // the three fatal leaf cases, and no other
    ensures r.Failure? <==>
      || (node.LiteralType? && node.literal.OtherLiteral?)
      || (node.TypeReference? && node.typeName.QualifiedName? && node.typeName.left !in KindNamespaces)
      || (node.TypeReference? && node.typeName == Identifier(ValueOfName)
          && TranslateValueOf(table, node.typeArguments).Failure?)
  {
    match node
    case LiteralType(lit, _) => TranslateLiteral(lit)
    case ExpressionWithTypeArguments(args, text) =>
      Success(if args.None? then RefTo(text) else Placeholder(node))
    case TypeReference(QualifiedName(ns, member), _, _) =>
      if ns in KindNamespaces then Success(StringEnum([member]))
      else Failure("unexpected type " + ns + "." + member)
    case TypeReference(Identifier(name), args, _) =>
      if name == ValueOfName then TranslateValueOf(table, args) else Success(RefTo(name))
    case KeywordType(kw, _) =>
      var s := KeywordSchema(kw);
      Success(if s.Some? then s.value else Placeholder(node))
    case OtherType(_, _) => Success(Placeholder(node))
  }

  /** A leaf: its schema, then its requests pushed onto the pending stack. */
  function TranslateLeaf(table: Table, defined: set<string>, pending: seq<string>, node: TypeNode)
    : (r: Result<Translated<Schema>>)
    requires IsLeaf(node)
    ensures r.Success? <==> LeafSchema(table, node).Success?
    ensures r.Success? ==> r.value.pending == PushAll(defined, pending, Requests(node))
    // only fresh names are pushed, and every name the leaf refers to is then
    // defined or pending
    ensures r.Success? ==> Appends(defined, pending, r.value.pending)
    ensures r.Success? ==> forall y :: y in Requests(node) ==> y in defined || y in r.value.pending
  {
    var s :- LeafSchema(table, node);
    Success(Translated(s, PushAll(defined, pending, Requests(node))))
  }

  /** The `oneOf` alternatives of a union: each member translated in order,
      skipping those whose text is an excluded alternative. */
  function TranslateAlternatives(table: Table, defined: set<string>, pending: seq<string>, ts: seq<TypeNode>)
    : (r: Result<Translated<seq<Schema>>>)
    ensures r.Success? ==> r.value.pending == PushAll(defined, pending, AlternativeRequests(ts))
    ensures r.Success? ==> |r.value.value| == |Kept(ts)|
    decreases ts
  {
    if ts == [] then Success(Translated([], pending))
    else if ts[0].text in ExcludedAlternatives then TranslateAlternatives(table, defined, pending, ts[1..])
    else
      var first :- Translate(table, defined, pending, ts[0]);
      var rest :- TranslateAlternatives(table, defined, first.pending, ts[1..]);
      PushAllAppend(defined, pending, Requests(ts[0]), AlternativeRequests(ts[1..]));
      Success(Translated([first.value] + rest.value, rest.pending))
  }

  /** The entries of an object shape, one per member in order; a member that
      is not a typed property signature, or has an unacceptable computed name,
      aborts the translation. */
  function TranslateMembers(table: Table, defined: set<string>, pending: seq<string>, ms: seq<Member>)
    : (r: Result<Translated<seq<Entry>>>)
    ensures r.Success? ==> r.value.pending == PushAll(defined, pending, MemberRequests(ms))
    ensures r.Success? ==> |r.value.value| == |ms|
    ensures r.Success? ==> forall k :: 0 <= k < |ms| ==>
              && WellFormedMember(ms[k])
              && PropertyKey(ms[k].name) == Success(r.value.value[k].name)
              && r.value.value[k].required == !ms[k].optional
    decreases ms
  {
    if ms == [] then Success(Translated([], pending))
    else
      var m := ms[0];
      if !m.PropertySignature? then Failure("unexpected member type")
      else if m.typeAnnotation.None? then Failure("no type")
      else
        var key :- PropertyKey(m.name);
        assert m.typeAnnotation.value < m;
        var def :- Translate(table, defined, pending, m.typeAnnotation.value);
        var rest :- TranslateMembers(table, defined, def.pending, ms[1..]);
        PushAllAppend(defined, pending, Requests(m.typeAnnotation.value), MemberRequests(ms[1..]));
        assert forall k :: 0 < k < |ms| ==> ms[k] == ms[1..][k - 1];
        Success(Translated([Entry(key, def.value, !m.optional)] + rest.value, rest.pending))
  }

  /** Each node translated in order, threading the pending stack. */
  function TranslateList(table: Table, defined: set<string>, pending: seq<string>, ts: seq<TypeNode>)
    : (r: Result<Translated<seq<Schema>>>)
    ensures r.Success? ==> r.value.pending == PushAll(defined, pending, ListRequests(ts))
    ensures r.Success? ==> |r.value.value| == |ts|
    decreases |ts|
  {
    if ts == [] then Success(Translated([], pending))
    else
      var first :- Translate(table, defined, pending, ts[0]);
      var rest :- TranslateList(table, defined, first.pending, ts[1..]);
      PushAllAppend(defined, pending, Requests(ts[0]), ListRequests(ts[1..]));
      Success(Translated([first.value] + rest.value, rest.pending))
  }

  /** `declToDef` on an interface declaration: its own object shape, and when
      bases other than the marker bases remain, an `allOf` of those bases
      followed by the own shape. */
  function TranslateInterface(table: Table, defined: set<string>, pending: seq<string>, d: Declaration)
    : (r: Result<Translated<Schema>>)
    requires d.InterfaceDeclaration?
    ensures r.Success? ==> r.value.pending == PushAll(defined, pending, InterfaceRequests(d))
  {
    var entries :- TranslateMembers(table, defined, pending, d.members);
    var obj := ObjectOf(entries.value);
    var bases := InheritedTypes(d);
    PushAllAppend(defined, pending, MemberRequests(d.members), ListRequests(bases));
    if |bases| == 0 then Success(Translated(obj, entries.pending))
    else
      var parts :- TranslateList(table, defined, entries.pending, bases);
      Success(Translated(AllOf(parts.value + [obj]), parts.pending))
  }

  // ---------------------------------------------------------------------------
  // The fragment does not depend on the worklist

  /** The outcome of a translation without the pending stack. */
  function Fragment<T>(r: Result<Translated<T>>): Result<T> {
    match r
    case Success(t) => Success(t.value)
    case Failure(e) => Failure(e)
  }

  /** The fragment of a node, translated against an empty worklist. */
  function FragmentOf(table: Table, node: TypeNode): Result<Schema> {
    Fragment(Translate(table, {}, [], node))
  }

  lemma {:induction false} TranslateIndependent(table: Table, d1: set<string>, p1: seq<string>,
                                               d2: set<string>, p2: seq<string>, node: TypeNode)
    ensures Fragment(Translate(table, d1, p1, node)) == Fragment(Translate(table, d2, p2, node))
    decreases node
  {
    match node
    case ArrayType(elem, _) =>
      TranslateIndependent(table, d1, p1, d2, p2, elem);
    case UnionType(ts, _) =>
      AlternativesIndependent(table, d1, p1, d2, p2, ts);
    case TypeLiteral(ms, _) =>
      MembersIndependent(table, d1, p1, d2, p2, ms);
    case ParenthesizedType(inner, _) =>
      TranslateIndependent(table, d1, p1, d2, p2, inner);
    case _ =>
  }

  lemma {:induction false} AlternativesIndependent(table: Table, d1: set<string>, p1: seq<string>,
                                                  d2: set<string>, p2: seq<string>, ts: seq<TypeNode>)
    ensures Fragment(TranslateAlternatives(table, d1, p1, ts)) == Fragment(TranslateAlternatives(table, d2, p2, ts))
    decreases ts
  {
    if ts != [] {
      if ts[0].text in ExcludedAlternatives {
        AlternativesIndependent(table, d1, p1, d2, p2, ts[1..]);
      } else {
        TranslateIndependent(table, d1, p1, d2, p2, ts[0]);
        var f1 := Translate(table, d1, p1, ts[0]);
        var f2 := Translate(table, d2, p2, ts[0]);
        if f1.Success? {
          AlternativesIndependent(table, d1, f1.value.pending, d2, f2.value.pending, ts[1..]);
        }
      }
    }
  }

  lemma {:induction false} MembersIndependent(table: Table, d1: set<string>, p1: seq<string>,
                                             d2: set<string>, p2: seq<string>, ms: seq<Member>)
    ensures Fragment(TranslateMembers(table, d1, p1, ms)) == Fragment(TranslateMembers(table, d2, p2, ms))
    decreases ms
  {
    if ms != [] {
      var m := ms[0];
      if m.PropertySignature? && m.typeAnnotation.Some? && PropertyKey(m.name).Success? {
        assert m.typeAnnotation.value < m;
        TranslateIndependent(table, d1, p1, d2, p2, m.typeAnnotation.value);
        var f1 := Translate(table, d1, p1, m.typeAnnotation.value);
        var f2 := Translate(table, d2, p2, m.typeAnnotation.value);
        if f1.Success? {
          MembersIndependent(table, d1, f1.value.pending, d2, f2.value.pending, ms[1..]);
        }
      }
    }
  }
}
