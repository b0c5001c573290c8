/** What each form of type node translates to, stated over the
    worklist-independent fragments of its parts. */
module TranslatorLaws {
  import opened Wrappers
  import opened Syntax
  import opened JsonSchema
  import opened Worklist
  import opened DeclarationTable
  import opened Translator

  // ---------------------------------------------------------------------------
  // Lists of nodes

  lemma {:induction false} ListIndependent(table: Table, d1: set<string>, p1: seq<string>,
                                          d2: set<string>, p2: seq<string>, ts: seq<TypeNode>)
    ensures Fragment(TranslateList(table, d1, p1, ts)) == Fragment(TranslateList(table, d2, p2, ts))
    decreases |ts|
  {
    if ts != [] {
      TranslateIndependent(table, d1, p1, d2, p2, ts[0]);
      var f1 := Translate(table, d1, p1, ts[0]);
      var f2 := Translate(table, d2, p2, ts[0]);
      if f1.Success? {
        ListIndependent(table, d1, f1.value.pending, d2, f2.value.pending, ts[1..]);
      }
    }
  }

  /** A list translates exactly when each node does. */
  lemma {:induction false} ListSucceeds(table: Table, defined: set<string>, pending: seq<string>, ts: seq<TypeNode>)
    ensures TranslateList(table, defined, pending, ts).Success? <==>
      forall k :: 0 <= k < |ts| ==> FragmentOf(table, ts[k]).Success?
    decreases |ts|
  {
    if ts != [] {
      TranslateIndependent(table, defined, pending, {}, [], ts[0]);
      var first := Translate(table, defined, pending, ts[0]);
      if first.Success? {
        ListSucceeds(table, defined, first.value.pending, ts[1..]);
        assert forall k :: 0 < k < |ts| ==> ts[k] == ts[1..][k - 1];
      }
    }
  }

  /** A translated non-empty list is its head's translation followed by its tail's. */
  lemma ListCons(table: Table, defined: set<string>, pending: seq<string>, ts: seq<TypeNode>)
    requires ts != [] && TranslateList(table, defined, pending, ts).Success?
    ensures var first := Translate(table, defined, pending, ts[0]);
      && first.Success?
      && var rest := TranslateList(table, defined, first.value.pending, ts[1..]);
      && rest.Success?
      && TranslateList(table, defined, pending, ts).value.value == [first.value.value] + rest.value.value
  {
  }

  /** A translated list holds the nodes' fragments in order. */
  lemma {:induction false} ListValues(table: Table, defined: set<string>, pending: seq<string>, ts: seq<TypeNode>)
    ensures var r := TranslateList(table, defined, pending, ts);
      r.Success? ==> forall k :: 0 <= k < |ts| ==> FragmentOf(table, ts[k]) == Success(r.value.value[k])
    decreases |ts|
  {
    var r := TranslateList(table, defined, pending, ts);
    if ts != [] && r.Success? {
      ListCons(table, defined, pending, ts);
      var first := Translate(table, defined, pending, ts[0]).value;
      var rest := TranslateList(table, defined, first.pending, ts[1..]).value;
      ListValues(table, defined, first.pending, ts[1..]);
      TranslateIndependent(table, defined, pending, {}, [], ts[0]);
      forall k | 0 <= k < |ts|
        ensures FragmentOf(table, ts[k]) == Success(r.value.value[k])
      {
        if k > 0 {
          assert ts[k] == ts[1..][k - 1];
          assert r.value.value[k] == rest.value[k - 1];
        }
      }
    }
  }

  /** A list translates exactly when each node does, to the nodes' fragments in order. */
  lemma ListFragments(table: Table, defined: set<string>, pending: seq<string>, ts: seq<TypeNode>)
    ensures var r := TranslateList(table, defined, pending, ts);
      && (r.Success? <==> forall k :: 0 <= k < |ts| ==> FragmentOf(table, ts[k]).Success?)
      && (r.Success? ==> forall k :: 0 <= k < |ts| ==> FragmentOf(table, ts[k]) == Success(r.value.value[k]))
  {
    ListSucceeds(table, defined, pending, ts);
    ListValues(table, defined, pending, ts);
  }

  /** Skipping excluded alternatives while translating is translating the kept ones. */
  lemma {:induction false} AlternativesAreKept(table: Table, defined: set<string>, pending: seq<string>, ts: seq<TypeNode>)
    ensures TranslateAlternatives(table, defined, pending, ts) == TranslateList(table, defined, pending, Kept(ts))
    decreases |ts|
  {
    if ts == [] {
      return;
    }
    var rest := ts[1..];
    if ts[0].text in ExcludedAlternatives {
      assert Kept(ts) == Kept(rest);
      AlternativesAreKept(table, defined, pending, rest);
    } else {
      var kept := Kept(ts);
      assert kept == [ts[0]] + Kept(rest);
      assert kept[0] == ts[0];
      assert kept[1..] == Kept(rest);
      var first := Translate(table, defined, pending, ts[0]);
      if first.Success? {
        AlternativesAreKept(table, defined, first.value.pending, rest);
        assert TranslateAlternatives(table, defined, first.value.pending, rest) == TranslateList(table, defined, first.value.pending, kept[1..]);
      }
    }
  }

  /** Union exclusion: the `oneOf` holds the fragments of the alternatives that
      are not excluded, in order, one fewer for every excluded alternative. */
  lemma UnionLaw(table: Table, defined: set<string>, pending: seq<string>, ts: seq<TypeNode>, text: string)
    ensures var r := Translate(table, defined, pending, UnionType(ts, text));
      && (r.Success? <==> forall t :: t in Kept(ts) ==> FragmentOf(table, t).Success?)
      && (r.Success? ==>
            && r.value.value.OneOf?
            && |r.value.value.alternatives| == |ts| - CountTexts(ts, ExcludedAlternatives)
            && forall k :: 0 <= k < |Kept(ts)| ==> FragmentOf(table, Kept(ts)[k]) == Success(r.value.value.alternatives[k]))
  {
    AlternativesAreKept(table, defined, pending, ts);
    ListFragments(table, defined, pending, Kept(ts));
    WithoutTextsLength(ts, ExcludedAlternatives);
  }

  // ---------------------------------------------------------------------------
  // Object shapes

  /** The keys of the required members, in member order. */
  function RequiredKeys(ms: seq<Member>): (r: seq<string>)
    requires forall k :: 0 <= k < |ms| ==> WellFormedMember(ms[k])
    ensures forall x :: x in r <==> exists k :: 0 <= k < |ms| && WellFormedMember(ms[k]) && !ms[k].optional
                                            && PropertyKey(ms[k].name) == Success(x)
    decreases |ms|
  {
    if ms == [] then []
    else
      assert WellFormedMember(ms[0]);
      assert forall k :: 0 < k < |ms| ==> ms[k] == ms[1..][k - 1];
      (if ms[0].optional then [] else [PropertyKey(ms[0].name).value]) + RequiredKeys(ms[1..])
  }

  /** Member `k` is the last one whose key is `key`. */
  predicate LastWithKey(ms: seq<Member>, k: int, key: string)
    requires 0 <= k < |ms|
  {
    && ms[k].PropertySignature? && PropertyKey(ms[k].name) == Success(key)
    && forall j :: k < j < |ms| && ms[j].PropertySignature? ==> PropertyKey(ms[j].name) != Success(key)
  }

  /** `s` is the object schema of the members `ms`: one property per distinct
      key, holding the fragment of the last member with that key, and the keys
      of the members without `?` as the required list, in member order. */
  ghost predicate ShapeOf(table: Table, ms: seq<Member>, s: Schema)
    requires forall k :: 0 <= k < |ms| ==> WellFormedMember(ms[k])
  {
    && s.ObjectSchema?
    && (forall key :: key in s.properties <==>
          exists k :: 0 <= k < |ms| && ms[k].PropertySignature? && PropertyKey(ms[k].name) == Success(key))
    && (forall k, key :: 0 <= k < |ms| && WellFormedMember(ms[k]) && LastWithKey(ms, k, key) ==>
          FragmentOf(table, ms[k].typeAnnotation.value) == Success(s.properties[key]))
    && s.required == RequiredKeys(ms)
  }

  /** Every member is a typed property signature with an accepted name whose type translates. */
  ghost predicate MembersTranslate(table: Table, ms: seq<Member>) {
    forall k :: 0 <= k < |ms| ==>
      WellFormedMember(ms[k]) && FragmentOf(table, ms[k].typeAnnotation.value).Success?
  }

  lemma MembersTranslateCons(table: Table, ms: seq<Member>)
    requires ms != []
    ensures MembersTranslate(table, ms) <==>
              && WellFormedMember(ms[0]) && FragmentOf(table, ms[0].typeAnnotation.value).Success?
              && MembersTranslate(table, ms[1..])
  {
    var rest := ms[1..];
    if MembersTranslate(table, ms) {
      forall k | 0 <= k < |rest|
        ensures WellFormedMember(rest[k]) && FragmentOf(table, rest[k].typeAnnotation.value).Success?
      {
        assert rest[k] == ms[k + 1];
      }
    }
    if WellFormedMember(ms[0]) && FragmentOf(table, ms[0].typeAnnotation.value).Success? && MembersTranslate(table, rest) {
      forall k | 0 < k < |ms|
        ensures WellFormedMember(ms[k]) && FragmentOf(table, ms[k].typeAnnotation.value).Success?
      {
        assert ms[k] == rest[k - 1];
      }
    }
  }

  /** A member list translates exactly when every member does. */
  lemma {:induction false} MembersSucceed(table: Table, defined: set<string>, pending: seq<string>, ms: seq<Member>)
    ensures TranslateMembers(table, defined, pending, ms).Success? <==> MembersTranslate(table, ms)
    decreases |ms|
  {
    if ms != [] {
      MembersTranslateCons(table, ms);
      var m := ms[0];
      if WellFormedMember(m) {
        var t := m.typeAnnotation.value;
        TranslateIndependent(table, defined, pending, {}, [], t);
        var def := Translate(table, defined, pending, t);
        if def.Success? {
          MembersSucceed(table, defined, def.value.pending, ms[1..]);
        }
      }
    }
  }

  /** One step of a successful member translation. */
  lemma MembersStep(table: Table, defined: set<string>, pending: seq<string>, ms: seq<Member>)
    requires ms != [] && TranslateMembers(table, defined, pending, ms).Success?
    ensures var m := ms[0];
      && WellFormedMember(m)
      && var def := Translate(table, defined, pending, m.typeAnnotation.value);
         && def.Success?
         && var tail := TranslateMembers(table, defined, def.value.pending, ms[1..]);
            && tail.Success?
            && TranslateMembers(table, defined, pending, ms).value.value ==
                 [Entry(PropertyKey(m.name).value, def.value.value, !m.optional)] + tail.value.value
  {
  }

  /** Each entry holds the fragment of its member's type. */
  lemma {:induction false} MemberDefs(table: Table, defined: set<string>, pending: seq<string>, ms: seq<Member>)
    requires TranslateMembers(table, defined, pending, ms).Success?
    ensures var entries := TranslateMembers(table, defined, pending, ms).value.value;
      forall k :: 0 <= k < |ms| ==> FragmentOf(table, ms[k].typeAnnotation.value) == Success(entries[k].def)
    decreases |ms|
  {
    if ms != [] {
      MembersStep(table, defined, pending, ms);
      var t := ms[0].typeAnnotation.value;
      TranslateIndependent(table, defined, pending, {}, [], t);
      var def := Translate(table, defined, pending, t);
      var rest := ms[1..];
      MemberDefs(table, defined, def.value.pending, rest);
      var tail := TranslateMembers(table, defined, def.value.pending, rest).value.value;
      var entries := TranslateMembers(table, defined, pending, ms).value.value;
      assert entries[0].def == def.value.value;
      forall k | 0 < k < |ms|
        ensures FragmentOf(table, ms[k].typeAnnotation.value) == Success(entries[k].def)
      {
        assert ms[k] == rest[k - 1] && entries[k] == tail[k - 1];
      }
    }
  }

  lemma MemberFragments(table: Table, defined: set<string>, pending: seq<string>, ms: seq<Member>)
    ensures var r := TranslateMembers(table, defined, pending, ms);
      && (r.Success? <==> MembersTranslate(table, ms))
      && (r.Success? ==> forall k :: 0 <= k < |ms| ==>
            FragmentOf(table, ms[k].typeAnnotation.value) == Success(r.value.value[k].def))
  {
    MembersSucceed(table, defined, pending, ms);
    if TranslateMembers(table, defined, pending, ms).Success? {
      MemberDefs(table, defined, pending, ms);
    }
  }

  lemma {:induction false} RequiredOfEntries(ms: seq<Member>, entries: seq<Entry>)
    requires |entries| == |ms|
    requires forall k :: 0 <= k < |ms| ==>
               && WellFormedMember(ms[k])
               && PropertyKey(ms[k].name) == Success(entries[k].name)
               && entries[k].required == !ms[k].optional
    ensures RequiredOf(entries) == RequiredKeys(ms)
    decreases |ms|
  {
    if ms != [] {
      RequiredOfEntries(ms[1..], entries[1..]);
    }
  }

  /** `entries` are the entries the members `ms` produce, one per member. */
  predicate Corresponds(ms: seq<Member>, entries: seq<Entry>) {
    && |entries| == |ms|
    && forall k :: 0 <= k < |ms| ==>
         && WellFormedMember(ms[k])
         && PropertyKey(ms[k].name) == Success(entries[k].name)
         && entries[k].required == !ms[k].optional
  }

  lemma PropertyKeys(ms: seq<Member>, entries: seq<Entry>)
    requires Corresponds(ms, entries)
    ensures forall key :: key in PropertiesOf(entries) <==>
              exists k :: 0 <= k < |ms| && ms[k].PropertySignature? && PropertyKey(ms[k].name) == Success(key)
  {
    var m := PropertiesOf(entries);
    forall key | key in m
      ensures exists k :: 0 <= k < |ms| && ms[k].PropertySignature? && PropertyKey(ms[k].name) == Success(key)
    {
      PropertiesKeys(entries, key);
      var i :| 0 <= i < |entries| && entries[i].name == key;
      assert PropertyKey(ms[i].name) == Success(key);
    }
    forall key | exists k :: 0 <= k < |ms| && ms[k].PropertySignature? && PropertyKey(ms[k].name) == Success(key)
      ensures key in m
    {
      var k :| 0 <= k < |ms| && ms[k].PropertySignature? && PropertyKey(ms[k].name) == Success(key);
      assert entries[k].name == key;
      PropertiesKeys(entries, key);
    }
  }

  lemma PropertyValues(ms: seq<Member>, entries: seq<Entry>)
    requires Corresponds(ms, entries)
    ensures forall k, key :: 0 <= k < |ms| && LastWithKey(ms, k, key) ==>
              key in PropertiesOf(entries) && PropertiesOf(entries)[key] == entries[k].def
  {
    forall k, key | 0 <= k < |ms| && LastWithKey(ms, k, key)
      ensures key in PropertiesOf(entries) && PropertiesOf(entries)[key] == entries[k].def
    {
      assert entries[k].name == key;
      forall j | k < j < |entries|
        ensures entries[j].name != entries[k].name
      {
        assert PropertyKey(ms[j].name) == Success(entries[j].name);
      }
      PropertiesLast(entries, k);
    }
  }

  /** The object schema built from a member list has the shape of those members. */
  lemma ObjectOfShape(table: Table, defined: set<string>, pending: seq<string>, ms: seq<Member>)
    requires TranslateMembers(table, defined, pending, ms).Success?
    ensures forall k :: 0 <= k < |ms| ==> WellFormedMember(ms[k])
    ensures ShapeOf(table, ms, ObjectOf(TranslateMembers(table, defined, pending, ms).value.value))
  {
    var entries := TranslateMembers(table, defined, pending, ms).value.value;
    assert Corresponds(ms, entries);
    MemberFragments(table, defined, pending, ms);
    RequiredOfEntries(ms, entries);
    PropertyKeys(ms, entries);
    PropertyValues(ms, entries);
  }

  /** An inline object shape translates exactly when all its members do, to
      the object schema of its members. */
  lemma ObjectShapeLaw(table: Table, defined: set<string>, pending: seq<string>, ms: seq<Member>, text: string)
    ensures var r := Translate(table, defined, pending, TypeLiteral(ms, text));
      && (r.Success? <==> MembersTranslate(table, ms))
      && (r.Success? ==> MembersTranslate(table, ms) && ShapeOf(table, ms, r.value.value))
  {
    MemberFragments(table, defined, pending, ms);
    if TranslateMembers(table, defined, pending, ms).Success? {
      ObjectOfShape(table, defined, pending, ms);
    }
  }

  // ---------------------------------------------------------------------------
  // Interfaces

  lemma InterfaceIndependent(table: Table, d1: set<string>, p1: seq<string>,
                             d2: set<string>, p2: seq<string>, d: Declaration)
    requires d.InterfaceDeclaration?
    ensures Fragment(TranslateInterface(table, d1, p1, d)) == Fragment(TranslateInterface(table, d2, p2, d))
  {
    MembersIndependent(table, d1, p1, d2, p2, d.members);
    var e1 := TranslateMembers(table, d1, p1, d.members);
    var e2 := TranslateMembers(table, d2, p2, d.members);
    if e1.Success? {
      ListIndependent(table, d1, e1.value.pending, d2, e2.value.pending, InheritedTypes(d));
    }
  }

  /** Heritage flattening: with no bases left after dropping the marker bases
      the interface is its own object shape; otherwise it is an `allOf` of the
      remaining bases in clause order followed by that shape. A base written
      without type arguments is a reference to its name. */
  lemma HeritageLaw(table: Table, defined: set<string>, pending: seq<string>, d: Declaration)
    requires d.InterfaceDeclaration?
    ensures var r := TranslateInterface(table, defined, pending, d); var bases := InheritedTypes(d);
      && (r.Success? <==> MembersTranslate(table, d.members) && forall t :: t in bases ==> FragmentOf(table, t).Success?)
      && (r.Success? && |bases| == 0 ==> MembersTranslate(table, d.members) && ShapeOf(table, d.members, r.value.value))
      && (r.Success? && |bases| > 0 ==>
            && MembersTranslate(table, d.members)
            && r.value.value.AllOf?
            && |r.value.value.parts| == |bases| + 1
            && ShapeOf(table, d.members, r.value.value.parts[|bases|])
            && (forall k :: 0 <= k < |bases| ==> FragmentOf(table, bases[k]) == Success(r.value.value.parts[k]))
            && (forall k :: 0 <= k < |bases| && bases[k].ExpressionWithTypeArguments? && bases[k].typeArguments.None? ==>
                  r.value.value.parts[k] == RefTo(bases[k].text)))
  {
    HeritageOutcome(table, defined, pending, d);
    HeritageParts(table, defined, pending, d);
  }

  /** When an interface translates: its members and every base translate. */
  lemma HeritageOutcome(table: Table, defined: set<string>, pending: seq<string>, d: Declaration)
    requires d.InterfaceDeclaration?
    ensures var r := TranslateInterface(table, defined, pending, d);
      r.Success? <==> MembersTranslate(table, d.members) && forall t :: t in InheritedTypes(d) ==> FragmentOf(table, t).Success?
  {
    MemberFragments(table, defined, pending, d.members);
    var entries := TranslateMembers(table, defined, pending, d.members);
    if entries.Success? {
      ListFragments(table, defined, entries.value.pending, InheritedTypes(d));
    }
  }

  /** The shape of a translated interface: the member object, last after the
      bases' fragments when there are any. */
  lemma HeritageParts(table: Table, defined: set<string>, pending: seq<string>, d: Declaration)
    requires d.InterfaceDeclaration?
    ensures var r := TranslateInterface(table, defined, pending, d); var bases := InheritedTypes(d);
      && (r.Success? && |bases| == 0 ==> MembersTranslate(table, d.members) && ShapeOf(table, d.members, r.value.value))
      && (r.Success? && |bases| > 0 ==>
            && MembersTranslate(table, d.members)
            && r.value.value.AllOf?
            && |r.value.value.parts| == |bases| + 1
            && ShapeOf(table, d.members, r.value.value.parts[|bases|])
            && (forall k :: 0 <= k < |bases| ==> FragmentOf(table, bases[k]) == Success(r.value.value.parts[k]))
            && (forall k :: 0 <= k < |bases| && bases[k].ExpressionWithTypeArguments? && bases[k].typeArguments.None? ==>
                  r.value.value.parts[k] == RefTo(bases[k].text)))
  {
    HeritageObject(table, defined, pending, d);
    HeritageBases(table, defined, pending, d);
  }

  /** A translated interface ends with its member object. */
  lemma HeritageObject(table: Table, defined: set<string>, pending: seq<string>, d: Declaration)
    requires d.InterfaceDeclaration?
    ensures var r := TranslateInterface(table, defined, pending, d); var bases := InheritedTypes(d);
      r.Success? ==>
        && MembersTranslate(table, d.members)
        && (|bases| == 0 ==> ShapeOf(table, d.members, r.value.value))
        && (|bases| > 0 ==>
              && r.value.value.AllOf?
              && |r.value.value.parts| == |bases| + 1
              && ShapeOf(table, d.members, r.value.value.parts[|bases|]))
  {
    var r := TranslateInterface(table, defined, pending, d);
    MemberFragments(table, defined, pending, d.members);
    var entries := TranslateMembers(table, defined, pending, d.members);
    if r.Success? {
      assert entries.Success?;
      ObjectOfShape(table, defined, pending, d.members);
    }
  }

  /** The leading parts of a translated interface with bases are the bases'
      fragments. */
  lemma HeritageBases(table: Table, defined: set<string>, pending: seq<string>, d: Declaration)
    requires d.InterfaceDeclaration?
    ensures var r := TranslateInterface(table, defined, pending, d); var bases := InheritedTypes(d);
      r.Success? && |bases| > 0 ==>
        && r.value.value.AllOf?
        && |r.value.value.parts| == |bases| + 1
        && (forall k :: 0 <= k < |bases| ==> FragmentOf(table, bases[k]) == Success(r.value.value.parts[k]))
        && (forall k :: 0 <= k < |bases| && bases[k].ExpressionWithTypeArguments? && bases[k].typeArguments.None? ==>
              r.value.value.parts[k] == RefTo(bases[k].text))
  {
    var r := TranslateInterface(table, defined, pending, d);
    var bases := InheritedTypes(d);
    var entries := TranslateMembers(table, defined, pending, d.members);
    if r.Success? && |bases| > 0 {
      assert entries.Success?;
      ListFragments(table, defined, entries.value.pending, bases);
      forall k | 0 <= k < |bases| && bases[k].ExpressionWithTypeArguments? && bases[k].typeArguments.None?
        ensures FragmentOf(table, bases[k]) == Success(RefTo(bases[k].text))
      {
      }
    }
  }

  // ---------------------------------------------------------------------------
  // References

  /** A plain reference other than `ValueOf` is a reference to its name and
      requests that name; a qualified reference is a one-value string enum of
      its member for the two kind namespaces and a failure otherwise. */
  lemma ReferenceLaw(table: Table, defined: set<string>, pending: seq<string>, name: EntityName,
                     args: Option<seq<TypeNode>>, text: string)
    ensures var r := Translate(table, defined, pending, TypeReference(name, args, text));
      && (name.Identifier? && name.id != ValueOfName ==>
            && r.Success? && r.value.value == RefTo(name.id)
            && (name.id in defined || name.id in r.value.pending))
      && (name.Identifier? && name.id == ValueOfName ==> Fragment(r) == TranslateValueOf(table, args))
      && (name.QualifiedName? ==>
            (r.Success? <==> name.left in KindNamespaces)
            && (r.Success? ==> r.value.value == StringEnum([name.right])))
  {
  }

  // ---------------------------------------------------------------------------
  // The other forms

  /** An array is an array schema of its element's fragment. */
  lemma ArrayLaw(table: Table, defined: set<string>, pending: seq<string>, elem: TypeNode, text: string)
    ensures var r := Translate(table, defined, pending, ArrayType(elem, text));
      && (r.Success? <==> FragmentOf(table, elem).Success?)
      && (r.Success? ==> r.value.value == ArraySchema(FragmentOf(table, elem).value))
  {
    TranslateIndependent(table, defined, pending, {}, [], elem);
  }

  /** Parentheses are transparent. */
  lemma ParenthesizedLaw(table: Table, defined: set<string>, pending: seq<string>, inner: TypeNode, text: string)
    ensures Fragment(Translate(table, defined, pending, ParenthesizedType(inner, text))) == FragmentOf(table, inner)
  {
    TranslateIndependent(table, defined, pending, {}, [], inner);
  }

  /** A literal type is the schema of its literal, fails only for an
      unsupported literal kind, and requests nothing. */
  lemma LiteralLaw(table: Table, defined: set<string>, pending: seq<string>, lit: Literal, text: string)
    ensures var r := Translate(table, defined, pending, LiteralType(lit, text));
      && (r.Failure? <==> lit.OtherLiteral?)
      && (r.Success? ==> Success(r.value.value) == TranslateLiteral(lit) && r.value.pending == pending)
  {
  }

  /** A keyword always translates and requests nothing: a primitive type for
      the known keywords, and for any other the placeholder reference keyed by
      the node's text. */
  lemma KeywordLaw(table: Table, defined: set<string>, pending: seq<string>, kw: Keyword, text: string)
    ensures var r := Translate(table, defined, pending, KeywordType(kw, text));
      && r.Success? && r.value.pending == pending
      && (kw.OtherKeyword? ==> r.value.value == Ref(DefinitionsPrefix + text))
      && (!kw.OtherKeyword? ==> r.value.value == KeywordSchema(kw).value)
  {
  }

  /** A heritage entry without type arguments is a reference that requests
      its text; with type arguments it falls through to the placeholder and
      requests nothing. */
  lemma HeritageEntryLaw(table: Table, defined: set<string>, pending: seq<string>,
                         args: Option<seq<TypeNode>>, text: string)
    ensures var r := Translate(table, defined, pending, ExpressionWithTypeArguments(args, text));
      && r.Success?
      && (args.None? ==> r.value.value == RefTo(text) && (text in defined || text in r.value.pending))
      && (args.Some? ==> r.value.value == Ref(DefinitionsPrefix + text) && r.value.pending == pending)
  {
  }

  /** Any other form becomes the placeholder keyed by its text, without a
      request. */
  lemma FallbackLaw(table: Table, defined: set<string>, pending: seq<string>, kind: string, text: string)
    ensures Translate(table, defined, pending, OtherType(kind, text)) ==
              Success(Translated(Ref(DefinitionsPrefix + text), pending))
  {
  }
}
