/** `valueOf`: the string-literal values assigned to the properties of an
    interface and of its chain of enclosing interface declarations. */
module Values {
  import opened Wrappers
  import opened Syntax
  import opened Lists

  /** Member `m` is a property signature whose type is the string literal `v`. */
  predicate AssignsString(m: Member, v: string) {
    && m.PropertySignature?
    && m.typeAnnotation.Some?
    && m.typeAnnotation.value.LiteralType?
    && m.typeAnnotation.value.literal == StringLiteral(v)
  }

  /** The string-literal property values among `members`, in member order. */
  function OwnValues(members: seq<Member>): (r: seq<string>)
    ensures forall v :: v in r <==> exists k :: 0 <= k < |members| && AssignsString(members[k], v)
    decreases |members|
  {
    if members == [] then []
    else
      var m := members[0];
      var rest := OwnValues(members[1..]);
      assert forall k :: 0 < k < |members| ==> members[k] == members[1..][k - 1];
      if m.PropertySignature? && m.typeAnnotation.Some? && m.typeAnnotation.value.LiteralType?
         && m.typeAnnotation.value.literal.StringLiteral?
      then [m.typeAnnotation.value.literal.value] + rest
      else rest
  }

  /** The interface declarations reached through `parent`, outermost first,
      ending with `d` itself. */
  function Chain(d: Declaration): (c: seq<Declaration>)
    requires d.InterfaceDeclaration?
    ensures |c| > 0 && c[|c| - 1] == d
    ensures forall k :: 0 <= k < |c| ==> c[k].InterfaceDeclaration?
    // each element is the `parent` of the next, and the chain starts at an
    // interface whose parent is not an interface
    ensures forall k :: 0 <= k < |c| - 1 ==> c[k + 1].parent == Some(c[k])
    ensures !(c[0].parent.Some? && c[0].parent.value.InterfaceDeclaration?)
    decreases d
  {
    if d.parent.Some? && d.parent.value.InterfaceDeclaration? then Chain(d.parent.value) + [d] else [d]
  }

  /** The values of the parent interface, if the parent is an interface. */
  function ParentValues(d: Declaration): seq<string>
    requires d.InterfaceDeclaration?
    decreases d, 0
  {
    if d.parent.Some? && d.parent.value.InterfaceDeclaration? then ValueOf(d.parent.value) else []
  }

  /** `valueOf(decl)`: the parent's values followed by this interface's own,
      duplicates removed keeping the first occurrence. */
  function ValueOf(d: Declaration): (r: seq<string>)
    requires d.InterfaceDeclaration?
    ensures NoDup(r)
    ensures forall v :: v in r <==> exists k :: 0 <= k < |Chain(d)| && v in OwnValues(Chain(d)[k].members)
    decreases d, 1
  {
    var c := Chain(d);
    var inherited := ParentValues(d);
    var r := Dedup(inherited + OwnValues(d.members));
    assert forall v :: v in inherited <==> exists k :: 0 <= k < |c| - 1 && v in OwnValues(c[k].members) by {
      if d.parent.Some? && d.parent.value.InterfaceDeclaration? {
        assert c[..|c| - 1] == Chain(d.parent.value);
      }
    }
    forall v | v in r
      ensures exists k :: 0 <= k < |c| && v in OwnValues(c[k].members)
    {
      if v !in inherited {
        assert v in OwnValues(c[|c| - 1].members);
      }
    }
    forall v, k | 0 <= k < |c| && v in OwnValues(c[k].members)
      ensures v in r
    {
      if k < |c| - 1 {
        assert v in inherited;
      } else {
        assert v in OwnValues(d.members);
      }
    }
    r
  }

  /** The parent chain's values come first, in their own order. */
  lemma ParentValuesFirst(d: Declaration)
    requires d.InterfaceDeclaration?
    ensures var r := ValueOf(d); var p := ParentValues(d); |p| <= |r| && r[..|p|] == p
  {
    var p := ParentValues(d);
    DedupIntoAppend([], p, OwnValues(d.members));
    DedupIntoDistinct([], p);
  }
}
