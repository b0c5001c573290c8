/** The resolution loop: pop a pending name, store the definition of its
    declaration, repeat until nothing is pending. */
module Resolver {
  import opened Wrappers
  import opened Syntax
  import opened JsonSchema
  import opened Lists
  import opened Worklist
  import opened DeclarationTable
  import opened Translator
  import TranslatorLaws

  /** The names requested before the loop starts. */
  const Seeds: seq<string> := ["Program", "BaseNode", "BaseToken", "PunctuatorTokenToText"]

  /** The names the definition of `d` requests, in request order. */
  function DeclRequests(d: Declaration): (r: seq<string>)
    // an enum requests nothing; an interface requests its members' names
    // before its bases'
    ensures d.EnumDeclaration? ==> r == []
    ensures d.InterfaceDeclaration? ==> MemberRequests(d.members) <= r
  {
    match d
    case InterfaceDeclaration(_, _, _, _) => InterfaceRequests(d)
    case TypeAliasDeclaration(_, t) => Requests(t)
    case EnumDeclaration(_, _) => []
  }

  /** The definition stored for a declaration: an interface translated
      itself, an alias translated through its type, an enum as a string enum
      of its member names. */
  function DeclToDefinition(table: Table, defined: set<string>, pending: seq<string>, d: Declaration)
    : (r: Result<Translated<Schema>>)
    ensures r.Success? ==> r.value.pending == PushAll(defined, pending, DeclRequests(d))
  {
    match d
    case InterfaceDeclaration(_, _, _, _) => TranslateInterface(table, defined, pending, d)
    case TypeAliasDeclaration(_, t) => Translate(table, defined, pending, t)
    case EnumDeclaration(_, names) => Success(Translated(StringEnum(names), pending))
  }

  /** The definition of a declaration, whatever the state of the worklist. */
  function DefinitionOf(table: Table, d: Declaration): Result<Schema> {
    Fragment(DeclToDefinition(table, {}, [], d))
  }

  /** An interface is translated itself, an alias through its type, and an
      enum becomes the string enum of its member names in order. */
  lemma DefinitionLaw(table: Table, d: Declaration)
    ensures d.InterfaceDeclaration? ==> DefinitionOf(table, d) == Fragment(TranslateInterface(table, {}, [], d))
    ensures d.TypeAliasDeclaration? ==> DefinitionOf(table, d) == FragmentOf(table, d.aliased)
    ensures d.EnumDeclaration? ==> DefinitionOf(table, d) == Success(StringEnum(d.enumMembers))
  {
  }

  lemma DeclIndependent(table: Table, defined: set<string>, pending: seq<string>, d: Declaration)
    ensures Fragment(DeclToDefinition(table, defined, pending, d)) == DefinitionOf(table, d)
  {
    match d
    case InterfaceDeclaration(_, _, _, _) =>
      TranslatorLaws.InterfaceIndependent(table, defined, pending, {}, [], d);
    case TypeAliasDeclaration(_, t) =>
      TranslateIndependent(table, defined, pending, {}, [], t);
    case EnumDeclaration(_, _) =>
  }

  /** The number of entries of `p` that are in `keys`. */
  function CountIn(p: seq<string>, keys: set<string>): nat
    decreases |p|
  {
    if p == [] then 0 else (if p[0] in keys then 1 else 0) + CountIn(p[1..], keys)
  }

  lemma {:induction false} CountInAppend(a: seq<string>, b: seq<string>, keys: set<string>)
    ensures CountIn(a + b, keys) == CountIn(a, keys) + CountIn(b, keys)
    decreases |a|
  {
    if a == [] {
      assert a + b == b;
    } else {
      assert (a + b)[1..] == a[1..] + b;
      CountInAppend(a[1..], b, keys);
    }
  }

  lemma {:induction false} CountInNone(a: seq<string>, keys: set<string>)
    requires forall i :: 0 <= i < |a| ==> a[i] !in keys
    ensures CountIn(a, keys) == 0
    decreases |a|
  {
    if a != [] {
      CountInNone(a[1..], keys);
    }
  }

  /** The outcome of the loop: the definitions, their keys in insertion order,
      and the names reported as having no declaration, in report order. */
  datatype Resolution = Resolution(definitions: map<string, Schema>, order: seq<string>, missing: seq<string>)

  /** `x` is a seed, or the declaration of a name of `order` requests it. */
  ghost predicate RequestedBy(table: Table, seeds: seq<string>, order: seq<string>, x: string) {
    x in seeds || exists j :: 0 <= j < |order| && order[j] in table && x in DeclRequests(table[order[j]])
  }

  /** Every name of `order` was requested before it was defined: it is a seed,
      or the declaration of a name earlier in `order` requests it. So each
      defined name is reached from the seeds. */
  ghost predicate Grounded(table: Table, seeds: seq<string>, order: seq<string>) {
    forall i :: 0 <= i < |order| ==>
      order[i] in seeds || exists j :: 0 <= j < i && order[j] in table && order[i] in DeclRequests(table[order[j]])
  }

  /** Every defined name is declared and holds the definition of its declaration. */
  ghost predicate DefinedByDeclaration(table: Table, defs: map<string, Schema>) {
    && defs.Keys <= table.Keys
    && forall x :: x in defs ==> DefinitionOf(table, table[x]) == Success(defs[x])
  }

  /** `order` lists the defined names once each. */
  ghost predicate OrderOf(order: seq<string>, defs: map<string, Schema>) {
    NoDup(order) && forall x :: x in order <==> x in defs
  }

  /** Closure: every seed, and every name a definition requests, is defined,
      reported missing or still pending. */
  ghost predicate Closed(table: Table, seeds: seq<string>, defs: map<string, Schema>,
                         missing: seq<string>, pending: seq<string>)
    requires defs.Keys <= table.Keys
  {
    && (forall s :: s in seeds ==> s in defs || s in missing || s in pending)
    && (forall x, y :: x in defs && y in DeclRequests(table[x]) ==> y in defs || y in missing || y in pending)
  }

  /** Every defined name is reached from the seeds in definition order, and
      every reported or pending name is a seed or requested by a defined one. */
  ghost predicate AllRequested(table: Table, seeds: seq<string>, order: seq<string>,
                               missing: seq<string>, pending: seq<string>) {
    && Grounded(table, seeds, order)
    && forall x :: x in missing || x in pending ==> RequestedBy(table, seeds, order, x)
  }

  /** The declaration of `x` fails with `err`, and the loop reaches `x`: `x` is
      a seed or requested by a name of some grounded order whose declarations
      all have definitions. */
  ghost predicate FailsWhenReached(table: Table, seeds: seq<string>, x: string, err: string) {
    && x in table
    && DefinitionOf(table, table[x]) == Failure(err)
    && exists order ::
         && Grounded(table, seeds, order)
         && RequestedBy(table, seeds, order, x)
         && forall i :: 0 <= i < |order| ==> order[i] in table && DefinitionOf(table, table[order[i]]).Success?
  }

  /** What a completed resolution guarantees. */
  ghost predicate Sound(table: Table, seeds: seq<string>, res: Resolution) {
    var defs := res.definitions;
    && DefinedByDeclaration(table, defs)
    && OrderOf(res.order, defs)
    // a name is reported missing only when it has no declaration
    && (forall m :: m in res.missing ==> m !in table)
    // no request is lost, and nothing unrequested is resolved
    && Closed(table, seeds, defs, res.missing, [])
    && AllRequested(table, seeds, res.order, res.missing, [])
  }

  /** Two aliases that request each other, but that no seed reaches, are not
      a sound result: they cannot vouch for each other. */
  lemma UnreachedCycleNotSound()
    ensures var table := map["A" := TypeAliasDeclaration("A", TypeReference(Identifier("B"), None, "B")),
                             "B" := TypeAliasDeclaration("B", TypeReference(Identifier("A"), None, "A"))];
      !Sound(table, ["Program"], Resolution(map["A" := RefTo("B"), "B" := RefTo("A")], ["A", "B"], ["Program"]))
  {
    var table := map["A" := TypeAliasDeclaration("A", TypeReference(Identifier("B"), None, "B")),
                     "B" := TypeAliasDeclaration("B", TypeReference(Identifier("A"), None, "A"))];
    var order := ["A", "B"];
    assert !(order[0] in ["Program"]);
    assert !Grounded(table, ["Program"], order);
  }

  /** The loop invariant over the state `(defs, order, missing, pending)`. */
  ghost predicate Inv(table: Table, seeds: seq<string>, defs: map<string, Schema>, order: seq<string>,
                      missing: seq<string>, pending: seq<string>) {
    && DefinedByDeclaration(table, defs)
    && OrderOf(order, defs)
    && (forall m :: m in missing ==> m !in table)
    && Closed(table, seeds, defs, missing, pending)
    && AllRequested(table, seeds, order, missing, pending)
    && (NoDup(seeds) ==> NoDup(pending))
  }

  /** Popping a name without a declaration reports it and keeps the invariant. */
  lemma StepMissing(table: Table, seeds: seq<string>, defs: map<string, Schema>, order: seq<string>,
                    missing: seq<string>, rest: seq<string>, name: string)
    requires Inv(table, seeds, defs, order, missing, rest + [name])
    requires name !in table
    ensures Inv(table, seeds, defs, order, missing + [name], rest)
    ensures CountIn(rest, defs.Keys) == CountIn(rest + [name], defs.Keys)
  {
    CountInAppend(rest, [name], defs.Keys);
    if NoDup(seeds) {
      NoDupInit(rest, name);
    }
  }

  lemma SplitLast(p: seq<string>)
    requires p != []
    ensures p == p[..|p| - 1] + [p[|p| - 1]]
  {
  }

  lemma NoDupInit(rest: seq<string>, name: string)
    requires NoDup(rest + [name])
    ensures NoDup(rest)
  {
    var p := rest + [name];
    assert forall i :: 0 <= i < |rest| ==> rest[i] == p[i];
  }

  /** The measure part of a definition step. */
  lemma DefineDecreases(table: Table, defs: map<string, Schema>, rest: seq<string>, name: string, def: Schema,
                        next: seq<string>)
    requires defs.Keys <= table.Keys && name in table
    requires Appends(defs.Keys, rest, next)
    ensures var defs' := defs[name := def];
      || |table.Keys - defs'.Keys| < |table.Keys - defs.Keys|
      || (|table.Keys - defs'.Keys| == |table.Keys - defs.Keys|
          && CountIn(next, defs'.Keys) < CountIn(rest + [name], defs.Keys))
  {
    var defs' := defs[name := def];
    if name in defs {
      assert defs'.Keys == defs.Keys;
      assert next == rest + next[|rest|..];
      CountInAppend(rest, [name], defs.Keys);
      CountInAppend(rest, next[|rest|..], defs.Keys);
      CountInNone(next[|rest|..], defs.Keys);
    } else {
      assert table.Keys - defs'.Keys == (table.Keys - defs.Keys) - {name};
    }
  }

  /** What pushing the requests of `name` onto `rest` produced. */
  ghost predicate PushedFrom(table: Table, defs: map<string, Schema>, rest: seq<string>, name: string, next: seq<string>)
    requires name in table
  {
    && |rest| <= |next| && next[..|rest|] == rest
    && (forall y :: y in DeclRequests(table[name]) ==> y in defs || y in next)
    && (forall y :: y in next ==> y in rest || y in DeclRequests(table[name]))
  }

  /** The contract of `PushAll`, for the requests of a popped name. */
  lemma PushFacts(table: Table, defs: map<string, Schema>, rest: seq<string>, name: string, next: seq<string>)
    requires name in table
    requires next == PushAll(defs.Keys, rest, DeclRequests(table[name]))
    ensures Appends(defs.Keys, rest, next) && PushedFrom(table, defs, rest, name, next)
  {
  }

  /** The closure part of a definition step. */
  lemma DefineKeepsClosure(table: Table, seeds: seq<string>, defs: map<string, Schema>,
                           missing: seq<string>, rest: seq<string>, name: string, def: Schema, next: seq<string>)
    requires defs.Keys <= table.Keys && name in table
    requires Closed(table, seeds, defs, missing, rest + [name])
    requires PushedFrom(table, defs, rest, name, next)
    ensures Closed(table, seeds, defs[name := def], missing, next)
  {
    var defs' := defs[name := def];
    assert forall y :: y in rest + [name] ==> y in defs' || y in next by {
      forall y | y in rest + [name]
        ensures y in defs' || y in next
      {
        if y != name {
          assert y in rest;
          assert y in next[..|rest|];
        }
      }
    }
    forall x, y | x in defs' && y in DeclRequests(table[x])
      ensures y in defs' || y in missing || y in next
    {
      if x != name {
        assert x in defs;
      }
    }
  }

  /** Extending `order` keeps every name requested by it requested. */
  lemma RequestedByExtend(table: Table, seeds: seq<string>, order: seq<string>, name: string, x: string)
    requires RequestedBy(table, seeds, order, x)
    ensures RequestedBy(table, seeds, order + [name], x)
  {
    if x !in seeds {
      var j :| 0 <= j < |order| && order[j] in table && x in DeclRequests(table[order[j]]);
      assert (order + [name])[j] == order[j];
    }
  }

  /** Appending a requested name keeps an order grounded. */
  lemma GroundedExtend(table: Table, seeds: seq<string>, order: seq<string>, name: string)
    requires Grounded(table, seeds, order) && RequestedBy(table, seeds, order, name)
    ensures Grounded(table, seeds, order + [name])
  {
    var order' := order + [name];
    forall i | 0 <= i < |order'|
      ensures order'[i] in seeds || exists j :: 0 <= j < i && order'[j] in table && order'[i] in DeclRequests(table[order'[j]])
    {
      if i < |order| {
        if order[i] !in seeds {
          var j :| 0 <= j < i && order[j] in table && order[i] in DeclRequests(table[order[j]]);
          assert order'[j] == order[j];
        }
      } else if name !in seeds {
        var j :| 0 <= j < |order| && order[j] in table && name in DeclRequests(table[order[j]]);
        assert order'[j] == order[j];
      }
    }
  }

  /** The requested-ness part of a definition step. */
  lemma DefineKeepsRequested(table: Table, seeds: seq<string>, defs: map<string, Schema>, order: seq<string>,
                             missing: seq<string>, rest: seq<string>, name: string, next: seq<string>)
    requires defs.Keys <= table.Keys && name in table
    requires OrderOf(order, defs)
    requires AllRequested(table, seeds, order, missing, rest + [name])
    requires PushedFrom(table, defs, rest, name, next)
    ensures var order' := if name in defs then order else order + [name];
      AllRequested(table, seeds, order', missing, next)
  {
    var order' := if name in defs then order else order + [name];
    assert RequestedBy(table, seeds, order, name) by {
      assert name in rest + [name];
    }
    if name !in defs {
      GroundedExtend(table, seeds, order, name);
    }
    forall x | RequestedBy(table, seeds, order, x)
      ensures RequestedBy(table, seeds, order', x)
    {
      if name !in defs {
        RequestedByExtend(table, seeds, order, name, x);
      }
    }
    assert name in order';
    var jn :| 0 <= jn < |order'| && order'[jn] == name;
    forall x | x in missing || x in next
      ensures RequestedBy(table, seeds, order', x)
    {
      if x in missing || x in rest {
        assert x in missing || x in rest + [name];
      } else {
        assert x in DeclRequests(table[order'[jn]]);
      }
    }
  }

  /** The stored-definitions part of a definition step. */
  lemma DefineKeepsDefinitions(table: Table, defs: map<string, Schema>, name: string, def: Schema)
    requires DefinedByDeclaration(table, defs)
    requires name in table && DefinitionOf(table, table[name]) == Success(def)
    ensures DefinedByDeclaration(table, defs[name := def])
  {
  }

  /** The insertion-order part of a definition step. */
  lemma DefineKeepsOrder(order: seq<string>, defs: map<string, Schema>, name: string, def: Schema)
    requires OrderOf(order, defs)
    ensures OrderOf(if name in defs then order else order + [name], defs[name := def])
  {
    if name !in defs {
      var order' := order + [name];
      assert forall i :: 0 <= i < |order| ==> order'[i] == order[i];
    }
  }

  /** The no-duplicates part of a definition step. */
  lemma DefineKeepsDistinct(defs: map<string, Schema>, rest: seq<string>, name: string, next: seq<string>)
    requires NoDup(rest + [name])
    requires Appends(defs.Keys, rest, next)
    ensures NoDup(next)
  {
    NoDupInit(rest, name);
    AppendsKeepsDistinct(defs.Keys, rest, next);
  }

  /** Storing the definition of a popped, declared name keeps the invariant
      and decreases the loop measure. */
  lemma StepDefine(table: Table, seeds: seq<string>, defs: map<string, Schema>, order: seq<string>,
                   missing: seq<string>, rest: seq<string>, name: string, def: Schema, next: seq<string>)
    requires Inv(table, seeds, defs, order, missing, rest + [name])
    requires name in table
    requires DefinitionOf(table, table[name]) == Success(def)
    requires Appends(defs.Keys, rest, next) && PushedFrom(table, defs, rest, name, next)
    ensures var defs' := defs[name := def];
            var order' := if name in defs then order else order + [name];
      && Inv(table, seeds, defs', order', missing, next)
      && (|table.Keys - defs'.Keys| < |table.Keys - defs.Keys|
          || (|table.Keys - defs'.Keys| == |table.Keys - defs.Keys|
              && CountIn(next, defs'.Keys) < CountIn(rest + [name], defs.Keys)))
  {
    DefineDecreases(table, defs, rest, name, def, next);
    DefineKeepsClosure(table, seeds, defs, missing, rest, name, def, next);
    DefineKeepsRequested(table, seeds, defs, order, missing, rest, name, next);
    DefineKeepsDefinitions(table, defs, name, def);
    DefineKeepsOrder(order, defs, name, def);
    if NoDup(seeds) {
      DefineKeepsDistinct(defs, rest, name, next);
    }
  }

  /** A popped name whose definition fails was reached from the seeds. */
  lemma StepFails(table: Table, seeds: seq<string>, defs: map<string, Schema>, order: seq<string>,
                  missing: seq<string>, rest: seq<string>, name: string, err: string)
    requires Inv(table, seeds, defs, order, missing, rest + [name])
    requires name in table && DefinitionOf(table, table[name]) == Failure(err)
    ensures FailsWhenReached(table, seeds, name, err)
  {
    assert name in rest + [name];
    forall i | 0 <= i < |order|
      ensures order[i] in table && DefinitionOf(table, table[order[i]]).Success?
    {
      assert order[i] in defs;
    }
  }

  /** The `while (requestedTypes.length)` loop, started from `seeds`. It aborts
      with the first failing definition. */
  method Resolve(table: Table, seeds: seq<string>) returns (r: Result<Resolution>)
    ensures r.Success? ==> Sound(table, seeds, r.value)
    ensures r.Failure? ==> exists x :: FailsWhenReached(table, seeds, x, r.error)
  {
    var defs: map<string, Schema> := map[];
    var order: seq<string> := [];
    var missing: seq<string> := [];
    var pending := seeds;
    while pending != []
      invariant Inv(table, seeds, defs, order, missing, pending)
      decreases |table.Keys - defs.Keys|, CountIn(pending, defs.Keys), |pending|
    {
      var name := pending[|pending| - 1];
      var rest := pending[..|pending| - 1];
      SplitLast(pending);
      if name !in table {
        StepMissing(table, seeds, defs, order, missing, rest, name);
        missing := missing + [name];
        pending := rest;
      } else {
        var res := DeclToDefinition(table, defs.Keys, rest, table[name]);
        DeclIndependent(table, defs.Keys, rest, table[name]);
        if res.Failure? {
          StepFails(table, seeds, defs, order, missing, rest, name, res.error);
          return Failure(res.error);
        }
        PushFacts(table, defs, rest, name, res.value.pending);
        StepDefine(table, seeds, defs, order, missing, rest, name, res.value.value, res.value.pending);
        if name !in defs {
          order := order + [name];
        }
        defs := defs[name := res.value.value];
        pending := res.value.pending;
      }
    }
    r := Success(Resolution(defs, order, missing));
  }
}
