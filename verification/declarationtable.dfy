/** The declaration table: every top-level interface, enum and type alias,
    indexed by its declared name. */
module DeclarationTable {
  import opened Syntax

  type Table = map<string, Declaration>

  /** Statement `i` declares `name`. */
  predicate DeclaresAt(stmts: seq<Statement>, i: int, name: string)
    requires 0 <= i < |stmts|
  {
    stmts[i].Declared? && stmts[i].decl.name == name
  }

  /** Statement `i` is the last one that declares `name`. */
  predicate LastDeclaration(stmts: seq<Statement>, i: int, name: string)
    requires 0 <= i < |stmts|
  {
    DeclaresAt(stmts, i, name) && forall j :: i < j < |stmts| ==> !DeclaresAt(stmts, j, name)
  }

  /** Indexes the declarations of `stmts`, skipping every other statement; on
      a repeated name the later declaration replaces the earlier one. */
  function BuildTable(stmts: seq<Statement>): (r: Table)
    ensures forall n :: n in r ==> r[n].name == n
    decreases |stmts|
  {
    if stmts == [] then map[]
    else
      var last := stmts[|stmts| - 1];
      var t := BuildTable(stmts[..|stmts| - 1]);
      if last.Declared? then t[last.decl.name := last.decl] else t
  }

  /** Every declared name is in the table. */
  lemma {:induction false} TableHasEveryName(stmts: seq<Statement>, i: int)
    requires 0 <= i < |stmts| && stmts[i].Declared?
    ensures stmts[i].decl.name in BuildTable(stmts)
    decreases |stmts|
  {
    var init := stmts[..|stmts| - 1];
    if i < |init| {
      assert init[i] == stmts[i];
      TableHasEveryName(init, i);
    }
  }

  /** Every name in the table holds the last declaration of that name, and
      nothing else is in the table. */
  lemma {:induction false} TableHoldsLast(stmts: seq<Statement>, name: string)
    requires name in BuildTable(stmts)
    ensures exists i :: 0 <= i < |stmts| && LastDeclaration(stmts, i, name) && BuildTable(stmts)[name] == stmts[i].decl
    decreases |stmts|
  {
    var init := stmts[..|stmts| - 1];
    var last := stmts[|stmts| - 1];
    if last.Declared? && last.decl.name == name {
      assert LastDeclaration(stmts, |stmts| - 1, name);
    } else {
      TableHoldsLast(init, name);
      var i :| 0 <= i < |init| && LastDeclaration(init, i, name) && BuildTable(init)[name] == init[i].decl;
      assert forall j :: 0 <= j < |init| ==> init[j] == stmts[j];
      assert LastDeclaration(stmts, i, name);
    }
  }
}
