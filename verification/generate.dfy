/** The whole generator: index the declarations, resolve the seeds, assemble
    the document. */
module Generator {
  import opened Wrappers
  import opened Syntax
  import opened DeclarationTable
  import opened Resolver
  import opened Assembler
  import opened Ordering

  method Generate(stmts: seq<Statement>) returns (r: Result<Document>)
    // a failing definition aborts the run, and only one the loop reaches
    ensures r.Failure? ==> exists x :: FailsWhenReached(BuildTable(stmts), Seeds, x, r.error)
    ensures r.Success? ==> r.value.schemaUri == SchemaUri
    // a declared `Program` becomes the root, with its own definition
    ensures r.Success? && RootName in BuildTable(stmts) ==>
      var table := BuildTable(stmts);
      r.value.root.Some? && DefinitionOf(table, table[RootName]) == Success(r.value.root.value)
    ensures r.Success? && RootName !in BuildTable(stmts) ==> r.value.root == None
    // every listed definition is the definition of a declared name
    ensures r.Success? ==> forall i :: 0 <= i < |r.value.definitions| ==>
      var table := BuildTable(stmts);
      var (k, v) := r.value.definitions[i];
      k in table && k != RootName && DefinitionOf(table, table[k]) == Success(v)
    // listed in strictly increasing name order
    ensures r.Success? ==> forall i, j :: 0 <= i < j < |r.value.definitions| ==>
      Less(r.value.definitions[i].0, r.value.definitions[j].0)
    // a declared seed other than the root is always listed
    ensures r.Success? ==> forall s :: s in Seeds && s in BuildTable(stmts) && s != RootName ==> Listed(r.value, s)
    // every name a listed definition or the root requests is listed, is the
    // root, or has no declaration
    ensures r.Success? ==> forall i, y ::
      var table := BuildTable(stmts);
      0 <= i < |r.value.definitions| && r.value.definitions[i].0 in table
      && y in DeclRequests(table[r.value.definitions[i].0]) ==>
      Listed(r.value, y) || y == RootName || y !in table
    ensures r.Success? && RootName in BuildTable(stmts) ==> forall y ::
      var table := BuildTable(stmts);
      y in DeclRequests(table[RootName]) ==> Listed(r.value, y) || y == RootName || y !in table
    // nothing unreached is listed: the listed names and the root all belong
    // to one order in which each is a seed or requested by an earlier one
    ensures r.Success? ==> exists order ::
      && Grounded(BuildTable(stmts), Seeds, order)
      && (forall i :: 0 <= i < |r.value.definitions| ==> r.value.definitions[i].0 in order)
      && (RootName in BuildTable(stmts) ==> RootName in order)
  {
    var table := BuildTable(stmts);
    var res := Resolve(table, Seeds);
    if res.Failure? {
      return Failure(res.error);
    }
    var doc := Assemble(res.value.definitions, res.value.order);
    AssembledDocument(table, res.value, doc);
    r := Success(doc);
  }

  /** What the document assembled from a sound result lists: the root and
      the other definitions, each its declaration's definition; every declared
      seed; every declared name a listed definition requests; and only names
      of the result's grounded order. */
  lemma AssembledDocument(table: Table, res: Resolution, doc: Document)
    requires Sound(table, Seeds, res)
    requires doc == Assemble(res.definitions, res.order)
    ensures RootName in table ==> doc.root.Some? && DefinitionOf(table, table[RootName]) == Success(doc.root.value)
    ensures RootName !in table ==> doc.root == None
    ensures forall i :: 0 <= i < |doc.definitions| ==>
      var (k, v) := doc.definitions[i];
      k in table && k != RootName && DefinitionOf(table, table[k]) == Success(v)
    ensures forall s :: s in Seeds && s in table && s != RootName ==> Listed(doc, s)
    ensures forall i, y ::
      0 <= i < |doc.definitions| && doc.definitions[i].0 in table && y in DeclRequests(table[doc.definitions[i].0]) ==>
      Listed(doc, y) || y == RootName || y !in table
    ensures RootName in table ==> forall y ::
      y in DeclRequests(table[RootName]) ==> Listed(doc, y) || y == RootName || y !in table
    ensures Grounded(table, Seeds, res.order)
    ensures forall i :: 0 <= i < |doc.definitions| ==> doc.definitions[i].0 in res.order
    ensures RootName in table ==> RootName in res.order
  {
    AssembledRoot(table, res, doc);
    AssembledListing(table, res, doc);
    AssembledClosed(table, res, doc);
    AssembledGrounded(table, res, doc);
  }

  /** The root is the definition of a declared `Program`, and absent otherwise. */
  lemma AssembledRoot(table: Table, res: Resolution, doc: Document)
    requires Sound(table, Seeds, res)
    requires doc == Assemble(res.definitions, res.order)
    ensures RootName in table ==> doc.root.Some? && DefinitionOf(table, table[RootName]) == Success(doc.root.value)
    ensures RootName !in table ==> doc.root == None
  {
    if RootName in table {
      assert RootName == Seeds[0];
      assert RootName in res.definitions;
    }
  }

  /** Each listed entry is a declared name's definition, and every declared
      seed other than the root is listed. */
  lemma AssembledListing(table: Table, res: Resolution, doc: Document)
    requires Sound(table, Seeds, res)
    requires doc == Assemble(res.definitions, res.order)
    ensures forall i :: 0 <= i < |doc.definitions| ==>
      var (k, v) := doc.definitions[i];
      k in table && k != RootName && DefinitionOf(table, table[k]) == Success(v)
    ensures forall s :: s in Seeds && s in table && s != RootName ==> Listed(doc, s)
  {
    forall s | s in Seeds && s in table
      ensures s in res.definitions
    {
      assert s !in res.missing;
    }
  }

  /** Once a sound result is assembled, every name a definition requests is
      listed, is the root, or has no declaration. */
  lemma AssembledClosed(table: Table, res: Resolution, doc: Document)
    requires Sound(table, Seeds, res)
    requires doc == Assemble(res.definitions, res.order)
    ensures forall i, y ::
      0 <= i < |doc.definitions| && doc.definitions[i].0 in table && y in DeclRequests(table[doc.definitions[i].0]) ==>
      Listed(doc, y) || y == RootName || y !in table
    ensures RootName in table ==> forall y ::
      y in DeclRequests(table[RootName]) ==> Listed(doc, y) || y == RootName || y !in table
  {
    forall x, y | x in res.definitions && y in DeclRequests(table[x])
      ensures Listed(doc, y) || y == RootName || y !in table
    {
      assert y in res.definitions || y in res.missing;
    }
    if RootName in table {
      assert RootName == Seeds[0];
      assert RootName in res.definitions;
    }
  }

  /** The listed names and the root all belong to the result's order, which
      is grounded in the seeds. */
  lemma AssembledGrounded(table: Table, res: Resolution, doc: Document)
    requires Sound(table, Seeds, res)
    requires doc == Assemble(res.definitions, res.order)
    ensures Grounded(table, Seeds, res.order)
    ensures forall i :: 0 <= i < |doc.definitions| ==> doc.definitions[i].0 in res.order
    ensures RootName in table ==> RootName in res.order
  {
    if RootName in table {
      assert RootName == Seeds[0];
      assert RootName in res.definitions;
    }
  }
}
