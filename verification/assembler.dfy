/** The output document: the definitions other than `Program`, sorted by
    name, under `definitions`, with the `Program` definition spread at the top
    level next to the `$schema` URI. */
module Assembler {
  import opened Wrappers
  import opened JsonSchema
  import opened Ordering

  const SchemaUri: string := "http://json-schema.org/schema#"

  /** The definition that becomes the document root. */
  const RootName: string := "Program"

  /** `s` is strictly increasing, so also free of duplicates. */
  predicate Sorted(s: seq<string>) {
    forall i, j :: 0 <= i < j < |s| ==> Less(s[i], s[j])
  }

  /** `s` with every occurrence of `x` removed. */
  function Without(s: seq<string>, x: string): (r: seq<string>)
    ensures forall y :: y in r <==> y in s && y != x
    decreases |s|
  {
    if s == [] then []
    else if s[0] == x then Without(s[1..], x)
    else [s[0]] + Without(s[1..], x)
  }

  /** Put `x` into its place in `s`; a name already present is not repeated. */
  function Insert(x: string, s: seq<string>): (r: seq<string>)
    ensures forall y :: y in r <==> y == x || y in s
    decreases |s|
  {
    if s == [] then [x]
    else if x == s[0] then s
    else if Less(x, s[0]) then [x] + s
    else [s[0]] + Insert(x, s[1..])
  }

  /** Insertion sort of the names of `s`. */
  function SortNames(s: seq<string>): (r: seq<string>)
    ensures forall y :: y in r <==> y in s
    decreases |s|
  {
    if s == [] then [] else Insert(s[0], SortNames(s[1..]))
  }

  lemma LessThanAll(x: string, s: seq<string>)
    requires Sorted(s) && s != [] && Less(x, s[0])
    ensures forall i :: 0 <= i < |s| ==> Less(x, s[i])
  {
    forall i | 0 < i < |s|
      ensures Less(x, s[i])
    {
      LessTransitive(x, s[0], s[i]);
    }
  }

  lemma {:induction false} InsertSorted(x: string, s: seq<string>)
    requires Sorted(s)
    ensures Sorted(Insert(x, s))
    decreases |s|
  {
    if s == [] {
    } else if x == s[0] {
    } else if Less(x, s[0]) {
      LessThanAll(x, s);
      var r := [x] + s;
      assert forall i :: 0 < i < |r| ==> r[i] == s[i - 1];
    } else {
      LessTotal(x, s[0]);
      var t := Insert(x, s[1..]);
      assert Sorted(s[1..]) by {
        assert forall i :: 0 <= i < |s| - 1 ==> s[1..][i] == s[i + 1];
      }
      InsertSorted(x, s[1..]);
      var r := [s[0]] + t;
      forall i, j | 0 <= i < j < |r|
        ensures Less(r[i], r[j])
      {
        if i == 0 {
          assert r[j] in t;
          assert r[j] == x || r[j] in s[1..];
          if r[j] != x {
            var k :| 0 <= k < |s[1..]| && s[1..][k] == r[j];
            assert s[k + 1] == r[j];
          }
        } else {
          assert r[i] == t[i - 1] && r[j] == t[j - 1];
        }
      }
    }
  }

  lemma {:induction false} SortNamesSorted(s: seq<string>)
    ensures Sorted(SortNames(s))
    decreases |s|
  {
    if s != [] {
      SortNamesSorted(s[1..]);
      InsertSorted(s[0], SortNames(s[1..]));
    }
  }

  lemma SameEmpty(a: seq<string>, b: seq<string>)
    requires forall y :: y in a <==> y in b
    ensures a == [] <==> b == []
  {
    if a != [] {
      assert a[0] in a;
    }
    if b != [] {
      assert b[0] in b;
    }
  }

  /** Two sorted sequences of the same names are the same sequence: the
      sorted order depends on the names alone. */
  lemma {:induction false} SortedUnique(a: seq<string>, b: seq<string>)
    requires Sorted(a) && Sorted(b)
    requires forall y :: y in a <==> y in b
    ensures a == b
    decreases |a|
  {
    SameEmpty(a, b);
    if a != [] {
      assert a[0] in b;
      if a[0] != b[0] {
        assert b[0] in a;
        var k :| 0 <= k < |a| && a[k] == b[0];
        var m :| 0 <= m < |b| && b[m] == a[0];
        assert Less(a[0], b[0]);
        assert Less(b[0], a[0]);
        LessAsymmetric(a[0], b[0]);
        assert false;
      }
      assert Sorted(a[1..]) by {
        assert forall i :: 0 <= i < |a| - 1 ==> a[1..][i] == a[i + 1];
      }
      assert Sorted(b[1..]) by {
        assert forall i :: 0 <= i < |b| - 1 ==> b[1..][i] == b[i + 1];
      }
      forall y
        ensures y in a[1..] <==> y in b[1..]
      {
        if y in a[1..] {
          var k :| 0 <= k < |a[1..]| && a[1..][k] == y;
          assert Less(a[0], a[k + 1]);
          LessIrreflexive(y);
          assert y in b && y != b[0];
          assert b == [b[0]] + b[1..];
        }
        if y in b[1..] {
          var k :| 0 <= k < |b[1..]| && b[1..][k] == y;
          assert Less(b[0], b[k + 1]);
          LessIrreflexive(y);
          assert y in a && y != a[0];
          assert a == [a[0]] + a[1..];
        }
      }
      SortedUnique(a[1..], b[1..]);
      assert a == [a[0]] + a[1..] && b == [b[0]] + b[1..];
    }
  }

  /** The entries `(name, definition)` for `names`, in that order. */
  function EntriesOf(defs: map<string, Schema>, names: seq<string>): (r: seq<(string, Schema)>)
    requires forall n :: n in names ==> n in defs
    ensures |r| == |names|
    ensures forall i :: 0 <= i < |r| ==> r[i] == (names[i], defs[names[i]])
    decreases |names|
  {
    if names == [] then [] else [(names[0], defs[names[0]])] + EntriesOf(defs, names[1..])
  }

  /** The written document: `{"$schema", definitions, ...program}`. */
  datatype Document = Document(schemaUri: string, definitions: seq<(string, Schema)>, root: Option<Schema>)

  /** `name` has an entry under `definitions`. */
  predicate Listed(doc: Document, name: string) {
    exists i :: 0 <= i < |doc.definitions| && doc.definitions[i].0 == name
  }

  /** Assemble the document from the definitions and their insertion order. */
  function Assemble(defs: map<string, Schema>, order: seq<string>): (d: Document)
    requires forall x :: x in order <==> x in defs
    ensures d.schemaUri == SchemaUri
    // the root is the `Program` definition, and only it
    ensures d.root == (if RootName in defs then Some(defs[RootName]) else None)
    // every other definition is listed, with its own schema
    ensures forall i :: 0 <= i < |d.definitions| ==>
      var (k, v) := d.definitions[i]; k in defs && k != RootName && v == defs[k]
    ensures forall x :: x in defs && x != RootName <==> Listed(d, x)
    // in strictly increasing name order
    ensures forall i, j :: 0 <= i < j < |d.definitions| ==> Less(d.definitions[i].0, d.definitions[j].0)
  {
    var names := SortNames(Without(order, RootName));
    SortNamesSorted(Without(order, RootName));
    var entries := EntriesOf(defs, names);
    assert forall x :: x in names <==> exists i :: 0 <= i < |entries| && entries[i].0 == x by {
      forall x | x in names
        ensures exists i :: 0 <= i < |entries| && entries[i].0 == x
      {
        var i :| 0 <= i < |names| && names[i] == x;
        assert entries[i].0 == x;
      }
    }
    Document(SchemaUri, entries, if RootName in defs then Some(defs[RootName]) else None)
  }

  /** The document does not depend on the order in which definitions were
      stored, only on the definitions themselves. */
  lemma AssembleOrderIndependent(defs: map<string, Schema>, o1: seq<string>, o2: seq<string>)
    requires forall x :: x in o1 <==> x in defs
    requires forall x :: x in o2 <==> x in defs
    ensures Assemble(defs, o1) == Assemble(defs, o2)
  {
    SortNamesSorted(Without(o1, RootName));
    SortNamesSorted(Without(o2, RootName));
    SortedUnique(SortNames(Without(o1, RootName)), SortNames(Without(o2, RootName)));
  }
}
