/** The resolution worklist's request operation (`requestType`). The pending
    names form a stack; the names already holding a definition are `defined`. */
module Worklist {
  import opened JsonSchema
  import opened Lists

  /** A value computed together with the pending stack it leaves behind. */
  datatype Translated<T> = Translated(value: T, pending: seq<string>)

  /** `after` is `before` with names pushed on top, each of which was neither
      defined nor already pending when it was pushed. */
  predicate Appends(defined: set<string>, before: seq<string>, after: seq<string>) {
    && |before| <= |after|
    && after[..|before|] == before
    && forall i :: |before| <= i < |after| ==> after[i] !in defined && after[i] !in after[..i]
  }

  lemma AppendsTransitive(defined: set<string>, a: seq<string>, b: seq<string>, c: seq<string>)
    requires Appends(defined, a, b) && Appends(defined, b, c)
    ensures Appends(defined, a, c)
  {
    assert c[..|a|] == b[..|a|];
    forall i | |a| <= i < |c|
      ensures c[i] !in defined && c[i] !in c[..i]
    {
      if i < |b| {
        assert c[..i] == b[..i];
      }
    }
  }

  /** Pushing only fresh names never creates a duplicate pending entry. */
  lemma {:induction false} AppendsKeepsDistinct(defined: set<string>, before: seq<string>, after: seq<string>)
    requires Appends(defined, before, after)
    requires NoDup(before)
    ensures NoDup(after)
  {
    forall i, j | 0 <= i < j < |after|
      ensures after[i] != after[j]
    {
      if j < |before| {
        assert after[i] == before[i] && after[j] == before[j];
      } else {
        assert after[i] in after[..j];
      }
    }
  }

  /** `requestType(name)`: the reference to `name`, pushing `name` when it is
      neither defined nor pending. */
  function Request(defined: set<string>, pending: seq<string>, name: string): (r: Translated<Schema>)
    ensures r.value == RefTo(name)
    ensures Appends(defined, pending, r.pending) && |r.pending| <= |pending| + 1
    ensures name in defined || name in r.pending
    ensures name in defined || name in pending ==> r.pending == pending
  {
    if name !in defined && name !in pending then Translated(RefTo(name), pending + [name])
    else Translated(RefTo(name), pending)
  }

  /** The pending stack after requesting `names` one after the other. */
  function PushAll(defined: set<string>, pending: seq<string>, names: seq<string>): (r: seq<string>)
    ensures Appends(defined, pending, r)
    ensures forall x :: x in names ==> x in defined || x in r
    ensures forall x :: x in r ==> x in pending || x in names
    decreases |names|
  {
    if names == [] then pending
    else
      var next := Request(defined, pending, names[0]).pending;
      var r := PushAll(defined, next, names[1..]);
      AppendsTransitive(defined, pending, next, r);
      assert forall x :: x in names ==> x == names[0] || x in names[1..];
      r
  }

  /** Requesting one name is `Request`. */
  lemma PushOne(defined: set<string>, pending: seq<string>, name: string)
    ensures PushAll(defined, pending, [name]) == Request(defined, pending, name).pending
  {
    assert [name][1..] == [];
  }

  /** Requesting `a + b` is requesting `a`, then `b`. */
  lemma {:induction false} PushAllAppend(defined: set<string>, pending: seq<string>, a: seq<string>, b: seq<string>)
    ensures PushAll(defined, pending, a + b) == PushAll(defined, PushAll(defined, pending, a), b)
    decreases |a|
  {
    if a == [] {
      assert a + b == b;
    } else {
      assert (a + b)[0] == a[0];
      assert (a + b)[1..] == a[1..] + b;
      PushAllAppend(defined, Request(defined, pending, a[0]).pending, a[1..], b);
    }
  }
}
