/** A strict total order on names: lexicographic on character codes, a
    proper prefix first. */
module Ordering {

  /** `k` is the first position where `a` and `b` differ, and there `a` has
      the smaller character code. */
  predicate DiffersAt(a: string, b: string, k: int) {
    0 <= k < |a| && k < |b| && a[..k] == b[..k] && a[k] < b[k]
  }

  /** The textbook lexicographic order, as a reference for `Less`: `a` is a
      proper prefix of `b`, or at the first position where they differ `a`
      has the smaller character code. */
  ghost predicate Lexicographic(a: string, b: string) {
    || (|a| < |b| && a == b[..|a|])
    || exists k :: DiffersAt(a, b, k)
  }

  /** Past position 0, the first characters agree. */
  lemma DiffersAtHead(a: string, b: string, k: int)
    requires DiffersAt(a, b, k)
    ensures k == 0 || a[0] == b[0]
  {
    if k > 0 {
      assert a[..k][0] == a[0] && b[..k][0] == b[0];
    }
  }

  /** A proper prefix starts with the same character. */
  lemma PrefixHead(a: string, b: string)
    requires a != []
    ensures |a| < |b| && a == b[..|a|] ==> a[0] == b[0]
  {
    if |a| < |b| && a == b[..|a|] {
      assert a[0] == b[..|a|][0];
    }
  }

  /** Lexicographic order at the first position. */
  lemma LexicographicHead(a: string, b: string)
    requires a != [] && b != [] && a[0] != b[0]
    ensures Lexicographic(a, b) <==> a[0] < b[0]
  {
    PrefixHead(a, b);
    if exists k :: DiffersAt(a, b, k) {
      var k :| DiffersAt(a, b, k);
      DiffersAtHead(a, b, k);
    }
    if a[0] < b[0] {
      assert DiffersAt(a, b, 0);
    }
  }

  /** The proper-prefix case, one position in. */
  lemma PrefixTail(a: string, b: string)
    requires a != [] && b != [] && a[0] == b[0]
    ensures (|a| < |b| && a == b[..|a|]) <==> (|a[1..]| < |b[1..]| && a[1..] == b[1..][..|a[1..]|])
  {
    var a', b' := a[1..], b[1..];
    if |a| < |b| && a == b[..|a|] {
      assert a' == b[..|a|][1..];
    }
    if |a'| < |b'| && a' == b'[..|a'|] {
      assert a == [a[0]] + a' && b[..|a|] == [b[0]] + b'[..|a'|];
    }
  }

  lemma DifferTailDown(a: string, b: string, k: int)
    requires a != [] && b != [] && a[0] == b[0] && DiffersAt(a, b, k)
    ensures k > 0 && DiffersAt(a[1..], b[1..], k - 1)
  {
    assert k != 0;
    assert a[1..][..k - 1] == a[..k][1..] && b[1..][..k - 1] == b[..k][1..];
  }

  lemma DifferTailUp(a: string, b: string, k: int)
    requires a != [] && b != [] && a[0] == b[0] && DiffersAt(a[1..], b[1..], k)
    ensures DiffersAt(a, b, k + 1)
  {
    assert a[..k + 1] == [a[0]] + a[1..][..k] && b[..k + 1] == [b[0]] + b[1..][..k];
  }

  lemma DifferTail(a: string, b: string)
    requires a != [] && b != [] && a[0] == b[0]
    ensures (exists k :: DiffersAt(a, b, k)) <==> (exists k :: DiffersAt(a[1..], b[1..], k))
  {
    if exists k :: DiffersAt(a, b, k) {
      var k :| DiffersAt(a, b, k);
      DifferTailDown(a, b, k);
    }
    if exists k :: DiffersAt(a[1..], b[1..], k) {
      var k :| DiffersAt(a[1..], b[1..], k);
      DifferTailUp(a, b, k);
    }
  }

  /** `a` sorts before `b`, comparing character codes position by position. */
  predicate Less(a: string, b: string): (r: bool)
    ensures r <==> Lexicographic(a, b)
    decreases |a|
  {
    if a == [] then b != []
    else if b == [] then false
    else if a[0] != b[0] then LexicographicHead(a, b); a[0] < b[0]
    else PrefixTail(a, b); DifferTail(a, b); Less(a[1..], b[1..])
  }

  lemma {:induction false} LessIrreflexive(a: string)
    ensures !Less(a, a)
    decreases |a|
  {
    if a != [] {
      LessIrreflexive(a[1..]);
    }
  }

  lemma {:induction false} LessTransitive(a: string, b: string, c: string)
    requires Less(a, b) && Less(b, c)
    ensures Less(a, c)
    decreases |a|
  {
    if a != [] && b != [] && c != [] && a[0] == b[0] && b[0] == c[0] {
      LessTransitive(a[1..], b[1..], c[1..]);
    }
  }

  /** Any two different names are ordered one way or the other. */
  lemma {:induction false} LessTotal(a: string, b: string)
    requires a != b
    ensures Less(a, b) || Less(b, a)
    decreases |a|
  {
    if a != [] && b != [] && a[0] == b[0] {
      assert a == [a[0]] + a[1..] && b == [b[0]] + b[1..];
      LessTotal(a[1..], b[1..]);
    }
  }

  lemma {:induction false} LessAsymmetric(a: string, b: string)
    requires Less(a, b)
    ensures !Less(b, a)
    decreases |a|
  {
    if a != [] && b != [] && a[0] == b[0] {
      LessAsymmetric(a[1..], b[1..]);
    }
  }
}
