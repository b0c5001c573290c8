/** Sequence helpers: distinctness and insertion-ordered de-duplication of names. */
module Lists {

  /** No element occurs twice. */
  predicate NoDup<T(==)>(s: seq<T>) {
    forall i, j :: 0 <= i < j < |s| ==> s[i] != s[j]
  }

  /** Appends to `acc` every element of `s` not seen before, keeping the first
      occurrence: the behaviour of `Array.from(new Set(acc.concat(s)))` when
      `acc` is already free of duplicates. */
  function DedupInto(acc: seq<string>, s: seq<string>): (r: seq<string>)
    ensures |acc| <= |r| && r[..|acc|] == acc
    ensures NoDup(acc) ==> NoDup(r)
    ensures forall x :: x in r <==> x in acc || x in s
    decreases |s|
  {
    if s == [] then acc
    else DedupInto(if s[0] in acc then acc else acc + [s[0]], s[1..])
  }

  /** `Array.from(new Set(s))`: the distinct elements of `s` in order of first occurrence. */
  function Dedup(s: seq<string>): (r: seq<string>)
    ensures NoDup(r)
    ensures forall x :: x in r <==> x in s
  {
    DedupInto([], s)
  }

  /** De-duplicating a concatenation is de-duplicating its parts one after the other. */
  lemma {:induction false} DedupIntoAppend(acc: seq<string>, a: seq<string>, b: seq<string>)
    ensures DedupInto(acc, a + b) == DedupInto(DedupInto(acc, a), b)
    decreases |a|
  {
    if a == [] {
      assert a + b == b;
    } else {
      assert (a + b)[1..] == a[1..] + b;
      var acc' := if a[0] in acc then acc else acc + [a[0]];
      DedupIntoAppend(acc', a[1..], b);
    }
  }

  /** A sequence that is already duplicate-free passes through unchanged. */
  lemma {:induction false} DedupIntoDistinct(acc: seq<string>, a: seq<string>)
    requires NoDup(acc + a)
    ensures DedupInto(acc, a) == acc + a
    decreases |a|
  {
    if a != [] {
      assert (acc + a)[|acc|] == a[0];
      assert a[0] !in acc by {
        forall i | 0 <= i < |acc|
          ensures acc[i] != a[0]
        {
          assert (acc + a)[i] == acc[i];
        }
      }
      assert acc + a == (acc + [a[0]]) + a[1..];
      DedupIntoDistinct(acc + [a[0]], a[1..]);
    }
  }

  /** The first occurrences of a prefix come first: `Dedup(a)` is a prefix of `Dedup(a + b)`. */
  lemma DedupPrefix(a: seq<string>, b: seq<string>)
    ensures var d := Dedup(a + b); |Dedup(a)| <= |d| && d[..|Dedup(a)|] == Dedup(a)
  {
    DedupIntoAppend([], a, b);
  }
}
