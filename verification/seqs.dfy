/** Order-preserving selection from a sequence: the shape of every derived
    `findBy...` query and of every delete in the repository. */
module Seqs {

  /** The elements of `s` that `keep` accepts, in their original order. */
  function Select<T(!new)>(s: seq<T>, keep: T -> bool): (r: seq<T>)
    ensures |r| <= |s|
    ensures forall x :: x in r <==> x in s && keep(x)
  {
    if s == [] then []
    else (if keep(s[0]) then [s[0]] else []) + Select(s[1..], keep)
  }

  /** Selecting with two predicates in turn is selecting with their conjunction. */
  lemma {:induction false} SelectSelect<T(!new)>(s: seq<T>, p: T -> bool, q: T -> bool, pq: T -> bool)
    requires forall x :: pq(x) == (p(x) && q(x))
    ensures Select(Select(s, p), q) == Select(s, pq)
  {
    if s != [] {
      SelectSelect(s[1..], p, q, pq);
      var head := if p(s[0]) then [s[0]] else [];
      assert Select(s, p) == head + Select(s[1..], p);
      SelectAppend(head, Select(s[1..], p), q);
    }
  }

  /** Selection distributes over concatenation. */
  lemma {:induction false} SelectAppend<T(!new)>(a: seq<T>, b: seq<T>, keep: T -> bool)
    ensures Select(a + b, keep) == Select(a, keep) + Select(b, keep)
  {
    if a == [] {
      assert a + b == b;
    } else {
      assert (a + b)[0] == a[0];
      assert (a + b)[1..] == a[1..] + b;
      SelectAppend(a[1..], b, keep);
    }
  }

  /** Only the verdicts on the elements actually present matter. */
  lemma {:induction false} SelectCongruent<T(!new)>(s: seq<T>, p: T -> bool, q: T -> bool)
    requires forall x :: x in s ==> p(x) == q(x)
    ensures Select(s, p) == Select(s, q)
  {
    if s != [] {
      assert forall x :: x in s[1..] ==> x in s;
      SelectCongruent(s[1..], p, q);
    }
  }

  /** Selecting twice with the same predicate changes nothing the second time. */
  lemma SelectIdempotent<T(!new)>(s: seq<T>, keep: T -> bool)
    ensures Select(Select(s, keep), keep) == Select(s, keep)
  {
    SelectSelect(s, keep, keep, keep);
  }

  /** A predicate that accepts every element keeps the whole sequence. */
  lemma {:induction false} SelectAll<T(!new)>(s: seq<T>, keep: T -> bool)
    requires forall x :: x in s ==> keep(x)
    ensures Select(s, keep) == s
  {
    if s != [] {
      assert forall x :: x in s[1..] ==> x in s;
      SelectAll(s[1..], keep);
    }
  }
}
