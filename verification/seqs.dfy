/** Small facts about sequences shared by the other modules. */
module Seqs {

  /** No element occurs twice. */
  predicate NoDup<T(==)>(s: seq<T>)
  {
    forall i, j :: 0 <= i < j < |s| ==> s[i] != s[j]
  }

  /** Every sequence in `ss` is duplicate-free, stated one sequence at a time. */
  predicate EachNoDup<T(==)>(ss: seq<seq<T>>)
  {
    |ss| == 0 || (NoDup(ss[0]) && EachNoDup(ss[1..]))
  }

  /** `EachNoDup` says what its name says. */
  lemma {:induction false} EachNoDupIff<T>(ss: seq<seq<T>>)
    ensures EachNoDup(ss) <==> forall i :: 0 <= i < |ss| ==> NoDup(ss[i])
  {
    if |ss| > 0 {
      EachNoDupIff(ss[1..]);
      assert forall i :: 1 <= i < |ss| ==> ss[i] == ss[1..][i - 1];
    }
  }

  /** The indices in `idx` are strictly increasing. */
  predicate StrictlyIncreasing(idx: seq<nat>)
  {
    forall i, j :: 0 <= i < j < |idx| ==> idx[i] < idx[j]
  }

  /** The position of the first `x` in `s` (Python's `find`), or `|s|` when
      `x` does not occur. */
  function IndexOf<T(==)>(s: seq<T>, x: T): (k: nat)
    ensures k <= |s|
    ensures k < |s| ==> s[k] == x
    ensures forall j :: 0 <= j < k ==> s[j] != x
  {
    if |s| == 0 then 0
    else if s[0] == x then 0
    else 1 + IndexOf(s[1..], x)
  }

  /** Appending an element that is not already present keeps a sequence duplicate-free. */
  lemma NoDupSnoc<T>(s: seq<T>, x: T)
    requires NoDup(s) && x !in s
    ensures NoDup(s + [x])
  {
  }

  /** Concatenating two duplicate-free, disjoint sequences keeps the result duplicate-free. */
  lemma NoDupAppend<T>(a: seq<T>, b: seq<T>)
    requires NoDup(a) && NoDup(b)
    requires forall x :: x in a ==> x !in b
    ensures NoDup(a + b)
  {
    forall i, j | 0 <= i < j < |a + b|
      ensures (a + b)[i] != (a + b)[j]
    {
      if j < |a| {
      } else if i >= |a| {
        assert (a + b)[i] == b[i - |a|];
      } else {
        assert (a + b)[i] in a;
        assert (a + b)[j] == b[j - |a|];
      }
    }
  }

  /** A duplicate-free sequence has as many elements as the set of its elements. */
  lemma {:induction false} NoDupCardinality<T>(s: seq<T>)
    requires NoDup(s)
    ensures |set x | x in s| == |s|
  {
    if |s| > 0 {
      var init := s[..|s| - 1];
      var last := s[|s| - 1];
      assert NoDup(init);
      NoDupCardinality(init);
      assert s == init + [last];
      assert (set x | x in s) == (set x | x in init) + {last};
      assert last !in init;
    }
  }
}
