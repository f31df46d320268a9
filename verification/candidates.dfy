/** Candidate generation: `[''.join(item) for item in itertools.product(*sets)]`.
    Candidates come in itertools' order, the first position varying slowest. */
module Candidates {
  import opened Seqs

  /** `w` picks its character i from set i, for every position. */
  predicate Fits(w: string, sets: seq<seq<char>>)
  {
    |w| == |sets| && forall i :: 0 <= i < |w| ==> w[i] in sets[i]
  }

  /** The product of the letter-set sizes. */
  function SizeProduct(sets: seq<seq<char>>): nat
  {
    if |sets| == 0 then 1 else |sets[0]| * SizeProduct(sets[1..])
  }

  /** `[c] + t` for every `t` in `tails`, in order: exactly the words that
      start with `c` and go on with one of `tails`. */
  function Prepend(c: char, tails: seq<string>): (r: seq<string>)
    ensures |r| == |tails|
    ensures forall w {:trigger w in r} :: w in r <==> |w| > 0 && w[0] == c && w[1..] in tails
  {
    var r := seq(|tails|, k requires 0 <= k < |tails| => [c] + tails[k]);
    assert forall w {:trigger w in r} :: w in r <==> |w| > 0 && w[0] == c && w[1..] in tails by {
      forall w
        ensures w in r <==> |w| > 0 && w[0] == c && w[1..] in tails
      {
        if |w| > 0 && w[0] == c && w[1..] in tails {
          var k :| 0 <= k < |tails| && tails[k] == w[1..];
          assert w == [c] + tails[k];
          assert r[k] == w;
        }
        if w in r {
          var k :| 0 <= k < |r| && r[k] == w;
          assert w[1..] == tails[k];
        }
      }
    }
    r
  }

  /** One block of `tails` per character of `cs`, the blocks in the order of `cs`. */
  function Extend(cs: seq<char>, tails: seq<string>): (r: seq<string>)
    ensures |r| == |cs| * |tails|
    ensures forall w {:trigger w in r} :: w in r <==> |w| > 0 && w[0] in cs && w[1..] in tails
  {
    if |cs| == 0 then []
    else
      var head := Prepend(cs[0], tails);
      var rest := Extend(cs[1..], tails);
      assert |cs| * |tails| == |tails| + (|cs| - 1) * |tails|;
      assert forall x :: x in cs <==> x == cs[0] || x in cs[1..];
      head + rest
  }

  /** Fitting `sets` is fitting the first set, then the rest. */
  lemma FitsCons(w: string, sets: seq<seq<char>>)
    requires |sets| > 0
    ensures Fits(w, sets) <==> |w| > 0 && w[0] in sets[0] && Fits(w[1..], sets[1..])
  {
    if |w| > 0 && w[0] in sets[0] && Fits(w[1..], sets[1..]) {
      forall i | 0 <= i < |w|
        ensures w[i] in sets[i]
      {
        if i > 0 {
          assert w[i] == w[1..][i - 1];
        }
      }
    }
  }

  /** `itertools.product(*sets)`, each tuple joined into a string. */
  function Product(sets: seq<seq<char>>): (r: seq<string>)
    ensures |r| == SizeProduct(sets)
    ensures forall w {:trigger w in r} :: w in r <==> Fits(w, sets)
    ensures |sets| == 0 ==> r == [""]
  {
    if |sets| == 0 then [""]
    else
      var tails := Product(sets[1..]);
      assert forall w :: Fits(w, sets) <==> |w| > 0 && w[0] in sets[0] && w[1..] in tails by {
        forall w {
          FitsCons(w, sets);
        }
      }
      Extend(sets[0], tails)
  }

  /** If some letter set is empty, the product of the sizes is zero. */
  lemma {:induction false} SizeProductZero(sets: seq<seq<char>>, i: nat)
    requires i < |sets| && |sets[i]| == 0
    ensures SizeProduct(sets) == 0
  {
    if i > 0 {
      SizeProductZero(sets[1..], i - 1);
    }
  }

  /** An empty letter set anywhere leaves no candidates at all. */
  lemma EmptySetNoCandidates(sets: seq<seq<char>>, i: nat)
    requires i < |sets| && |sets[i]| == 0
    ensures Product(sets) == []
  {
    SizeProductZero(sets, i);
  }

  /** Distinct prefixes give distinct words. */
  lemma PrependNoDup(c: char, tails: seq<string>)
    requires NoDup(tails)
    ensures NoDup(Prepend(c, tails))
  {
    var r := Prepend(c, tails);
    forall i, j | 0 <= i < j < |r|
      ensures r[i] != r[j]
    {
      assert r[i][1..] == tails[i];
      assert r[j][1..] == tails[j];
    }
  }

  lemma {:induction false} ExtendNoDup(cs: seq<char>, tails: seq<string>)
    requires NoDup(cs) && NoDup(tails)
    ensures NoDup(Extend(cs, tails))
  {
    if |cs| > 0 {
      var head := Prepend(cs[0], tails);
      var rest := Extend(cs[1..], tails);
      PrependNoDup(cs[0], tails);
      ExtendNoDup(cs[1..], tails);
      forall x | x in head
        ensures x !in rest
      {
        assert cs[0] !in cs[1..];
      }
      NoDupAppend(head, rest);
    }
  }

  /** Duplicate-free letter sets give duplicate-free candidates: the product
      never produces the same string twice. */
  lemma {:induction false} ProductNoDup(sets: seq<seq<char>>)
    requires EachNoDup(sets)
    ensures NoDup(Product(sets))
  {
    if |sets| > 0 {
      ProductNoDup(sets[1..]);
      ExtendNoDup(sets[0], Product(sets[1..]));
    }
  }

  /** `u` comes before `v` in itertools' lexicographic order: the first position
      where they differ holds an earlier letter of that position's set in `u`. */
  predicate LexLess(u: string, v: string, sets: seq<seq<char>>)
    decreases |sets|
  {
    && |sets| > 0 && |u| > 0 && |v| > 0
    && (|| IndexOf(sets[0], u[0]) < IndexOf(sets[0], v[0])
        || (u[0] == v[0] && LexLess(u[1..], v[1..], sets[1..])))
  }

  /** The words of `ws` are in strictly increasing lexicographic order. */
  predicate LexSorted(ws: seq<string>, sets: seq<seq<char>>)
  {
    forall i, j :: 0 <= i < j < |ws| ==> LexLess(ws[i], ws[j], sets)
  }

  lemma PrependSorted(c: char, tails: seq<string>, sets: seq<seq<char>>)
    requires |sets| > 0
    requires LexSorted(tails, sets[1..])
    ensures LexSorted(Prepend(c, tails), sets)
  {
    var r := Prepend(c, tails);
    forall i, j | 0 <= i < j < |r|
      ensures LexLess(r[i], r[j], sets)
    {
      assert r[i][1..] == tails[i];
      assert r[j][1..] == tails[j];
    }
  }

  lemma SortedAppend(a: seq<string>, b: seq<string>, sets: seq<seq<char>>)
    requires LexSorted(a, sets) && LexSorted(b, sets)
    requires forall x, y :: x in a && y in b ==> LexLess(x, y, sets)
    ensures LexSorted(a + b, sets)
  {
    forall i, j | 0 <= i < j < |a + b|
      ensures LexLess((a + b)[i], (a + b)[j], sets)
    {
      if j < |a| {
      } else if i >= |a| {
        assert (a + b)[i] == b[i - |a|];
        assert (a + b)[j] == b[j - |a|];
      } else {
        assert (a + b)[i] in a;
        assert (a + b)[j] == b[j - |a|];
      }
    }
  }

  /** The blocks for the letters `first[k..]` are in lexicographic order. */
  lemma {:induction false} ExtendSorted(first: seq<char>, k: nat, tails: seq<string>, sets: seq<seq<char>>)
    requires |sets| > 0 && sets[0] == first && NoDup(first) && k <= |first|
    requires LexSorted(tails, sets[1..])
    ensures LexSorted(Extend(first[k..], tails), sets)
    decreases |first| - k
  {
    if k < |first| {
      var head := Prepend(first[k], tails);
      var rest := Extend(first[k..][1..], tails);
      assert first[k..][1..] == first[k + 1..];
      PrependSorted(first[k], tails, sets);
      ExtendSorted(first, k + 1, tails, sets);
      forall x, y | x in head && y in rest
        ensures LexLess(x, y, sets)
      {
        assert IndexOf(first, x[0]) == k;
        var m :| k + 1 <= m < |first| && first[m] == y[0];
        assert IndexOf(first, y[0]) == m;
      }
      SortedAppend(head, rest, sets);
    }
  }

  /** With duplicate-free letter sets, the candidates come in strictly
      increasing lexicographic order with respect to the order of each set:
      the first position varies slowest, the last fastest. */
  lemma {:induction false} ProductSorted(sets: seq<seq<char>>)
    requires EachNoDup(sets)
    ensures LexSorted(Product(sets), sets)
  {
    if |sets| > 0 {
      ProductSorted(sets[1..]);
      assert sets[0][0..] == sets[0];
      ExtendSorted(sets[0], 0, Product(sets[1..]), sets);
    }
  }
}
