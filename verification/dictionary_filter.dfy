/** `is_valid_word` and the filtering half of `generate_valid_words`. The NLTK
    word list is an abstract set of strings `dict`; the process pool that maps
    `is_valid_word` over the candidates is modelled as a sequential map whose
    results are indexed back by position, as `executor.map` does. */
module DictionaryFilter {
  import opened Seqs
  import opened Ascii
  import opened Candidates

  /** `is_valid_word(word)`: the lower-cased word is an entry of the word list. */
  predicate IsValidWord(dict: set<string>, w: string)
  {
    LowerStr(w) in dict
  }

  /** `[xs[i] for i in range(len(xs)) if is_valid[i]]` with `is_valid[i] == is_valid_word(xs[i])`. */
  function Filter(dict: set<string>, xs: seq<string>): (r: seq<string>)
    ensures |r| <= |xs|
    ensures forall w :: w in r ==> w in xs
  {
    if |xs| == 0 then []
    else
      var init := xs[..|xs| - 1];
      var last := xs[|xs| - 1];
      var rest := Filter(dict, init);
      assert xs == init + [last];
      if IsValidWord(dict, last) then rest + [last] else rest
  }

  /** Filtering never introduces a duplicate. */
  lemma {:induction false} FilterNoDup(dict: set<string>, xs: seq<string>)
    requires NoDup(xs)
    ensures NoDup(Filter(dict, xs))
  {
    if |xs| > 0 {
      var init := xs[..|xs| - 1];
      var last := xs[|xs| - 1];
      assert xs == init + [last];
      assert NoDup(init);
      FilterNoDup(dict, init);
      if IsValidWord(dict, last) {
        assert last !in init;
        NoDupSnoc(Filter(dict, init), last);
      }
    }
  }

  /** The filter keeps exactly the accepted candidates. */
  lemma {:induction false} FilterMembership(dict: set<string>, xs: seq<string>, w: string)
    ensures w in Filter(dict, xs) <==> w in xs && IsValidWord(dict, w)
  {
    if |xs| > 0 {
      var init := xs[..|xs| - 1];
      FilterMembership(dict, init, w);
      assert xs == init + [xs[|xs| - 1]];
    }
  }

  /** The positions of the accepted candidates, in increasing order. */
  function AcceptedIndices(dict: set<string>, xs: seq<string>): (idx: seq<nat>)
    ensures StrictlyIncreasing(idx)
    ensures forall k :: 0 <= k < |idx| ==> idx[k] < |xs|
    ensures forall i :: 0 <= i < |xs| ==> (i in idx <==> IsValidWord(dict, xs[i]))
  {
    if |xs| == 0 then []
    else
      var init := xs[..|xs| - 1];
      var rest := AcceptedIndices(dict, init);
      if IsValidWord(dict, xs[|xs| - 1]) then rest + [|xs| - 1] else rest
  }

  /** The filter's result is the subsequence of `xs` at the accepted positions:
      it keeps exactly the accepted candidates and never reorders them. */
  lemma {:induction false} FilterIsOrderedSubsequence(dict: set<string>, xs: seq<string>)
    ensures |Filter(dict, xs)| == |AcceptedIndices(dict, xs)|
    ensures forall k :: 0 <= k < |Filter(dict, xs)| ==>
      Filter(dict, xs)[k] == xs[AcceptedIndices(dict, xs)[k]]
  {
    if |xs| > 0 {
      var init := xs[..|xs| - 1];
      var last := xs[|xs| - 1];
      FilterIsOrderedSubsequence(dict, init);
      var r, idx := Filter(dict, init), AcceptedIndices(dict, init);
      var r', idx' := Filter(dict, xs), AcceptedIndices(dict, xs);
      if IsValidWord(dict, last) {
        assert r' == r + [last];
        assert idx' == idx + [|xs| - 1];
      } else {
        assert r' == r;
        assert idx' == idx;
      }
      forall k | 0 <= k < |r'|
        ensures r'[k] == xs[idx'[k]]
      {
        if k < |r| {
          assert r'[k] == r[k] && idx'[k] == idx[k];
          assert init[idx[k]] == xs[idx[k]];
        }
      }
    }
  }

  /** Filtering keeps lexicographically sorted candidates sorted. */
  lemma FilterKeepsSorted(dict: set<string>, xs: seq<string>, sets: seq<seq<char>>)
    requires LexSorted(xs, sets)
    ensures LexSorted(Filter(dict, xs), sets)
  {
    var r := Filter(dict, xs);
    var idx := AcceptedIndices(dict, xs);
    FilterIsOrderedSubsequence(dict, xs);
    forall a, b | 0 <= a < b < |r|
      ensures LexLess(r[a], r[b], sets)
    {
      assert r[a] == xs[idx[a]] && r[b] == xs[idx[b]];
    }
  }

  /** Filtering twice is filtering once. */
  lemma {:induction false} FilterIdempotent(dict: set<string>, xs: seq<string>)
    ensures Filter(dict, Filter(dict, xs)) == Filter(dict, xs)
  {
    if |xs| > 0 {
      var init := xs[..|xs| - 1];
      var r := Filter(dict, xs);
      FilterIdempotent(dict, init);
      if IsValidWord(dict, xs[|xs| - 1]) {
        assert r[..|r| - 1] == Filter(dict, init);
      }
    }
  }

  /** Filtering a concatenation filters each part. */
  lemma {:induction false} FilterAppend(dict: set<string>, xs: seq<string>, ys: seq<string>)
    ensures Filter(dict, xs + ys) == Filter(dict, xs) + Filter(dict, ys)
    decreases |ys|
  {
    if |ys| == 0 {
      assert xs + ys == xs;
    } else {
      var ys', y := ys[..|ys| - 1], ys[|ys| - 1];
      FilterAppend(dict, xs, ys');
      assert xs + ys == (xs + ys') + [y];
      assert ys == ys' + [y];
      FilterSnoc(dict, xs + ys', y);
      FilterSnoc(dict, ys', y);
    }
  }

  /** Filtering one more candidate appends it when it is accepted. */
  lemma FilterSnoc(dict: set<string>, xs: seq<string>, y: string)
    ensures Filter(dict, xs + [y]) == Filter(dict, xs) + (if IsValidWord(dict, y) then [y] else [])
  {
    assert (xs + [y])[..|xs|] == xs;
  }

  /** Validity is case-insensitive: strings that differ only in case are accepted together. */
  lemma ValidityIgnoresCase(dict: set<string>, u: string, v: string)
    requires SameIgnoringCase(u, v)
    ensures IsValidWord(dict, u) <==> IsValidWord(dict, v)
  {
    LowerStrEqualIff(u, v);
  }

  /** A lower-case entry accepts every re-casing of itself, so "Abc" is accepted when "abc" is listed. */
  lemma RecasedEntryAccepted(dict: set<string>, entry: string, w: string)
    requires entry in dict && AllLower(entry)
    requires SameIgnoringCase(w, entry)
    ensures IsValidWord(dict, w)
  {
    LowerStrOfLower(entry);
    LowerStrEqualIff(w, entry);
  }

  /** Only the candidate is lower-cased, never the entries: an entry holding an
      upper-case character (a proper noun such as "Aaron") accepts nothing, so
      the word list behaves as if it held only its all-lower-case entries. */
  lemma CapitalisedEntriesNeverMatch(dict: set<string>, w: string)
    ensures IsValidWord(dict, w) <==> IsValidWord((set d | d in dict && AllLower(d)), w)
  {
    LowerStrIsLower(w);
  }

  /** The `is_valid` list and the comprehension over it in `generate_valid_words`:
      every candidate tested in one pass, then kept by position
      when its test passed. The result is the reference `Filter`. */
  method SelectValid(dict: set<string>, combinations: seq<string>) returns (valid: seq<string>)
    ensures valid == Filter(dict, combinations)
  {
    var isValid := seq(|combinations|, i requires 0 <= i < |combinations| => IsValidWord(dict, combinations[i]));
    valid := [];
    for i := 0 to |combinations|
      invariant valid == Filter(dict, combinations[..i])
    {
      assert combinations[..i + 1][..i] == combinations[..i];
      if isValid[i] {
        valid := valid + [combinations[i]];
      }
    }
    assert combinations[..|combinations|] == combinations;
  }

  /** `generate_valid_words(sets)`: the `itertools.product` candidates, filtered. */
  method GenerateValidWords(sets: seq<seq<char>>, dict: set<string>) returns (valid: seq<string>)
    ensures valid == Filter(dict, Product(sets))
    ensures forall w {:trigger w in valid} :: w in valid <==> Fits(w, sets) && IsValidWord(dict, w)
    ensures EachNoDup(sets) ==> NoDup(valid) && LexSorted(valid, sets)
  {
    var combinations := Product(sets);
    valid := SelectValid(dict, combinations);
    forall w
      ensures w in valid <==> Fits(w, sets) && IsValidWord(dict, w)
    {
      FilterMembership(dict, combinations, w);
    }
    if EachNoDup(sets) {
      ProductNoDup(sets);
      FilterNoDup(dict, combinations);
      ProductSorted(sets);
      FilterKeepsSorted(dict, combinations, sets);
    }
  }
}
