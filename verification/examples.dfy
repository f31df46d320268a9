/** Worked instances of the properties, on words from the script's default
    word list. */
module Examples {
  import opened Ascii
  import opened LetterSets
  import opened Candidates
  import opened DictionaryFilter
  import opened GroupName
  import opened Pipeline

  /** `format_group_name(["Here", "are"], "Ha")` is "Here Are". */
  lemma HereAreGroupName()
    ensures FormatGroupName(["Here", "are"], "Ha") == "Here Are"
  {
  }

  /** The letter sets of the first three default words "HeRe", "are", "THe":
      {H, R}, then every character of "are" (it has no upper case), then {T, H},
      each listed in the model's order of first occurrence (Python's order is
      its sets' hash order). */
  lemma HereAreTheLetters()
    ensures CreateLetterSets(["HeRe", "are", "THe"]) == [['H', 'R'], ['a', 'r', 'e'], ['T', 'H']]
  {
    ThreeSets(["HeRe", "are", "THe"]);
    HereLetters();
    AreLetters();
    TheLetters();
  }

  /** The letter sets of three words, one per word. */
  lemma ThreeSets(words: seq<string>)
    requires |words| == 3
    ensures CreateLetterSets(words) == [LetterSet(words[0]), LetterSet(words[1]), LetterSet(words[2])]
  {
  }

  /** `Distinct` grows by one character at a time. */
  lemma DistinctSnoc(w: string, c: char)
    ensures Distinct(w + [c]) == if c in Distinct(w) then Distinct(w) else Distinct(w) + [c]
  {
    assert (w + [c])[..|w|] == w;
  }

  /** `Uppercase` grows by one character at a time. */
  lemma UppercaseSnoc(s: seq<char>, c: char)
    ensures Uppercase(s + [c]) == if IsUpper(c) then Uppercase(s) + [c] else Uppercase(s)
  {
    assert (s + [c])[..|s|] == s;
  }

  /** The distinct characters of three different characters are those three. */
  lemma DistinctOfThree(a: char, b: char, c: char)
    requires a != b && a != c && b != c
    ensures Distinct([a, b, c]) == [a, b, c]
  {
    DistinctSnoc([], a);
    assert [] + [a] == [a];
    DistinctSnoc([a], b);
    assert [a] + [b] == [a, b];
    DistinctSnoc([a, b], c);
    assert [a, b] + [c] == [a, b, c];
  }

  /** Repeating the second character adds nothing new. */
  lemma DistinctOfThreeRepeat(a: char, b: char, c: char)
    requires a != b && a != c && b != c
    ensures Distinct([a, b, c, b]) == [a, b, c]
  {
    DistinctOfThree(a, b, c);
    DistinctSnoc([a, b, c], b);
    assert [a, b, c] + [b] == [a, b, c, b];
  }

  /** The upper-case characters among three, in order. */
  lemma UppercaseOfThree(a: char, b: char, c: char)
    ensures Uppercase([a, b, c]) ==
      (if IsUpper(a) then [a] else []) + (if IsUpper(b) then [b] else []) + (if IsUpper(c) then [c] else [])
  {
    UppercaseSnoc([], a);
    assert [] + [a] == [a];
    UppercaseSnoc([a], b);
    assert [a] + [b] == [a, b];
    UppercaseSnoc([a, b], c);
    assert [a, b] + [c] == [a, b, c];
  }

  lemma HereLetters()
    ensures LetterSet("HeRe") == ['H', 'R']
  {
    assert "HeRe" == ['H', 'e', 'R', 'e'];
    DistinctOfThreeRepeat('H', 'e', 'R');
    UppercaseOfThree('H', 'e', 'R');
  }

  lemma AreLetters()
    ensures LetterSet("are") == ['a', 'r', 'e']
  {
    assert "are" == ['a', 'r', 'e'];
    DistinctOfThree('a', 'r', 'e');
    UppercaseOfThree('a', 'r', 'e');
  }

  lemma TheLetters()
    ensures LetterSet("THe") == ['T', 'H']
  {
    assert "THe" == ['T', 'H', 'e'];
    DistinctOfThree('T', 'H', 'e');
    UppercaseOfThree('T', 'H', 'e');
  }

  /** ["HeRe", "are", "THe"] gives 2 * 3 * 2 candidates. The words are a
      parameter fixed by `requires`, not a literal in the `ensures`, so that
      the verifier does not unfold the letter sets of the literal everywhere
      the postcondition is used. */
  lemma HereAreTheCandidateCount(words: seq<string>)
    requires words == ["HeRe", "are", "THe"]
    ensures |Product(CreateLetterSets(words))| == 12
  {
    HereAreTheLetters();
    var sets := CreateLetterSets(words);
    assert SizeProduct(sets[2..]) == 2;
    assert SizeProduct(sets[1..]) == 6;
  }

  /** A candidate differing from a listed word only in case is accepted. */
  lemma MixedCaseCandidateAccepted()
    ensures IsValidWord({"abc"}, "Abc")
  {
    assert LowerStr("Abc") == "abc" by {
      assert LowerStr("Abc")[0] == 'a';
    }
  }

  /** An empty word has an empty letter set, so no candidate survives. Any
      word list with an empty word at position `i` qualifies. */
  lemma EmptyWordNoCandidates(words: seq<string>, i: nat)
    requires i < |words| && words[i] == ""
    ensures Product(CreateLetterSets(words)) == []
  {
    EmptySetNoCandidates(CreateLetterSets(words), i);
  }
}
