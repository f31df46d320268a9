/** The search pipeline of the script's main block with translation left out:
    letter sets, valid candidates, and one group name per valid candidate. */
module Pipeline {
  import opened Seqs
  import opened Ascii
  import opened LetterSets
  import opened Candidates
  import opened DictionaryFilter
  import opened GroupName

  /** A candidate built from the letter sets of `originals` finds its letter,
      case-insensitively, in every original word: the length assertion of
      `format_group_name` never fails, and every word has a first match for
      its letter. */
  lemma CandidateLettersFound(originals: seq<string>, w: string)
    requires Fits(w, CreateLetterSets(originals))
    ensures |w| == |originals|
    ensures forall i :: 0 <= i < |w| ==> IndexOf(LowerStr(originals[i]), Lower(w[i])) < |originals[i]|
  {
    var sets := CreateLetterSets(originals);
    forall i | 0 <= i < |w|
      ensures IndexOf(LowerStr(originals[i]), Lower(w[i])) < |originals[i]|
    {
      assert w[i] in sets[i];
      assert w[i] in originals[i];
      var j :| 0 <= j < |originals[i]| && originals[i][j] == w[i];
      assert LowerStr(originals[i])[j] == Lower(w[i]);
    }
  }

  /** In the group name of a found candidate, part i agrees with the lower-cased
      word i except at the first case-insensitive match of letter i, which holds
      the upper-cased letter. When letter i is an ASCII letter that position
      really changes; an uncased letter (a digit, say) leaves the part equal to
      the lower-cased word. */
  lemma FoundPartsMarked(originals: seq<string>, w: string, i: nat)
    requires Fits(w, CreateLetterSets(originals))
    requires i < |w|
    ensures |originals| == |w|
    ensures var k := IndexOf(LowerStr(originals[i]), Lower(w[i]));
      && k < |originals[i]|
      && Parts(originals, w)[i][k] == Upper(w[i])
      && Lower(originals[i][k]) == Lower(w[i])
      && (forall j :: 0 <= j < |originals[i]| && j != k ==> Parts(originals, w)[i][j] == Lower(originals[i][j]))
      && (IsUpper(w[i]) || IsLower(w[i]) ==> Parts(originals, w)[i][k] != Lower(originals[i][k]))
      && (!IsUpper(w[i]) && !IsLower(w[i]) ==> Parts(originals, w)[i] == LowerStr(originals[i]))
  {
    CandidateLettersFound(originals, w);
  }

  /** The number of candidates is the product, over the words, of the number
      of distinct letters each word allows. */
  lemma {:induction false} CandidateCount(words: seq<string>)
    ensures |Product(CreateLetterSets(words))| == AllowedCount(words)
  {
    var sets := CreateLetterSets(words);
    if |words| > 0 {
      CandidateCount(words[1..]);
      assert sets[1..] == CreateLetterSets(words[1..]);
      LetterSetSize(sets[0], words[0]);
    }
  }

  /** The main block without translation: the valid words in generation order,
      each paired with its group name. */
  method SearchGroupNames(originals: seq<string>, dict: set<string>) returns (found: seq<string>, names: seq<string>)
    ensures forall w {:trigger w in found} :: w in found <==> Fits(w, CreateLetterSets(originals)) && IsValidWord(dict, w)
    ensures NoDup(found)
    ensures LexSorted(found, CreateLetterSets(originals))
    ensures |names| == |found|
    ensures forall k :: 0 <= k < |found| ==>
      |found[k]| == |originals| && names[k] == FormatGroupName(originals, found[k])
  {
    var letterSets := CreateLetterSets(originals);
    LetterSetsEachNoDup(originals);
    found := GenerateValidWords(letterSets, dict);
    names := [];
    for k := 0 to |found|
      invariant |names| == k
      invariant forall m :: 0 <= m < k ==> |found[m]| == |originals| && names[m] == FormatGroupName(originals, found[m])
    {
      assert found[k] in found;
      names := names + [FormatGroupName(originals, found[k])];
    }
  }
}
