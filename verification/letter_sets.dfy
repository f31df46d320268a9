/** `create_letter_sets`: one candidate-letter set per input word. A letter set
    is a duplicate-free sequence of characters; its order is the order of first
    occurrence in the word, a choice of this model (Python iterates its sets in
    hash order), so every contract below speaks only of its contents. */
module LetterSets {
  import opened Seqs
  import opened Ascii

  /** The word holds at least one upper-case character. */
  predicate HasUpper(w: string)
  {
    exists i :: 0 <= i < |w| && IsUpper(w[i])
  }

  /** Reference definition of a letter set's contents: the word's upper-case
      characters when it has any, otherwise all of its characters. */
  function SpecLetters(w: string): set<char>
  {
    if HasUpper(w) then set c | c in w && IsUpper(c) else set c | c in w
  }

  /** `s` lists exactly the letters `SpecLetters(w)` allows, each once. */
  predicate IsLetterSetOf(s: seq<char>, w: string)
  {
    NoDup(s) && forall c :: c in s <==> c in SpecLetters(w)
  }

  /** `set(word)`: the distinct characters of `w`, in order of first occurrence. */
  function Distinct(w: string): (r: seq<char>)
    ensures NoDup(r)
    ensures forall c :: c in r <==> c in w
    ensures |r| <= |w|
  {
    if |w| == 0 then []
    else
      var init := w[..|w| - 1];
      var rest := Distinct(init);
      assert w == init + [w[|w| - 1]];
      if w[|w| - 1] in rest then rest
      else
        NoDupSnoc(rest, w[|w| - 1]);
        rest + [w[|w| - 1]]
  }

  /** `[letter for letter in s if letter.isupper()]`, keeping the order of `s`. */
  function Uppercase(s: seq<char>): (r: seq<char>)
    ensures forall c :: c in r <==> c in s && IsUpper(c)
    ensures NoDup(s) ==> NoDup(r)
  {
    if |s| == 0 then []
    else
      var init := s[..|s| - 1];
      var last := s[|s| - 1];
      var rest := Uppercase(init);
      assert s == init + [last];
      if IsUpper(last) then
        assert NoDup(s) ==> NoDup(rest + [last]) by {
          if NoDup(s) {
            assert last !in init;
            NoDupSnoc(rest, last);
          }
        }
        rest + [last]
      else rest
  }

  /** The letter set of one word: the body of the loop in `create_letter_sets`. */
  function LetterSet(w: string): (r: seq<char>)
    ensures IsLetterSetOf(r, w)
    ensures forall c :: c in r ==> c in w
    ensures HasUpper(w) ==> forall c :: c in r ==> IsUpper(c)
    ensures |w| == 0 ==> r == []
  {
    var unique := Distinct(w);
    var upper := Uppercase(unique);
    assert HasUpper(w) <==> |upper| > 0 by {
      if HasUpper(w) {
        var i :| 0 <= i < |w| && IsUpper(w[i]);
        assert w[i] in upper;
      }
      if |upper| > 0 {
        assert upper[0] in w;
        var i :| 0 <= i < |w| && w[i] == upper[0];
        assert IsUpper(w[i]);
      }
    }
    if |upper| == 0 then unique else upper
  }

  /** `create_letter_sets(original_words)` */
  function CreateLetterSets(words: seq<string>): (r: seq<seq<char>>)
    ensures |r| == |words|
    ensures forall i :: 0 <= i < |words| ==> IsLetterSetOf(r[i], words[i])
    ensures forall i :: 0 <= i < |words| ==> forall c :: c in r[i] ==> c in words[i]
  {
    seq(|words|, i requires 0 <= i < |words| => LetterSet(words[i]))
  }

  /** A letter set has exactly as many elements as the letters it allows. */
  lemma LetterSetSize(s: seq<char>, w: string)
    requires IsLetterSetOf(s, w)
    ensures |s| == |SpecLetters(w)|
  {
    NoDupCardinality(s);
    assert (set c | c in s) == SpecLetters(w);
  }

  /** The product of the numbers of letters each word allows. */
  function AllowedCount(words: seq<string>): nat
  {
    if |words| == 0 then 1 else |SpecLetters(words[0])| * AllowedCount(words[1..])
  }

  /** No letter set of `create_letter_sets` holds a letter twice. */
  lemma {:induction false} LetterSetsEachNoDup(words: seq<string>)
    ensures EachNoDup(CreateLetterSets(words))
  {
    if |words| > 0 {
      LetterSetsEachNoDup(words[1..]);
      assert CreateLetterSets(words)[1..] == CreateLetterSets(words[1..]);
    }
  }
}
