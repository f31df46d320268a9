/** `format_group_name`: each original word lower-cased with the first
    occurrence of the chosen letter upper-cased, the words joined by single spaces. */
module GroupName {
  import opened Seqs
  import opened Ascii

  /** `s.replace(target, replacement, 1)` for one-character `target` and `replacement`. */
  function ReplaceFirst(s: string, target: char, replacement: char): (r: string)
    ensures |r| == |s|
    ensures forall j :: 0 <= j < |s| ==> r[j] == (if j == IndexOf(s, target) then replacement else s[j])
  {
    if |s| == 0 then []
    else if s[0] == target then [replacement] + s[1..]
    else [s[0]] + ReplaceFirst(s[1..], target, replacement)
  }

  /** One part of the group name: the body of the loop in `format_group_name`,
      `original.lower().replace(letter.lower(), letter.upper(), 1)`. */
  function FormatPart(original: string, letter: char): (part: string)
    ensures |part| == |original|
    ensures forall j :: 0 <= j < |original| ==>
      part[j] == (if j == IndexOf(LowerStr(original), Lower(letter)) then Upper(letter) else Lower(original[j]))
  {
    ReplaceFirst(LowerStr(original), Lower(letter), Upper(letter))
  }

  /** `' '.join(parts)` */
  function Join(parts: seq<string>): string
  {
    if |parts| == 0 then ""
    else if |parts| == 1 then parts[0]
    else parts[0] + " " + Join(parts[1..])
  }

  /** `s.split(' ')`: never empty; an empty string gives one empty piece. */
  function Split(s: string): (pieces: seq<string>)
    ensures |pieces| > 0
  {
    if |s| == 0 then [""]
    else
      var rest := Split(s[1..]);
      if s[0] == ' ' then [""] + rest
      else [[s[0]] + rest[0]] + rest[1..]
  }

  /** The total length of the strings in `parts`. */
  function TotalLength(parts: seq<string>): nat
  {
    if |parts| == 0 then 0 else |parts[0]| + TotalLength(parts[1..])
  }

  /** A string without spaces splits into itself. */
  lemma {:induction false} SplitNoSpace(s: string)
    requires ' ' !in s
    ensures Split(s) == [s]
  {
    if |s| > 0 {
      assert ' ' !in s[1..];
      SplitNoSpace(s[1..]);
      assert [s[0]] + s[1..] == s;
    }
  }

  /** A space-free word followed by a space splits off as one piece. */
  lemma {:induction false} SplitAtSpace(a: string, b: string)
    requires ' ' !in a
    ensures Split(a + " " + b) == [a] + Split(b)
  {
    if |a| == 0 {
      assert a + " " + b == [' '] + b;
      assert (a + " " + b)[1..] == b;
    } else {
      var s := a + " " + b;
      assert s[1..] == a[1..] + " " + b;
      assert ' ' !in a[1..];
      SplitAtSpace(a[1..], b);
      assert [a[0]] + a[1..] == a;
    }
  }

  /** Splitting the join of space-free parts gives the parts back. */
  lemma {:induction false} SplitJoin(parts: seq<string>)
    requires |parts| > 0
    requires forall i :: 0 <= i < |parts| ==> ' ' !in parts[i]
    ensures Split(Join(parts)) == parts
  {
    if |parts| == 1 {
      SplitNoSpace(parts[0]);
    } else {
      SplitJoin(parts[1..]);
      SplitAtSpace(parts[0], Join(parts[1..]));
      assert [parts[0]] + parts[1..] == parts;
    }
  }

  /** The join holds every part plus one space between each two. */
  lemma {:induction false} JoinLength(parts: seq<string>)
    requires |parts| > 0
    ensures |Join(parts)| == TotalLength(parts) + |parts| - 1
  {
    if |parts| > 1 {
      JoinLength(parts[1..]);
    }
  }

  /** The parts of the group name, one per position of `word`. */
  function Parts(originals: seq<string>, word: string): (parts: seq<string>)
    requires |originals| == |word|
    ensures |parts| == |word|
    ensures forall i :: 0 <= i < |word| ==> |parts[i]| == |originals[i]|
    ensures TotalLength(parts) == TotalLength(originals)
  {
    var parts := seq(|word|, i requires 0 <= i < |word| => FormatPart(originals[i], word[i]));
    TotalLengthSame(parts, originals);
    parts
  }

  /** Parts as long as the originals add up to the same total length. */
  lemma {:induction false} TotalLengthSame(a: seq<string>, b: seq<string>)
    requires |a| == |b|
    requires forall i :: 0 <= i < |a| ==> |a[i]| == |b[i]|
    ensures TotalLength(a) == TotalLength(b)
  {
    if |a| > 0 {
      TotalLengthSame(a[1..], b[1..]);
    }
  }

  /** Formatting never introduces a space into a word that has none. */
  lemma PartHasNoSpace(original: string, letter: char)
    requires ' ' !in original
    ensures ' ' !in FormatPart(original, letter)
  {
    var part := FormatPart(original, letter);
    var k := IndexOf(LowerStr(original), Lower(letter));
    forall j | 0 <= j < |part|
      ensures part[j] != ' '
    {
      assert original[j] != ' ';
      if j == k {
        assert Lower(original[j]) == Lower(letter);
      }
    }
  }

  /** What the join of the parts looks like: its length, and its pieces when
      no original word holds a space. */
  lemma GroupNameLayout(originals: seq<string>, word: string)
    requires |originals| == |word| > 0
    ensures |Join(Parts(originals, word))| == TotalLength(originals) + |word| - 1
    ensures (forall i :: 0 <= i < |originals| ==> ' ' !in originals[i]) ==>
      Split(Join(Parts(originals, word))) == Parts(originals, word)
  {
    var parts := Parts(originals, word);
    JoinLength(parts);
    if forall i :: 0 <= i < |originals| ==> ' ' !in originals[i] {
      forall i | 0 <= i < |parts|
        ensures ' ' !in parts[i]
      {
        PartHasNoSpace(originals[i], word[i]);
      }
      SplitJoin(parts);
    }
  }

  /** `format_group_name(original_words, word)`; the Python function asserts the lengths agree. */
  function FormatGroupName(originals: seq<string>, word: string): (name: string)
    requires |originals| == |word|
    ensures |word| == 0 ==> name == ""
    ensures |word| > 0 ==> |name| == TotalLength(originals) + |word| - 1
    ensures (forall i :: 0 <= i < |originals| ==> ' ' !in originals[i]) && |word| > 0 ==>
      Split(name) == Parts(originals, word)
  {
    if |word| == 0 then ""
    else
      GroupNameLayout(originals, word);
      Join(Parts(originals, word))
  }
}
