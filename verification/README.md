# abbrev_searcher in Dafny

A model of the search logic of `abbrev_searcher`, a script that looks for
abbreviations of a group of words. Given the words, it builds one set of
candidate letters per word (the word's upper-case letters, or all of its
characters when it has none). It then forms every string that picks one
letter from each set, in order, and keeps those whose lower-case form is in
an English word list. Each hit gets a "group name": every original word in
lower case, with the first occurrence of the chosen letter capitalised,
joined by single spaces.

The model is functional: immutable sequences and sets, pure recursive
functions, and lemmas about lengths, membership and order.

| file | module | models |
|---|---|---|
| `seqs.dfy` | `Seqs` | duplicate-freedom, `find`-style `IndexOf`, increasing index lists |
| `ascii.dfy` | `Ascii` | `isupper`, `lower` and `upper` on ASCII characters |
| `letter_sets.dfy` | `LetterSets` | `create_letter_sets` |
| `candidates.dfy` | `Candidates` | the `itertools.product` step of `generate_valid_words` |
| `dictionary_filter.dfy` | `DictionaryFilter` | `is_valid_word` and the filter in `generate_valid_words` |
| `group_name.dfy` | `GroupName` | `format_group_name` |
| `pipeline.dfy` | `Pipeline` | the main block's pipeline, without translation |
| `examples.dfy` | `Examples` | worked instances on words from the script's default word list |

Modelling choices:

- **Word list.** The word list is an abstract `set<string>` called `dict`.
  A candidate is valid when `LowerStr(w) in dict`.
- **Letter-set order.** A letter set is a duplicate-free `seq<char>`. Its
  elements appear in order of first occurrence in the word. Python iterates
  its sets in hash order, which can change from run to run. Most contracts
  state only each set's contents and that it has no duplicates, and the
  product and filter lemmas hold for any order of the sets. Two contracts use
  the model's order: `Examples.HereAreTheLetters` lists the sets in it, and
  `Pipeline.SearchGroupNames` sorts `found` by it. In Python the sortedness
  holds for whatever order the sets iterate in.
- **Product order.** Candidates come in `itertools.product` order. The first
  position varies slowest. An empty list of sets gives the single candidate
  `""`, as `itertools.product()` yields one empty tuple.
- **Case-insensitive matching.** Only the candidate is lower-cased; the word
  list's entries are compared as they are. So an entry that contains an
  upper-case letter (a proper noun such as "Aaron") can never match any
  candidate. `DictionaryFilter.CapitalisedEntriesNeverMatch` states this.
  Matching is case-insensitive only on the candidate's side, and the model
  follows the code.
- **Length check in `format_group_name`.** The function asserts that the
  word list and the chosen word have the same length. The model makes this
  a `requires`: it is the caller's obligation. `Pipeline.CandidateLettersFound`
  proves that every candidate from the pipeline meets it.

## Model

| member | source | states |
|---|---|---|
| `LetterSets.Distinct` | abbrev_searcher/abbrev_searcher.py:76 | `set(word)`: holds exactly the characters of the word, none twice |
| `LetterSets.Uppercase` | abbrev_searcher/abbrev_searcher.py:77 | keeps exactly the upper-case characters of its input, and no duplicates if the input had none |
| `LetterSets.LetterSet` | abbrev_searcher/abbrev_searcher.py:75-80 | contents are the word's upper-case characters if it has any, otherwise all its characters; every element occurs in the word; none twice; an empty word gets an empty set |
| `LetterSets.CreateLetterSets` | abbrev_searcher/abbrev_searcher.py:74-81 | one letter set per input word, in input order, set i having exactly the letters word i allows, all drawn from word i |
| `LetterSets.LetterSetSize` | abbrev_searcher/abbrev_searcher.py:76-79 | a letter set has as many elements as the distinct letters it allows |
| `LetterSets.LetterSetsEachNoDup` | abbrev_searcher/abbrev_searcher.py:74-81 | no letter set built from the input words holds a letter twice, so the no-duplicate and ordering results on candidates apply |
| `Candidates.Product` | abbrev_searcher/abbrev_searcher.py:42 | the number of candidates is the product of the set sizes; a string is a candidate iff it has one character per set and character i is in set i; no sets give exactly `[""]` |
| `Candidates.EmptySetNoCandidates` | abbrev_searcher/abbrev_searcher.py:42 | any empty letter set leaves no candidates |
| `Candidates.ProductNoDup` | abbrev_searcher/abbrev_searcher.py:42 | duplicate-free letter sets never produce the same candidate twice |
| `Candidates.ProductSorted` | abbrev_searcher/abbrev_searcher.py:42 | candidates come in strictly increasing lexicographic order by each set's own order, first position slowest |
| `DictionaryFilter.ValidityIgnoresCase` | abbrev_searcher/abbrev_searcher.py:29 | two strings that differ only in letter case are accepted or rejected together |
| `DictionaryFilter.RecasedEntryAccepted` | abbrev_searcher/abbrev_searcher.py:29 | every re-casing of a lower-case entry of the word list is accepted |
| `DictionaryFilter.CapitalisedEntriesNeverMatch` | abbrev_searcher/abbrev_searcher.py:29 | acceptance is unchanged when every entry containing an upper-case letter is removed from the word list |
| `DictionaryFilter.Filter` | abbrev_searcher/abbrev_searcher.py:46-48 | the kept candidates are drawn from the input and are never more than the input |
| `DictionaryFilter.FilterMembership` | abbrev_searcher/abbrev_searcher.py:46-48 | a string is kept iff it is one of the candidates and the validity test accepts it |
| `DictionaryFilter.FilterNoDup` | abbrev_searcher/abbrev_searcher.py:48 | filtering duplicate-free candidates gives a duplicate-free result |
| `DictionaryFilter.SelectValid` | abbrev_searcher/abbrev_searcher.py:46-48 | testing every candidate and then keeping position `i` when `is_valid[i]` holds gives the reference filter |
| `DictionaryFilter.AcceptedIndices` | abbrev_searcher/abbrev_searcher.py:48 | the positions `i` with `is_valid[i]`: strictly increasing, in range, and containing a position iff its candidate is accepted |
| `DictionaryFilter.FilterIsOrderedSubsequence` | abbrev_searcher/abbrev_searcher.py:48 | the filter's result is the candidate list read at the accepted positions, in increasing order: a subsequence in generation order |
| `DictionaryFilter.FilterKeepsSorted` | abbrev_searcher/abbrev_searcher.py:48 | candidates sorted in lexicographic order stay sorted after filtering |
| `DictionaryFilter.FilterIdempotent` | abbrev_searcher/abbrev_searcher.py:46-48 | filtering the kept candidates again keeps all of them |
| `DictionaryFilter.FilterAppend` | abbrev_searcher/abbrev_searcher.py:45-48 | filtering a concatenation is the concatenation of the filtered parts, so splitting the candidates into chunks for the worker pool does not change the result |
| `DictionaryFilter.GenerateValidWords` | abbrev_searcher/abbrev_searcher.py:31-48 | the result is the filter applied to the product; a word is in it iff it fits the letter sets and is accepted; with duplicate-free sets it has no duplicates and is lexicographically sorted |
| `GroupName.ReplaceFirst` | abbrev_searcher/abbrev_searcher.py:99 | `replace(old, new, 1)`: same length; only the first occurrence of the target changes, to the replacement; no occurrence means no change |
| `GroupName.FormatPart` | abbrev_searcher/abbrev_searcher.py:97-99 | the part is as long as the original word; it is the lower-cased word except at the first position whose lower-case letter is the chosen letter's, which holds the upper-cased letter |
| `GroupName.SplitJoin` | abbrev_searcher/abbrev_searcher.py:101 | splitting a single-space join of space-free parts on `' '` gives the parts back |
| `GroupName.JoinLength` | abbrev_searcher/abbrev_searcher.py:101 | the join is as long as all parts plus one space between each pair |
| `GroupName.PartHasNoSpace` | abbrev_searcher/abbrev_searcher.py:97-99 | formatting never puts a space into a word that has none |
| `GroupName.FormatGroupName` | abbrev_searcher/abbrev_searcher.py:94-101 | given equal lengths: an empty word gives `""`; otherwise the name is as long as the originals plus the separators, and for space-free originals it splits into exactly the formatted parts |
| `Pipeline.CandidateCount` | abbrev_searcher/abbrev_searcher.py:42 | the number of candidates is the product, over the words, of the number of distinct letters each word allows |
| `Pipeline.CandidateLettersFound` | abbrev_searcher/abbrev_searcher.py:94-99 | a candidate built from the letter sets has the length of the word list, and its letter i occurs case-insensitively in word i |
| `Pipeline.FoundPartsMarked` | abbrev_searcher/abbrev_searcher.py:97-99 | for such a candidate, part i agrees with lower-cased word i except at the first case-insensitive match of letter i, which holds the upper-cased letter; that position really changes when letter i is an ASCII letter, and an uncased letter (a digit, say) leaves the part equal to the lower-cased word |
| `Pipeline.SearchGroupNames` | abbrev_searcher/abbrev_searcher.py:112-130 | the found words are exactly the accepted strings that fit the letter sets, with no duplicates and in lexicographic order; each is paired with its group name and has the length the name requires |
| `Examples.HereAreGroupName` | abbrev_searcher/abbrev_searcher.py:83-101 | `format_group_name(["Here", "are"], "Ha")` is "Here Are" |
| `Examples.HereAreTheLetters` | abbrev_searcher/abbrev_searcher.py:74-81 | the letter sets of "HeRe", "are", "THe" have the contents {H, R}, {a, r, e} and {T, H} (upper-case letters where a word has them, every character of "are"), listed in the model's first-occurrence order as `['H','R']`, `['a','r','e']`, `['T','H']` |
| `Examples.HereAreTheCandidateCount` | abbrev_searcher/abbrev_searcher.py:42 | those three sets give 12 candidates |
| `Examples.MixedCaseCandidateAccepted` | abbrev_searcher/abbrev_searcher.py:29 | "Abc" is accepted by a word list holding "abc" |
| `Examples.EmptyWordNoCandidates` | abbrev_searcher/abbrev_searcher.py:76-79 | an empty input word yields no candidates at all |

## Left out

- `check_and_download_nltk_data` (lines 10-17): filesystem and network access. The NLTK corpus is the parameter `dict`. Its `words.words()` list is modelled as a set, since only membership is used.
- `translate_to_chinese` (lines 50-62): a call to an external translation service with opaque output.
- The process pools and `tqdm` progress bars (lines 45-46, 122-126): concurrency and display. The filter is modelled as a sequential map whose results are indexed by position, as `executor.map` returns them.
- Pipeline.SearchGroupNames: returns the found words in generation order, paired with their group names. The script collects translations in completion order, which is nondeterministic (lines 124-126), and prints a translation column. Neither is modelled.
- argparse, the default word list and `print` (lines 103-130): command-line plumbing.
- Unicode case mapping: only ASCII letters are cased. Python's `isupper`, `lower` and `upper` also act on non-ASCII letters, and some of those mappings change length ('ß' upper-cases to "SS").
- GroupName.FormatGroupName: states the pieces of the name only when no original word contains a space. For other inputs, it states only the name's length. Each part is stated by `GroupName.FormatPart` in either case.
- GroupName.ReplaceFirst: models `str.replace` only for a one-character target. `format_group_name` only ever passes one, since `word[i].lower()` of an ASCII character is one character.
