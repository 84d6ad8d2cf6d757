# gospellcheck core in Dafny

This project models the sequential core of gospellcheck, a Go command-line
spell checker, and proves properties of that model. The spell checker reads a text
line by line. It splits each line into sentences at `.`, `!` and `?`, and
splits each trimmed sentence into words at single spaces. It normalises every
word by lower-casing it and dropping everything outside `a`-`z`. It then reports
each word whose normal form is non-empty and not in the dictionary, with the
word's 1-based line, sentence and word position. The findings of all lines are
collected and sorted by line number.

The project also models the generic stack of `utils.go` and its
channel-collecting helpers. A channel is represented by the finite sequence of
values received from it before it is closed.

Modules:

- `Strings` (strings.dfy): the parts of Go's `strings` package the spell checker uses:
  `FieldsFunc`, `Trim`, `Split`, `ToLower` (ASCII), and `Join` as their inverse.
- `Sorting` (sorting.dfy): `slices.SortFunc` with a three-way comparator.
- `Utils` (utils.dfy): `stack[T]`, `chanToSlice` and `chanToSortedSlice`.
- `Spellcheck` (spellcheck.dfy): `normalizeWord`, `checkLine`,
  `checkReaderSequential` and the `SpellingError` record.
  - The dictionary is an abstract set of normalised words with a `Contains`
    query.
  - Tokenising a line (`Tokenize`) is separated from checking its tokens
    (`CheckSentences`). The proofs about checking therefore do not depend on
    string functions.
- `Scenarios` and `SortScenarios` (scenarios.dfy): the repository's unit-test
  examples, stated as lemmas about the model.

## Model

| member | source | states |
|---|---|---|
| Strings.ToLower | spellcheck.go:51 | no contract of its own; specified by `ToLowerFolds`, `ToLowerIdempotent` and `ToLowerConcat` |
| Strings.ToLowerFolds | spellcheck.go:51 | lower-casing keeps the length and leaves no upper-case letter; a string is unchanged by it exactly when it has no upper-case letter |
| Strings.ToLowerIdempotent | spellcheck.go:51 | lower-casing twice is the same as lower-casing once |
| Strings.ToLowerConcat | spellcheck.go:51 | lower-casing works character by character: it distributes over concatenation |
| Strings.FieldsFunc | spellcheck.go:57-59 | the fields are non-empty, contain no separator, and are no more numerous than the characters of the line; `FieldsFuncDecomposes` and `FieldsFuncWeave` pin down which fields they are |
| Strings.FieldsFuncDecomposes | spellcheck.go:57-59 | every line is its fields interleaved with runs of separators (the runs between fields non-empty, the leading and trailing ones possibly empty), so splitting drops only separators, keeps the text in order and never cuts a run of non-separators |
| Strings.FieldsFuncWeave | spellcheck.go:57-59 | conversely, any non-empty separator-free fields interleaved with such separator runs (each run its own length, leading and trailing runs allowed) split back into exactly those fields |
| Strings.FieldsFuncJoin | spellcheck.go:57-59 | joining non-empty, separator-free fields with a separator and splitting again gives the same fields back, so runs of separators never produce empty fields |
| Strings.Trim | spellcheck.go:61 | the trimmed sentence is no longer than the sentence, and when it is non-empty it neither starts nor ends with a cutset character |
| Strings.TrimUnique | spellcheck.go:61 | a string made of cutset characters, then a core that neither starts nor ends with one, then more cutset characters, trims to exactly that core |
| Strings.TrimDecomposes | spellcheck.go:61 | every string is cutset characters, then its trimmed form, then cutset characters, so trimming removes only cutset characters and only at the ends |
| Strings.TrimEmpty | spellcheck.go:62 | a sentence trims to the empty string exactly when all its characters are dots or spaces |
| Strings.Split | spellcheck.go:65 | splitting on a single character gives one more part than there are separators; no part contains the separator; joining the parts rebuilds the string |
| Strings.SplitJoin | spellcheck.go:65 | splitting a join of separator-free parts gives the same parts back, including the empty parts that consecutive separators produce |
| Sorting.Insert | utils.go:44 | inserting into a sorted sequence keeps it sorted and adds exactly the one element |
| Sorting.SortFunc | spellcheck.go:159-161 | for a comparator that is a strict weak ordering, as Go requires, the result is ordered by the comparator and is a permutation of the input |
| Sorting.SortFuncOfSorted | spellcheck.go:159-161 | a sequence that is already sorted comes back unchanged from this sort |
| Sorting.SortedPermutationUnique | utils.go:44 | under a total comparator, two sorted permutations of the same values are equal, so the sorted result is determined by the input values |
| Utils.Stack.Empty | utils_test.go:8 | a new stack has size zero |
| Utils.Stack.Push | utils.go:10-12 | push puts the item on top, grows the size by one and leaves every stored element in place |
| Utils.Stack.Peek | utils.go:19-22 | peek needs a non-empty stack and returns the top element, the one whose push gives back the stack |
| Utils.Stack.Pop | utils.go:13-18 | pop needs a non-empty stack; it returns the top element and a stack one smaller with the elements below unchanged; pushing the element back restores the original |
| Utils.Stack.PushAll | utils_test.go:10-15 | pushing items one after another stacks them above the stored elements in order, so the size grows by their number and the last one is on top |
| Utils.Stack.PopN | utils_test.go:16-24 | popping n items yields the top n elements, topmost first, and leaves exactly the elements below them |
| Utils.PushPop | utils.go:10-18 | a push followed by a pop returns the pushed item and the original stack |
| Utils.PushAllPopN | utils.go:10-18 | pushing a sequence and popping as many items gives them back in reverse (LIFO) and restores the stack |
| Utils.Reverse | utils_test.go:16-24 | the reversed sequence has the same length, with element i taken from position n-1-i |
| Utils.ChanToSlice | utils.go:28-41 | every received value is returned, in receive order |
| Utils.ChanToSortedSlice | utils.go:42-46 | for a comparator that is a strict weak ordering, the result is a permutation of the received values, sorted by the comparator |
| Spellcheck.Dictionary.Contains | spellcheck.go:68 | no contract of its own; membership in the set of correctly spelled normalised words |
| Spellcheck.NormalizeWord | spellcheck.go:46-53 | no contract of its own; specified by `NormalizeLetters`, `NormalizeFixpoint`, `NormalizeEmpty`, `NormalizeChar`, `NormalizeConcat`, `NormalizeIdempotent` and `NormalizeIgnoresCase` |
| Spellcheck.DropNonLettersFilters | spellcheck.go:47-51 | removing `[^a-z]` leaves only letters and never lengthens the string; it leaves a string unchanged exactly when the string is all letters, and empties it exactly when it has no letter |
| Spellcheck.NormalizeLetters | spellcheck.go:46-53 | the normal form consists of `a`-`z` only and is no longer than the word |
| Spellcheck.NormalizeFixpoint | spellcheck.go:46-53 | a word is its own normal form exactly when it consists of `a`-`z` only |
| Spellcheck.NormalizeEmpty | spellcheck.go:46-53 | a word normalises to the empty string exactly when none of its characters lower-cases to a letter |
| Spellcheck.NormalizeChar | spellcheck.go:51 | a single character normalises to its lower-case form if that is a letter, and to nothing otherwise |
| Spellcheck.DropNonLettersConcat | spellcheck.go:51 | the letter filter distributes over concatenation |
| Spellcheck.NormalizeConcat | spellcheck.go:51 | normalisation distributes over concatenation; with NormalizeChar, the normal form is the in-order subsequence of the lower-cased word made of `a`-`z` |
| Spellcheck.NormalizeIdempotent | spellcheck.go:46-53 | normalising twice gives the same as normalising once |
| Spellcheck.NormalizeIgnoresCase | spellcheck.go:46-53 | lower-casing a word first does not change its normal form, so words that agree up to case normalise alike |
| Spellcheck.IsMisspelled | spellcheck.go:67-68 | no contract of its own; a token is misspelled when its normal form is non-empty and not in the dictionary, the test `CheckLineExactly` is stated with |
| Spellcheck.Sentences | spellcheck.go:57-59 | no contract of its own; `FieldsFunc` on `.`, `!` and `?`, specified by `SentencesOfJoin` and the `FieldsFunc` lemmas |
| Spellcheck.Words | spellcheck.go:61-65 | no contract of its own; the single-space split of the trimmed sentence, specified by `WordsRebuildSentence` |
| Spellcheck.SentenceWords | spellcheck.go:61-65 | no contract of its own; the words `checkLine` looks at, none for a sentence that trims to nothing; `SentenceWordsFound` shows skipping such a sentence loses nothing |
| Spellcheck.SentencesOfJoin | spellcheck.go:57-59 | splitting a line into sentences recovers any non-empty, mark-free sentences that were joined with `.` |
| Spellcheck.WordsRebuildSentence | spellcheck.go:61-65 | the words of a sentence contain no space; joined with single spaces and framed by trimmed dots and spaces, they rebuild the sentence |
| Spellcheck.Tokenize | spellcheck.go:57-65 | no contract of its own; one token list per pre-trim sentence, whose numbering `CheckLineExactly` and `EdgeLineTest` state |
| Spellcheck.CheckWords | spellcheck.go:66-76 | no contract of its own; the inner loop of `checkLine`, specified by `CheckWordsExactly` and `CheckWordsInOrder` |
| Spellcheck.CheckSentences | spellcheck.go:60-77 | no contract of its own; the outer loop of `checkLine`, specified by `CheckSentencesExactly`, `CheckSentencesBounds` and `CheckSentencesInOrder` |
| Spellcheck.InTextOrderConcat | spellcheck.go:60-77 | appending findings that all come after the findings so far keeps them in text order |
| Spellcheck.CheckLine | spellcheck.go:69-74 | every finding is on the given line and has a sentence and a word position of at least 1 |
| Spellcheck.CheckWordsExactly | spellcheck.go:66-76 | the inner loop reports a finding exactly when the token at its word position is misspelled and the finding carries that raw token |
| Spellcheck.CheckSentencesExactly | spellcheck.go:60-77 | the outer loop reports a finding exactly when it belongs to one of the sentences, at that sentence's number, and the inner loop reports it there |
| Spellcheck.CheckSentencesBounds | spellcheck.go:72-73 | the sentence number of every finding lies in the range of the sentences checked, and its word position is at least 1 |
| Spellcheck.SentenceWordsFound | spellcheck.go:62-64 | skipping a sentence that trims to nothing loses no finding, since its only word is empty and never misspelled |
| Spellcheck.CheckLineExactly | spellcheck.go:55-79 | a finding is reported exactly when its raw token sits at its word position in the single-space split of the trimmed sentence whose number is its position in the pre-trim sentence list, and that token normalises to a non-empty word missing from the dictionary |
| Spellcheck.CheckWordsInOrder | spellcheck.go:66-76 | within a sentence, findings come in strictly increasing word position |
| Spellcheck.CheckSentencesInOrder | spellcheck.go:60-77 | across sentences, findings come in strictly increasing (sentence, word position) order |
| Spellcheck.CheckLineInOrder | spellcheck.go:60-77 | a line's findings come in text order, each position at most once |
| Spellcheck.FlattenExactly | spellcheck.go:153-158 | when each line's findings name that line, a finding is in the concatenation exactly when it is in the findings of its own line |
| Spellcheck.FlattenByLine | spellcheck.go:153-158 | concatenating the findings of lines 1, 2, ... in order gives a sequence sorted by line |
| Spellcheck.LineFindings | spellcheck.go:152-158 | no contract of its own; the findings of each line, lines numbered from 1, whose numbering `LineFindingsGrouped` and `CheckReaderExactly` state |
| Spellcheck.LineFindingsGrouped | spellcheck.go:155 | the findings for the k-th line all carry line number k |
| Spellcheck.CheckLines | spellcheck.go:150-158 | no contract of its own; the per-line findings appended in line order, specified by `FlattenExactly` and `FlattenByLine` |
| Spellcheck.CompareLines | spellcheck.go:159-161 | no contract of its own; the comparator `a.line - b.line`, which is a strict weak ordering, so `SortFunc` accepts it |
| Spellcheck.CheckReaderSequential | spellcheck.go:147-163 | the result is sorted by non-decreasing line number and is a permutation of the line-by-line concatenation of the checkLine results |
| Spellcheck.CheckReaderExactly | spellcheck.go:147-163 | a finding is in the result exactly when its line number is among the input lines and checkLine reports it for that line |
| Spellcheck.CheckReaderKeepsLineOrder | spellcheck.go:153-161 | the concatenation is already sorted by line, so the model's sort returns it unchanged, with each line's findings in text order |
| Scenarios.CaseExample | spellcheck.go:46-53 | "DEF" and "def" both normalise to "def" |
| Scenarios.NoLettersNeverReported | spellcheck.go:67-68 | "42" and "--" are never reported, whatever the dictionary |
| Scenarios.FirstLineOfReaderTest | spellcheck_test.go:13 | with the dictionary {abc, def, ghi, jkl}, line 1 "Abc xxx DEF. " yields only xxx at sentence 1, word 2; the blank sentence after the dot is skipped |
| Scenarios.SecondLineOfReaderTest | spellcheck_test.go:13 | line 2 "gHi jkl zzz" yields only zzz at sentence 1, word 3 |
| Scenarios.ReaderTest | spellcheck_test.go:9-26 | checking both lines gives exactly two findings, line 1's before line 2's |
| Scenarios.MainLineTest | main_test.go:30-45 | "Abc xxx def yyy. Ghi zzz" yields exactly xxx (1,2), yyy (1,4) and zzz (2,2), in that order |
| Scenarios.EdgeLineTest | spellcheck.go:57-73 | in "abc. . def  xxx" the blank second sentence uses up number 2, and the empty word between the two spaces uses up word position 2, so xxx is reported at sentence 3, word 3 |
| Scenarios.StackPushPopTest | utils_test.go:7-45 | pushing 0 to 5 gives size 6 with 5 on top, and six pops return 5 down to 0 and leave the stack empty |
| SortScenarios.AscendingIsTotal | utils_test.go:72-74 | the comparator `a - b` orders the integers totally |
| SortScenarios.SortedChannelTest | utils_test.go:61-84 | receiving 10, 5, 6, 3, 1, 2, 4, 9, 8, 7 and sorting with `a - b` gives 1 to 10 |

## Left out

- The trie (trie.go): it is a stub in another package. The dictionary is an abstract set of normalised words.
- Suggestions (`getSuggestions`): they are not part of this model. `SpellingError` has no suggestions field, and `checkLine` computes none.
- `InitializeWordList`, `newSpellcheck`, `newTrieNode` and `InsertAll`: they build the trie from a reader; the dictionary is given as a set instead.
- Concurrency: `checkLineChan`, `checkChannel`, `checkReaderConcurrent` and the goroutine inside `chanToSlice`. They are goroutines, wait groups and channels, and their results are not modelled. `checkLineChan` repeats the logic of `checkLine`, but its goroutine reads the loop variable `s` (spellcheck.go:103) instead of its `sentenceNum` parameter (spellcheck.go:88). Its sentence numbers therefore match `checkLine`'s only with the per-iteration loop variables of Go 1.22 and later.
- main.go: flag parsing, filename validation against the file system, file handling and printing are I/O.
- `bufio.Scanner` line splitting (buffer limits, `\r\n`): the input is an already-split sequence of lines.
- Unicode: `strings.ToLower` and the `[^a-z]` regular expression are modelled for ASCII lower-casing only. Non-ASCII runes that Go lower-cases to ASCII letters, such as the Kelvin sign, are not modelled.
- `regexp.Compile` failure (`log.Fatal`): the pattern is a constant that always compiles.
- `SpellingError.String`: presentation only.
- Go `int` width: line numbers and the comparator `a.line - b.line` are unbounded integers. The subtraction could overflow only for line numbers near 2^63.
- Strings.Trim: the cutset is a set of characters, which is how Go reads the string `". "`.
- Sorting.SortFunc: Go's `slices.SortFunc` is an unstable pattern-defeating quicksort. The model is a stable insertion sort. Its contract claims only sorted order and permutation, which Go's sort also delivers when the comparator is a strict weak ordering, the precondition both share.
- Spellcheck.CheckReaderKeepsLineOrder: this holds only for the model's stable sort. Go guarantees order by line only, and findings within a line may be reordered.
- Utils.Stack.Size: it has no contract of its own. It is the number of stored elements, and every other stack member states its effect on it.
