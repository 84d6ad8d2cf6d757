/**
 * The sequential spell checker of spellcheck.go: word normalisation, the
 * checking of one line (sentence and word tokenisation, one finding per
 * misspelled token) and the checking of a whole text, line by line, with the
 * findings sorted by line number.
 *
 * The dictionary is an abstract set of normalised words queried through
 * `Contains`; the text arrives already split into lines.
 */
module Spellcheck {
  import opened Strings
  import opened Sorting

  /** `SpellingError`: one misspelled token and where it was found (1-based). */
  datatype SpellingError = SpellingError(misspelled: string, line: int, sentence: int, wordPosition: int)

  /** The set of correctly spelled, normalised words. */
  datatype Dictionary = Dictionary(words: set<string>) {
    predicate Contains(word: string) {
      word in words
    }
  }

  // ---------------------------------------------------------------------------
  // normalizeWord
  // ---------------------------------------------------------------------------

  predicate IsLowerLetter(c: char) {
    'a' <= c <= 'z'
  }

  /**
   * The regular-expression replacement of `[^a-z]` by the empty string:
   * keeps the characters of `s` that are lower-case ASCII letters, in order.
   */
  function DropNonLetters(s: string): string {
    if |s| == 0 then ""
    else (if IsLowerLetter(s[0]) then [s[0]] else "") + DropNonLetters(s[1..])
  }

  /**
   * The replacement keeps letters only, never lengthens its input, leaves a
   * string of letters unchanged (and nothing else) and removes everything
   * exactly when the input holds no letter.
   */
  lemma {:induction false} DropNonLettersFilters(s: string)
    ensures |DropNonLetters(s)| <= |s|
    ensures AllSatisfy(DropNonLetters(s), IsLowerLetter)
    ensures DropNonLetters(s) == s <==> AllSatisfy(s, IsLowerLetter)
    ensures |DropNonLetters(s)| == 0 <==> NoneSatisfy(s, IsLowerLetter)
  {
    if |s| > 0 {
      DropNonLettersFilters(s[1..]);
      var head := if IsLowerLetter(s[0]) then [s[0]] else "";
      var rest := DropNonLetters(s[1..]);
      assert DropNonLetters(s) == head + rest;
      assert s == [s[0]] + s[1..];
      if DropNonLetters(s) == s {
        // Equal lengths force the head to be kept and the rest to be fixed.
        assert |head| == 1 && rest == s[1..];
      }
    }
  }

  /**
   * `normalizeWord`: lower-cases `word` and keeps only the letters `a`-`z`.
   */
  function NormalizeWord(word: string): string {
    DropNonLetters(ToLower(word))
  }

  /** The normal form consists of lower-case letters and is no longer than the word. */
  lemma NormalizeLetters(word: string)
    ensures AllSatisfy(NormalizeWord(word), IsLowerLetter)
    ensures |NormalizeWord(word)| <= |word|
  {
    DropNonLettersFilters(ToLower(word));
  }

  /** A word is its own normal form exactly when it consists of letters `a`-`z`. */
  lemma NormalizeFixpoint(word: string)
    ensures NormalizeWord(word) == word <==> AllSatisfy(word, IsLowerLetter)
  {
    var lower := ToLower(word);
    DropNonLettersFilters(lower);
    if AllSatisfy(word, IsLowerLetter) {
      assert lower == word;
    }
    if NormalizeWord(word) == word {
      assert AllSatisfy(word, IsLowerLetter);
    }
  }

  /**
   * A word normalises to the empty string exactly when none of its
   * characters lower-cases to a letter (as for "42" or "--").
   */
  lemma NormalizeEmpty(word: string)
    ensures |NormalizeWord(word)| == 0 <==> forall i :: 0 <= i < |word| ==> !IsLowerLetter(LowerChar(word[i]))
  {
    var lower := ToLower(word);
    DropNonLettersFilters(lower);
    assert forall i :: 0 <= i < |word| ==> lower[i] == LowerChar(word[i]);
    assert NoneSatisfy(lower, IsLowerLetter) <==> forall i :: 0 <= i < |word| ==> !IsLowerLetter(LowerChar(word[i]));
  }

  /** Normalising a single character: its lower-case form if that is a letter. */
  lemma NormalizeChar(c: char)
    ensures NormalizeWord([c]) == if IsLowerLetter(LowerChar(c)) then [LowerChar(c)] else ""
  {
    var lower := [LowerChar(c)];
    assert ToLower([c]) == lower;
    assert DropNonLetters(lower[1..]) == "";
  }

  lemma {:induction false} DropNonLettersConcat(a: string, b: string)
    ensures DropNonLetters(a + b) == DropNonLetters(a) + DropNonLetters(b)
  {
    if |a| > 0 {
      assert (a + b)[1..] == a[1..] + b;
      DropNonLettersConcat(a[1..], b);
    } else {
      assert a + b == b;
    }
  }

  /**
   * Normalisation works character by character: the normal form of a
   * concatenation is the concatenation of the normal forms. Together with
   * `NormalizeChar` this says the result is the in-order subsequence of the
   * lower-cased input made of the letters `a`-`z`.
   */
  lemma NormalizeConcat(a: string, b: string)
    ensures NormalizeWord(a + b) == NormalizeWord(a) + NormalizeWord(b)
  {
    ToLowerConcat(a, b);
    DropNonLettersConcat(ToLower(a), ToLower(b));
  }

  /** Normalisation is idempotent. */
  lemma NormalizeIdempotent(word: string)
    ensures NormalizeWord(NormalizeWord(word)) == NormalizeWord(word)
  {
    NormalizeLetters(word);
    NormalizeFixpoint(NormalizeWord(word));
  }

  /**
   * Normalisation ignores case: lower-casing a word first does not change
   * its normal form, so words that agree up to case normalise alike.
   */
  lemma NormalizeIgnoresCase(word: string)
    ensures NormalizeWord(ToLower(word)) == NormalizeWord(word)
  {
    ToLowerIdempotent(word);
  }

  // ---------------------------------------------------------------------------
  // checkLine
  // ---------------------------------------------------------------------------

  /** The characters that end a sentence. */
  predicate IsSentenceMark(c: char) {
    c == '.' || c == '!' || c == '?'
  }

  /** The characters trimmed from both ends of a sentence. */
  const SentenceCutset: set<char> := {'.', ' '}

  /** A token is reported when its normal form is non-empty and not a dictionary word. */
  predicate IsMisspelled(dict: Dictionary, token: string) {
    var normalized := NormalizeWord(token);
    |normalized| > 0 && !dict.Contains(normalized)
  }

  /** The sentences of a line, numbered by their position in this sequence. */
  function Sentences(line: string): seq<string> {
    FieldsFunc(line, IsSentenceMark)
  }

  /** The words of a sentence, numbered by their position in this sequence. */
  function Words(sentence: string): seq<string> {
    Split(Trim(sentence, SentenceCutset), ' ')
  }

  /**
   * Sentence splitting undoes joining with '.': non-empty sentences free of
   * sentence marks come back one for one.
   */
  lemma SentencesOfJoin(sentences: seq<string>)
    requires forall s :: 0 <= s < |sentences| ==> |sentences[s]| > 0 && NoneSatisfy(sentences[s], IsSentenceMark)
    ensures Sentences(Join(sentences, ".")) == sentences
  {
    FieldsFuncJoin(sentences, ".", IsSentenceMark);
  }

  /**
   * The words of a sentence hold no space and, joined with single spaces,
   * give back the sentence without its leading and trailing dots and spaces.
   */
  lemma WordsRebuildSentence(sentence: string) returns (x: string, y: string)
    ensures AllIn(x, SentenceCutset) && AllIn(y, SentenceCutset)
    ensures forall w :: 0 <= w < |Words(sentence)| ==> ' ' !in Words(sentence)[w]
    ensures sentence == x + Join(Words(sentence), " ") + y
  {
    x, y := TrimDecomposes(sentence, SentenceCutset);
  }

  /** `a` comes strictly before `b` in a line: an earlier sentence, or an earlier word of the same one. */
  predicate Precedes(a: SpellingError, b: SpellingError) {
    a.sentence < b.sentence || (a.sentence == b.sentence && a.wordPosition < b.wordPosition)
  }

  /**
   * Findings appear in strictly increasing (sentence, word) order, so none
   * appears twice.
   */
  predicate InTextOrder(errors: seq<SpellingError>) {
    forall i, j :: 0 <= i < j < |errors| ==> Precedes(errors[i], errors[j])
  }

  lemma InTextOrderConcat(a: seq<SpellingError>, b: seq<SpellingError>)
    requires InTextOrder(a) && InTextOrder(b)
    requires forall x, y :: x in a && y in b ==> Precedes(x, y)
    ensures InTextOrder(a + b)
  {
    var ab := a + b;
    forall i, j | 0 <= i < j < |ab| ensures Precedes(ab[i], ab[j]) {
      if j < |a| {
        assert ab[i] == a[i] && ab[j] == a[j];
      } else if i >= |a| {
        assert ab[i] == b[i - |a|] && ab[j] == b[j - |a|];
      } else {
        assert ab[i] == a[i] && ab[j] == b[j - |a|];
        assert a[i] in a && b[j - |a|] in b;
      }
    }
  }

  /**
   * The words of a sentence that `checkLine` looks at: none when the
   * sentence trims to nothing, its single-space split otherwise.
   */
  function SentenceWords(sentence: string): seq<string> {
    if |Trim(sentence, SentenceCutset)| == 0 then [] else Words(sentence)
  }

  /**
   * The tokens of a line: for each sentence, numbered by its position in
   * `Sentences(line)`, the words checked in it.
   */
  function Tokenize(line: string): seq<seq<string>> {
    var sentences := Sentences(line);
    seq(|sentences|, s requires 0 <= s < |sentences| => SentenceWords(sentences[s]))
  }

  /** The inner loop of `checkLine`: `words[k]` has word position `first + k`. */
  function CheckWords(dict: Dictionary, words: seq<string>, lineNum: int, sentence: int, first: int)
    : seq<SpellingError>
  {
    if |words| == 0 then []
    else
      (if IsMisspelled(dict, words[0]) then [SpellingError(words[0], lineNum, sentence, first)] else [])
      + CheckWords(dict, words[1..], lineNum, sentence, first + 1)
  }

  /** The outer loop of `checkLine`: `sentences[k]` holds the words of sentence number `first + k`. */
  function CheckSentences(dict: Dictionary, sentences: seq<seq<string>>, lineNum: int, first: int)
    : seq<SpellingError>
  {
    if |sentences| == 0 then []
    else CheckWords(dict, sentences[0], lineNum, first, 1)
         + CheckSentences(dict, sentences[1..], lineNum, first + 1)
  }

  /**
   * `checkLine`: every finding lies on line `lineNum` and has 1-based
   * sentence and word numbers.
   */
  function CheckLine(dict: Dictionary, line: string, lineNum: int): (r: seq<SpellingError>)
    ensures forall e :: e in r ==> e.line == lineNum && 1 <= e.sentence && 1 <= e.wordPosition
  {
    CheckSentencesBounds(dict, Tokenize(line), lineNum, 1);
    CheckSentences(dict, Tokenize(line), lineNum, 1)
  }

  /**
   * The reference description of a finding: the token at word position `w`
   * of sentence `s` (both counted from 1 over the untrimmed sentence list and
   * the single-space word list) is misspelled.
   */
  ghost predicate ReportedAt(dict: Dictionary, line: string, lineNum: int, e: SpellingError) {
    var sentences := Sentences(line);
    && 1 <= e.sentence <= |sentences|
    && var words := Words(sentences[e.sentence - 1]);
    && e.line == lineNum
    && 1 <= e.wordPosition <= |words|
    && e.misspelled == words[e.wordPosition - 1]
    && IsMisspelled(dict, e.misspelled)
  }

  /** `e` reports word `e.wordPosition` of `words`, the words of sentence `s` of line `lineNum`. */
  predicate FoundAt(dict: Dictionary, words: seq<string>, lineNum: int, s: int, e: SpellingError) {
    && e.line == lineNum && e.sentence == s
    && 1 <= e.wordPosition <= |words|
    && e.misspelled == words[e.wordPosition - 1]
    && IsMisspelled(dict, e.misspelled)
  }

  lemma {:induction false} CheckWordsExactly(dict: Dictionary, words: seq<string>, lineNum: int, sentence: int, first: int, e: SpellingError)
    ensures e in CheckWords(dict, words, lineNum, sentence, first) <==>
      && e.line == lineNum && e.sentence == sentence
      && first <= e.wordPosition < first + |words|
      && e.misspelled == words[e.wordPosition - first]
      && IsMisspelled(dict, e.misspelled)
  {
    if |words| > 0 {
      var head := if IsMisspelled(dict, words[0]) then [SpellingError(words[0], lineNum, sentence, first)] else [];
      var tail := CheckWords(dict, words[1..], lineNum, sentence, first + 1);
      assert CheckWords(dict, words, lineNum, sentence, first) == head + tail;
      assert e in head + tail <==> e in head || e in tail;
      CheckWordsExactly(dict, words[1..], lineNum, sentence, first + 1, e);
      if first < e.wordPosition < first + |words| {
        assert words[1..][e.wordPosition - (first + 1)] == words[e.wordPosition - first];
      }
    }
  }

  lemma {:induction false} CheckSentencesExactly(dict: Dictionary, sentences: seq<seq<string>>, lineNum: int, first: int, e: SpellingError)
    ensures e in CheckSentences(dict, sentences, lineNum, first) <==>
      first <= e.sentence < first + |sentences|
      && FoundAt(dict, sentences[e.sentence - first], lineNum, e.sentence, e)
  {
    if |sentences| > 0 {
      var head := CheckWords(dict, sentences[0], lineNum, first, 1);
      var tail := CheckSentences(dict, sentences[1..], lineNum, first + 1);
      assert CheckSentences(dict, sentences, lineNum, first) == head + tail;
      assert e in head + tail <==> e in head || e in tail;
      CheckWordsExactly(dict, sentences[0], lineNum, first, 1, e);
      CheckSentencesExactly(dict, sentences[1..], lineNum, first + 1, e);
      if first < e.sentence < first + |sentences| {
        assert sentences[1..][e.sentence - (first + 1)] == sentences[e.sentence - first];
      }
    }
  }

  lemma CheckSentencesBounds(dict: Dictionary, sentences: seq<seq<string>>, lineNum: int, first: int)
    ensures forall e :: e in CheckSentences(dict, sentences, lineNum, first) ==>
      && e.line == lineNum
      && first <= e.sentence < first + |sentences|
      && 1 <= e.wordPosition
  {
    forall e | e in CheckSentences(dict, sentences, lineNum, first) {
      CheckSentencesExactly(dict, sentences, lineNum, first, e);
    }
  }

  /**
   * Skipping a sentence that trims to nothing loses no finding: such a
   * sentence splits into one empty word, which is never misspelled.
   */
  lemma SentenceWordsFound(dict: Dictionary, sentence: string, lineNum: int, s: int, e: SpellingError)
    ensures FoundAt(dict, SentenceWords(sentence), lineNum, s, e) <==> FoundAt(dict, Words(sentence), lineNum, s, e)
  {
    if |Trim(sentence, SentenceCutset)| == 0 {
      assert Words(sentence) == [""];
    }
  }

  /**
   * `checkLine` reports exactly the misspelled tokens: a finding is in the
   * result if and only if it names a token of the line, at its sentence and
   * word position, whose normal form is non-empty and not in the dictionary.
   */
  lemma CheckLineExactly(dict: Dictionary, line: string, lineNum: int, e: SpellingError)
    ensures e in CheckLine(dict, line, lineNum) <==> ReportedAt(dict, line, lineNum, e)
  {
    var sentences := Sentences(line);
    var tokens := Tokenize(line);
    CheckSentencesExactly(dict, tokens, lineNum, 1, e);
    if 1 <= e.sentence <= |sentences| {
      assert tokens[e.sentence - 1] == SentenceWords(sentences[e.sentence - 1]);
      SentenceWordsFound(dict, sentences[e.sentence - 1], lineNum, e.sentence, e);
    }
  }

  lemma {:induction false} CheckWordsInOrder(dict: Dictionary, words: seq<string>, lineNum: int, sentence: int, first: int)
    ensures InTextOrder(CheckWords(dict, words, lineNum, sentence, first))
  {
    if |words| > 0 {
      var head := if IsMisspelled(dict, words[0]) then [SpellingError(words[0], lineNum, sentence, first)] else [];
      var tail := CheckWords(dict, words[1..], lineNum, sentence, first + 1);
      assert CheckWords(dict, words, lineNum, sentence, first) == head + tail;
      CheckWordsInOrder(dict, words[1..], lineNum, sentence, first + 1);
      forall e | e in tail ensures e.sentence == sentence && first < e.wordPosition {
        CheckWordsExactly(dict, words[1..], lineNum, sentence, first + 1, e);
      }
      InTextOrderConcat(head, tail);
    }
  }

  lemma {:induction false} CheckSentencesInOrder(dict: Dictionary, sentences: seq<seq<string>>, lineNum: int, first: int)
    ensures InTextOrder(CheckSentences(dict, sentences, lineNum, first))
  {
    if |sentences| > 0 {
      var head := CheckWords(dict, sentences[0], lineNum, first, 1);
      var tail := CheckSentences(dict, sentences[1..], lineNum, first + 1);
      assert CheckSentences(dict, sentences, lineNum, first) == head + tail;
      CheckSentencesInOrder(dict, sentences[1..], lineNum, first + 1);
      CheckSentencesBounds(dict, sentences[1..], lineNum, first + 1);
      CheckWordsInOrder(dict, sentences[0], lineNum, first, 1);
      forall e | e in head ensures e.sentence == first {
        CheckWordsExactly(dict, sentences[0], lineNum, first, 1, e);
      }
      InTextOrderConcat(head, tail);
    }
  }

  /**
   * `checkLine` emits its findings in text order: by sentence, and by word
   * position within a sentence, each position at most once.
   */
  lemma CheckLineInOrder(dict: Dictionary, line: string, lineNum: int)
    ensures InTextOrder(CheckLine(dict, line, lineNum))
  {
    CheckSentencesInOrder(dict, Tokenize(line), lineNum, 1);
  }

  // ---------------------------------------------------------------------------
  // checkReaderSequential
  // ---------------------------------------------------------------------------

  /** The comparator `a.line - b.line` passed to `slices.SortFunc`. */
  function CompareLines(a: SpellingError, b: SpellingError): int {
    a.line - b.line
  }

  /** Findings ordered by non-decreasing line number. */
  predicate SortedByLine(errors: seq<SpellingError>) {
    forall i, j :: 0 <= i < j < |errors| ==> errors[i].line <= errors[j].line
  }

  /** `groups[k]` holds findings of line `first + k` only. */
  predicate GroupedByLine(groups: seq<seq<SpellingError>>, first: int) {
    forall k, e :: 0 <= k < |groups| && e in groups[k] ==> e.line == first + k
  }

  /** The concatenation of the groups, in order. */
  function Flatten(groups: seq<seq<SpellingError>>): seq<SpellingError> {
    if |groups| == 0 then [] else groups[0] + Flatten(groups[1..])
  }

  lemma {:induction false} FlattenExactly(groups: seq<seq<SpellingError>>, first: int, e: SpellingError)
    requires GroupedByLine(groups, first)
    ensures e in Flatten(groups) <==> first <= e.line < first + |groups| && e in groups[e.line - first]
  {
    if |groups| > 0 {
      var tail := Flatten(groups[1..]);
      assert Flatten(groups) == groups[0] + tail;
      assert GroupedByLine(groups[1..], first + 1) by {
        forall k, x | 0 <= k < |groups[1..]| && x in groups[1..][k] ensures x.line == first + 1 + k {
          assert groups[1..][k] == groups[k + 1];
        }
      }
      FlattenExactly(groups[1..], first + 1, e);
      if first < e.line < first + |groups| {
        assert groups[1..][e.line - (first + 1)] == groups[e.line - first];
      }
    }
  }

  lemma {:induction false} FlattenByLine(groups: seq<seq<SpellingError>>, first: int)
    requires GroupedByLine(groups, first)
    ensures SortedByLine(Flatten(groups))
  {
    if |groups| > 0 {
      var head := groups[0];
      var tail := Flatten(groups[1..]);
      assert Flatten(groups) == head + tail;
      assert GroupedByLine(groups[1..], first + 1) by {
        forall k, x | 0 <= k < |groups[1..]| && x in groups[1..][k] ensures x.line == first + 1 + k {
          assert groups[1..][k] == groups[k + 1];
        }
      }
      FlattenByLine(groups[1..], first + 1);
      forall x | x in tail ensures first < x.line {
        FlattenExactly(groups[1..], first + 1, x);
      }
      var all := head + tail;
      forall i, j | 0 <= i < j < |all| ensures all[i].line <= all[j].line {
        if j < |head| {
          assert all[i] in groups[0] && all[j] in groups[0];
        } else if i >= |head| {
          assert all[i] == tail[i - |head|] && all[j] == tail[j - |head|];
        } else {
          assert all[i] in groups[0] && all[j] == tail[j - |head|];
        }
      }
    }
  }

  /** The findings of each line, line `k` of `lines` numbered `k + 1`. */
  function LineFindings(dict: Dictionary, lines: seq<string>): seq<seq<SpellingError>> {
    seq(|lines|, k requires 0 <= k < |lines| => CheckLine(dict, lines[k], k + 1))
  }

  lemma LineFindingsGrouped(dict: Dictionary, lines: seq<string>)
    ensures GroupedByLine(LineFindings(dict, lines), 1)
  {
    var groups := LineFindings(dict, lines);
    forall k, e: SpellingError | 0 <= k < |groups| && e in groups[k] ensures e.line == 1 + k {
      assert groups[k] == CheckLine(dict, lines[k], k + 1);
    }
  }

  /**
   * The loop of `checkReaderSequential`: the findings of each line, lines
   * numbered from 1, appended in line order.
   */
  function CheckLines(dict: Dictionary, lines: seq<string>): seq<SpellingError> {
    Flatten(LineFindings(dict, lines))
  }

  /**
   * `checkReaderSequential`: all findings of all lines, lines numbered from 1,
   * as a permutation of their line-by-line concatenation that is ordered by
   * line number.
   */
  function CheckReaderSequential(dict: Dictionary, lines: seq<string>): (r: seq<SpellingError>)
    ensures SortedBy(r, CompareLines)
    ensures multiset(r) == multiset(CheckLines(dict, lines))
  {
    SortFunc(CheckLines(dict, lines), CompareLines)
  }

  /**
   * A finding is in the result of `checkReaderSequential` exactly when it is
   * a finding of `checkLine` for line number `e.line`.
   */
  /** Permutations have the same members. */
  lemma SameMembers<T>(a: seq<T>, b: seq<T>, x: T)
    requires multiset(a) == multiset(b)
    ensures x in a <==> x in b
  {
    assert x in a <==> x in multiset(a);
    assert x in b <==> x in multiset(b);
  }

  lemma CheckReaderExactly(dict: Dictionary, lines: seq<string>, e: SpellingError)
    ensures e in CheckReaderSequential(dict, lines) <==>
      1 <= e.line <= |lines| && e in CheckLine(dict, lines[e.line - 1], e.line)
  {
    var groups := LineFindings(dict, lines);
    assert |groups| == |lines|;
    LineFindingsGrouped(dict, lines);
    var all := Flatten(groups);
    var sorted := CheckReaderSequential(dict, lines);
    assert all == CheckLines(dict, lines);
    SameMembers(sorted, all, e);
    FlattenExactly(groups, 1, e);
    if 1 <= e.line <= |lines| {
      assert groups[e.line - 1] == CheckLine(dict, lines[e.line - 1], e.line);
    }
  }

  /**
   * The concatenation is already in line order, so this model's sort (which
   * is stable) returns it unchanged: within a line, findings stay in text
   * order.
   */
  lemma CheckReaderKeepsLineOrder(dict: Dictionary, lines: seq<string>)
    ensures CheckReaderSequential(dict, lines) == CheckLines(dict, lines)
  {
    LineFindingsGrouped(dict, lines);
    FlattenByLine(LineFindings(dict, lines), 1);
    SortFuncOfSorted(CheckLines(dict, lines), CompareLines);
  }
}
