/**
 * Instances of the general lemmas on the inputs of the repository's tests
 * (spellcheck_test.go, main_test.go, utils_test.go).
 */
module Scenarios {
  import opened Strings
  import opened Utils
  import opened Spellcheck

  /** The word list of the reader test. */
  const TestDictionary: Dictionary := Dictionary({"abc", "def", "ghi", "jkl"})

  /** A word whose lower-case form is already all letters normalises to that form. */
  lemma NormalizesTo(word: string, lower: string)
    requires ToLower(word) == lower
    requires AllSatisfy(lower, IsLowerLetter)
    ensures NormalizeWord(word) == lower
  {
    DropNonLettersFilters(lower);
  }

  /**
   * A sentence made of cutset characters, a core that starts and ends outside
   * the cutset, and cutset characters again, yields the single-space split
   * of the core.
   */
  lemma WordsOf(sentence: string, x: string, core: string, y: string, words: seq<string>)
    requires sentence == x + core + y && AllIn(x, SentenceCutset) && AllIn(y, SentenceCutset)
    requires |core| > 0 && core[0] !in SentenceCutset && core[|core| - 1] !in SentenceCutset
    requires |words| > 0 && forall i :: 0 <= i < |words| ==> ' ' !in words[i]
    requires Join(words, " ") == core
    ensures SentenceWords(sentence) == words
  {
    TrimUnique(x, core, y, SentenceCutset);
    SplitJoin(words, ' ');
  }

  /** A sentence with no cutset character at either end splits on single spaces. */
  lemma WordsOfUntrimmed(sentence: string, words: seq<string>)
    requires |sentence| > 0 && sentence[0] !in SentenceCutset && sentence[|sentence| - 1] !in SentenceCutset
    requires |words| > 0 && forall i :: 0 <= i < |words| ==> ' ' !in words[i]
    requires Join(words, " ") == sentence
    ensures SentenceWords(sentence) == words
  {
    assert sentence == "" + sentence + "";
    WordsOf(sentence, "", sentence, "", words);
  }

  /** A word is reported exactly when its all-letter lower-case form is not in the word list. */
  lemma Verdict(word: string, lower: string)
    requires ToLower(word) == lower
    requires |lower| > 0 && AllSatisfy(lower, IsLowerLetter)
    ensures IsMisspelled(TestDictionary, word) <==> lower !in TestDictionary.words
  {
    NormalizesTo(word, lower);
  }

  lemma FirstLineTokens(line: string)
    requires Sentences(line) == ["Abc xxx DEF", " "]
    ensures Tokenize(line) == [["Abc", "xxx", "DEF"], []]
  {
    var sentences := Sentences(line);
    WordsOfUntrimmed(sentences[0], ["Abc", "xxx", "DEF"]);
    TrimEmpty(sentences[1], SentenceCutset);
    assert SentenceWords(sentences[1]) == [];
    Tokenize2(line, sentences[0], sentences[1], ["Abc", "xxx", "DEF"], []);
  }

  lemma FirstLineVerdicts(words: seq<string>)
    requires words == ["Abc", "xxx", "DEF"]
    ensures forall i :: 0 <= i < 3 ==> (IsMisspelled(TestDictionary, words[i]) <==> i == 1)
  {
    Verdict(words[0], "abc");
    Verdict(words[1], "xxx");
    Verdict(words[2], "def");
  }

  lemma FirstLineFindings(tokens: seq<seq<string>>)
    requires tokens == [["Abc", "xxx", "DEF"], []]
    ensures CheckSentences(TestDictionary, tokens, 1, 1) == [SpellingError("xxx", 1, 1, 2)]
  {
    FirstLineVerdicts(tokens[0]);
    OneMisspelledOfThree(tokens[0], 1, 1, "xxx", 2);
    assert CheckSentences(TestDictionary, tokens[2..], 1, 3) == [];
    assert CheckSentences(TestDictionary, tokens[1..], 1, 2) == [];
  }

  /**
   * The first line of the reader test: its second sentence is a lone space,
   * which trims to nothing and is skipped; only "xxx" is reported.
   */
  lemma FirstLineOfReaderTest(line: string)
    requires line == "Abc xxx DEF. "
    ensures CheckLine(TestDictionary, line, 1) == [SpellingError("xxx", 1, 1, 2)]
  {
    var parts := ["Abc xxx DEF", " "];
    assert Join(parts, ".") == line;
    SentencesOfJoin(parts);
    FirstLineTokens(line);
    FirstLineFindings(Tokenize(line));
  }

  /**
   * Three words of which only the one at (1-based) position `pos` is
   * misspelled give one finding.
   */
  lemma OneMisspelledOfThree(words: seq<string>, lineNum: int, sentence: int, bad: string, pos: int)
    requires |words| == 3 && 1 <= pos <= 3 && words[pos - 1] == bad
    requires forall i :: 0 <= i < 3 ==> (IsMisspelled(TestDictionary, words[i]) <==> i == pos - 1)
    ensures CheckWords(TestDictionary, words, lineNum, sentence, 1) == [SpellingError(bad, lineNum, sentence, pos)]
  {
    var d := TestDictionary;
    var e := SpellingError(bad, lineNum, sentence, pos);
    assert CheckWords(d, words[3..], lineNum, sentence, 4) == [];
    assert CheckWords(d, words[2..], lineNum, sentence, 3) == if pos == 3 then [e] else [];
    assert CheckWords(d, words[1..], lineNum, sentence, 2) == if pos >= 2 then [e] else [];
  }

  lemma SecondLineTokens(line: string)
    requires Sentences(line) == ["gHi jkl zzz"]
    ensures Tokenize(line) == [["gHi", "jkl", "zzz"]]
  {
    var sentences := Sentences(line);
    WordsOfUntrimmed(sentences[0], ["gHi", "jkl", "zzz"]);
    assert Tokenize(line)[0] == SentenceWords(sentences[0]);
  }

  lemma SecondLineVerdicts(words: seq<string>)
    requires words == ["gHi", "jkl", "zzz"]
    ensures forall i :: 0 <= i < 3 ==> (IsMisspelled(TestDictionary, words[i]) <==> i == 2)
  {
    Verdict(words[0], "ghi");
    Verdict(words[1], "jkl");
    Verdict(words[2], "zzz");
  }

  lemma SecondLineFindings(tokens: seq<seq<string>>)
    requires tokens == [["gHi", "jkl", "zzz"]]
    ensures CheckSentences(TestDictionary, tokens, 2, 1) == [SpellingError("zzz", 2, 1, 3)]
  {
    SecondLineVerdicts(tokens[0]);
    OneMisspelledOfThree(tokens[0], 2, 1, "zzz", 3);
    assert CheckSentences(TestDictionary, tokens[1..], 2, 2) == [];
  }

  /** The second line of the reader test: "gHi" and "jkl" are words, "zzz" is not. */
  lemma SecondLineOfReaderTest(line: string)
    requires line == "gHi jkl zzz"
    ensures CheckLine(TestDictionary, line, 2) == [SpellingError("zzz", 2, 1, 3)]
  {
    var parts := ["gHi jkl zzz"];
    assert Join(parts, ".") == line;
    SentencesOfJoin(parts);
    SecondLineTokens(line);
    SecondLineFindings(Tokenize(line));
  }

  /** "DEF" and "def" normalise alike. */
  lemma CaseExample(upper: string, lower: string)
    requires upper == "DEF" && lower == "def"
    ensures NormalizeWord(upper) == NormalizeWord(lower) == "def"
  {
    NormalizeIgnoresCase(upper);
    assert ToLower(upper) == lower;
    NormalizesTo(lower, "def");
  }

  /** Tokens without letters, such as "42" or "--", are never reported, whatever the dictionary. */
  lemma NoLettersNeverReported(dict: Dictionary, token: string)
    requires token == "42" || token == "--"
    ensures !IsMisspelled(dict, token)
  {
    NormalizeEmpty(token);
  }

  /** The tokens of a two-sentence line follow from the words of each sentence. */
  lemma Tokenize2(line: string, s0: string, s1: string, w0: seq<string>, w1: seq<string>)
    requires Sentences(line) == [s0, s1]
    requires SentenceWords(s0) == w0 && SentenceWords(s1) == w1
    ensures Tokenize(line) == [w0, w1]
  {
  }

  /** The tokens of a three-sentence line follow from the words of each sentence. */
  lemma Tokenize3(line: string, s0: string, s1: string, s2: string, w0: seq<string>, w1: seq<string>, w2: seq<string>)
    requires Sentences(line) == [s0, s1, s2]
    requires SentenceWords(s0) == w0 && SentenceWords(s1) == w1 && SentenceWords(s2) == w2
    ensures Tokenize(line) == [w0, w1, w2]
  {
  }

  lemma MainLineFirstWords(sentence: string)
    requires sentence == "Abc xxx def yyy"
    ensures SentenceWords(sentence) == ["Abc", "xxx", "def", "yyy"]
  {
    WordsOfUntrimmed(sentence, ["Abc", "xxx", "def", "yyy"]);
  }

  lemma MainLineSecondWords(sentence: string)
    requires sentence == " Ghi zzz"
    ensures SentenceWords(sentence) == ["Ghi", "zzz"]
  {
    assert sentence == " " + "Ghi zzz" + "";
    WordsOf(sentence, " ", "Ghi zzz", "", ["Ghi", "zzz"]);
  }

  lemma MainLineTokens(line: string)
    requires Sentences(line) == ["Abc xxx def yyy", " Ghi zzz"]
    ensures Tokenize(line) == [["Abc", "xxx", "def", "yyy"], ["Ghi", "zzz"]]
  {
    var sentences := Sentences(line);
    MainLineFirstWords(sentences[0]);
    MainLineSecondWords(sentences[1]);
    Tokenize2(line, sentences[0], sentences[1], ["Abc", "xxx", "def", "yyy"], ["Ghi", "zzz"]);
  }

  lemma MainLineFirstVerdicts(words: seq<string>)
    requires words == ["Abc", "xxx", "def", "yyy"]
    ensures forall i :: 0 <= i < 4 ==> (IsMisspelled(TestDictionary, words[i]) <==> i == 1 || i == 3)
  {
    Verdict(words[0], "abc");
    Verdict(words[1], "xxx");
    Verdict(words[2], "def");
    Verdict(words[3], "yyy");
  }

  lemma MainLineSecondVerdicts(words: seq<string>)
    requires words == ["Ghi", "zzz"]
    ensures !IsMisspelled(TestDictionary, words[0]) && IsMisspelled(TestDictionary, words[1])
  {
    Verdict(words[0], "ghi");
    Verdict(words[1], "zzz");
  }

  lemma MainLineFirstFindings(words: seq<string>)
    requires |words| == 4 && words[1] == "xxx" && words[3] == "yyy"
    requires forall i :: 0 <= i < 4 ==> (IsMisspelled(TestDictionary, words[i]) <==> i == 1 || i == 3)
    ensures CheckWords(TestDictionary, words, 1, 1, 1) == [SpellingError("xxx", 1, 1, 2), SpellingError("yyy", 1, 1, 4)]
  {
    var d := TestDictionary;
    var yyy := SpellingError("yyy", 1, 1, 4);
    assert CheckWords(d, words[4..], 1, 1, 5) == [];
    assert CheckWords(d, words[3..], 1, 1, 4) == [yyy];
    assert CheckWords(d, words[2..], 1, 1, 3) == [yyy];
    assert CheckWords(d, words[1..], 1, 1, 2) == [SpellingError("xxx", 1, 1, 2), yyy];
  }

  lemma MainLineSecondFindings(words: seq<string>)
    requires |words| == 2 && words[1] == "zzz"
    requires !IsMisspelled(TestDictionary, words[0]) && IsMisspelled(TestDictionary, words[1])
    ensures CheckWords(TestDictionary, words, 1, 2, 1) == [SpellingError("zzz", 1, 2, 2)]
  {
    var d := TestDictionary;
    assert CheckWords(d, words[2..], 1, 2, 3) == [];
    assert CheckWords(d, words[1..], 1, 2, 2) == [SpellingError("zzz", 1, 2, 2)];
  }

  /**
   * The line of the `checkLine` test in main_test.go: with the words abc,
   * def, ghi and jkl, "Abc xxx def yyy. Ghi zzz" yields xxx at sentence 1,
   * word 2, yyy at sentence 1, word 4 and zzz at sentence 2, word 2 (the
   * leading space of the second sentence is trimmed before splitting).
   */
  lemma MainLineTest(line: string)
    requires line == "Abc xxx def yyy. Ghi zzz"
    ensures CheckLine(TestDictionary, line, 1)
         == [SpellingError("xxx", 1, 1, 2), SpellingError("yyy", 1, 1, 4), SpellingError("zzz", 1, 2, 2)]
  {
    var parts := ["Abc xxx def yyy", " Ghi zzz"];
    assert Join(parts, ".") == line;
    SentencesOfJoin(parts);
    MainLineTokens(line);
    MainLineFindings(Tokenize(line));
  }

  lemma MainLineFindings(tokens: seq<seq<string>>)
    requires tokens == [["Abc", "xxx", "def", "yyy"], ["Ghi", "zzz"]]
    ensures CheckSentences(TestDictionary, tokens, 1, 1)
         == [SpellingError("xxx", 1, 1, 2), SpellingError("yyy", 1, 1, 4), SpellingError("zzz", 1, 2, 2)]
  {
    var d := TestDictionary;
    MainLineFirstVerdicts(tokens[0]);
    MainLineSecondVerdicts(tokens[1]);
    MainLineFirstFindings(tokens[0]);
    MainLineSecondFindings(tokens[1]);
    assert CheckSentences(d, tokens[2..], 1, 3) == [];
    assert CheckSentences(d, tokens[1..], 1, 2) == [SpellingError("zzz", 1, 2, 2)];
  }

  lemma EdgeLineThirdWords(sentence: string)
    requires sentence == " def  xxx"
    ensures SentenceWords(sentence) == ["def", "", "xxx"]
  {
    assert sentence == " " + "def  xxx" + "";
    WordsOf(sentence, " ", "def  xxx", "", ["def", "", "xxx"]);
  }

  lemma EdgeLineTokens(line: string)
    requires Sentences(line) == ["abc", " ", " def  xxx"]
    ensures Tokenize(line) == [["abc"], [], ["def", "", "xxx"]]
  {
    var sentences := Sentences(line);
    WordsOfUntrimmed(sentences[0], ["abc"]);
    TrimEmpty(sentences[1], SentenceCutset);
    assert SentenceWords(sentences[1]) == [];
    EdgeLineThirdWords(sentences[2]);
    Tokenize3(line, sentences[0], sentences[1], sentences[2], ["abc"], [], ["def", "", "xxx"]);
  }

  lemma EdgeLineVerdicts(first: seq<string>, third: seq<string>)
    requires first == ["abc"] && third == ["def", "", "xxx"]
    ensures !IsMisspelled(TestDictionary, first[0])
    ensures forall i :: 0 <= i < 3 ==> (IsMisspelled(TestDictionary, third[i]) <==> i == 2)
  {
    Verdict(first[0], "abc");
    Verdict(third[0], "def");
    assert NormalizeWord(third[1]) == "";
    Verdict(third[2], "xxx");
  }

  /**
   * The numbering rules: in "abc. . def  xxx" the lone-space sentence trims
   * to nothing but still takes sentence number 2, and the empty token between
   * the two spaces takes word position 2 without being reported, so xxx is
   * reported at sentence 3, word 3.
   */
  lemma EdgeLineTest(line: string)
    requires line == "abc. . def  xxx"
    ensures CheckLine(TestDictionary, line, 1) == [SpellingError("xxx", 1, 3, 3)]
  {
    var parts := ["abc", " ", " def  xxx"];
    assert Join(parts, ".") == line;
    SentencesOfJoin(parts);
    EdgeLineTokens(line);
    EdgeLineFindings(Tokenize(line));
  }

  lemma EdgeLineFindings(tokens: seq<seq<string>>)
    requires tokens == [["abc"], [], ["def", "", "xxx"]]
    ensures CheckSentences(TestDictionary, tokens, 1, 1) == [SpellingError("xxx", 1, 3, 3)]
  {
    var d := TestDictionary;
    EdgeLineVerdicts(tokens[0], tokens[2]);
    assert CheckWords(d, tokens[0], 1, 1, 1) == [] by {
      assert CheckWords(d, tokens[0][1..], 1, 1, 2) == [];
    }
    OneMisspelledOfThree(tokens[2], 1, 3, "xxx", 3);
    assert CheckSentences(d, tokens[3..], 1, 4) == [];
    assert CheckSentences(d, tokens[2..], 1, 3) == [SpellingError("xxx", 1, 3, 3)];
    assert CheckSentences(d, tokens[1..], 1, 2) == [SpellingError("xxx", 1, 3, 3)];
  }

  /**
   * The reader test: the text "Abc xxx DEF. \ngHi jkl zzz" against the words
   * abc, def, ghi and jkl yields exactly two findings, in line order.
   */
  lemma ReaderTest(lines: seq<string>)
    requires lines == ["Abc xxx DEF. ", "gHi jkl zzz"]
    ensures CheckReaderSequential(TestDictionary, lines)
         == [SpellingError("xxx", 1, 1, 2), SpellingError("zzz", 2, 1, 3)]
  {
    FirstLineOfReaderTest(lines[0]);
    SecondLineOfReaderTest(lines[1]);
    var groups := LineFindings(TestDictionary, lines);
    assert groups[0] == [SpellingError("xxx", 1, 1, 2)];
    assert groups[1] == [SpellingError("zzz", 2, 1, 3)];
    assert Flatten(groups[1..]) == [SpellingError("zzz", 2, 1, 3)] by {
      assert groups[1..][1..] == [];
    }
    CheckReaderKeepsLineOrder(TestDictionary, lines);
  }

  /**
   * The stack tests: pushing 0 to 5 gives size 6 with 5 on top, and popping
   * six times yields 5 down to 0 and leaves the stack empty.
   */
  lemma StackPushPopTest()
    ensures Stack<int>.Empty().PushAll([0, 1, 2, 3, 4, 5]).Size() == 6
    ensures Stack<int>.Empty().PushAll([0, 1, 2, 3, 4, 5]).Peek() == 5
    ensures Stack<int>.Empty().PushAll([0, 1, 2, 3, 4, 5]).PopN(6) == ([5, 4, 3, 2, 1, 0], Stack<int>.Empty())
  {
    var xs := [0, 1, 2, 3, 4, 5];
    PushAllPopN(Stack<int>.Empty(), xs);
    assert Stack<int>.Empty() == Stack([]);
    ReverseSix(xs);
  }

  lemma ReverseSix(xs: seq<int>)
    requires xs == [0, 1, 2, 3, 4, 5]
    ensures Reverse(xs) == [5, 4, 3, 2, 1, 0]
  {
    var r := Reverse(xs);
    assert |r| == 6;
    assert r[0] == 5 && r[1] == 4 && r[2] == 3 && r[3] == 2 && r[4] == 1 && r[5] == 0;
  }
}

/** The sorted-channel test of utils_test.go, on the model of `chanToSortedSlice`. */
module SortScenarios {
  import opened Sorting
  import opened Utils

  /** The comparator `a - b` of the sorted-channel test. */
  function Ascending(a: int, b: int): int {
    a - b
  }

  lemma ExpectedSorted(expected: seq<int>)
    requires expected == [1, 2, 3, 4, 5, 6, 7, 8, 9, 10]
    ensures SortedBy(expected, Ascending)
  {
    forall i | 0 < i < |expected| ensures Ascending(expected[i - 1], expected[i]) <= 0 {
      assert expected[i] == i + 1 && expected[i - 1] == i;
    }
  }

  lemma AscendingIsTotal()
    ensures TotalComparator(Ascending)
  {
  }

  /**
   * The sorted-channel test: the values 10, 5, 6, 3, 1, 2, 4, 9, 8, 7 come out
   * as 1 to 10.
   */
  method SortedChannelTest() returns (result: seq<int>)
    ensures result == [1, 2, 3, 4, 5, 6, 7, 8, 9, 10]
  {
    var received := [10, 5, 6, 3, 1, 2, 4, 9, 8, 7];
    var expected := [1, 2, 3, 4, 5, 6, 7, 8, 9, 10];
    AscendingIsTotal();
    result := ChanToSortedSlice(received, Ascending);
    TestValuesPermuted(received, expected);
    ExpectedSorted(expected);
    SortedPermutationUnique(result, expected, Ascending);
  }

  lemma TestValuesPermuted(received: seq<int>, expected: seq<int>)
    requires received == [10, 5, 6, 3, 1, 2, 4, 9, 8, 7]
    requires expected == [1, 2, 3, 4, 5, 6, 7, 8, 9, 10]
    ensures multiset(received) == multiset(expected)
  {
    ReceivedValues(received);
    assert multiset(expected) == multiset{1, 2, 3, 4, 5, 6, 7, 8, 9, 10};
  }

  lemma ReceivedValues(received: seq<int>)
    requires received == [10, 5, 6, 3, 1, 2, 4, 9, 8, 7]
    ensures multiset(received) == multiset{1, 2, 3, 4, 5, 6, 7, 8, 9, 10}
  {
    assert multiset(received) == multiset{10, 5, 6, 3, 1, 2, 4, 9, 8, 7};
    Reordered();
  }

  lemma Reordered()
    ensures multiset{10, 5, 6, 3, 1, 2, 4, 9, 8, 7} == multiset{1, 2, 3, 4, 5, 6, 7, 8, 9, 10}
  {
    assert multiset{10, 5, 6, 3, 1} == multiset{1, 3, 5, 6, 10};
    assert multiset{2, 4, 9, 8, 7} == multiset{2, 4, 7, 8, 9};
  }
}
