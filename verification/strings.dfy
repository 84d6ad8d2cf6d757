/**
 * The parts of Go's `strings` package that the spell checker relies on:
 * ASCII lower-casing, `FieldsFunc`, `Trim`, `Split` and `Join`.
 * Strings are sequences of characters; the byte/rune distinction of Go does
 * not arise for the ASCII text these functions are applied to here.
 */
module Strings {

  /** True when no character of `s` satisfies `p`. */
  predicate NoneSatisfy(s: string, p: char -> bool) {
    forall k :: 0 <= k < |s| ==> !p(s[k])
  }

  /** True when every character of `s` satisfies `p`. */
  predicate AllSatisfy(s: string, p: char -> bool) {
    forall k :: 0 <= k < |s| ==> p(s[k])
  }

  /** True when every character of `s` is in `cutset`. */
  predicate AllIn(s: string, cutset: set<char>) {
    forall k :: 0 <= k < |s| ==> s[k] in cutset
  }

  // ---------------------------------------------------------------------------
  // ToLower
  // ---------------------------------------------------------------------------

  /** ASCII upper case to lower case; every other character is unchanged. */
  function LowerChar(c: char): char {
    if 'A' <= c <= 'Z' then (c as int + 32) as char else c
  }

  /** `strings.ToLower`, restricted to its ASCII behaviour. */
  function ToLower(s: string): string {
    seq(|s|, i requires 0 <= i < |s| => LowerChar(s[i]))
  }

  predicate IsUpper(c: char) {
    'A' <= c <= 'Z'
  }

  /**
   * Lower-casing keeps the length and leaves no upper-case letter; a string
   * is its own lower-case form exactly when it holds no upper-case letter.
   */
  lemma ToLowerFolds(s: string)
    ensures |ToLower(s)| == |s|
    ensures NoneSatisfy(ToLower(s), IsUpper)
    ensures ToLower(s) == s <==> NoneSatisfy(s, IsUpper)
  {
    if NoneSatisfy(s, IsUpper) {
      assert forall i :: 0 <= i < |s| ==> ToLower(s)[i] == s[i];
    }
  }

  /** Lower-casing twice is lower-casing once. */
  lemma ToLowerIdempotent(s: string)
    ensures ToLower(ToLower(s)) == ToLower(s)
  {
    ToLowerFolds(ToLower(s));
  }

  /** Lower-casing works character by character: it distributes over concatenation. */
  lemma ToLowerConcat(a: string, b: string)
    ensures ToLower(a + b) == ToLower(a) + ToLower(b)
  {
    assert forall i :: 0 <= i < |a + b| ==> ToLower(a + b)[i] == (ToLower(a) + ToLower(b))[i];
  }

  // ---------------------------------------------------------------------------
  // Join
  // ---------------------------------------------------------------------------

  /** `strings.Join`: the parts with `glue` between consecutive ones. */
  function Join(parts: seq<string>, glue: string): string {
    if |parts| == 0 then ""
    else if |parts| == 1 then parts[0]
    else parts[0] + glue + Join(parts[1..], glue)
  }

  /** Extending the first part extends the joined string by the same prefix. */
  lemma {:induction false} JoinExtendHead(a: string, parts: seq<string>, glue: string)
    requires |parts| > 0
    ensures Join([a + parts[0]] + parts[1..], glue) == a + Join(parts, glue)
  {
    var ps := [a + parts[0]] + parts[1..];
    assert ps[1..] == parts[1..];
    if |parts| > 1 {
      assert Join(ps, glue) == (a + parts[0]) + glue + Join(parts[1..], glue);
    }
  }

  // ---------------------------------------------------------------------------
  // FieldsFunc
  // ---------------------------------------------------------------------------

  /** Length of the longest prefix of `s` holding no separator. */
  function RunLength(s: string, sep: char -> bool): (n: nat)
    ensures n <= |s|
    ensures forall k :: 0 <= k < n ==> !sep(s[k])
    ensures n < |s| ==> sep(s[n])
  {
    if |s| == 0 || sep(s[0]) then 0 else 1 + RunLength(s[1..], sep)
  }

  /**
   * `strings.FieldsFunc`: the maximal runs of non-separator characters of `s`,
   * in order. Runs of separators, leading and trailing ones included, produce
   * no empty fields.
   */
  function FieldsFunc(s: string, sep: char -> bool): (fields: seq<string>)
    ensures forall i :: 0 <= i < |fields| ==> |fields[i]| > 0
    ensures forall i :: 0 <= i < |fields| ==> NoneSatisfy(fields[i], sep)
    ensures |fields| <= |s|
    decreases |s|
  {
    if |s| == 0 then []
    else if sep(s[0]) then FieldsFunc(s[1..], sep)
    else
      var n := RunLength(s, sep);
      [s[..n]] + FieldsFunc(s[n..], sep)
  }

  /** Leading separators never start a field. */
  lemma {:induction false} FieldsFuncSkipsSeparators(g: string, t: string, sep: char -> bool)
    requires AllSatisfy(g, sep)
    ensures FieldsFunc(g + t, sep) == FieldsFunc(t, sep)
    decreases |g|
  {
    if |g| > 0 {
      assert (g + t)[1..] == g[1..] + t;
      FieldsFuncSkipsSeparators(g[1..], t, sep);
    } else {
      assert g + t == t;
    }
  }

  /** A separator-free run followed by a separator (or the end) is one field. */
  lemma FieldsFuncTakesRun(p: string, t: string, sep: char -> bool)
    requires |p| > 0 && NoneSatisfy(p, sep)
    requires |t| == 0 || sep(t[0])
    ensures FieldsFunc(p + t, sep) == [p] + FieldsFunc(t, sep)
  {
    var s := p + t;
    var n := RunLength(s, sep);
    assert forall k :: 0 <= k < |p| ==> s[k] == p[k];
    if |t| > 0 {
      assert s[|p|] == t[0];
    }
    assert s[..n] == p;
    assert s[n..] == t;
  }

  /**
   * Round trip: joining non-empty separator-free fields with a non-empty run
   * of separators and splitting the result again gives back the fields.
   */
  lemma {:induction false} FieldsFuncJoin(fields: seq<string>, glue: string, sep: char -> bool)
    requires |glue| > 0 && AllSatisfy(glue, sep)
    requires forall i :: 0 <= i < |fields| ==> |fields[i]| > 0 && NoneSatisfy(fields[i], sep)
    ensures FieldsFunc(Join(fields, glue), sep) == fields
  {
    if |fields| == 1 {
      FieldsFuncTakesRun(fields[0], "", sep);
      assert fields[0] + "" == fields[0];
    } else if |fields| > 1 {
      var rest := Join(fields[1..], glue);
      assert fields[0] + glue + rest == fields[0] + (glue + rest);
      FieldsFuncTakesRun(fields[0], glue + rest, sep);
      FieldsFuncSkipsSeparators(glue, rest, sep);
      FieldsFuncJoin(fields[1..], glue, sep);
      assert [fields[0]] + fields[1..] == fields;
    }
  }

  /**
   * `gaps[0] + fields[0] + gaps[1] + ... + fields[n - 1] + gaps[n]`: fields
   * interleaved with the text around them.
   */
  function Weave(gaps: seq<string>, fields: seq<string>): string
    requires |gaps| == |fields| + 1
    decreases |fields|
  {
    if |fields| == 0 then gaps[0] else gaps[0] + fields[0] + Weave(gaps[1..], fields[1..])
  }

  /** Fields are non-empty and free of separators. */
  predicate ProperFields(fields: seq<string>, sep: char -> bool) {
    forall i :: 0 <= i < |fields| ==> |fields[i]| > 0 && NoneSatisfy(fields[i], sep)
  }

  /**
   * Gaps are runs of separators; those between two fields are non-empty,
   * the leading and the trailing one may be empty.
   */
  predicate SeparatorGaps(gaps: seq<string>, sep: char -> bool) {
    && (forall k :: 0 <= k < |gaps| ==> AllSatisfy(gaps[k], sep))
    && (forall k :: 0 < k < |gaps| - 1 ==> |gaps[k]| > 0)
  }

  /** Extending the first gap extends the woven string by the same prefix. */
  lemma WeaveExtendHead(a: string, gaps: seq<string>, fields: seq<string>)
    requires |gaps| == |fields| + 1
    ensures Weave([a + gaps[0]] + gaps[1..], fields) == a + Weave(gaps, fields)
  {
    var gs := [a + gaps[0]] + gaps[1..];
    assert gs[1..] == gaps[1..];
  }

  /** Dropping the first gap keeps the gaps separator runs. */
  lemma SeparatorGapsTail(gaps: seq<string>, sep: char -> bool)
    requires |gaps| > 0 && SeparatorGaps(gaps, sep)
    ensures SeparatorGaps(gaps[1..], sep)
  {
    assert forall k :: 0 <= k < |gaps| - 1 ==> gaps[1..][k] == gaps[k + 1];
  }

  /** After the first field of a weave comes a separator, or nothing. */
  lemma WeaveAfterField(gaps: seq<string>, fields: seq<string>, sep: char -> bool)
    requires |gaps| == |fields| + 1 && |fields| > 0
    requires SeparatorGaps(gaps, sep)
    ensures var rest := Weave(gaps[1..], fields[1..]); |rest| == 0 || sep(rest[0])
  {
    var rest := Weave(gaps[1..], fields[1..]);
    if |gaps[1]| > 0 {
      if |fields| > 1 {
        assert rest == gaps[1] + (fields[1] + Weave(gaps[2..], fields[2..]));
      }
      assert rest[0] == gaps[1][0];
    }
  }

  /**
   * Splitting recovers the fields of any weave: whatever separator runs
   * surround and divide non-empty separator-free fields, `FieldsFunc` gives
   * back exactly those fields.
   */
  lemma {:induction false} FieldsFuncWeave(gaps: seq<string>, fields: seq<string>, sep: char -> bool)
    requires |gaps| == |fields| + 1
    requires SeparatorGaps(gaps, sep) && ProperFields(fields, sep)
    ensures FieldsFunc(Weave(gaps, fields), sep) == fields
    decreases |fields|
  {
    if |fields| == 0 {
      FieldsFuncSkipsSeparators(gaps[0], "", sep);
      assert gaps[0] + "" == gaps[0];
    } else {
      var rest := Weave(gaps[1..], fields[1..]);
      assert Weave(gaps, fields) == gaps[0] + (fields[0] + rest);
      FieldsFuncSkipsSeparators(gaps[0], fields[0] + rest, sep);
      WeaveAfterField(gaps, fields, sep);
      FieldsFuncTakesRun(fields[0], rest, sep);
      SeparatorGapsTail(gaps, sep);
      FieldsFuncWeave(gaps[1..], fields[1..], sep);
      assert [fields[0]] + fields[1..] == fields;
    }
  }

  /** A weave that starts with an empty gap starts with its first field. */
  lemma WeaveField(f: string, gaps: seq<string>, fields: seq<string>)
    requires |gaps| == |fields| + 1
    ensures Weave([""] + gaps, [f] + fields) == f + Weave(gaps, fields)
  {
    var gs := [""] + gaps;
    var fs := [f] + fields;
    assert gs[0] == "" && fs[0] == f && gs[1..] == gaps && fs[1..] == fields;
    assert gs[0] + fs[0] == f;
  }

  /** A weave of proper fields that starts with a separator starts with a non-empty gap. */
  lemma LeadingGap(s: string, gaps: seq<string>, fields: seq<string>, sep: char -> bool)
    requires |gaps| == |fields| + 1 && ProperFields(fields, sep)
    requires s == Weave(gaps, fields)
    requires |fields| > 0 && |s| > 0 && sep(s[0])
    ensures |gaps[0]| > 0
  {
  }

  /** The decomposition of a string that starts with a separator, from that of the rest. */
  lemma DecomposeSkip(s: string, sep: char -> bool, g: seq<string>) returns (gaps: seq<string>)
    requires |s| > 0 && sep(s[0])
    requires |g| == |FieldsFunc(s[1..], sep)| + 1 && SeparatorGaps(g, sep)
    requires s[1..] == Weave(g, FieldsFunc(s[1..], sep))
    ensures |gaps| == |FieldsFunc(s, sep)| + 1
    ensures SeparatorGaps(gaps, sep)
    ensures s == Weave(gaps, FieldsFunc(s, sep))
  {
    var fields := FieldsFunc(s[1..], sep);
    assert FieldsFunc(s, sep) == fields;
    gaps := [[s[0]] + g[0]] + g[1..];
    WeaveExtendHead([s[0]], g, fields);
    assert s == [s[0]] + s[1..];
    assert forall k :: 0 < k < |gaps| ==> gaps[k] == g[k];
  }

  /** The decomposition of a string that starts with a field, from that of the text after it. */
  lemma DecomposeRun(s: string, sep: char -> bool, n: nat, g: seq<string>) returns (gaps: seq<string>)
    requires |s| > 0 && !sep(s[0]) && n == RunLength(s, sep)
    requires |g| == |FieldsFunc(s[n..], sep)| + 1 && SeparatorGaps(g, sep)
    requires s[n..] == Weave(g, FieldsFunc(s[n..], sep))
    ensures |gaps| == |FieldsFunc(s, sep)| + 1
    ensures SeparatorGaps(gaps, sep)
    ensures s == Weave(gaps, FieldsFunc(s, sep))
  {
    var rest := s[n..];
    var more := FieldsFunc(rest, sep);
    assert FieldsFunc(s, sep) == [s[..n]] + more;
    gaps := [""] + g;
    WeaveField(s[..n], g, more);
    assert s == s[..n] + rest;
    if |more| > 0 {
      LeadingGap(rest, g, more, sep);
    }
    assert forall k :: 0 < k < |gaps| ==> gaps[k] == g[k - 1];
  }

  /**
   * Every string is its fields woven with separator runs: `FieldsFunc`
   * drops only separators, keeps the order of the text and never splits a
   * run of non-separators.
   */
  lemma {:induction false} FieldsFuncDecomposes(s: string, sep: char -> bool) returns (gaps: seq<string>)
    ensures |gaps| == |FieldsFunc(s, sep)| + 1
    ensures SeparatorGaps(gaps, sep)
    ensures s == Weave(gaps, FieldsFunc(s, sep))
    decreases |s|
  {
    if |s| == 0 {
      gaps := [""];
    } else if sep(s[0]) {
      var g := FieldsFuncDecomposes(s[1..], sep);
      gaps := DecomposeSkip(s, sep, g);
    } else {
      var n := RunLength(s, sep);
      var g := FieldsFuncDecomposes(s[n..], sep);
      gaps := DecomposeRun(s, sep, n, g);
    }
  }

  // ---------------------------------------------------------------------------
  // Trim
  // ---------------------------------------------------------------------------

  /** `strings.TrimLeft`: drops the leading characters that lie in `cutset`. */
  function TrimLeft(s: string, cutset: set<char>): (r: string)
    ensures |r| <= |s|
    ensures |r| > 0 ==> r[0] !in cutset
  {
    if |s| > 0 && s[0] in cutset then TrimLeft(s[1..], cutset) else s
  }

  /** `strings.TrimRight`: drops the trailing characters that lie in `cutset`. */
  function TrimRight(s: string, cutset: set<char>): (r: string)
    ensures |r| <= |s| && r == s[..|r|]
    ensures |r| > 0 ==> r[|r| - 1] !in cutset
  {
    if |s| > 0 && s[|s| - 1] in cutset then TrimRight(s[..|s| - 1], cutset) else s
  }

  /**
   * `strings.Trim`: `s` with every leading and trailing character that lies
   * in `cutset` removed. The result starts and ends outside the cutset.
   */
  function Trim(s: string, cutset: set<char>): (r: string)
    ensures |r| <= |s|
    ensures |r| > 0 ==> r[0] !in cutset && r[|r| - 1] !in cutset
  {
    TrimRight(TrimLeft(s, cutset), cutset)
  }

  /** A cutset prefix followed by a part starting outside the cutset is dropped. */
  lemma {:induction false} TrimLeftUnique(x: string, m: string, cutset: set<char>)
    requires AllIn(x, cutset)
    requires |m| > 0 ==> m[0] !in cutset
    ensures TrimLeft(x + m, cutset) == m
    decreases |x|
  {
    if |x| > 0 {
      assert (x + m)[1..] == x[1..] + m;
      TrimLeftUnique(x[1..], m, cutset);
    } else {
      assert x + m == m;
    }
  }

  /** A part ending outside the cutset followed by a cutset suffix is kept. */
  lemma {:induction false} TrimRightUnique(m: string, y: string, cutset: set<char>)
    requires AllIn(y, cutset)
    requires |m| > 0 ==> m[|m| - 1] !in cutset
    ensures TrimRight(m + y, cutset) == m
    decreases |y|
  {
    if |y| > 0 {
      assert (m + y)[..|m + y| - 1] == m + y[..|y| - 1];
      TrimRightUnique(m, y[..|y| - 1], cutset);
    } else {
      assert m + y == m;
    }
  }

  /**
   * `Trim` removes exactly a cutset prefix and a cutset suffix: whenever `s`
   * is `x + m + y` with `x` and `y` inside the cutset and `m` either empty or
   * starting and ending outside it, the trimmed string is `m`.
   */
  lemma TrimUnique(x: string, m: string, y: string, cutset: set<char>)
    requires AllIn(x, cutset) && AllIn(y, cutset)
    requires |m| > 0 ==> m[0] !in cutset && m[|m| - 1] !in cutset
    ensures Trim(x + m + y, cutset) == m
  {
    assert x + m + y == x + (m + y);
    if |m| > 0 {
      TrimLeftUnique(x, m + y, cutset);
      TrimRightUnique(m, y, cutset);
    } else {
      assert m + y == y;
      TrimLeftUnique(x + y, "", cutset);
      assert x + y + "" == x + y;
    }
  }

  lemma AllInConcat(a: string, b: string, cutset: set<char>)
    requires AllIn(a, cutset) && AllIn(b, cutset)
    ensures AllIn(a + b, cutset)
  {
    forall k | 0 <= k < |a + b| ensures (a + b)[k] in cutset {
      if k >= |a| {
        assert (a + b)[k] == b[k - |a|];
      }
    }
  }

  /** `TrimLeft` removes a prefix made of cutset characters only. */
  lemma {:induction false} TrimLeftDecomposes(s: string, cutset: set<char>) returns (x: string)
    ensures AllIn(x, cutset)
    ensures s == x + TrimLeft(s, cutset)
  {
    if |s| > 0 && s[0] in cutset {
      var x' := TrimLeftDecomposes(s[1..], cutset);
      x := [s[0]] + x';
      AllInConcat([s[0]], x', cutset);
      var t := TrimLeft(s[1..], cutset);
      assert TrimLeft(s, cutset) == t;
      assert s == x + t by {
        assert s == [s[0]] + s[1..];
      }
    } else {
      x := "";
    }
  }

  /** `TrimRight` removes a suffix made of cutset characters only. */
  lemma {:induction false} TrimRightDecomposes(s: string, cutset: set<char>) returns (y: string)
    ensures AllIn(y, cutset)
    ensures s == TrimRight(s, cutset) + y
  {
    if |s| > 0 && s[|s| - 1] in cutset {
      var y' := TrimRightDecomposes(s[..|s| - 1], cutset);
      y := y' + [s[|s| - 1]];
      AllInConcat(y', [s[|s| - 1]], cutset);
      var t := TrimRight(s[..|s| - 1], cutset);
      assert TrimRight(s, cutset) == t;
      assert s == (t + y') + [s[|s| - 1]] == t + y;
    } else {
      y := "";
    }
  }

  /**
   * Conversely, `Trim` only removes cutset characters from the two ends: `s`
   * is a cutset prefix, the trimmed string and a cutset suffix, in order.
   */
  lemma TrimDecomposes(s: string, cutset: set<char>) returns (x: string, y: string)
    ensures AllIn(x, cutset) && AllIn(y, cutset)
    ensures s == x + Trim(s, cutset) + y
  {
    var left := TrimLeft(s, cutset);
    x := TrimLeftDecomposes(s, cutset);
    y := TrimRightDecomposes(left, cutset);
    var r := TrimRight(left, cutset);
    assert Trim(s, cutset) == r;
    assert s == x + (r + y);
    assert x + (r + y) == x + r + y;
  }

  /** A string trims to nothing exactly when it lies in the cutset entirely. */
  lemma TrimEmpty(s: string, cutset: set<char>)
    ensures |Trim(s, cutset)| == 0 <==> AllIn(s, cutset)
  {
    if AllIn(s, cutset) {
      TrimUnique(s, "", "", cutset);
      assert s + "" + "" == s;
    } else {
      var x, y := TrimDecomposes(s, cutset);
    }
  }

  // ---------------------------------------------------------------------------
  // Split
  // ---------------------------------------------------------------------------

  /** Number of occurrences of `c` in `s`. */
  function Count(s: string, c: char): nat {
    if |s| == 0 then 0 else (if s[0] == c then 1 else 0) + Count(s[1..], c)
  }

  /**
   * `strings.Split` with a one-character separator: the pieces of `s` between
   * consecutive occurrences of `sep`. Adjacent separators yield empty pieces,
   * and the empty string splits into one empty piece.
   */
  function Split(s: string, sep: char): (parts: seq<string>)
    ensures |parts| == Count(s, sep) + 1
    ensures forall i :: 0 <= i < |parts| ==> sep !in parts[i]
    ensures Join(parts, [sep]) == s
  {
    if |s| == 0 then [""]
    else
      var rest := Split(s[1..], sep);
      if s[0] == sep then
        assert [s[0]] + s[1..] == s;
        [""] + rest
      else
        JoinExtendHead([s[0]], rest, [sep]);
        assert [s[0]] + s[1..] == s;
        [[s[0]] + rest[0]] + rest[1..]
  }

  /** Round trip: splitting pieces joined by `sep` gives back the pieces. */
  lemma {:induction false} SplitJoin(parts: seq<string>, sep: char)
    requires |parts| > 0
    requires forall i :: 0 <= i < |parts| ==> sep !in parts[i]
    ensures Split(Join(parts, [sep]), sep) == parts
    decreases |Join(parts, [sep])|
  {
    var s := Join(parts, [sep]);
    var p := parts[0];
    if |p| > 0 {
      // Peel one character off the first piece.
      var shorter := [p[1..]] + parts[1..];
      assert shorter[1..] == parts[1..];
      assert forall i :: 0 <= i < |shorter| ==> sep !in shorter[i];
      assert [p[0]] + p[1..] == p;
      assert [[p[0]] + p[1..]] + parts[1..] == parts;
      JoinExtendHead([p[0]], shorter, [sep]);
      assert s[0] == p[0] && s[1..] == Join(shorter, [sep]);
      SplitJoin(shorter, sep);
    } else if |parts| > 1 {
      assert s == [sep] + Join(parts[1..], [sep]);
      assert s[1..] == Join(parts[1..], [sep]);
      SplitJoin(parts[1..], sep);
      assert [""] + parts[1..] == parts;
    }
  }
}
