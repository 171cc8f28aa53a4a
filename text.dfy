/**
 * The string operations `format_acceptance_criteria` is built from, with
 * Python's semantics: `str.strip()`, `str.replace("*", "- ")`,
 * `str.split("\\n")` (the two characters backslash and `n`) and
 * `"\n".join(...)`, and the formatter itself.
 */
module Text {

  /** Python's `str.isspace()` for one character: the characters `strip()` removes. */
  predicate IsSpace(c: char) {
    || c == ' '
    || ('\t' <= c <= '\r')            // tab, line feed, vertical tab, form feed, carriage return
    || ('\U{1c}' <= c <= '\U{1f}')    // file, group, record and unit separators
    || c == '\U{85}' || c == '\U{a0}' || c == '\U{1680}'
    || ('\U{2000}' <= c <= '\U{200a}')
    || c == '\U{2028}' || c == '\U{2029}' || c == '\U{202f}' || c == '\U{205f}' || c == '\U{3000}'
  }

  /** Every character of `s` is whitespace. */
  predicate AllSpace(s: string) {
    forall k :: 0 <= k < |s| ==> IsSpace(s[k])
  }

  /** Neither end of `s` is whitespace (vacuously true of the empty string). */
  predicate Trimmed(s: string) {
    s == [] || (!IsSpace(s[0]) && !IsSpace(s[|s| - 1]))
  }

  /** `s.lstrip()`: `s` without its leading whitespace (see `LStripSuffix`). */
  function LStrip(s: string): (r: string)
    ensures |r| <= |s|
    decreases |s|
  {
    if s != [] && IsSpace(s[0]) then LStrip(s[1..]) else s
  }

  /** `s.rstrip()`: `s` without its trailing whitespace (see `RStripPrefix`). */
  function RStrip(s: string): (r: string)
    ensures |r| <= |s|
    decreases |s|
  {
    if s != [] && IsSpace(s[|s| - 1]) then RStrip(s[..|s| - 1]) else s
  }

  /** `lstrip()` keeps a suffix, drops only whitespace, and stops at a non-whitespace character. */
  lemma {:induction false} LStripSuffix(s: string)
    ensures var r := LStrip(s);
      && |r| <= |s| && r == s[|s| - |r|..]
      && AllSpace(s[..|s| - |r|])
      && (r == [] || !IsSpace(r[0]))
    decreases |s|
  {
    if s != [] && IsSpace(s[0]) {
      LStripSuffix(s[1..]);
      var t := LStrip(s[1..]);
      assert s[..|s| - |t|] == [s[0]] + s[1..][..|s| - 1 - |t|];
    }
  }

  /** `rstrip()` keeps a prefix, drops only whitespace, and stops at a non-whitespace character. */
  lemma {:induction false} RStripPrefix(s: string)
    ensures var r := RStrip(s);
      && |r| <= |s| && r == s[..|r|]
      && AllSpace(s[|r|..])
      && (r == [] || !IsSpace(r[|r| - 1]))
    decreases |s|
  {
    if s != [] && IsSpace(s[|s| - 1]) {
      RStripPrefix(s[..|s| - 1]);
      var t := RStrip(s[..|s| - 1]);
      assert s[|t|..] == s[..|s| - 1][|t|..] + [s[|s| - 1]];
    }
  }

  /**
   * `s.strip()`: the slice of `s` between its leading and its trailing
   * whitespace (see `StripSlice` and `StripTrimmed`).
   */
  function Strip(s: string): (r: string)
    ensures |r| <= |s|
  {
    RStrip(LStrip(s))
  }

  /** Neither end of what `strip()` returns is whitespace. */
  lemma StripTrimmed(s: string)
    ensures Trimmed(Strip(s))
  {
    LStripSuffix(s);
    RStripPrefix(LStrip(s));
  }

  /** `strip()` removes exactly a whitespace prefix and a whitespace suffix. */
  lemma StripSlice(s: string)
    ensures var r := Strip(s);
      exists i :: 0 <= i && i + |r| <= |s| && r == s[i..i + |r|] && AllSpace(s[..i]) && AllSpace(s[i + |r|..])
  {
    var t := LStrip(s);
    var r := RStrip(t);
    var i := |s| - |t|;
    LStripSuffix(s);
    RStripPrefix(t);
    assert r == s[i..i + |r|] && s[i + |r|..] == t[|r|..];
  }

  /** `strip()` introduces no character. */
  lemma StripChars(s: string)
    ensures forall c :: c in Strip(s) ==> c in s
  {
    StripSlice(s);
  }

  /** `strip()` leaves nothing exactly when the text is all whitespace. */
  lemma StripEmptyIffAllSpace(s: string)
    ensures Strip(s) == [] <==> AllSpace(s)
  {
    var t := LStrip(s);
    LStripSuffix(s);
    RStripPrefix(t);
    assert t != [] ==> RStrip(t) != [];
    assert t == [] ==> s[..|s|] == s;
    if t != [] {
      assert t[0] == s[|s| - |t|];
      assert !AllSpace(s);
    }
  }

  /** Text with no whitespace at either end is its own `strip()`. */
  lemma StripKeepsTrimmed(s: string)
    requires Trimmed(s)
    ensures Strip(s) == s
  {
    assert LStrip(s) == s;
  }

  /**
   * `s.replace("*", "- ")`: every `*` becomes a dash followed by a space
   * (see `ReplaceStarsChar` and `ReplaceStarsAppend`, which together fix
   * the result).
   */
  function ReplaceStars(s: string): (r: string)
    ensures '*' !in r
  {
    if s == [] then []
    else
      (if s[0] == '*' then "- " else [s[0]]) + ReplaceStars(s[1..])
  }

  /** A real line feed, which the formatted lines are joined with. */
  const Newline: string := "\n"

  /** The separator `format_acceptance_criteria` splits on: backslash then `n`, not a newline. */
  const EscapedNewline: string := "\\n"

  /** An escaped newline starts at index `i` of `s`. */
  predicate SepAt(s: string, i: int) {
    0 <= i && i + 1 < |s| && s[i] == '\\' && s[i + 1] == 'n'
  }

  /** `s` contains an escaped newline somewhere. */
  predicate ContainsSep(s: string) {
    exists i :: 0 <= i < |s| && SepAt(s, i)
  }

  /** `sep.join(parts)`; the empty list joins to the empty string. */
  function Join(parts: seq<string>, sep: string): (r: string)
    ensures |parts| > 0 ==> parts[0] <= r
  {
    if |parts| == 0 then ""
    else if |parts| == 1 then parts[0]
    else parts[0] + sep + Join(parts[1..], sep)
  }

  /**
   * `s.split("\\n")`: scans left to right and cuts at every escaped newline
   * it meets, so occurrences never overlap, the empty string gives `[""]`
   * and adjacent separators give empty pieces.
   */
  function Split(s: string): (parts: seq<string>)
    ensures |parts| >= 1
    decreases |s|
  {
    if |s| == 0 then [""]
    else if SepAt(s, 0) then [""] + Split(s[2..])
    else
      var rest := Split(s[1..]);
      [[s[0]] + rest[0]] + rest[1..]
  }

  /** `s.count("\\n")`: the number of non-overlapping escaped newlines, counted left to right. */
  function SepCount(s: string): nat
    decreases |s|
  {
    if |s| == 0 then 0
    else if SepAt(s, 0) then 1 + SepCount(s[2..])
    else SepCount(s[1..])
  }

  /** A character put before the first part comes first in the join. */
  lemma JoinConsHead(c: char, t: seq<string>, sep: string)
    requires |t| >= 1
    ensures Join([[c] + t[0]] + t[1..], sep) == [c] + Join(t, sep)
  {
    var u := [[c] + t[0]] + t[1..];
    if |t| > 1 {
      assert u[1..] == t[1..];
    }
  }

  /** Splitting and joining back with the same separator gives the input back. */
  lemma {:induction false} SplitJoin(s: string)
    ensures Join(Split(s), EscapedNewline) == s
    decreases |s|
  {
    if |s| == 0 {
    } else if SepAt(s, 0) {
      SplitJoin(s[2..]);
      var p := Split(s[2..]);
      assert ([""] + p)[1..] == p;
      assert s == EscapedNewline + s[2..];
    } else {
      SplitJoin(s[1..]);
      JoinConsHead(s[0], Split(s[1..]), EscapedNewline);
      assert s == [s[0]] + s[1..];
    }
  }

  /** No piece of a split contains the separator. */
  lemma {:induction false} SplitPiecesSepFree(s: string)
    ensures forall k :: 0 <= k < |Split(s)| ==> !ContainsSep(Split(s)[k])
    decreases |s|
  {
    if |s| == 0 {
      assert !SepAt("", 0);
    } else if SepAt(s, 0) {
      SplitPiecesSepFree(s[2..]);
      var p := Split(s[2..]);
      assert Split(s) == [""] + p;
      forall k | 0 <= k < |Split(s)| ensures !ContainsSep(Split(s)[k]) {
        if k > 0 { assert Split(s)[k] == p[k - 1]; }
      }
    } else {
      SplitPiecesSepFree(s[1..]);
      SplitJoin(s[1..]);
      var rest := Split(s[1..]);
      var head := [s[0]] + rest[0];
      assert rest[0] <= s[1..];
      forall i | 0 <= i < |head| ensures !SepAt(head, i) {
        if i == 0 {
          if |head| > 1 {
            assert head[1] == rest[0][0] == s[1];
          }
        } else {
          assert !SepAt(rest[0], i - 1);
          assert i + 1 < |head| ==> head[i] == rest[0][i - 1] && head[i + 1] == rest[0][i];
        }
      }
      forall k | 0 <= k < |Split(s)| ensures !ContainsSep(Split(s)[k]) {
        if k > 0 { assert Split(s)[k] == rest[k]; }
      }
    }
  }

  /** Splitting on `k` escaped newlines gives exactly `k + 1` pieces. */
  lemma {:induction false} SplitCount(s: string)
    ensures |Split(s)| == SepCount(s) + 1
    decreases |s|
  {
    if |s| == 0 {
    } else if SepAt(s, 0) {
      SplitCount(s[2..]);
    } else {
      SplitCount(s[1..]);
    }
  }

  /** Text with no escaped newline splits into itself alone. */
  lemma {:induction false} SplitWithoutSep(s: string)
    requires !ContainsSep(s)
    ensures Split(s) == [s]
    decreases |s|
  {
    if |s| > 0 {
      assert !SepAt(s, 0);
      assert !ContainsSep(s[1..]) by {
        forall i | 0 <= i < |s[1..]| ensures !SepAt(s[1..], i) { assert !SepAt(s, i + 1); }
      }
      SplitWithoutSep(s[1..]);
      assert s == [s[0]] + s[1..];
    }
  }

  /** A character found neither in the separator nor in any part is not in their join. */
  lemma {:induction false} JoinAvoids(parts: seq<string>, sep: string, c: char)
    requires c !in sep
    requires forall k :: 0 <= k < |parts| ==> c !in parts[k]
    ensures c !in Join(parts, sep)
  {
    if |parts| > 1 {
      JoinAvoids(parts[1..], sep, c);
    }
  }

  /** Text without `*` is left as it is by the bullet conversion. */
  lemma {:induction false} ReplaceStarsWithoutStars(s: string)
    requires '*' !in s
    ensures ReplaceStars(s) == s
  {
    if s != [] {
      ReplaceStarsWithoutStars(s[1..]);
      assert s == [s[0]] + s[1..];
    }
  }

  /** The conversion of a single character: a `*` becomes `- `, anything else stays. */
  lemma ReplaceStarsChar(c: char)
    ensures ReplaceStars([c]) == if c == '*' then "- " else [c]
  {
    assert [c][1..] == [];
  }

  /** The conversion works character by character: converting a concatenation converts each part. */
  lemma {:induction false} ReplaceStarsAppend(a: string, b: string)
    ensures ReplaceStars(a + b) == ReplaceStars(a) + ReplaceStars(b)
    decreases |a|
  {
    if a != [] {
      ReplaceStarsAppend(a[1..], b);
      assert (a + b)[0] == a[0] && (a + b)[1..] == a[1..] + b;
    } else {
      assert a + b == b;
    }
  }

  /** One pseudo-line: bullets converted, then surrounding whitespace trimmed. */
  function FormatLine(line: string): (r: string)
    ensures '*' !in r
  {
    var t := ReplaceStars(line);
    StripChars(t);
    Strip(t)
  }

  /** A line without `*` and without surrounding whitespace is already formatted. */
  lemma FormatLineKeepsPlain(line: string)
    requires '*' !in line && Trimmed(line)
    ensures FormatLine(line) == line
  {
    ReplaceStarsWithoutStars(line);
    StripKeepsTrimmed(line);
  }

  /** `[FormatLine(line) for line in lines]`. */
  function FormatLines(lines: seq<string>): (r: seq<string>)
    ensures |r| == |lines|
  {
    if lines == [] then [] else [FormatLine(lines[0])] + FormatLines(lines[1..])
  }

  /** Line `i` of the formatted list is line `i` of the input, formatted. */
  lemma {:induction false} FormatLinesAt(lines: seq<string>)
    ensures forall i :: 0 <= i < |lines| ==> FormatLines(lines)[i] == FormatLine(lines[i])
  {
    if lines != [] {
      FormatLinesAt(lines[1..]);
    }
  }

  /** The pseudo-lines of `criteria` after formatting, before they are joined. */
  function FormattedLines(criteria: string): (lines: seq<string>)
  {
    FormatLines(Split(criteria))
  }

  /**
   * `format_acceptance_criteria`: split on escaped newlines, format each
   * piece, join with real newlines. The result never contains a `*`.
   */
  function FormatAcceptanceCriteria(criteria: string): (r: string)
    ensures '*' !in r
  {
    FormatLinesAt(Split(criteria));
    JoinAvoids(FormattedLines(criteria), Newline, '*');
    Join(FormattedLines(criteria), Newline)
  }

  /**
   * The formatter emits one line per escaped newline plus one, each line
   * being the bullet-converted, trimmed source piece; the pieces
   * themselves reassemble to the input.
   */
  lemma FormatLineStructure(criteria: string)
    ensures |FormattedLines(criteria)| == SepCount(criteria) + 1
    ensures forall i :: 0 <= i < |FormattedLines(criteria)| ==>
      FormattedLines(criteria)[i] == Strip(ReplaceStars(Split(criteria)[i]))
    ensures Join(Split(criteria), EscapedNewline) == criteria
  {
    SplitCount(criteria);
    SplitJoin(criteria);
    FormatLinesAt(Split(criteria));
  }

  /** Plain text (no escaped newline, no `*`, no surrounding whitespace) passes through unchanged. */
  lemma FormatKeepsPlainText(criteria: string)
    requires !ContainsSep(criteria) && '*' !in criteria && Trimmed(criteria)
    ensures FormatAcceptanceCriteria(criteria) == criteria
  {
    SplitWithoutSep(criteria);
    FormatLineKeepsPlain(criteria);
    assert FormattedLines(criteria) == [criteria];
  }

  /** `B`, escaped newline, `*item` splits into `B` and `*item`. */
  lemma SplitTailExample()
    ensures Split("B\\n*item") == ["B", "*item"]
  {
    var t := "B\\n*item";
    assert t[1..][2..] == "*item";
    SplitWithoutSep("*item");
    assert SepAt(t[1..], 0) && !SepAt(t, 0);
    assert Split(t[1..]) == ["", "*item"];
    assert ['B'] + "" == "B";
  }

  /** `A`, escaped newline, `B`, escaped newline, `*item` splits into three pieces. */
  lemma SplitExample()
    ensures Split("A\\nB\\n*item") == ["A", "B", "*item"]
  {
    var s := "A\\nB\\n*item";
    SplitTailExample();
    assert s[1..][2..] == "B\\n*item";
    assert SepAt(s[1..], 0) && !SepAt(s, 0);
    assert Split(s[1..]) == ["", "B", "*item"];
    assert ['A'] + "" == "A";
  }

  /** The bullet of `*item` becomes `- `. */
  lemma BulletReplaced()
    ensures ReplaceStars("*item") == "- item"
  {
    ReplaceStarsWithoutStars("item");
    assert "*item"[0] == '*' && "*item"[1..] == "item";
  }

  /** The formatted line for `*item` is `- item`. */
  lemma BulletExample()
    ensures FormatLine("*item") == "- item"
  {
    BulletReplaced();
    assert Trimmed("- item");
    StripKeepsTrimmed("- item");
  }

  /** Three lines joined with real newlines. */
  lemma JoinExample()
    ensures Join(["A", "B", "- item"], "\n") == "A\nB\n- item"
  {
    var p := ["A", "B", "- item"];
    assert p[1..] == ["B", "- item"] && p[1..][1..] == ["- item"];
    assert Join(p[1..][1..], "\n") == "- item";
  }

  /** Two escaped newlines give three lines, and the bullet `*item` becomes `- item`. */
  lemma FormatExample()
    ensures FormatAcceptanceCriteria("A\\nB\\n*item") == "A\nB\n- item"
  {
    SplitExample();
    FormatLineKeepsPlain("A");
    FormatLineKeepsPlain("B");
    BulletExample();
    JoinExample();
    var lines := FormattedLines("A\\nB\\n*item");
    assert lines == ["A", "B", "- item"];
  }
}
