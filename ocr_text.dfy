/**
 * `OCRService` of services/ocr_service.py: `_clean_text`, a pure string
 * normaliser (split on line feeds, strip each line, drop blank lines, join
 * with one space), and `extract_text`, which never raises.
 */
module OcrText {

  import opened Wrappers

  /** The characters Python's `str.isspace()` accepts; `str.strip()` without arguments removes exactly these. */
  const Whitespace: set<char> := {
    ' ', '\t', '\n', '\r', '\U{000B}', '\U{000C}',
    '\U{001C}', '\U{001D}', '\U{001E}', '\U{001F}',
    '\U{0085}', '\U{00A0}', '\U{1680}',
    '\U{2000}', '\U{2001}', '\U{2002}', '\U{2003}', '\U{2004}', '\U{2005}',
    '\U{2006}', '\U{2007}', '\U{2008}', '\U{2009}', '\U{200A}',
    '\U{2028}', '\U{2029}', '\U{202F}', '\U{205F}', '\U{3000}'
  }

  predicate IsWs(c: char) {
    c in Whitespace
  }

  /** Every character is whitespace, so `s.strip()` is falsy. */
  predicate Blank(s: string) {
    forall i :: 0 <= i < |s| ==> IsWs(s[i])
  }

  /** Neither begins nor ends with whitespace (the empty string qualifies). */
  predicate NoOuterWs(s: string) {
    s == [] || (!IsWs(s[0]) && !IsWs(s[|s| - 1]))
  }

  /** A line that survived cleaning: non-empty, no line feed, stripped. */
  predicate Tidy(s: string) {
    s != [] && '\n' !in s && NoOuterWs(s)
  }

  /** The non-whitespace characters of `s`, in order. */
  function NonWs(s: string): string {
    if s == [] then [] else (if IsWs(s[0]) then [] else [s[0]]) + NonWs(s[1..])
  }

  /** The non-whitespace characters of a list of strings, concatenated. */
  function NonWsAll(parts: seq<string>): string {
    if parts == [] then [] else NonWs(parts[0]) + NonWsAll(parts[1..])
  }

  /** Python's `sep.join(parts)`. */
  function Join(parts: seq<string>, sep: string): (joined: string)
    ensures forall k, c :: 0 <= k < |parts| && c in parts[k] ==> c in joined
    ensures forall c :: c in joined ==> c in sep || exists k :: 0 <= k < |parts| && c in parts[k]
  {
    if |parts| == 0 then ""
    else if |parts| == 1 then parts[0]
    else parts[0] + sep + Join(parts[1..], sep)
  }

  /** Python's `s.split('\n')`: never empty, and no piece holds a line feed. */
  function Split(s: string): (pieces: seq<string>)
    ensures |pieces| >= 1
    ensures forall k :: 0 <= k < |pieces| ==> '\n' !in pieces[k]
  {
    if s == [] then [""]
    else
      var rest := Split(s[1..]);
      if s[0] == '\n' then [""] + rest
      else [[s[0]] + rest[0]] + rest[1..]
  }

  /** Python's `s.lstrip()`: never longer, and never starting with whitespace. */
  function LStrip(s: string): (t: string)
    ensures |t| <= |s|
    ensures t == [] || !IsWs(t[0])
  {
    if s != [] && IsWs(s[0]) then LStrip(s[1..]) else s
  }

  /** Python's `s.rstrip()`: never longer, and never ending with whitespace. */
  function RStrip(s: string): (t: string)
    ensures |t| <= |s|
    ensures t == [] || !IsWs(t[|t| - 1])
  {
    if s != [] && IsWs(s[|s| - 1]) then RStrip(s[..|s| - 1]) else s
  }

  /** Python's `s.strip()`: never longer, and with whitespace at neither end. */
  function Strip(s: string): (t: string)
    ensures |t| <= |s|
    ensures NoOuterWs(t)
  {
    var l := LStrip(s);
    RStripSpec(l);
    assert RStrip(l) != [] ==> RStrip(l)[0] == l[0];
    RStrip(l)
  }

  /** The list comprehension `[line.strip() for line in lines if line.strip()]`. */
  function StripNonBlank(lines: seq<string>): (kept: seq<string>)
    ensures forall k :: 0 <= k < |kept| ==> kept[k] != "" && exists j :: 0 <= j < |lines| && kept[k] == Strip(lines[j])
    ensures forall j :: 0 <= j < |lines| && Strip(lines[j]) != "" ==> Strip(lines[j]) in kept
  {
    if lines == [] then []
    else
      var t := Strip(lines[0]);
      (if t == "" then [] else [t]) + StripNonBlank(lines[1..])
  }

  /** `OCRService._clean_text`. */
  function CleanText(text: string): (cleaned: string)
    ensures '\n' !in cleaned
    ensures NoOuterWs(cleaned)
  {
    if text == "" then ""
    else
      var kept := StripNonBlank(Split(text));
      StripNonBlankTidy(Split(text));
      JoinTidy(kept);
      Join(kept, " ")
  }

  /**
   * `OCRService.extract_text`. The image-mode conversion and the tesseract
   * call are outside the model: `ocr` is their outcome, `None` when either raised.
   */
  function ExtractText(ocr: Option<string>): (text: string)
    ensures ocr.None? ==> text == ""
    ensures ocr.Some? ==> NonWs(text) == NonWs(ocr.value)
    ensures '\n' !in text && NoOuterWs(text)
  {
    match ocr
    case None => ""
    case Some(raw) => CleanTextKeepsNonWs(raw); CleanText(raw)
  }

  // ---------------------------------------------------------------------------
  // Lemmas
  // ---------------------------------------------------------------------------

  lemma {:induction false} NonWsAppend(a: string, b: string)
    ensures NonWs(a + b) == NonWs(a) + NonWs(b)
  {
    if a == [] {
      assert a + b == b;
    } else {
      assert (a + b)[0] == a[0];
      assert (a + b)[1..] == a[1..] + b;
      NonWsAppend(a[1..], b);
    }
  }

  lemma {:induction false} NonWsEmptyIffBlank(s: string)
    ensures NonWs(s) == [] <==> Blank(s)
  {
    if s != [] {
      NonWsEmptyIffBlank(s[1..]);
      if Blank(s[1..]) && IsWs(s[0]) {
        forall i | 0 <= i < |s| ensures IsWs(s[i]) {
          if i > 0 { assert s[i] == s[1..][i - 1]; }
        }
      }
    }
  }

  /** Splitting on line feeds and joining with line feeds gives the input back. */
  lemma {:induction false} SplitJoinRoundTrip(s: string)
    ensures Join(Split(s), "\n") == s
  {
    if s != [] {
      var rest := Split(s[1..]);
      SplitJoinRoundTrip(s[1..]);
      if s[0] == '\n' {
        assert Split(s) == [""] + rest;
        assert ([""] + rest)[1..] == rest;
      } else if |rest| == 1 {
        assert Split(s) == [[s[0]] + rest[0]];
      } else {
        assert Split(s) == [[s[0]] + rest[0]] + rest[1..];
        assert ([[s[0]] + rest[0]] + rest[1..])[1..] == rest[1..];
        assert Join(rest, "\n") == rest[0] + "\n" + Join(rest[1..], "\n");
      }
    }
  }

  /** A string with no line feed splits into itself alone. */
  lemma {:induction false} SplitWithoutNewline(s: string)
    requires '\n' !in s
    ensures Split(s) == [s]
  {
    if s != [] {
      assert '\n' !in s[1..] by {
        forall i | 0 <= i < |s[1..]| ensures s[1..][i] != '\n' { assert s[1..][i] == s[i + 1]; }
      }
      SplitWithoutNewline(s[1..]);
      assert [s[0]] + s[1..] == s;
    }
  }

  /** `lstrip()` leaves the suffix after the longest whitespace prefix. */
  lemma {:induction false} LStripSpec(s: string)
    ensures |LStrip(s)| <= |s| && LStrip(s) == s[|s| - |LStrip(s)|..]
    ensures Blank(s[..|s| - |LStrip(s)|])
    ensures LStrip(s) == [] || !IsWs(LStrip(s)[0])
  {
    if s != [] && IsWs(s[0]) {
      var rest := s[1..];
      var t := LStrip(rest);
      assert LStrip(s) == t;
      LStripSpec(rest);
      var m := |s| - |t|;
      assert t == rest[m - 1..];
      assert rest[m - 1..] == s[m..];
      assert Blank(rest[..m - 1]);
      forall j | 0 <= j < m ensures IsWs(s[..m][j]) {
        if j > 0 {
          assert rest[..m - 1][j - 1] == s[..m][j];
        }
      }
    }
  }

  /** `rstrip()` leaves the prefix before the longest whitespace suffix. */
  lemma {:induction false} RStripSpec(s: string)
    ensures |RStrip(s)| <= |s| && RStrip(s) == s[..|RStrip(s)|]
    ensures Blank(s[|RStrip(s)|..])
    ensures RStrip(s) == [] || !IsWs(RStrip(s)[|RStrip(s)| - 1])
  {
    if s != [] && IsWs(s[|s| - 1]) {
      var init := s[..|s| - 1];
      var t := RStrip(init);
      RStripSpec(init);
      assert init[..|t|] == s[..|t|];
      forall j | |t| <= j < |s| ensures IsWs(s[j]) {
        if j < |s| - 1 { assert s[j] == init[|t|..][j - |t|]; }
      }
      assert forall j :: 0 <= j < |s[|t|..]| ==> s[|t|..][j] == s[|t| + j];
    }
  }

  lemma {:induction false} LStripKeepsNonWs(s: string)
    ensures NonWs(LStrip(s)) == NonWs(s)
  {
    if s != [] && IsWs(s[0]) {
      LStripKeepsNonWs(s[1..]);
    }
  }

  lemma {:induction false} RStripKeepsNonWs(s: string)
    ensures NonWs(RStrip(s)) == NonWs(s)
  {
    if s != [] && IsWs(s[|s| - 1]) {
      var init := s[..|s| - 1];
      RStripKeepsNonWs(init);
      assert s == init + [s[|s| - 1]];
      NonWsAppend(init, [s[|s| - 1]]);
    }
  }

  /**
   * What `str.strip()` promises: no outer whitespace, every non-whitespace
   * character kept, and empty exactly when the input is blank. (That only
   * outer whitespace is removed is stated by `LStrip` and `RStrip`.)
   */
  lemma StripSpec(s: string)
    ensures NoOuterWs(Strip(s))
    ensures NonWs(Strip(s)) == NonWs(s)
    ensures Strip(s) == [] <==> Blank(s)
  {
    var l := LStrip(s);
    var t := RStrip(l);
    LStripSpec(s);
    RStripSpec(l);
    assert NoOuterWs(t) by {
      if t != [] { assert t[0] == l[0]; }
    }
    LStripKeepsNonWs(s);
    RStripKeepsNonWs(l);
    NonWsEmptyIffBlank(s);
    NonWsEmptyIffBlank(t);
  }

  /** A string that already has no outer whitespace is its own `strip()`. */
  lemma StripOfNoOuterWs(s: string)
    requires NoOuterWs(s)
    ensures Strip(s) == s
  {
  }

  lemma StripKeepsCharacters(s: string)
    ensures forall c :: c in Strip(s) ==> c in s
  {
    var l := LStrip(s);
    var t := RStrip(l);
    LStripSpec(s);
    RStripSpec(l);
    forall c | c in t ensures c in s {
      var k :| 0 <= k < |t| && t[k] == c;
      assert l[k] == c;
      assert s[|s| - |l| + k] == c;
    }
  }

  /** A stripped line that is not blank is tidy when the line holds no line feed. */
  lemma StripTidy(line: string)
    requires '\n' !in line
    requires Strip(line) != ""
    ensures Tidy(Strip(line))
  {
    StripSpec(line);
    StripKeepsCharacters(line);
  }

  /** The lines kept by the comprehension are tidy when the input lines hold no line feed. */
  lemma {:induction false} StripNonBlankTidy(lines: seq<string>)
    requires forall k :: 0 <= k < |lines| ==> '\n' !in lines[k]
    ensures forall k :: 0 <= k < |StripNonBlank(lines)| ==> Tidy(StripNonBlank(lines)[k])
  {
    if lines != [] {
      var rest := StripNonBlank(lines[1..]);
      assert forall k :: 0 <= k < |lines[1..]| ==> '\n' !in lines[1..][k] by {
        forall k | 0 <= k < |lines[1..]| ensures '\n' !in lines[1..][k] { assert lines[1..][k] == lines[k + 1]; }
      }
      StripNonBlankTidy(lines[1..]);
      var t := Strip(lines[0]);
      if t == "" {
        assert StripNonBlank(lines) == rest;
      } else {
        StripTidy(lines[0]);
        var kept := [t] + rest;
        assert StripNonBlank(lines) == kept;
        forall k | 0 <= k < |kept| ensures Tidy(kept[k]) {
          if k > 0 { assert kept[k] == rest[k - 1]; }
        }
      }
    }
  }

  /** Joining tidy lines with one space gives a string without line feed or outer whitespace. */
  lemma {:induction false} JoinTidy(parts: seq<string>)
    requires forall k :: 0 <= k < |parts| ==> Tidy(parts[k])
    ensures '\n' !in Join(parts, " ")
    ensures NoOuterWs(Join(parts, " "))
    ensures parts != [] ==> Join(parts, " ") != []
  {
    if |parts| > 1 {
      JoinTidy(parts[1..]);
      var tail := Join(parts[1..], " ");
      assert Join(parts, " ") == parts[0] + " " + tail;
      assert Join(parts, " ")[0] == parts[0][0];
    }
  }

  /** Joining with a whitespace separator adds no non-whitespace character. */
  lemma {:induction false} JoinKeepsNonWs(parts: seq<string>, sep: string)
    requires Blank(sep)
    ensures NonWs(Join(parts, sep)) == NonWsAll(parts)
  {
    if |parts| == 1 {
      assert NonWsAll(parts) == NonWs(parts[0]) + NonWsAll([]);
    } else if |parts| > 1 {
      JoinKeepsNonWs(parts[1..], sep);
      NonWsAppend(parts[0] + sep, Join(parts[1..], sep));
      NonWsAppend(parts[0], sep);
      NonWsEmptyIffBlank(sep);
    }
  }

  /** Stripping every line and dropping the blank ones keeps every non-whitespace character. */
  lemma {:induction false} StripNonBlankKeepsNonWs(lines: seq<string>)
    ensures NonWsAll(StripNonBlank(lines)) == NonWsAll(lines)
  {
    if lines != [] {
      StripNonBlankKeepsNonWs(lines[1..]);
      var t := Strip(lines[0]);
      var rest := StripNonBlank(lines[1..]);
      assert NonWsAll(lines) == NonWs(lines[0]) + NonWsAll(lines[1..]);
      StripSpec(lines[0]);
      if t == "" {
        NonWsEmptyIffBlank(lines[0]);
        assert StripNonBlank(lines) == rest;
      } else {
        assert StripNonBlank(lines) == [t] + rest;
        assert ([t] + rest)[1..] == rest;
      }
    }
  }

  /** Cleaning keeps every non-whitespace character of the input, in order, and adds none. */
  lemma CleanTextKeepsNonWs(text: string)
    ensures NonWs(CleanText(text)) == NonWs(text)
  {
    if text != "" {
      var lines := Split(text);
      SplitJoinRoundTrip(text);
      JoinKeepsNonWs(lines, "\n");
      StripNonBlankKeepsNonWs(lines);
      JoinKeepsNonWs(StripNonBlank(lines), " ");
    }
  }

  /** The cleaned text is empty exactly when the input is made only of whitespace (blank lines included). */
  lemma CleanTextEmptyIffBlank(text: string)
    ensures CleanText(text) == "" <==> Blank(text)
  {
    var cleaned := CleanText(text);
    CleanTextKeepsNonWs(text);
    NonWsEmptyIffBlank(text);
    NonWsEmptyIffBlank(cleaned);
  }

  /** Cleaning an already cleaned text changes nothing. */
  lemma CleanTextIdempotent(text: string)
    ensures CleanText(CleanText(text)) == CleanText(text)
  {
    var cleaned := CleanText(text);
    if cleaned != "" {
      SplitWithoutNewline(cleaned);
      StripOfNoOuterWs(cleaned);
      assert StripNonBlank([cleaned]) == [cleaned] + StripNonBlank([]);
      assert CleanText(cleaned) == Join([cleaned], " ");
    }
  }

  /** The comprehension works line by line, so it keeps the input order: it distributes over concatenation. */
  lemma {:induction false} StripNonBlankAppend(a: seq<string>, b: seq<string>)
    ensures StripNonBlank(a + b) == StripNonBlank(a) + StripNonBlank(b)
  {
    if a == [] {
      assert a + b == b;
    } else {
      assert (a + b)[0] == a[0];
      assert (a + b)[1..] == a[1..] + b;
      StripNonBlankAppend(a[1..], b);
      var t := Strip(a[0]);
      var head := if t == "" then [] else [t];
      assert StripNonBlank(a + b) == head + (StripNonBlank(a[1..]) + StripNonBlank(b));
      assert StripNonBlank(a) == head + StripNonBlank(a[1..]);
      Regroup(StripNonBlank(a + b), head, StripNonBlank(a[1..]), StripNonBlank(b));
    }
  }

  /** Concatenation of lines regroups freely. */
  lemma Regroup(xs: seq<string>, h: seq<string>, m: seq<string>, t: seq<string>)
    requires xs == h + (m + t)
    ensures xs == (h + m) + t
  {
  }

  /** Splitting a line, a line feed and a rest gives the line followed by the pieces of the rest. */
  lemma {:induction false} SplitAfterLine(line: string, rest: string)
    requires '\n' !in line
    ensures Split(line + "\n" + rest) == [line] + Split(rest)
  {
    var s := line + "\n" + rest;
    if line == [] {
      assert s[0] == '\n' && s[1..] == rest;
    } else {
      assert s[0] == line[0];
      assert s[1..] == line[1..] + "\n" + rest;
      assert '\n' !in line[1..] by {
        forall i | 0 <= i < |line[1..]| ensures line[1..][i] != '\n' { assert line[1..][i] == line[i + 1]; }
      }
      SplitAfterLine(line[1..], rest);
      assert [line[0]] + line[1..] == line;
    }
  }

  /** Lines without line feeds, joined with line feeds, split back into the same lines. */
  lemma {:induction false} SplitOfJoinedLines(ls: seq<string>)
    requires |ls| >= 1
    requires forall k :: 0 <= k < |ls| ==> '\n' !in ls[k]
    ensures Split(Join(ls, "\n")) == ls
  {
    if |ls| == 1 {
      SplitWithoutNewline(ls[0]);
    } else {
      SplitOfJoinedLines(ls[1..]);
      SplitAfterLine(ls[0], Join(ls[1..], "\n"));
      assert [ls[0]] + ls[1..] == ls;
    }
  }

  /** The comprehension keeps lines that are already non-empty and stripped exactly as they are. */
  lemma {:induction false} StripNonBlankOfStripped(ls: seq<string>)
    requires forall k :: 0 <= k < |ls| ==> ls[k] != "" && Strip(ls[k]) == ls[k]
    ensures StripNonBlank(ls) == ls
  {
    if ls != [] {
      var rest := ls[1..];
      assert forall k :: 0 <= k < |rest| ==> rest[k] == ls[k + 1];
      StripNonBlankOfStripped(rest);
      assert StripNonBlank(ls) == [ls[0]] + StripNonBlank(rest);
      HeadAndTail(ls, StripNonBlank(ls));
    }
  }

  /** A sequence that is the first line of `ls` followed by the rest of `ls` is `ls`. */
  lemma HeadAndTail(ls: seq<string>, xs: seq<string>)
    requires ls != [] && xs == [ls[0]] + ls[1..]
    ensures xs == ls
  {
    assert xs[0] == ls[0];
  }

  /**
   * Non-empty, stripped lines written one per line are cleaned into exactly
   * those lines separated by single spaces: whitespace inside a line is kept
   * and each line break becomes one space.
   */
  lemma CleanTextOfTidyLines(ls: seq<string>)
    requires forall k :: 0 <= k < |ls| ==> Tidy(ls[k])
    ensures CleanText(Join(ls, "\n")) == Join(ls, " ")
  {
    if ls != [] {
      var text := Join(ls, "\n");
      assert text != "" by {
        if |ls| > 1 { assert text == ls[0] + "\n" + Join(ls[1..], "\n"); }
      }
      SplitOfJoinedLines(ls);
      forall k | 0 <= k < |ls| ensures Strip(ls[k]) == ls[k] {
        StripOfNoOuterWs(ls[k]);
      }
      StripNonBlankOfStripped(ls);
    }
  }
}
