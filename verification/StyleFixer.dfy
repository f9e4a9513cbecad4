/** The line-by-line style checker and fixer, which leaves alone the regions between format-off and
    format-on guards. */
module StyleFixer {

  // ---------------------------------------------------------------------------
  // Strings
  // ---------------------------------------------------------------------------

  /** The characters removed by stripping. */
  predicate IsSpace(c: char) {
    || c == ' ' || '\t' <= c <= '\r' || '\U{1c}' <= c <= '\U{1f}' || c == '\U{85}' || c == '\U{a0}'
    || c == '\U{1680}' || '\U{2000}' <= c <= '\U{200a}' || c == '\U{2028}' || c == '\U{2029}' || c == '\U{202f}'
    || c == '\U{205f}' || c == '\U{3000}'
  }

  /** Among the ASCII characters these are blank, tab, line feed, vertical tab, form feed, carriage return and
      the four separators. */
  lemma AsciiSpaces(c: char)
    requires c as int < 0x80
    ensures IsSpace(c) <==> c as int in {0x20, 0x09, 0x0a, 0x0b, 0x0c, 0x0d, 0x1c, 0x1d, 0x1e, 0x1f}
  {
  }

  predicate Blank(s: string) {
    forall i :: 0 <= i < |s| ==> IsSpace(s[i])
  }

  function RStrip(s: string): (r: string)
    ensures r <= s && Blank(s[|r|..]) && (r != "" ==> !IsSpace(r[|r| - 1]))
    decreases |s|
  {
    if s != "" && IsSpace(s[|s| - 1]) then RStrip(s[..|s| - 1]) else s
  }

  function LStrip(s: string): (r: string)
    ensures |r| <= |s| && r == s[|s| - |r|..] && Blank(s[..|s| - |r|]) && (r != "" ==> !IsSpace(r[0]))
    decreases |s|
  {
    if s != "" && IsSpace(s[0]) then LStrip(s[1..]) else s
  }

  function Strip(s: string): string {
    LStrip(RStrip(s))
  }

  /** Stripping removes exactly the blank ends. */
  lemma StripOf(a: string, m: string, b: string)
    requires Blank(a) && Blank(b) && (m == "" || (!IsSpace(m[0]) && !IsSpace(m[|m| - 1])))
    ensures Strip(a + m + b) == m
  {
    hide IsSpace;
    var s := a + m + b;
    if m == "" {
      BlankRStrip(s);
    } else {
      RStripUnique(s, a + m);
      LStripUnique(a + m, m);
    }
  }

  lemma {:induction false} BlankRStrip(s: string)
    requires Blank(s)
    ensures RStrip(s) == ""
    decreases |s|
  {
    if s != "" {
      BlankRStrip(s[..|s| - 1]);
    }
  }

  lemma {:induction false} RStripUnique(s: string, t: string)
    requires t <= s && Blank(s[|t|..]) && t != "" && !IsSpace(t[|t| - 1])
    ensures RStrip(s) == t
    decreases |s|
  {
    hide IsSpace;
    if |s| > |t| {
      var last := s[|t|..][|s| - 1 - |t|];
      assert IsSpace(last) && last == s[|s| - 1];
      assert s[..|s| - 1][|t|..] == s[|t|..][..|s| - 1 - |t|];
      RStripUnique(s[..|s| - 1], t);
    }
  }

  lemma {:induction false} LStripUnique(s: string, t: string)
    requires |t| <= |s| && t == s[|s| - |t|..] && Blank(s[..|s| - |t|]) && t != "" && !IsSpace(t[0])
    ensures LStrip(s) == t
    decreases |s|
  {
    hide IsSpace;
    if |s| > |t| {
      var first := s[..|s| - |t|][0];
      assert IsSpace(first) && first == s[0];
      assert s[1..][..|s| - 1 - |t|] == s[..|s| - |t|][1..];
      LStripUnique(s[1..], t);
    }
  }

  predicate Trimmed(m: string) {
    m == "" || (!IsSpace(m[0]) && !IsSpace(m[|m| - 1]))
  }

  lemma RightParts(s: string) returns (b: string)
    ensures s == RStrip(s) + b && Blank(b)
  {
    b := s[|RStrip(s)|..];
  }

  lemma LeftParts(s: string) returns (a: string)
    ensures s == a + LStrip(s) && Blank(a)
  {
    a := s[..|s| - |LStrip(s)|];
  }

  lemma StripIsTrimmed(s: string)
    ensures Trimmed(Strip(s))
  {
    hide IsSpace;
    var r := RStrip(s);
    var m := LStrip(r);
    if m != "" {
      assert m[|m| - 1] == r[|r| - 1];
    }
  }

  /** Every string is its stripped middle between two blank ends. */
  lemma StripParts(s: string) returns (a: string, m: string, b: string)
    ensures s == a + m + b && m == Strip(s) && Blank(a) && Blank(b)
    ensures m == "" || (!IsSpace(m[0]) && !IsSpace(m[|m| - 1]))
  {
    hide RStrip, LStrip, IsSpace, Blank;
    b := RightParts(s);
    a := LeftParts(RStrip(s));
    m := LStrip(RStrip(s));
    StripIsTrimmed(s);
  }

  // ---------------------------------------------------------------------------
  // Lines of a text
  // ---------------------------------------------------------------------------

  /** A line: not empty, and a newline only at its end. */
  predicate IsLine(l: string) {
    l != "" && forall i :: 0 <= i < |l| - 1 ==> l[i] != '\n'
  }

  predicate Ended(l: string) {
    l != "" && l[|l| - 1] == '\n'
  }

  /** What reading a text line by line gives: all lines but the last are ended by a newline. */
  predicate AreLines(ls: seq<string>) {
    && (forall i :: 0 <= i < |ls| ==> IsLine(ls[i]))
    && (forall i :: 0 <= i < |ls| - 1 ==> Ended(ls[i]))
  }

  function Join(ls: seq<string>): string {
    if ls == [] then "" else ls[0] + Join(ls[1..])
  }

  /** The length of the first line. */
  function FirstLine(t: string): (n: nat)
    requires t != ""
    ensures 0 < n <= |t| && IsLine(t[..n]) && (n < |t| ==> Ended(t[..n]))
  {
    if t[0] == '\n' || |t| == 1 then 1 else
      var n := FirstLine(t[1..]);
      assert t[1..][..n] == t[..n + 1][1..];
      1 + n
  }

  function ReadLines(t: string): (ls: seq<string>)
    ensures AreLines(ls) && Join(ls) == t
  {
    if t == "" then [] else
      var n := FirstLine(t);
      var rest := ReadLines(t[n..]);
      assert ([t[..n]] + rest)[1..] == rest;
      assert t == t[..n] + t[n..];
      [t[..n]] + rest
  }

  lemma {:induction false} FirstLineOf(l: string, rest: string)
    requires IsLine(l) && (rest != "" ==> Ended(l))
    ensures FirstLine(l + rest) == |l|
    decreases |l|
  {
    if |l| > 1 {
      assert (l + rest)[1..] == l[1..] + rest;
      FirstLineOf(l[1..], rest);
    }
  }

  /** Writing lines and reading the text again gives the same lines. */
  lemma {:induction false} ReadJoined(ls: seq<string>)
    requires AreLines(ls)
    ensures ReadLines(Join(ls)) == ls
    decreases |ls|
  {
    if ls != [] {
      var rest := ls[1..];
      if rest == [] {
        assert Join(rest) == "";
      } else {
        assert Ended(ls[0]);
      }
      ReadJoined(rest);
      FirstLineOf(ls[0], Join(rest));
      assert (ls[0] + Join(rest))[|ls[0]|..] == Join(rest);
    }
  }

  // ---------------------------------------------------------------------------
  // Guards
  // ---------------------------------------------------------------------------

  const GUARD_ON: set<string> := {"// clang-format on", "# cmake-format: on", "# fmt: on"}
  const GUARD_OFF: set<string> := {"// clang-format off", "# cmake-format: off", "# fmt: off"}

  predicate IsGuard(l: string) {
    Strip(l) in GUARD_ON || Strip(l) in GUARD_OFF
  }

  /** Whether formatting is enabled after line `i`. */
  ghost predicate EnabledAfter(ls: seq<string>, i: nat)
    requires i < |ls|
  {
    if Strip(ls[i]) in GUARD_ON then true
    else if Strip(ls[i]) in GUARD_OFF then false
    else i == 0 || EnabledAfter(ls, i - 1)
  }

  /** Whether line `i` is checked at all: guard lines always are. */
  ghost predicate Processed(ls: seq<string>, i: nat, respectGuards: bool)
    requires i < |ls|
  {
    !respectGuards || EnabledAfter(ls, i) || IsGuard(ls[i])
  }

  // ---------------------------------------------------------------------------
  // The checker
  // ---------------------------------------------------------------------------

  /** A line check: whether the line is compliant, and the line fixed. */
  type LineCheck = string -> (bool, string)

  /** The lines after fixing. */
  ghost function Fixed(ls: seq<string>, respectGuards: bool, f: LineCheck): (r: seq<string>)
    ensures |r| == |ls|
    ensures forall i :: 0 <= i < |ls| ==>
              r[i] == if Processed(ls, i, respectGuards) && !f(ls[i]).0 then f(ls[i]).1 else ls[i]
  {
    seq(|ls|, i requires 0 <= i < |ls| =>
      if Processed(ls, i, respectGuards) && !f(ls[i]).0 then f(ls[i]).1 else ls[i])
  }

  /** Every line that is checked is compliant. */
  ghost predicate Compliant(ls: seq<string>, respectGuards: bool, f: LineCheck) {
    forall i :: 0 <= i < |ls| && Processed(ls, i, respectGuards) ==> f(ls[i]).0
  }

  /** The text that fix mode leaves behind. */
  ghost function FixedText(text: string, respectGuards: bool, f: LineCheck): string {
    Join(Fixed(ReadLines(text), respectGuards, f))
  }

  lemma CompliantIsFixed(ls: seq<string>, respectGuards: bool, f: LineCheck)
    requires Compliant(ls, respectGuards, f)
    ensures Fixed(ls, respectGuards, f) == ls
  {
    hide Processed;
  }

  lemma FixedTextValue(text: string, respectGuards: bool, f: LineCheck)
    ensures FixedText(text, respectGuards, f) == Join(Fixed(ReadLines(text), respectGuards, f))
    ensures Compliant(ReadLines(text), respectGuards, f) ==> FixedText(text, respectGuards, f) == text
  {
    hide Join, ReadLines, Compliant;
    if Compliant(ReadLines(text), respectGuards, f) {
      CompliantIsFixed(ReadLines(text), respectGuards, f);
    }
  }

  lemma CompliantMeans(ls: seq<string>, respectGuards: bool, f: LineCheck)
    ensures Compliant(ls, respectGuards, f) <==>
            forall i :: 0 <= i < |ls| && Processed(ls, i, respectGuards) ==> f(ls[i]).0
  {
  }

  /** Checks, and in fix mode rewrites, one file. */
  method CheckManuallyFile(text: string, fix: bool, verbose: bool, respectGuards: bool, f: LineCheck)
    returns (newText: string, isFileCompliant: bool)
    ensures isFileCompliant <==> Compliant(ReadLines(text), respectGuards, f)
    ensures newText == if fix then FixedText(text, respectGuards, f) else text
  {
    hide Strip, Join, ReadLines, FixedText, Compliant;
    isFileCompliant := true;
    var enabled := true;
    var original := ReadLines(text);
    var fileLines := original;
    for i := 0 to |original|
      invariant |fileLines| == |original|
      invariant respectGuards ==> enabled == (i == 0 || EnabledAfter(original, i - 1))
      invariant forall k :: 0 <= k < i ==> fileLines[k] == Fixed(original, respectGuards, f)[k]
      invariant forall k :: i <= k < |original| ==> fileLines[k] == original[k]
      invariant isFileCompliant <==> forall k :: 0 <= k < i && Processed(original, k, respectGuards) ==> f(original[k]).0
    {
      var line := original[i];
      if respectGuards {
        var stripped := Strip(line);
        if stripped in GUARD_ON {
          enabled := true;
        } else if stripped in GUARD_OFF {
          enabled := false;
        }
        if !enabled && stripped !in GUARD_ON + GUARD_OFF { continue; }
      }
      assert Processed(original, i, respectGuards);
      var (isLineCompliant, lineFixed) := f(line);
      if !isLineCompliant {
        isFileCompliant := false;
        fileLines := fileLines[i := lineFixed];
        // One error is enough when only checking.
        CompliantMeans(original, respectGuards, f);
        if !fix && !verbose { return text, false; }
      }
    }
    newText := text;
    FixedTextValue(text, respectGuards, f);
    CompliantMeans(original, respectGuards, f);
    if fix && !isFileCompliant {
      assert fileLines == Fixed(original, respectGuards, f);
      newText := Join(fileLines);
    }
  }

  // ---------------------------------------------------------------------------
  // Fixing and then checking
  // ---------------------------------------------------------------------------

  /** What a line check must satisfy: its fix is a compliant line again, ... */
  ghost predicate FixesLines(f: LineCheck) {
    forall l :: IsLine(l) && !f(l).0 ==> FixesLine(f, l)
  }

  ghost predicate FixesLine(f: LineCheck, l: string) {
    var r := f(l).1;
    f(r).0 && IsLine(r) && (Ended(l) ==> Ended(r))
  }

  /** ... and the fix of a guard line is the same guard. */
  ghost predicate KeepsGuards(f: LineCheck) {
    forall l :: IsLine(l) && IsGuard(l) && !f(l).0 ==> Strip(f(l).1) == Strip(l)
  }

  lemma FixedAreLines(ls: seq<string>, respectGuards: bool, f: LineCheck)
    requires AreLines(ls) && FixesLines(f)
    ensures AreLines(Fixed(ls, respectGuards, f))
  {
    hide Processed, IsLine, Ended;
    forall i | 0 <= i < |ls| ensures !f(ls[i]).0 ==> FixesLine(f, ls[i]) { assert IsLine(ls[i]); }
  }

  /** A fix may create a guard line, by expanding a tab, but only where formatting was enabled; so what is
      enabled in the second run was enabled in the first. */
  lemma {:induction false} EnabledShrinks(ls: seq<string>, f: LineCheck, i: nat)
    requires AreLines(ls) && KeepsGuards(f) && i < |ls|
    ensures EnabledAfter(Fixed(ls, true, f), i) ==> EnabledAfter(ls, i)
    ensures Processed(Fixed(ls, true, f), i, true) ==> Processed(ls, i, true)
  {
    hide Strip, IsLine, Ended;
    if i > 0 {
      EnabledShrinks(ls, f, i - 1);
    }
    assert IsLine(ls[i]);
  }

  lemma UnguardedIsProcessed(ls: seq<string>, i: nat)
    requires i < |ls|
    ensures Processed(ls, i, false)
  {
  }

  lemma FixedIsCompliant(ls: seq<string>, respectGuards: bool, f: LineCheck)
    requires AreLines(ls) && FixesLines(f) && (respectGuards ==> KeepsGuards(f))
    ensures Compliant(Fixed(ls, respectGuards, f), respectGuards, f)
  {
    hide Processed, IsLine, Ended, KeepsGuards;
    var r := Fixed(ls, respectGuards, f);
    forall i | 0 <= i < |r| && Processed(r, i, respectGuards) ensures f(r[i]).0 {
      if respectGuards { EnabledShrinks(ls, f, i); } else { UnguardedIsProcessed(ls, i); }
      assert IsLine(ls[i]);
      assert !f(ls[i]).0 ==> FixesLine(f, ls[i]);
    }
  }

  lemma FixedTextLines(text: string, respectGuards: bool, f: LineCheck)
    requires FixesLines(f)
    ensures ReadLines(FixedText(text, respectGuards, f)) == Fixed(ReadLines(text), respectGuards, f)
  {
    hide *;
    FixedAreLines(ReadLines(text), respectGuards, f);
    ReadJoined(Fixed(ReadLines(text), respectGuards, f));
    FixedTextValue(text, respectGuards, f);
  }

  /** Running the fixer and then checking again reports compliance, running it twice changes nothing more,
      and lines inside format-off regions are unchanged. */
  lemma FixThenCheck(text: string, respectGuards: bool, f: LineCheck)
    requires FixesLines(f) && (respectGuards ==> KeepsGuards(f))
    ensures var fixed := FixedText(text, respectGuards, f);
            && Compliant(ReadLines(fixed), respectGuards, f)
            && FixedText(fixed, respectGuards, f) == fixed
            && |ReadLines(fixed)| == |ReadLines(text)|
            && forall i :: 0 <= i < |ReadLines(text)| && !Processed(ReadLines(text), i, respectGuards) ==>
                 ReadLines(fixed)[i] == ReadLines(text)[i]
  {
    hide Processed, FixesLines, KeepsGuards, FixedText, Join;
    var ls := ReadLines(text);
    var fixed := FixedText(text, respectGuards, f);
    FixedTextLines(text, respectGuards, f);
    FixedIsCompliant(ls, respectGuards, f);
    CompliantIsFixed(ReadLines(fixed), respectGuards, f);
    FixedTextValue(fixed, respectGuards, f);
  }

  // ---------------------------------------------------------------------------
  // Trailing whitespace
  // ---------------------------------------------------------------------------

  function WhitespaceLine(l: string): (bool, string) {
    var fixed := RStrip(l) + "\n";
    (fixed == l, fixed)
  }

  lemma RStripNewline(s: string)
    ensures RStrip(RStrip(s) + "\n") == RStrip(s)
  {
    TrimmedEnd(RStrip(s));
  }

  lemma WhitespaceFixes(l: string)
    requires IsLine(l)
    ensures FixesLine(WhitespaceLine, l) && Strip(WhitespaceLine(l).1) == Strip(l)
  {
    RStripNewline(l);
    hide LStrip;
    var r := RStrip(l);
    forall i | 0 <= i < |r| ensures r[i] != '\n' {
      assert r[i] == l[i];
    }
  }

  lemma WhitespaceIsSound()
    ensures FixesLines(WhitespaceLine) && KeepsGuards(WhitespaceLine)
  {
    hide FixesLine, WhitespaceLine, Strip, IsLine;
    forall l | IsLine(l) ensures FixesLine(WhitespaceLine, l) && Strip(WhitespaceLine(l).1) == Strip(l) {
      WhitespaceFixes(l);
    }
  }

  /** The fix cuts off exactly the whitespace at the end: a line of text `x` followed by any whitespace
      becomes `x` with a newline, and is compliant exactly when that is what it was. */
  lemma WhitespaceIsCut(x: string, b: string)
    requires Blank(b) && (x != "" ==> !IsSpace(x[|x| - 1]))
    ensures WhitespaceLine(x + b).1 == x + "\n"
    ensures WhitespaceLine(x + b).0 <==> b == "\n"
  {
    hide IsSpace;
    var l := x + b;
    if x == "" {
      BlankRStrip(l);
    } else {
      assert l[|x|..] == b;
      RStripUnique(l, x);
    }
    assert (x + b)[|x|..] == b && (x + "\n")[|x|..] == "\n";
  }

  // ---------------------------------------------------------------------------
  // Tabs
  // ---------------------------------------------------------------------------

  const TAB_SIZE: nat := 4

  function Spaces(n: nat): (s: string)
    ensures |s| == n && forall i :: 0 <= i < n ==> s[i] == ' '
  {
    if n == 0 then "" else " " + Spaces(n - 1)
  }

  /** The number of spaces from column `col` to the next tab stop. */
  function TabWidth(col: nat): (n: nat)
    ensures 0 < n && (col == 8 ==> n == 4)
  {
    TAB_SIZE - col % TAB_SIZE
  }

  /** What one character becomes at column `col`. */
  function Expansion(c: char, col: nat): (r: string)
    ensures r != "" && (c != '\t' ==> r == [c])
    ensures c == '\t' ==> |r| == TabWidth(col) && forall i :: 0 <= i < |r| ==> r[i] == ' '
  {
    if c == '\t' then Spaces(TabWidth(col)) else [c]
  }

  /** The column after a character. */
  function After(c: char, col: nat): nat {
    if c == '\t' then col + TabWidth(col) else if c == '\n' || c == '\r' then 0 else col + 1
  }

  function ExpandTabs(s: string, col: nat): string {
    if s == "" then "" else Expansion(s[0], col) + ExpandTabs(s[1..], After(s[0], col))
  }

  function TabsLine(l: string): (bool, string) {
    if '\t' in l then (false, ExpandTabs(l, 0)) else (true, l)
  }

  function Column(s: string, col: nat): nat {
    if s == "" then col else Column(s[1..], After(s[0], col))
  }

  lemma {:induction false} ExpandConcat(s: string, t: string, col: nat)
    ensures ExpandTabs(s + t, col) == ExpandTabs(s, col) + ExpandTabs(t, Column(s, col))
    decreases |s|
  {
    hide Expansion, After;
    if s == "" {
      assert s + t == t;
    } else {
      assert (s + t)[1..] == s[1..] + t;
      ExpandConcat(s[1..], t, After(s[0], col));
    }
  }

  /** No tab is left, and nothing else changes. */
  lemma {:induction false} ExpandedHasNoTab(s: string, col: nat)
    ensures '\t' !in ExpandTabs(s, col)
    ensures '\t' !in s ==> ExpandTabs(s, col) == s
    ensures Blank(s) ==> Blank(ExpandTabs(s, col))
    decreases |s|
  {
    hide TabWidth, After, Spaces;
    if s != "" {
      ExpandedHasNoTab(s[1..], After(s[0], col));
    }
  }

  lemma {:induction false} ExpandedIsLine(s: string, col: nat)
    requires IsLine(s)
    ensures IsLine(ExpandTabs(s, col)) && (Ended(s) ==> Ended(ExpandTabs(s, col)))
    decreases |s|
  {
    hide TabWidth, After, Spaces;
    if |s| == 1 {
      assert ExpandTabs(s[1..], After(s[0], col)) == "";
    } else {
      assert s[0] != '\n';
      ExpandedIsLine(s[1..], After(s[0], col));
    }
  }

  /** A tab leads to the next multiple of the tab size. */
  lemma TabStop(col: nat)
    ensures TabWidth(col) == 4 - col % 4 && (col + TabWidth(col)) % 4 == 0
  {
  }

  lemma NextColumn(col: nat, other: nat)
    requires col % 4 == other % 4
    ensures (col + 1) % 4 == (other + 1) % 4
  {
  }

  lemma StepFromStop(c: char, col: nat, other: nat)
    requires col % TAB_SIZE == other % TAB_SIZE
    ensures Expansion(c, col) == Expansion(c, other)
    ensures After(c, col) % TAB_SIZE == After(c, other) % TAB_SIZE
  {
    hide Spaces, TabWidth;
    if c == '\t' {
      TabStop(col);
      TabStop(other);
    } else {
      NextColumn(col, other);
    }
  }

  lemma {:induction false} ExpandFromStop(s: string, col: nat, other: nat)
    requires col % TAB_SIZE == other % TAB_SIZE
    ensures ExpandTabs(s, col) == ExpandTabs(s, other)
    decreases |s|
  {
    hide After, Expansion;
    if s != "" {
      StepFromStop(s[0], col, other);
      ExpandFromStop(s[1..], After(s[0], col), After(s[0], other));
    }
  }

  /** The first tab of a line becomes the spaces up to the next multiple of the tab size, and what follows
      it is expanded as a line of its own. */
  lemma TabReachesNextStop(x: string, y: string) returns (n: nat)
    requires forall i :: 0 <= i < |x| ==> x[i] != '\t' && x[i] != '\n' && x[i] != '\r'
    ensures 0 < n <= 4 && (|x| + n) % 4 == 0
    ensures TabsLine(x + "\t" + y) == (false, x + Spaces(n) + TabsLine(y).1)
  {
    hide ExpandTabs, Column, Spaces;
    var l := x + "\t" + y;
    assert l[|x|] == '\t';
    n := TabWidth(|x|);
    ExpandConcat(x + "\t", y, 0);
    ExpandConcat(x, "\t", 0);
    ColumnConcat(x, "\t", 0);
    ColumnOfWord(x, 0);
    ExpandedHasNoTab(x, 0);
    ExpandOneTab(|x|);
    ExpandFromStop(y, |x| + n, 0);
    ExpandedHasNoTab(y, 0);
  }

  /** A newline or carriage return starts the columns over. */
  lemma ReturnStartsOver(x: string, c: char, y: string, col: nat)
    requires c == '\n' || c == '\r'
    ensures ExpandTabs(x + [c] + y, col) == ExpandTabs(x, col) + [c] + ExpandTabs(y, 0)
  {
    hide ExpandTabs, Column;
    ExpandConcat(x + [c], y, col);
    ExpandConcat(x, [c], col);
    ColumnConcat(x, [c], col);
    ColumnOfReturn(c, Column(x, col));
    ExpandedHasNoTab([c], Column(x, col));
  }

  lemma ColumnOfReturn(c: char, col: nat)
    requires c == '\n' || c == '\r'
    ensures Column([c], col) == 0
  {
    assert [c][1..] == "";
  }

  lemma ExpandOneTab(col: nat)
    ensures ExpandTabs("\t", col) == Spaces(TabWidth(col)) && Column("\t", col) == col + TabWidth(col)
  {
    hide Spaces;
    ExpandStep("\t", col);
    assert "\t"[1..] == "";
    assert Expansion('\t', col) + "" == Expansion('\t', col);
  }

  lemma {:induction false} ColumnConcat(s: string, t: string, col: nat)
    ensures Column(s + t, col) == Column(t, Column(s, col))
    decreases |s|
  {
    hide After;
    if s == "" {
      assert s + t == t;
    } else {
      assert (s + t)[1..] == s[1..] + t;
      ColumnConcat(s[1..], t, After(s[0], col));
    }
  }

  /** Expansion keeps the stripped middle of a line when that holds no tab. */
  lemma ExpandedStrip(l: string)
    requires '\t' !in Strip(l)
    ensures Strip(ExpandTabs(l, 0)) == Strip(l)
  {
    hide Strip, ExpandTabs, Column;
    var a, m, b := StripParts(l);
    ExpandConcat(a + m, b, 0);
    ExpandConcat(a, m, 0);
    ExpandedHasNoTab(a, 0);
    ExpandedHasNoTab(m, Column(a, 0));
    ExpandedHasNoTab(b, Column(a + m, 0));
    StripOf(ExpandTabs(a, 0), m, ExpandTabs(b, Column(a + m, 0)));
  }

  lemma GuardsHaveNoTab(l: string)
    requires IsGuard(l)
    ensures '\t' !in Strip(l)
  {
    hide Strip;
  }

  lemma TabsIsSound()
    ensures FixesLines(TabsLine) && KeepsGuards(TabsLine)
  {
    hide Strip, ExpandTabs, IsGuard;
    forall l | IsLine(l) && !TabsLine(l).0 ensures FixesLine(TabsLine, l) {
      ExpandedHasNoTab(l, 0);
      ExpandedIsLine(l, 0);
    }
    forall l | IsGuard(l) && !TabsLine(l).0 ensures Strip(TabsLine(l).1) == Strip(l) {
      GuardsHaveNoTab(l);
      ExpandedStrip(l);
    }
  }

  // ---------------------------------------------------------------------------
  // Quotes of includes
  // ---------------------------------------------------------------------------

  predicate At(l: string, k: nat, w: string) {
    k + |w| <= |l| && l[k..k + |w|] == w
  }

  /** A line `#include <ns3/... .h>`. */
  predicate IsNs3Include(l: string) {
    At(l, 0, "#include <ns3/") && exists k: nat | k < |l| :: 14 <= k && At(l, k, ".h>")
  }

  function Unquote(c: char): char {
    if c == '<' || c == '>' then '"' else c
  }

  function Quoted(s: string): (r: string)
    ensures |r| == |s|
  {
    seq(|s|, i requires 0 <= i < |s| => Unquote(s[i]))
  }

  function QuotesLine(l: string): (bool, string) {
    if IsNs3Include(l) then (false, Quoted(l)) else (true, l)
  }

  lemma IncludeStart(l: string)
    ensures At(l, 0, "#include <ns3/") ==> |l| >= 14 && l[0] == '#' && l[1] == 'i' && l[9] == '<'
  {
    if At(l, 0, "#include <ns3/") {
      var w := l[0..14];
      assert l[0] == w[0] && l[1] == w[1] && l[9] == w[9];
    }
  }

  lemma QuotesFixes(l: string)
    requires IsLine(l) && !QuotesLine(l).0
    ensures FixesLine(QuotesLine, l)
  {
    var r := QuotesLine(l).1;
    assert |r| == |l| && forall i :: 0 <= i < |r| ==> r[i] == Unquote(l[i]);
    IncludeStart(r);
  }

  lemma FirstOfConcat(a: string, b: string)
    ensures a != "" ==> (a + b)[0] == a[0]
  {
  }

  lemma StripIsPrefix(l: string)
    requires l != "" && !IsSpace(l[0])
    ensures Strip(l) != "" && Strip(l) <= l
  {
    hide Strip;
    var a, m, b := StripParts(l);
    assert l == a + (m + b);
    FirstOfConcat(a, m + b);
    FirstOfConcat(m, b);
  }

  lemma GuardStart(m: string)
    requires m in GUARD_ON || m in GUARD_OFF
    ensures |m| > 1 && (m[0] == '#' ==> m[1] == ' ')
  {
  }

  /** An include is no guard. */
  lemma IncludeIsNoGuard(l: string)
    requires IsNs3Include(l)
    ensures !IsGuard(l)
  {
    hide Strip;
    IncludeStart(l);
    StripIsPrefix(l);
    if IsGuard(l) {
      GuardStart(Strip(l));
    }
  }

  lemma QuotesIsSound()
    ensures FixesLines(QuotesLine) && KeepsGuards(QuotesLine)
  {
    hide IsGuard, FixesLine, IsLine, IsNs3Include, Strip;
    forall l | IsLine(l) && !QuotesLine(l).0 ensures FixesLine(QuotesLine, l) && !IsGuard(l) {
      QuotesFixes(l);
      IncludeIsNoGuard(l);
    }
  }

  /** The fix of an include turns every angle bracket into a quote, the closing ones too, and touches
      nothing else. */
  lemma QuotesReplaceBrackets(l: string)
    requires IsNs3Include(l)
    ensures var (ok, r) := QuotesLine(l);
            && !ok && |r| == |l| && '<' !in r && '>' !in r
            && forall i :: 0 <= i < |l| ==> r[i] == if l[i] == '<' || l[i] == '>' then '"' else l[i]
  {
  }

  /** An include of `ns3/`, a header name and `.h` is rewritten to the same include in quotes. */
  lemma IncludeIsQuoted(h: string, tail: string)
    requires '<' !in h && '>' !in h && '<' !in tail && '>' !in tail
    ensures QuotesLine("#include <ns3/" + h + ".h>" + tail) == (false, "#include \"ns3/" + h + ".h\"" + tail)
  {
    hide IsNs3Include;
    var l := "#include <ns3/" + h + ".h>" + tail;
    var r := "#include \"ns3/" + h + ".h\"" + tail;
    ConcreteInclude(h, tail);
    QuotesReplaceBrackets(l);
    QuoteParts("#include <ns3/", "#include \"ns3/");
    QuoteParts(".h>", ".h\"");
    NoBrackets(h);
    NoBrackets(tail);
    QuoteConcat("#include <ns3/", h);
    QuoteConcat("#include <ns3/" + h, ".h>");
    QuoteConcat("#include <ns3/" + h + ".h>", tail);
    assert QuotesLine(l).1 == Quoted(l);
  }

  lemma ConcreteInclude(h: string, tail: string)
    ensures IsNs3Include("#include <ns3/" + h + ".h>" + tail)
  {
    var l := "#include <ns3/" + h + ".h>" + tail;
    var k := 14 + |h|;
    assert l[0..14] == "#include <ns3/" && l[k..k + 3] == ".h>";
    assert At(l, k, ".h>") && k < |l|;
  }

  lemma QuoteConcat(a: string, b: string)
    ensures Quoted(a + b) == Quoted(a) + Quoted(b)
  {
  }

  lemma NoBrackets(s: string)
    requires '<' !in s && '>' !in s
    ensures Quoted(s) == s
  {
  }

  lemma QuoteParts(s: string, r: string)
    requires |r| == |s| && forall i :: 0 <= i < |s| ==> r[i] == if s[i] == '<' || s[i] == '>' then '"' else s[i]
    ensures Quoted(s) == r
  {
  }

  // ---------------------------------------------------------------------------
  // The checks one after the other
  // ---------------------------------------------------------------------------

  /** A fix of trailing whitespace makes no new include, ... */
  lemma WhitespaceMakesNoInclude(l: string)
    requires IsNs3Include(WhitespaceLine(l).1)
    ensures IsNs3Include(l)
  {
    var r := RStrip(l);
    var f := r + "\n";
    assert WhitespaceLine(l).1 == f;
    AtOfStart(r, l, 0, "#include <ns3/");
    var k: nat :| k < |f| && 14 <= k && At(f, k, ".h>");
    AtOfStart(r, l, k, ".h>");
  }

  lemma AtOfStart(r: string, l: string, k: nat, w: string)
    requires r <= l && At(r + "\n", k, w) && w != "" && w[|w| - 1] != '\n'
    ensures At(l, k, w) && k < |l|
  {
    var f := r + "\n";
    assert f[k..k + |w|][|w| - 1] == f[k + |w| - 1];
    assert forall i :: k <= i < k + |w| ==> l[i] == f[i];
  }

  lemma ExpandStep(s: string, col: nat)
    requires s != ""
    ensures ExpandTabs(s, col) == Expansion(s[0], col) + ExpandTabs(s[1..], After(s[0], col))
  {
  }

  /** ... and neither does the expansion of tabs: text without spaces that it leaves was there before. */
  lemma {:induction false} ExpandedStart(s: string, col: nat, w: string)
    requires w <= ExpandTabs(s, col) && forall i :: 0 <= i < |w| ==> w[i] != ' '
    ensures w <= s && (w != "" ==> ExpandTabs(s, col)[|w|..] == ExpandTabs(s[|w|..], Column(w, col)))
    decreases |w|
  {
    hide TabWidth, After, Spaces, Expansion;
    if w != "" {
      var e := Expansion(s[0], col);
      var t := ExpandTabs(s[1..], After(s[0], col));
      assert ExpandTabs(s, col) == e + t;
      assert e[0] == w[0];
      assert e == [s[0]];
      assert w[1..] <= t;
      ExpandedStart(s[1..], After(s[0], col), w[1..]);
      assert s[1..][|w| - 1..] == s[|w|..];
      assert (e + t)[|w|..] == t[|w| - 1..];
      if |w| == 1 { assert w[1..] == ""; }
    }
  }

  /** A word without spaces that is not at the very start lies behind the expansion of the first character. */
  lemma BehindFirst(e: string, t: string, k: nat, w: string)
    requires At(e + t, k, w) && w != "" && w[0] != ' ' && k > 0 && e != ""
    requires |e| == 1 || forall i :: 0 <= i < |e| ==> e[i] == ' '
    ensures k >= |e| && At(t, k - |e|, w)
  {
    var x := e + t;
    assert x[k] == x[k..k + |w|][0];
    assert k >= |e|;
    assert x[k..k + |w|] == t[k - |e|..k - |e| + |w|];
  }

  lemma {:induction false} ExpandedAt(s: string, col: nat, k: nat, w: string) returns (j: nat)
    requires At(ExpandTabs(s, col), k, w) && w != "" && forall i :: 0 <= i < |w| ==> w[i] != ' '
    ensures At(s, j, w) && j < |s|
    decreases |s|
  {
    hide TabWidth, After, Spaces, Expansion, At;
    AtStart(ExpandTabs(s, col), w);
    AtStart(s, w);
    if k == 0 {
      ExpandedStart(s, col, w);
      j := 0;
    } else {
      AtLong(ExpandTabs(s, col), k, w);
      ExpandStep(s, col);
      var e, t := Expansion(s[0], col), ExpandTabs(s[1..], After(s[0], col));
      BehindFirst(e, t, k, w);
      var i := ExpandedAt(s[1..], After(s[0], col), k - |e|, w);
      j := i + 1;
      AtDrop(s, 1, i, w);
    }
  }

  lemma {:induction false} ColumnOfWord(w: string, col: nat)
    requires forall i :: 0 <= i < |w| ==> w[i] != '\t' && w[i] != '\n' && w[i] != '\r'
    ensures Column(w, col) == col + |w|
    decreases |w|
  {
    if w != "" {
      ColumnOfWord(w[1..], After(w[0], col));
    }
  }

  lemma AtParts(l: string, k: nat, v: string, w: string)
    ensures At(l, k, v + w) <==> At(l, k, v) && At(l, k + |v|, w)
  {
    if k + |v| + |w| <= |l| {
      assert l[k..k + |v| + |w|] == l[k..k + |v|] + l[k + |v|..k + |v| + |w|];
      assert (v + w)[..|v|] == v && (v + w)[|v|..] == w;
      assert (l[k..k + |v|] + l[k + |v|..k + |v| + |w|])[..|v|] == l[k..k + |v|];
      assert (l[k..k + |v|] + l[k + |v|..k + |v| + |w|])[|v|..] == l[k + |v|..k + |v| + |w|];
    }
  }

  lemma AtDrop(l: string, d: nat, k: nat, w: string)
    requires d <= |l|
    ensures At(l[d..], k, w) <==> At(l, d + k, w)
  {
    if d + k + |w| <= |l| {
      assert l[d..][k..k + |w|] == l[d + k..d + k + |w|];
    }
  }

  /** A tab in column 8 is four spaces, never the one of an include. */
  lemma SpaceInColumnEight(s: string)
    requires At(ExpandTabs(s, 8), 0, " <")
    ensures s != "" && s[0] == ' ' && ExpandTabs(s, 8)[1..] == ExpandTabs(s[1..], 9)
  {
    hide TabWidth, Spaces, Expansion;
    var x := ExpandTabs(s, 8);
    assert x[0] == x[0..2][0] && x[1] == x[0..2][1];
    ExpandStep(s, 8);
  }

  lemma ExpandedInclude(l: string)
    requires At(ExpandTabs(l, 0), 0, "#include <ns3/")
    ensures At(l, 0, "#include <ns3/") && ExpandTabs(l, 0)[14..] == ExpandTabs(l[14..], 14)
  {
    hide ExpandTabs, At;
    var x := ExpandTabs(l, 0);
    IncludeParts(x);
    AtStart(x, "#include");
    ExpandedStart(l, 0, "#include");
    ColumnOfWord("#include", 0);
    var y := x[8..];
    assert y == ExpandTabs(l[8..], 8);
    AtDrop(x, 8, 0, " <");
    SpaceInColumnEight(l[8..]);
    assert l[8..][1..] == l[9..] && y[1..] == x[9..];
    AtDrop(x, 9, 0, "<ns3/");
    AtStart(x[9..], "<ns3/");
    ExpandedStart(l[9..], 9, "<ns3/");
    ColumnOfWord("<ns3/", 9);
    assert l[9..][5..] == l[14..] && x[9..][5..] == x[14..];
    AtStart(l, "#include");
    AtStart(l[9..], "<ns3/");
    AtDrop(l, 9, 0, "<ns3/");
    AtSpace(l);
    IncludeFromParts(l);
  }

  lemma AtStart(l: string, w: string)
    ensures At(l, 0, w) <==> w <= l
  {
  }

  lemma AtSpace(l: string)
    ensures At(l, 8, " ") <==> |l| > 8 && l[8] == ' '
  {
    if |l| > 8 { assert l[8..9] == [l[8]]; }
  }

  lemma IncludeParts(x: string)
    requires At(x, 0, "#include <ns3/")
    ensures |x| >= 14 && At(x, 0, "#include") && At(x, 8, " <") && At(x, 9, "<ns3/")
  {
    hide At;
    AtParts(x, 0, "#include", " <ns3/");
    AtParts(x, 8, " <", "ns3/");
    AtParts(x, 8, " ", "<ns3/");
    assert "#include" + " <ns3/" == "#include <ns3/" && " <" + "ns3/" == " <ns3/" && " " + "<ns3/" == " <ns3/";
    AtLong(x, 0, "#include <ns3/");
  }

  lemma AtLong(x: string, k: nat, w: string)
    ensures At(x, k, w) ==> |x| >= k + |w|
  {
  }

  lemma IncludeFromParts(l: string)
    requires At(l, 0, "#include") && At(l, 8, " ") && At(l, 9, "<ns3/")
    ensures At(l, 0, "#include <ns3/")
  {
    hide At;
    AtParts(l, 0, "#include ", "<ns3/");
    AtParts(l, 0, "#include", " ");
    assert "#include " + "<ns3/" == "#include <ns3/" && "#include" + " " == "#include ";
  }

  lemma TabsMakeNoInclude(l: string)
    requires IsNs3Include(TabsLine(l).1)
    ensures IsNs3Include(l)
  {
    hide ExpandTabs, At;
    if '\t' in l {
      var x := ExpandTabs(l, 0);
      ExpandedInclude(l);
      IncludeParts(x);
      AtLong(l, 0, "#include <ns3/");
      var k: nat :| k < |x| && 14 <= k && At(x, k, ".h>");
      AtDrop(x, 14, k - 14, ".h>");
      var j := ExpandedAt(l[14..], 14, k - 14, ".h>");
      AtDrop(l, 14, j, ".h>");
      assert At(l, 14 + j, ".h>");
    }
  }

  /** Expanding tabs leaves no whitespace behind at the end. */
  lemma TabsKeepTrimmed(l: string)
    requires WhitespaceLine(l).0
    ensures WhitespaceLine(TabsLine(l).1).0
  {
    hide ExpandTabs, Column;
    if '\t' in l {
      var r := RStrip(l);
      var c := Column(r, 0);
      ExpandConcat(r, "\n", 0);
      ExpandedHasNoTab("\n", c);
      assert l == r + "\n" && ExpandTabs(l, 0) == ExpandTabs(r, 0) + "\n";
      ExpandedEnd(r, 0);
      TrimmedEnd(ExpandTabs(r, 0));
    }
  }

  lemma TrimmedEnd(r: string)
    requires r != "" ==> !IsSpace(r[|r| - 1])
    ensures RStrip(r + "\n") == r
  {
    if r == "" {
      BlankRStrip(r + "\n");
    } else {
      RStripUnique(r + "\n", r);
    }
  }

  /** Expanding keeps the end of a trimmed text. */
  lemma ExpandedEnd(s: string, col: nat)
    requires s != "" ==> !IsSpace(s[|s| - 1])
    ensures var r := ExpandTabs(s, col); r != "" ==> !IsSpace(r[|r| - 1])
  {
    hide Column, Expansion;
    if s != "" {
      var last := [s[|s| - 1]];
      assert s == s[..|s| - 1] + last;
      ExpandConcat(s[..|s| - 1], last, col);
      ExpandedHasNoTab(last, Column(s[..|s| - 1], col));
    }
  }

  // ---------------------------------------------------------------------------
  // All three checks
  // ---------------------------------------------------------------------------

  /** What fix mode leaves behind after all three checks, in the order in which they run. */
  ghost function AllFixed(text: string): string {
    var quoted := FixedText(text, true, QuotesLine);
    var trimmed := FixedText(quoted, false, WhitespaceLine);
    FixedText(trimmed, true, TabsLine)
  }

  lemma {:induction false} SameGuardsSameRegions(ls: seq<string>, ms: seq<string>, i: nat)
    requires |ls| == |ms| && i < |ls|
    requires forall k :: 0 <= k < |ls| ==> Strip(ls[k]) == Strip(ms[k])
    ensures EnabledAfter(ls, i) == EnabledAfter(ms, i) && Processed(ls, i, true) == Processed(ms, i, true)
    decreases i
  {
    hide Strip;
    if i > 0 {
      SameGuardsSameRegions(ls, ms, i - 1);
    }
  }

  /** Trimming changes no region: it keeps every line's stripped middle. */
  lemma TrimmedRegions(ls: seq<string>, i: nat)
    requires AreLines(ls) && i < |ls|
    ensures Processed(Fixed(ls, false, WhitespaceLine), i, true) == Processed(ls, i, true)
  {
    hide Strip, WhitespaceLine, EnabledAfter, IsLine, Ended;
    var ms := Fixed(ls, false, WhitespaceLine);
    forall k | 0 <= k < |ls| ensures Strip(ms[k]) == Strip(ls[k]) {
      assert IsLine(ls[k]);
      WhitespaceFixes(ls[k]);
    }
    SameGuardsSameRegions(ms, ls, i);
  }

  /** Each later fix keeps what the earlier ones established. */
  lemma LaterFixesKeep(ls: seq<string>)
    requires AreLines(ls) && Compliant(ls, true, QuotesLine)
    ensures var trimmed := Fixed(ls, false, WhitespaceLine);
            var done := Fixed(trimmed, true, TabsLine);
            Compliant(done, true, QuotesLine) && Compliant(done, false, WhitespaceLine)
  {
    hide Processed, IsNs3Include, WhitespaceLine, TabsLine, IsLine, Ended, FixesLines, KeepsGuards;
    var trimmed := Fixed(ls, false, WhitespaceLine);
    var done := Fixed(trimmed, true, TabsLine);
    WhitespaceIsSound();
    TabsIsSound();
    FixedAreLines(ls, false, WhitespaceLine);
    FixedIsCompliant(ls, false, WhitespaceLine);
    forall i | 0 <= i < |done|
      ensures WhitespaceLine(done[i]).0
      ensures Processed(done, i, true) ==> QuotesLine(done[i]).0
    {
      UnguardedIsProcessed(trimmed, i);
      TabsKeepTrimmed(trimmed[i]);
      EnabledShrinks(trimmed, TabsLine, i);
      TrimmedRegions(ls, i);
      if IsNs3Include(done[i]) && Processed(done, i, true) {
        NoNewInclude(trimmed[i], done[i], TabsLine(trimmed[i]).1);
        NoNewIncludeTrimmed(ls[i], trimmed[i]);
      }
    }
    UnguardedCompliant(done);
  }

  lemma UnguardedCompliant(ls: seq<string>)
    requires forall i :: 0 <= i < |ls| ==> WhitespaceLine(ls[i]).0
    ensures Compliant(ls, false, WhitespaceLine)
  {
    hide WhitespaceLine, Processed;
  }

  lemma NoNewInclude(l: string, r: string, t: string)
    requires t == TabsLine(l).1 && (r == l || r == t) && IsNs3Include(r)
    ensures IsNs3Include(l)
  {
    hide IsNs3Include, TabsLine;
    if r != l {
      TabsMakeNoInclude(l);
    }
  }

  lemma NoNewIncludeTrimmed(l: string, r: string)
    requires (r == l || r == WhitespaceLine(l).1) && IsNs3Include(r)
    ensures IsNs3Include(l)
  {
    hide IsNs3Include, WhitespaceLine;
    if r != l {
      WhitespaceMakesNoInclude(l);
    }
  }

  /** After one fixing run over all three checks, a checking run finds nothing: no later fix undoes an
      earlier one. */
  lemma AllFixedIsCompliant(text: string)
    ensures var ls := ReadLines(AllFixed(text));
            Compliant(ls, true, QuotesLine) && Compliant(ls, false, WhitespaceLine) && Compliant(ls, true, TabsLine)
  {
    hide ReadLines, Join, FixedText, Fixed, Compliant, FixesLines, KeepsGuards, AreLines,
      QuotesLine, WhitespaceLine, TabsLine;
    QuotesIsSound();
    WhitespaceIsSound();
    TabsIsSound();
    var quoted := FixedText(text, true, QuotesLine);
    FixThenCheck(text, true, QuotesLine);
    var trimmed := FixedText(quoted, false, WhitespaceLine);
    FixedTextLines(quoted, false, WhitespaceLine);
    FixThenCheck(trimmed, true, TabsLine);
    FixedTextLines(trimmed, true, TabsLine);
    LaterFixesKeep(ReadLines(quoted));
  }

  lemma ExpandComment(w: string)
    requires '\t' !in w
    ensures ExpandTabs(" //" + "\t" + w, 0) == " //" + " " + w
  {
    hide ExpandTabs, Column;
    ExpandConcat(" //" + "\t", w, 0);
    ExpandConcat(" //", "\t", 0);
    ColumnOfWord(" //", 0);
    ExpandedHasNoTab(" //", 0);
    ExpandedHasNoTab(w, Column(" //" + "\t", 0));
    ExpandTabAtThree();
  }

  lemma ExpandTabAtThree()
    ensures ExpandTabs("\t", 3) == " "
  {
    hide Spaces;
    ExpandStep("\t", 3);
    assert "\t"[1..] == "" && Expansion('\t', 3) == " ";
  }

  /** A comment that is a guard but for a tab. */
  ghost function AlmostGuard(w: string): string {
    " //" + "\t" + w
  }

  lemma AlmostGuardBecomesGuard(w: string)
    requires "//" + " " + w in GUARD_OFF && '\t' !in w && '\n' !in w && w != "" && !IsSpace(w[|w| - 1])
    ensures var l := AlmostGuard(w);
            IsLine(l) && !IsGuard(l) && !TabsLine(l).0 && Strip(TabsLine(l).1) in GUARD_OFF
  {
    hide Strip, ExpandTabs;
    var l := AlmostGuard(w);
    assert '\t' in l by { assert l[3] == '\t'; }
    ExpandComment(w);
    var m, g := "//" + "\t" + w, "//" + " " + w;
    assert l == " " + m + "" && " //" + " " + w == " " + g + "";
    StripOf(" ", m, "");
    StripOf(" ", g, "");
    assert m[2] == '\t';
    if IsGuard(l) {
      GuardsHaveNoTab(l);
    }
  }

  /** A fix can create a guard line: the regions of the second run are not those of the first. */
  lemma FixMayCreateGuard()
    ensures exists l :: IsLine(l) && !IsGuard(l) && Strip(TabsLine(l).1) in GUARD_OFF
  {
    hide Strip, TabsLine, IsGuard, AlmostGuard, IsLine;
    var w := "clang-format off";
    assert "//" + " " + w == "// clang-format off";
    AlmostGuardBecomesGuard(w);
    var l := AlmostGuard(w);
    assert IsLine(l) && !IsGuard(l);
  }
}
