/**
 * The string logic of pasting: carriage-return normalisation, the lines of
 * the pasted text, the measurement of their common indentation (first pass)
 * and the re-indented text inserted at the cursor (second pass).
 */
module Paste {
  import opened Wrappers
  import opened TextLines

  // ----- carriage returns -----

  /** The pasted text with each "\r\n" and each other '\r' turned into '\n'. */
  function Normalised(t: string): (r: string)
    ensures '\r' !in r
    ensures '\r' !in t ==> r == t
    decreases |t|
  {
    if t == [] then []
    else if t[0] == '\r' then "\n" + Normalised(if |t| >= 2 && t[1] == '\n' then t[2..] else t[1..])
    else [t[0]] + Normalised(t[1..])
  }

  /** The loop of paste that rewrites carriage returns in place. */
  method NormaliseNewlines(text: string) returns (r: string)
    ensures r == Normalised(text)
  {
    r := text;
    var c := 0;
    while c < |r|
      invariant c <= |r|
      invariant r[..c] + Normalised(r[c..]) == Normalised(text)
    {
      if r[c] == '\r' {
        var skip := if c + 1 < |r| && r[c + 1] == '\n' then 2 else 1;
        NormaliseStepCr(r, c, skip);
        r := r[..c] + "\n" + r[c + skip..];
      } else {
        NormaliseStepOther(r, c);
      }
      c := c + 1;
    }
    assert r[..c] == r;
  }

  lemma NormaliseStepCr(r: string, c: nat, skip: nat)
    requires c < |r| && r[c] == '\r'
    requires skip == if c + 1 < |r| && r[c + 1] == '\n' then 2 else 1
    ensures var r' := r[..c] + "\n" + r[c + skip..];
            |r'| > c && r'[..c + 1] + Normalised(r'[c + 1..]) == r[..c] + Normalised(r[c..])
  {
    NormalisedCr(r[c..], skip);
    assert r[c..][skip..] == r[c + skip..];
    SplitAround(r[..c], '\n', r[c + skip..]);
    Regroup(r[..c], "\n", Normalised(r[c + skip..]));
  }

  /** Cutting `a + [x] + b` just after `x`. */
  lemma SplitAround(a: string, x: char, b: string)
    ensures (a + [x] + b)[..|a| + 1] == a + [x] && (a + [x] + b)[|a| + 1..] == b
  {
  }

  lemma Regroup(a: string, b: string, c: string)
    ensures a + b + c == a + (b + c)
  {
  }

  lemma NormalisedCr(t: string, skip: nat)
    requires t != [] && t[0] == '\r'
    requires skip == if 1 < |t| && t[1] == '\n' then 2 else 1
    ensures Normalised(t) == "\n" + Normalised(t[skip..])
  {
  }

  lemma NormaliseStepOther(r: string, c: nat)
    requires c < |r| && r[c] != '\r'
    ensures r[..c + 1] + Normalised(r[c + 1..]) == r[..c] + Normalised(r[c..])
  {
    var rest := r[c..];
    assert rest[1..] == r[c + 1..];
    assert Normalised(rest) == [r[c]] + Normalised(r[c + 1..]);
    assert r[..c + 1] == r[..c] + [r[c]];
    Regroup(r[..c], [r[c]], Normalised(r[c + 1..]));
  }

  /** "\r\n" and a lone '\r' both become one '\n'. */
  lemma NormalisedExample()
    ensures Normalised("a\r\nb\rc") == "a\nb\nc"
  {
    assert Normalised("c") == "c";
    assert Normalised("\rc") == "\nc";
    assert Normalised("b\rc") == "b\nc";
    assert Normalised("\r\nb\rc") == "\nb\nc";
  }

  /** Whether the pasted text holds only line breaks and blanks. */
  predicate OnlyWhitespace(t: string)
  {
    forall i :: 0 <= i < |t| ==> t[i] == '\n' || t[i] == '\r' || IsBlank(t[i])
  }

  // ----- the lines of the pasted text -----

  /**
   * The lines the paste loops visit: a line ends at each '\n' and at the
   * last character, so a final '\n' starts no further line.
   */
  function PasteLines(t: string): (ls: seq<string>)
    ensures forall k :: 0 <= k < |ls| ==> '\n' !in ls[k]
    decreases |t|
  {
    if t == [] then []
    else
      var n := NewlineIndex(t);
      if n == |t| then [t] else [t[..n]] + PasteLines(t[n + 1..])
  }

  lemma PasteLinesCons(t: string, k: nat)
    requires k < |t| && t[k] == '\n'
    requires forall i :: 0 <= i < k ==> t[i] != '\n'
    ensures PasteLines(t) == [t[..k]] + PasteLines(t[k + 1..])
  {
  }

  lemma PasteLinesSingle(t: string)
    requires t != []
    requires forall i :: 0 <= i < |t| ==> t[i] != '\n'
    ensures PasteLines(t) == [t]
  {
  }

  /** One line per '\n', plus one for a last line that is not ended by '\n'. */
  lemma {:induction false} PasteLinesCount(t: string)
    ensures multiset(t)['\n'] + (if t != [] && t[|t| - 1] != '\n' then 1 else 0) == |PasteLines(t)|
    decreases |t|
  {
    if t != [] {
      var n := NewlineIndex(t);
      if n == |t| {
        assert '\n' !in t;
      } else {
        PasteLinesCount(t[n + 1..]);
        NewlinesAround(t, n);
      }
    }
  }

  /** Splitting at the first '\n' leaves one '\n' fewer and the same last character. */
  lemma NewlinesAround(t: string, n: nat)
    requires n < |t| && t[n] == '\n' && forall i :: 0 <= i < n ==> t[i] != '\n'
    ensures multiset(t)['\n'] == 1 + multiset(t[n + 1..])['\n']
    ensures t[n + 1..] != [] ==> t[|t| - 1] == t[n + 1..][|t[n + 1..]| - 1]
    ensures t[n + 1..] == [] ==> t[|t| - 1] == '\n'
  {
    assert t == t[..n] + "\n" + t[n + 1..];
    assert '\n' !in t[..n];
    assert multiset(t) == multiset(t[..n]) + multiset("\n") + multiset(t[n + 1..]);
  }

  // ----- first pass: the common indentation -----

  /** The number of leading `ch` characters. */
  function Leading(line: string, ch: char): (n: nat)
    ensures n <= |line|
    ensures forall i :: 0 <= i < n ==> line[i] == ch
    ensures n == |line| || line[n] != ch
  {
    if line == [] || line[0] != ch then 0 else 1 + Leading(line[1..], ch)
  }

  /** The loop that counts a line's leading tab characters and notes whether nothing else is on it. */
  method CountLeading(line: string, ch: char) returns (n: nat, onlyTabs: bool)
    ensures n == Leading(line, ch)
    ensures onlyTabs <==> n == |line|
  {
    n := 0;
    onlyTabs := true;
    for i := 0 to |line|
      invariant n == i && onlyTabs
      invariant forall j :: 0 <= j < i ==> line[j] == ch
    {
      if line[i] == ch {
        n := n + 1;
      } else {
        onlyTabs := false;
        LeadingAt(line, ch, i);
        return;
      }
    }
    LeadingAt(line, ch, |line|);
  }

  lemma LeadingAt(line: string, ch: char, i: nat)
    requires i <= |line|
    requires forall j :: 0 <= j < i ==> line[j] == ch
    requires i == |line| || line[i] != ch
    ensures Leading(line, ch) == i
  {
  }

  /** The last character of a line that is not a blank, or the null character when there is none. */
  function LastNonBlank(line: string): (r: char)
    ensures (forall i :: 0 <= i < |line| ==> IsBlank(line[i])) ==> r == 0 as char
    ensures r == 0 as char ||
            exists i :: 0 <= i < |line| && line[i] == r && !IsBlank(r) &&
                        forall j :: i < j < |line| ==> IsBlank(line[j])
  {
    if line == [] then 0 as char
    else if !IsBlank(line[|line| - 1]) then line[|line| - 1]
    else LastNonBlank(line[..|line| - 1])
  }

  /** The Python check's loop over the line. */
  method FindLastNonBlank(line: string) returns (last: char)
    ensures last == LastNonBlank(line)
  {
    last := 0 as char;
    for i := 0 to |line|
      invariant last == LastNonBlank(line[..i])
    {
      assert line[..i + 1][..i] == line[..i];
      if !IsBlank(line[i]) {
        last := line[i];
      }
    }
    assert line[..|line|] == line;
  }

  /**
   * The first pass's variables: whether the first line is still to come,
   * whether it set the indentation, and the smallest indentation so far
   * (None for the initial `size_t(-1)`).
   */
  datatype Indent = Indent(first: bool, hasTabs: bool, tabs: Option<nat>)

  const Unmeasured := Indent(true, false, None)

  /** The first pass's handling of one line. */
  function MeasureLine(st: Indent, line: string, tabChar: char, python: bool): Indent
  {
    var n := Leading(line, tabChar);
    if st.first then
      if n != 0 then Indent(false, true, Some(n))
      else if python && LastNonBlank(line) == ':' then Indent(false, true, Some(n))
      else st.(first := false)
    else if n == |line| then st
    else st.(tabs := Some(if st.tabs.Some? && st.tabs.value < n then st.tabs.value else n))
  }

  /** The first pass over all lines. */
  function Measure(ls: seq<string>, tabChar: char, python: bool): Indent
  {
    if ls == [] then Unmeasured
    else MeasureLine(Measure(ls[..|ls| - 1], tabChar, python), ls[|ls| - 1], tabChar, python)
  }

  lemma MeasureSnoc(done: seq<string>, line: string, tabChar: char, python: bool)
    ensures Measure(done + [line], tabChar, python) == MeasureLine(Measure(done, tabChar, python), line, tabChar, python)
  {
    assert (done + [line])[..|done|] == done;
  }

  /** The indentation every line loses (`paste_line_tabs`), 0 when nothing was measured. */
  function PasteTabs(m: Indent): nat
  {
    if m.tabs.Some? then m.tabs.value else 0
  }

  /**
   * The measured indentation is at most the leading tab count of every line
   * after the first that holds something other than tab characters, and of
   * the first line when that line set it.
   */
  lemma {:induction false} MeasureIsMinimum(ls: seq<string>, tabChar: char, python: bool)
    ensures var m := Measure(ls, tabChar, python);
            && (m.first <==> ls == [])
            && (m.tabs.Some? ==> forall k :: 1 <= k < |ls| && Leading(ls[k], tabChar) < |ls[k]| ==>
                                   m.tabs.value <= Leading(ls[k], tabChar))
            && (m.hasTabs ==> m.tabs.Some? && m.tabs.value <= Leading(ls[0], tabChar))
            && (!m.hasTabs ==> forall k :: 1 <= k < |ls| && Leading(ls[k], tabChar) < |ls[k]| ==> m.tabs.Some?)
  {
    if ls != [] {
      var init := ls[..|ls| - 1];
      MeasureIsMinimum(init, tabChar, python);
      var m0 := Measure(init, tabChar, python);
      var m := Measure(ls, tabChar, python);
      forall k | 0 <= k < |init|
        ensures init[k] == ls[k]
      {
      }
    }
  }

  // ----- second pass: the inserted text -----

  /** A line without its first `min(n, leading tab characters)` characters. */
  function Dropped(line: string, n: nat, tabChar: char): (r: string)
    ensures |r| <= |line| && r == line[|line| - |r|..]
    ensures |line| - |r| <= n
    ensures forall i :: 0 <= i < |line| - |r| ==> line[i] == tabChar
  {
    var k := Leading(line, tabChar);
    line[if n < k then n else k..]
  }

  /** What the second pass inserts for one line. */
  function EmitLine(first: bool, line: string, tabs: nat, hasTabs: bool, prefix: string, tabChar: char): string
  {
    if first then (if hasTabs then Dropped(line, tabs, tabChar) else line)
    else "\n" + prefix + Dropped(line, tabs, tabChar)
  }

  /** What the second pass inserts for all lines. */
  function Emit(ls: seq<string>, tabs: nat, hasTabs: bool, prefix: string, tabChar: char): string
  {
    if ls == [] then []
    else Emit(ls[..|ls| - 1], tabs, hasTabs, prefix, tabChar) +
         EmitLine(|ls| == 1, ls[|ls| - 1], tabs, hasTabs, prefix, tabChar)
  }

  /** The whole text inserted for a paste (after the selection was erased). */
  function Reindented(text: string, tabChar: char, python: bool, prefix: string): string
  {
    var ls := PasteLines(text);
    var m := Measure(ls, tabChar, python);
    Emit(ls, PasteTabs(m), m.hasTabs, prefix, tabChar) +
    (if text != [] && text[|text| - 1] == '\n' then "\n" + prefix else [])
  }

  /** The lines still to be visited from `start` on (none once `start` is past the end). */
  function RestLines(text: string, start: nat): seq<string>
  {
    if start <= |text| then PasteLines(text[start..]) else []
  }

  /**
   * The line detection shared by both passes after `c` characters: the
   * lines already handled, where the current line starts, and no '\n' in it
   * so far.
   */
  ghost predicate Scanning(text: string, c: nat, start: nat, done: seq<string>)
  {
    && c <= |text|
    && (start <= c || (c == |text| && start == |text| + 1))
    && (c == |text| && start <= |text| ==> start == |text|)
    && (start <= c ==> forall i :: start <= i < c ==> text[i] != '\n')
    && PasteLines(text) == done + RestLines(text, start)
  }

  /** A character other than '\n' that is not the last one continues the current line. */
  lemma ScanStep(text: string, c: nat, start: nat, done: seq<string>)
    requires c < |text| && Scanning(text, c, start, done)
    ensures start <= c
    ensures text[c] != '\n' && c != |text| - 1 ==> Scanning(text, c + 1, start, done)
  {
  }

  /** The line that ends at `end`, at a '\n' or at the last character. */
  lemma ScanLine(text: string, c: nat, start: nat, end: nat, done: seq<string>)
    requires c < |text| && Scanning(text, c, start, done)
    requires (text[c] == '\n' && end == c) || (text[c] != '\n' && c == |text| - 1 && end == c + 1)
    ensures start <= end <= |text| && Scanning(text, c + 1, end + 1, done + [text[start..end]])
  {
    if text[c] == '\n' {
      ScanNewline(text, c, start, done);
    } else {
      ScanLast(text, c, start, done);
    }
  }

  /** A '\n' ends the current line. */
  lemma ScanNewline(text: string, c: nat, start: nat, done: seq<string>)
    requires c < |text| && Scanning(text, c, start, done) && text[c] == '\n'
    ensures start <= c && Scanning(text, c + 1, c + 1, done + [text[start..c]])
  {
    LinesAfterNewline(text, start, c);
  }

  /** The lines from `start` on, when the first '\n' from `start` on is at `c`. */
  lemma LinesAfterNewline(text: string, start: nat, c: nat)
    requires start <= c < |text| && text[c] == '\n'
    requires forall i :: start <= i < c ==> text[i] != '\n'
    ensures PasteLines(text[start..]) == [text[start..c]] + PasteLines(text[c + 1..])
  {
    forall i | 0 <= i < c - start
      ensures text[start..][i] != '\n'
    {
      assert text[start..][i] == text[start + i];
    }
    PasteLinesCons(text[start..], c - start);
    assert text[start..][..c - start] == text[start..c];
    assert text[start..][c - start + 1..] == text[c + 1..];
  }

  /** The last character ends the last line when it is not a '\n'. */
  lemma ScanLast(text: string, c: nat, start: nat, done: seq<string>)
    requires c < |text| && Scanning(text, c, start, done) && text[c] != '\n' && c == |text| - 1
    ensures start <= c && Scanning(text, c + 1, c + 2, done + [text[start..c + 1]])
  {
    assert start <= c;
    LastLine(text, start, c);
    assert RestLines(text, start) == [text[start..c + 1]];
    assert RestLines(text, c + 2) == [];
  }

  /** The lines from `start` on, when no '\n' follows `start`. */
  lemma LastLine(text: string, start: nat, c: nat)
    requires start <= c == |text| - 1 && text[c] != '\n'
    requires forall i :: start <= i < c ==> text[i] != '\n'
    ensures PasteLines(text[start..]) == [text[start..c + 1]]
  {
    forall i | 0 <= i < |text| - start
      ensures text[start..][i] != '\n'
    {
      assert text[start..][i] == text[start + i];
    }
    PasteLinesSingle(text[start..]);
    assert text[start..] == text[start..c + 1];
  }

  lemma ScanEnd(text: string, start: nat, done: seq<string>)
    requires Scanning(text, |text|, start, done)
    ensures done == PasteLines(text)
  {
    assert RestLines(text, start) == [];
  }

  /** The first pass's handling of one line, as the loop body does it. */
  method MeasureOne(st: Indent, line: string, tabChar: char, python: bool) returns (st': Indent)
    ensures st' == MeasureLine(st, line, tabChar, python)
  {
    var first, hasTabs, tabs := st.first, st.hasTabs, st.tabs;
    var n, onlyTabs := CountLeading(line, tabChar);
    if first {
      if n != 0 {
        hasTabs := true;
        tabs := Some(n);
      } else if python {
        var last := FindLastNonBlank(line);
        if last == ':' {
          hasTabs := true;
          tabs := Some(n);
        }
      }
      first := false;
    } else if !onlyTabs {
      tabs := Some(if tabs.Some? && tabs.value < n then tabs.value else n);
    }
    st' := Indent(first, hasTabs, tabs);
  }

  /** The first pass of paste: the character loop that measures the common indentation. */
  method MeasurePaste(text: string, tabChar: char, python: bool) returns (hasTabs: bool, pasteTabs: nat)
    ensures hasTabs == Measure(PasteLines(text), tabChar, python).hasTabs
    ensures pasteTabs == PasteTabs(Measure(PasteLines(text), tabChar, python))
  {
    var start: nat := 0;
    var end: nat := 0;
    var pasteLine := false;
    var st := Unmeasured;
    ghost var done: seq<string> := [];
    for c := 0 to |text|
      invariant Scanning(text, c, start, done)
      invariant st == Measure(done, tabChar, python)
    {
      ScanStep(text, c, start, done);
      if text[c] == '\n' {
        end := c;
        pasteLine := true;
      } else if c == |text| - 1 {
        end := c + 1;
        pasteLine := true;
      }
      if pasteLine {
        ScanLine(text, c, start, end, done);
        var line := text[start..end];
        st := MeasureOne(st, line, tabChar, python);
        MeasureSnoc(done, line, tabChar, python);
        done := done + [line];
        start := end + 1;
        pasteLine := false;
      }
    }
    ScanEnd(text, start, done);
    hasTabs := st.hasTabs;
    pasteTabs := if st.tabs.Some? then st.tabs.value else 0;
  }

  /** The second pass's handling of one line, as the loop body does it. */
  method EmitOne(first: bool, line: string, pasteTabs: nat, hasTabs: bool, prefix: string, tabChar: char)
    returns (s: string)
    ensures s == EmitLine(first, line, pasteTabs, hasTabs, prefix, tabChar)
  {
    var lineTabs, _ := CountLeading(line, tabChar);
    var tabs := pasteTabs;
    if !(first && !hasTabs) && lineTabs < pasteTabs {
      tabs := lineTabs;
    }
    if first {
      if hasTabs {
        s := line[tabs..];
      } else {
        s := line;
      }
    } else {
      s := "\n" + prefix + line[tabs..];
    }
  }

  /** The second pass of paste: the character loop that builds the text inserted for the lines. */
  method EmitPaste(text: string, pasteTabs: nat, hasTabs: bool, prefix: string, tabChar: char) returns (inserted: string)
    ensures inserted == Emit(PasteLines(text), pasteTabs, hasTabs, prefix, tabChar)
  {
    inserted := [];
    var start: nat := 0;
    var end: nat := 0;
    var pasteLine := false;
    var first := true;
    ghost var done: seq<string> := [];
    for c := 0 to |text|
      invariant Scanning(text, c, start, done)
      invariant first <==> done == []
      invariant inserted == Emit(done, pasteTabs, hasTabs, prefix, tabChar)
    {
      ScanStep(text, c, start, done);
      if text[c] == '\n' {
        end := c;
        pasteLine := true;
      } else if c == |text| - 1 {
        end := c + 1;
        pasteLine := true;
      }
      if pasteLine {
        ScanLine(text, c, start, end, done);
        var line := text[start..end];
        var s := EmitOne(first, line, pasteTabs, hasTabs, prefix, tabChar);
        EmitSnoc(done, line, pasteTabs, hasTabs, prefix, tabChar);
        inserted := inserted + s;
        first := false;
        done := done + [line];
        start := end + 1;
        pasteLine := false;
      }
    }
    ScanEnd(text, start, done);
  }

  /** Both passes of paste and the final newline: the text inserted at the cursor. */
  method ReindentPaste(text: string, tabChar: char, python: bool, prefix: string) returns (inserted: string)
    ensures inserted == Reindented(text, tabChar, python, prefix)
  {
    var hasTabs, pasteTabs := MeasurePaste(text, tabChar, python);
    inserted := EmitPaste(text, pasteTabs, hasTabs, prefix, tabChar);
    if |text| > 0 && text[|text| - 1] == '\n' {
      inserted := inserted + ("\n" + prefix);
    } else {
      assert inserted + [] == inserted;
    }
  }

  lemma EmitSnoc(done: seq<string>, line: string, tabs: nat, hasTabs: bool, prefix: string, tabChar: char)
    ensures Emit(done + [line], tabs, hasTabs, prefix, tabChar) ==
            Emit(done, tabs, hasTabs, prefix, tabChar) + EmitLine(done == [], line, tabs, hasTabs, prefix, tabChar)
  {
    assert (done + [line])[..|done|] == done;
  }

  // ----- properties of the inserted text -----

  /** Every '\n' of `r` is followed by `prefix`. */
  predicate NewlinesPrefixed(r: string, prefix: string)
  {
    forall i :: 0 <= i < |r| && r[i] == '\n' ==> i + 1 + |prefix| <= |r| && r[i + 1..i + 1 + |prefix|] == prefix
  }

  lemma PrefixedConcat(a: string, b: string, prefix: string)
    requires NewlinesPrefixed(a, prefix) && NewlinesPrefixed(b, prefix)
    ensures NewlinesPrefixed(a + b, prefix)
  {
    var r := a + b;
    forall i | 0 <= i < |r| && r[i] == '\n'
      ensures i + 1 + |prefix| <= |r| && r[i + 1..i + 1 + |prefix|] == prefix
    {
      if i < |a| {
        assert r[i + 1..i + 1 + |prefix|] == a[i + 1..i + 1 + |prefix|];
      } else {
        var j := i - |a|;
        assert b[j] == '\n';
        assert r[i + 1..i + 1 + |prefix|] == b[j + 1..j + 1 + |prefix|];
      }
    }
  }

  lemma PrefixedNoNewline(s: string, prefix: string)
    requires '\n' !in s
    ensures NewlinesPrefixed(s, prefix)
  {
  }

  lemma PrefixedLine(prefix: string, x: string)
    requires '\n' !in prefix && '\n' !in x
    ensures NewlinesPrefixed("\n" + prefix + x, prefix)
  {
    var r := "\n" + prefix + x;
    forall i | 0 < i < |r|
      ensures r[i] != '\n'
    {
      if i <= |prefix| {
        assert r[i] == prefix[i - 1];
      } else {
        assert r[i] == x[i - 1 - |prefix|];
      }
    }
    assert r[1..1 + |prefix|] == prefix;
  }

  lemma DroppedNoNewline(line: string, n: nat, tabChar: char)
    requires '\n' !in line
    ensures '\n' !in Dropped(line, n, tabChar)
  {
    var r := Dropped(line, n, tabChar);
    forall i | 0 <= i < |r|
      ensures r[i] != '\n'
    {
      assert r[i] == line[|line| - |r| + i] && line[|line| - |r| + i] in line;
    }
  }

  /** Every line inserted after the first starts with the prefix: each '\n' is followed by it. */
  lemma {:induction false} EmitPrefixed(ls: seq<string>, tabs: nat, hasTabs: bool, prefix: string, tabChar: char)
    requires '\n' !in prefix
    requires forall k :: 0 <= k < |ls| ==> '\n' !in ls[k]
    ensures NewlinesPrefixed(Emit(ls, tabs, hasTabs, prefix, tabChar), prefix)
    ensures multiset(Emit(ls, tabs, hasTabs, prefix, tabChar))['\n'] == if ls == [] then 0 else |ls| - 1
  {
    if ls != [] {
      var init := ls[..|ls| - 1];
      var line := ls[|ls| - 1];
      EmitPrefixed(init, tabs, hasTabs, prefix, tabChar);
      DroppedNoNewline(line, tabs, tabChar);
      var d := Dropped(line, tabs, tabChar);
      var e := EmitLine(|ls| == 1, line, tabs, hasTabs, prefix, tabChar);
      if |ls| == 1 {
        PrefixedNoNewline(e, prefix);
      } else {
        PrefixedLine(prefix, d);
        assert multiset(e) == multiset("\n") + multiset(prefix) + multiset(d);
      }
      PrefixedConcat(Emit(init, tabs, hasTabs, prefix, tabChar), e, prefix);
    }
  }

  /** The inserted text has as many '\n' as the pasted text, and every '\n' is followed by the prefix. */
  lemma ReindentedLines(text: string, tabChar: char, python: bool, prefix: string)
    requires '\n' !in prefix
    ensures var r := Reindented(text, tabChar, python, prefix);
            multiset(r)['\n'] == multiset(text)['\n'] && NewlinesPrefixed(r, prefix)
  {
    var m := Measure(PasteLines(text), tabChar, python);
    EmitPrefixed(PasteLines(text), PasteTabs(m), m.hasTabs, prefix, tabChar);
    PasteLinesCount(text);
    FinalNewline(Emit(PasteLines(text), PasteTabs(m), m.hasTabs, prefix, tabChar),
                 text != [] && text[|text| - 1] == '\n', prefix);
  }

  /** The '\n' and prefix added after the lines when the pasted text ends with '\n'. */
  lemma FinalNewline(body: string, endsWithNewline: bool, prefix: string)
    requires '\n' !in prefix && NewlinesPrefixed(body, prefix)
    ensures var r := body + (if endsWithNewline then "\n" + prefix else []);
            && NewlinesPrefixed(r, prefix)
            && multiset(r)['\n'] == multiset(body)['\n'] + (if endsWithNewline then 1 else 0)
  {
    if endsWithNewline {
      var tail := "\n" + prefix;
      PrefixedLine(prefix, []);
      assert tail + [] == tail;
      PrefixedConcat(body, tail, prefix);
      assert multiset(tail) == multiset("\n") + multiset(prefix);
    } else {
      assert body + [] == body;
    }
  }
}
