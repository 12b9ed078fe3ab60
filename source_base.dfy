/**
 * The editing view over a text buffer: the buffer text, the cursor and the
 * selection, the indentation settings, and the queue of snippet argument
 * groups. Buffer edits move the marks as GTK moves them; the operations are
 * indentation setup, whole-buffer whitespace cleanup, paste, snippet
 * insertion and the selection or clearing of snippet arguments.
 */
module SourceBase {
  import opened Wrappers
  import opened TextLines
  import opened Cleanup
  import opened Paste
  import opened Snippets
  import opened TabDetection

  /** A range of the buffer, as the offsets of its start and end marks. */
  type Range = (nat, nat)

  // ----- indentation -----

  /** The indentation unit: `c` repeated `n` times. */
  function TabString(c: char, n: nat): (s: string)
    ensures |s| == n
    ensures forall i :: 0 <= i < n ==> s[i] == c
  {
    seq(n, _ => c)
  }

  // ----- marks -----

  /**
   * Where a mark at `m` is after [a, b) is replaced by `len` characters: a
   * mark before the edit stays, a mark after it keeps its distance to the
   * end of the buffer, and a mark inside goes to the start of the new text
   * (left gravity) or to its end (right gravity).
   */
  function Moved(m: nat, a: nat, b: nat, len: nat, left: bool): nat
    requires a <= b
  {
    if m < a then m
    else if m <= b then (if left then a else a + len)
    else m - (b - a) + len
  }

  /** A mark inside the buffer stays inside it, and two marks of one gravity keep their order. */
  lemma MovedInside(m: nat, m': nat, a: nat, b: nat, len: nat, size: nat, left: bool)
    requires a <= b <= size && m <= size && m' <= size
    ensures Moved(m, a, b, len, left) <= size - (b - a) + len
    ensures m <= m' ==> Moved(m, a, b, len, left) <= Moved(m', a, b, len, left)
  {
  }

  /** Snippet marks are created with left gravity. */
  function MoveGroups(gs: seq<seq<Range>>, a: nat, b: nat, len: nat): (r: seq<seq<Range>>)
    requires a <= b
    ensures |r| == |gs|
    ensures forall i :: 0 <= i < |gs| ==> |r[i]| == |gs[i]|
  {
    seq(|gs|, i requires 0 <= i < |gs| =>
      seq(|gs[i]|, j requires 0 <= j < |gs[i]| =>
        (Moved(gs[i][j].0, a, b, len, true), Moved(gs[i][j].1, a, b, len, true))))
  }

  /** Extra snippet cursors are created with right gravity. */
  function MoveCursors(cs: seq<nat>, a: nat, b: nat, len: nat): (r: seq<nat>)
    requires a <= b
    ensures |r| == |cs|
  {
    seq(|cs|, i requires 0 <= i < |cs| => Moved(cs[i], a, b, len, false))
  }

  /** Every range of every group is ordered and lies within a buffer of `size` characters. */
  predicate GroupsWithin(gs: seq<seq<Range>>, size: nat)
  {
    forall i, j :: 0 <= i < |gs| && 0 <= j < |gs[i]| ==> gs[i][j].0 <= gs[i][j].1 <= size
  }

  predicate CursorsWithin(cs: seq<nat>, size: nat)
  {
    forall i :: 0 <= i < |cs| ==> cs[i] <= size
  }

  /** Moving the marks with an edit keeps them ordered and inside the edited buffer. */
  lemma MarksStayWithin(gs: seq<seq<Range>>, cs: seq<nat>, a: nat, b: nat, len: nat, size: nat)
    requires a <= b <= size && GroupsWithin(gs, size) && CursorsWithin(cs, size)
    ensures GroupsWithin(MoveGroups(gs, a, b, len), size - (b - a) + len)
    ensures CursorsWithin(MoveCursors(cs, a, b, len), size - (b - a) + len)
  {
    var gs': seq<seq<Range>> := MoveGroups(gs, a, b, len);
    forall i: int, j: int | 0 <= i < |gs'| && 0 <= j < |gs'[i]|
      ensures gs'[i][j].0 <= gs'[i][j].1 <= size - (b - a) + len
    {
      MovedInside(gs[i][j].0, gs[i][j].1, a, b, len, size, true);
    }
    forall i | 0 <= i < |cs|
      ensures MoveCursors(cs, a, b, len)[i] <= size - (b - a) + len
    {
      MovedInside(cs[i], cs[i], a, b, len, size, false);
    }
  }

  // ----- the queue of snippet argument groups -----

  lemma PushFront(g: seq<Range>, front: seq<seq<Range>>, back: seq<seq<Range>>)
    ensures [g] + (front + back) == ([g] + front) + back
  {
  }

  /** Pushing a group of ordered ranges inside the buffer keeps the queue inside it. */
  lemma GroupsWithinPush(g: seq<Range>, gs: seq<seq<Range>>, size: nat)
    requires forall j :: 0 <= j < |g| ==> g[j].0 <= g[j].1 <= size
    requires GroupsWithin(gs, size)
    ensures GroupsWithin([g] + gs, size)
  {
    assert forall i :: 0 < i <= |gs| ==> ([g] + gs)[i] == gs[i - 1];
  }

  /** The smallest element of a non-empty finite set of numbers. */
  ghost function Least(keys: set<nat>): (m: nat)
    requires keys != {}
    ensures m in keys && forall j :: j in keys ==> m <= j
    decreases |keys|
  {
    var x :| x in keys;
    if keys == {x} then x
    else
      var y := Least(keys - {x});
      assert forall j :: j in keys ==> j == x || j in keys - {x};
      if x < y then x else y
  }

  /** The largest element of a non-empty finite set of numbers. */
  lemma {:induction false} Largest(keys: set<nat>) returns (m: nat)
    requires keys != {}
    ensures m in keys && forall j :: j in keys ==> j <= m
    decreases |keys|
  {
    var x :| x in keys;
    if keys == {x} {
      m := x;
    } else {
      var y := Largest(keys - {x});
      m := if x > y then x else y;
      assert forall j :: j in keys ==> j == x || j in keys - {x};
    }
  }

  predicate Increasing(ks: seq<nat>)
  {
    forall i, j :: 0 <= i < j < |ks| ==> ks[i] < ks[j]
  }

  /** The numbers of a finite set in increasing order. */
  ghost function SortedKeys(keys: set<nat>): (ks: seq<nat>)
    ensures |ks| == |keys|
    ensures forall k :: k in keys <==> k in ks
    ensures Increasing(ks)
    decreases |keys|
  {
    if keys == {} then []
    else
      var m := Least(keys);
      var rest := SortedKeys(keys - {m});
      PrependSmallest(keys, m, rest);
      [m] + rest
  }

  /** The smallest number followed by the others in increasing order lists the set in increasing order. */
  lemma PrependSmallest(keys: set<nat>, m: nat, rest: seq<nat>)
    requires m in keys && forall j :: j in keys ==> m <= j
    requires |rest| == |keys - {m}| && (forall k :: k in keys - {m} <==> k in rest) && Increasing(rest)
    ensures |[m] + rest| == |keys| && (forall k :: k in keys <==> k in [m] + rest) && Increasing([m] + rest)
  {
    assert forall j :: 0 <= j < |rest| ==> rest[j] in keys - {m};
    var ks := [m] + rest;
    assert forall i :: 0 < i < |ks| ==> ks[i] == rest[i - 1] && m < ks[i];
  }

  /** A number below all others comes first. */
  lemma SortedKeysPrepend(keys: set<nat>, k: nat)
    requires forall j :: j in keys ==> k < j
    ensures SortedKeys(keys + {k}) == [k] + SortedKeys(keys)
  {
    var all := keys + {k};
    var m := Least(all);
    assert m == k;
    assert all - {k} == keys;
  }

  /** The ranges of one group, as offsets into the buffer where the snippet was inserted at `p`. */
  function ShiftRanges(rs: seq<Range>, p: nat): (r: seq<Range>)
    ensures |r| == |rs|
    ensures forall j :: 0 <= j < |rs| ==> r[j] == (p + rs[j].0, p + rs[j].1)
  {
    seq(|rs|, j requires 0 <= j < |rs| => (p + rs[j].0, p + rs[j].1))
  }

  /** The groups of the numbers `keys`, in that order, inserted at `p`. */
  function QueueOf(offsets: map<nat, seq<Range>>, keys: seq<nat>, p: nat): (q: seq<seq<Range>>)
    requires forall i :: 0 <= i < |keys| ==> keys[i] in offsets
    ensures |q| == |keys|
    ensures forall i :: 0 <= i < |keys| ==> q[i] == ShiftRanges(offsets[keys[i]], p)
  {
    seq(|keys|, i requires 0 <= i < |keys| => ShiftRanges(offsets[keys[i]], p))
  }

  /** The groups of the numbers in `keys`, by increasing number, inserted at `p`. */
  ghost function GroupsOf(offsets: map<nat, seq<Range>>, keys: set<nat>, p: nat): seq<seq<Range>>
    requires keys <= offsets.Keys
  {
    QueueOf(offsets, SortedKeys(keys), p)
  }

  /** The groups `insert_snippet` queues in front: one per number, by increasing number. */
  ghost function NewGroups(offsets: map<nat, seq<Range>>, p: nat): seq<seq<Range>>
  {
    GroupsOf(offsets, offsets.Keys, p)
  }

  /**
   * The queued groups are those of the numbers of the snippet by increasing
   * number (SortedKeys), each holding the ranges of that number's
   * placeholders in the order they occur, moved to the insertion offset, and
   * none of them empty.
   */
  lemma NewGroupsOrder(snippet: string, p: nat)
    ensures var e := Expand(snippet, 0);
            var offsets := GroupArgs(e.args);
            var ks := SortedKeys(offsets.Keys);
            var q := NewGroups(offsets, p);
            && |q| == |ks|
            && forall i :: 0 <= i < |q| ==> q[i] != [] && q[i] == ShiftRanges(RangesOf(e.args, ks[i]), p)
  {
    GroupArgsValues(Expand(snippet, 0).args);
  }

  /** The start of each range: where an extra snippet cursor is placed. */
  function Starts(rs: seq<Range>): (r: seq<nat>)
    ensures |r| == |rs|
    ensures forall j :: 0 <= j < |rs| ==> r[j] == rs[j].0
  {
    seq(|rs|, j requires 0 <= j < |rs| => rs[j].0)
  }

  /**
   * The prefix that every pasted line after the first gets: the blanks from
   * the start of the cursor's line, up to the first other character or the
   * cursor, whichever comes first.
   */
  function PastePrefix(t: string, p: nat): (r: string)
    requires p <= |t|
    ensures LineBegin(t, p) + |r| <= p
    ensures r == t[LineBegin(t, p)..LineBegin(t, p) + |r|]
    ensures forall i :: 0 <= i < |r| ==> IsBlank(r[i])
    ensures LineBegin(t, p) + |r| == p || !IsBlank(t[LineBegin(t, p) + |r|])
  {
    var b := LineBegin(t, p);
    var e := IndentEnd(t, b);
    t[b..if p < e then p else e]
  }

  /** The start and the end of the selection between the cursor and the selection bound. */
  function SelStart(insert: nat, bound: nat): nat
  {
    if insert <= bound then insert else bound
  }

  function SelEnd(insert: nat, bound: nat): nat
  {
    if insert <= bound then bound else insert
  }

  /** An edit that replaces nothing by nothing moves no mark. */
  lemma MoveNothing(gs: seq<seq<Range>>, cs: seq<nat>, a: nat)
    ensures MoveGroups(gs, a, a, 0) == gs && MoveCursors(cs, a, a, 0) == cs
  {
    assert forall i :: 0 <= i < |gs| ==> MoveGroups(gs, a, a, 0)[i] == gs[i];
  }

  /** Inserting at `s` after erasing [s, e) replaces [s, e). */
  lemma Splice(t: string, s: nat, e: nat, x: string)
    requires s <= e <= |t|
    ensures var erased := t[..s] + t[e..];
            erased[..s] + x + erased[s..] == t[..s] + x + t[e..]
  {
    var erased := t[..s] + t[e..];
    assert erased[..s] == t[..s];
    assert erased[s..] == t[e..];
  }

  // ----- the view -----

  class BaseView {
    var text: string
    /** The offset of the cursor: GTK's "insert" mark. */
    var insert: nat
    /** The other end of the selection: GTK's "selection_bound" mark. */
    var bound: nat
    var languageId: Option<string>
    var tabChar: char
    var tabSize: nat
    var tab: string
    /** The queue of snippet argument groups, front first. */
    var snippetsMarks: seq<seq<Range>>
    var extraSnippetCursors: seq<nat>

    /** The language and the indentation settings, which editing leaves alone. */
    ghost function Settings(): (Option<string>, char, nat, string)
      reads this
    {
      (languageId, tabChar, tabSize, tab)
    }

    /** Every mark is inside the buffer and every snippet range is ordered. */
    ghost predicate Valid()
      reads this
    {
      insert <= |text| && bound <= |text| &&
      GroupsWithin(snippetsMarks, |text|) && CursorsWithin(extraSnippetCursors, |text|)
    }

    /**
     * A view over `t` with the configured indentation, replaced by the
     * detected one when detection is on and finds a non-zero size.
     */
    constructor (t: string, languageId: Option<string>, defaultTabChar: char, defaultTabSize: nat,
                 autoTabCharAndSize: bool, tabChars: seq<(char, nat)>, tabSizes: seq<(nat, nat)>)
      ensures Valid()
      ensures text == t && insert == 0 && bound == 0 && this.languageId == languageId
      ensures snippetsMarks == [] && extraSnippetCursors == []
      ensures var detected := if languageId == Some("python") then (' ', 4)
                              else (Selected(tabChars, 0 as char).0, Selected(tabSizes, 0).0);
              (tabChar, tabSize) == if autoTabCharAndSize && detected.1 != 0 then detected else (defaultTabChar, defaultTabSize)
      ensures tab == TabString(tabChar, tabSize)
    {
      text := t;
      insert, bound := 0, 0;
      this.languageId := languageId;
      snippetsMarks, extraSnippetCursors := [], [];
      tabChar, tabSize, tab := defaultTabChar, defaultTabSize, [];
      new;
      var c, n := defaultTabChar, defaultTabSize;
      if autoTabCharAndSize {
        var foundChar, foundSize := FindTabCharAndSize(languageId, tabChars, tabSizes);
        if foundSize != 0 {
          c, n := foundChar, foundSize;
        }
      }
      SetTabCharAndSize(c, n);
    }

    /** set_tab_char_and_size: the unit of indentation becomes `c` repeated `n` times. */
    method SetTabCharAndSize(c: char, n: nat)
      modifies this
      ensures tabChar == c && tabSize == n && tab == TabString(c, n)
      ensures text == old(text) && insert == old(insert) && bound == old(bound) && languageId == old(languageId)
      ensures snippetsMarks == old(snippetsMarks) && extraSnippetCursors == old(extraSnippetCursors)
    {
      tabChar, tabSize := c, n;
      var unit := [];
      for i := 0 to n
        invariant unit == TabString(c, i)
      {
        unit := unit + [c];
      }
      tab := unit;
    }

    /** A buffer edit: [a, b) is replaced by `s`, and every mark moves with the text. */
    method Replace(a: nat, b: nat, s: string)
      requires Valid() && a <= b <= |text|
      modifies this
      ensures Valid()
      ensures text == old(text)[..a] + s + old(text)[b..]
      ensures insert == Moved(old(insert), a, b, |s|, false) && bound == Moved(old(bound), a, b, |s|, false)
      ensures snippetsMarks == MoveGroups(old(snippetsMarks), a, b, |s|)
      ensures extraSnippetCursors == MoveCursors(old(extraSnippetCursors), a, b, |s|)
      ensures Settings() == old(Settings())
    {
      MarksStayWithin(snippetsMarks, extraSnippetCursors, a, b, |s|, |text|);
      MovedInside(insert, insert, a, b, |s|, |text|, false);
      MovedInside(bound, bound, a, b, |s|, |text|, false);
      text := text[..a] + s + text[b..];
      insert, bound := Moved(insert, a, b, |s|, false), Moved(bound, a, b, |s|, false);
      snippetsMarks := MoveGroups(snippetsMarks, a, b, |s|);
      extraSnippetCursors := MoveCursors(extraSnippetCursors, a, b, |s|);
    }

    /**
     * cleanup_whitespace_characters(): line by line, the blanks before each
     * line end are erased, then a '\n' is added unless the buffer ends a line.
     */
    method CleanupWhitespace()
      requires Valid()
      modifies this
      ensures Valid()
      ensures text == CleanupText(old(text))
      ensures |snippetsMarks| == |old(snippetsMarks)| && |extraSnippetCursors| == |old(extraSnippetCursors)|
      ensures Settings() == old(Settings())
    {
      CleanAllLines();
      if !StartsLine(text, |text|) {
        Replace(|text|, |text|, "\n");
        assert old(text) == old(text);
      }
    }

    /** The loop of cleanup_whitespace_characters() over the lines of the buffer. */
    method CleanAllLines()
      requires Valid()
      modifies this
      ensures Valid()
      ensures text == JoinLines(CleanLines(SplitLines(old(text))))
      ensures |snippetsMarks| == |old(snippetsMarks)| && |extraSnippetCursors| == |old(extraSnippetCursors)|
      ensures Settings() == old(Settings())
    {
      ghost var ls := SplitLines(text);
      JoinSplit(text);
      assert PartlyCleaned(ls, 0) == ls;
      var line := 0;
      while line < LineCount(text)
        invariant Valid()
        invariant line <= |ls|
        invariant text == JoinLines(PartlyCleaned(ls, line))
        invariant LineCount(text) == |ls|
        invariant |snippetsMarks| == |old(snippetsMarks)| && |extraSnippetCursors| == |old(extraSnippetCursors)|
        invariant Settings() == old(Settings())
        decreases |ls| - line
      {
        CleanStep(ls, line);
        EraseTrailingBlanks(line);
        line := line + 1;
        LinesOfPartlyCleaned(ls, line);
      }
      assert PartlyCleaned(ls, |ls|) == CleanLines(ls);
    }

    /** One round of the cleanup loop: the blanks before the end of line `line` are erased. */
    method EraseTrailingBlanks(line: nat)
      requires Valid() && line < LineCount(text)
      modifies this
      ensures Valid()
      ensures LineStart(old(text), line) <= LineEnd(old(text), line)
      ensures text == old(text)[..TrimmedEnd(old(text), LineStart(old(text), line), LineEnd(old(text), line))] +
                      old(text)[LineEnd(old(text), line)..]
      ensures |snippetsMarks| == |old(snippetsMarks)| && |extraSnippetCursors| == |old(extraSnippetCursors)|
      ensures Settings() == old(Settings())
    {
      var start := LineStart(text, line);
      var end := LineEnd(text, line);
      if start != end {
        var it := TrailingBlankStart(text, start, end);
        assert it == TrimmedEnd(text, start, end);
        if it != end {
          Replace(it, end, []);
        } else {
          assert text[..it] + text[end..] == text;
        }
      } else {
        assert text[..TrimmedEnd(text, start, end)] + text[end..] == text;
      }
    }

    /**
     * paste: the clipboard text with carriage returns normalised. Text made
     * only of blanks and line breaks is handed to GTK's clipboard paste,
     * which is returned and not modelled. Otherwise the selection is erased
     * and the re-indented text is inserted at the cursor, every line after
     * the first starting with the indentation before the cursor.
     */
    method Paste(clipboard: string) returns (handedToClipboard: Option<string>)
      requires Valid()
      modifies this
      ensures Valid()
      ensures Settings() == old(Settings())
      ensures OnlyWhitespace(Normalised(clipboard)) ==>
                && handedToClipboard == Some(Normalised(clipboard))
                && text == old(text) && insert == old(insert) && bound == old(bound)
                && snippetsMarks == old(snippetsMarks) && extraSnippetCursors == old(extraSnippetCursors)
      ensures !OnlyWhitespace(Normalised(clipboard)) ==>
                var s := SelStart(old(insert), old(bound));
                var e := SelEnd(old(insert), old(bound));
                var inserted := Reindented(Normalised(clipboard), tabChar, languageId == Some("python"),
                                           PastePrefix(old(text)[..s] + old(text)[e..], s));
                && handedToClipboard == None
                && text == old(text)[..s] + inserted + old(text)[e..]
                && insert == s + |inserted| && bound == s + |inserted|
                && snippetsMarks == MoveGroups(MoveGroups(old(snippetsMarks), s, e, 0), s, s, |inserted|)
                && extraSnippetCursors == MoveCursors(MoveCursors(old(extraSnippetCursors), s, e, 0), s, s, |inserted|)
    {
      var t := NormaliseNewlines(clipboard);
      var onlyWhitespaces := true;
      for c := 0 to |t|
        invariant onlyWhitespaces == forall i :: 0 <= i < c ==> t[i] == '\n' || t[i] == '\r' || IsBlank(t[i])
      {
        if t[c] != '\n' && t[c] != '\r' && !IsBlank(t[c]) {
          onlyWhitespaces := false;
        }
      }
      if onlyWhitespaces {
        return Some(t);
      }
      handedToClipboard := None;
      EraseSelection();
      var prefix := PrefixTabs();
      var inserted := ReindentPaste(t, tabChar, languageId == Some("python"), prefix);
      Replace(insert, insert, inserted);
      Splice(old(text), SelStart(old(insert), old(bound)), SelEnd(old(insert), old(bound)), inserted);
    }

    /** The selection, if any, is erased, and the cursor and the selection bound meet at its start. */
    method EraseSelection()
      requires Valid()
      modifies this
      ensures Valid()
      ensures var s := SelStart(old(insert), old(bound));
              var e := SelEnd(old(insert), old(bound));
              && text == old(text)[..s] + old(text)[e..] && insert == s && bound == s
              && snippetsMarks == MoveGroups(old(snippetsMarks), s, e, 0)
              && extraSnippetCursors == MoveCursors(old(extraSnippetCursors), s, e, 0)
      ensures Settings() == old(Settings())
    {
      if insert != bound {
        Replace(SelStart(insert, bound), SelEnd(insert, bound), []);
      } else {
        MoveNothing(snippetsMarks, extraSnippetCursors, insert);
        assert text[..insert] + text[insert..] == text;
      }
    }

    /** The text from the start of the cursor's line to the cursor or to the end of the indentation, whichever is first. */
    method PrefixTabs() returns (prefix: string)
      requires Valid()
      ensures prefix == PastePrefix(text, insert)
    {
      var lineStart := LineBegin(text, insert);
      var tabsEnd := TabsEnd(text, lineStart);
      prefix := text[lineStart..if insert < tabsEnd then insert else tabsEnd];
    }

    /**
     * insert_snippet: the expanded snippet is inserted at `p`, one group per
     * placeholder number is queued in front of the earlier groups, by
     * increasing number, and when there is a group its first range is
     * selected.
     */
    method InsertSnippet(p: nat, snippet: string)
      requires Valid() && p <= |text|
      modifies this
      ensures Valid()
      ensures text == old(text)[..p] + Expand(snippet, 0).text + old(text)[p..]
      ensures Settings() == old(Settings())
      ensures var e := Expand(snippet, 0);
              var offsets := GroupArgs(e.args);
              var queued := NewGroups(offsets, p) + MoveGroups(old(snippetsMarks), p, p, |e.text|);
              if offsets == map[] then
                && snippetsMarks == queued
                && insert == Moved(old(insert), p, p, |e.text|, false) && bound == Moved(old(bound), p, p, |e.text|, false)
                && extraSnippetCursors == MoveCursors(old(extraSnippetCursors), p, p, |e.text|)
              else
                && queued[0] != []
                && snippetsMarks == queued[1..]
                && (insert, bound) == queued[0][0]
                && extraSnippetCursors == Starts(queued[0][1..])
    {
      var expanded, offsets := ParseSnippet(snippet);
      ParsedRangesWithin(snippet);
      NewGroupsOrder(snippet, p);
      Replace(p, p, expanded);
      QueueGroups(offsets, p);
      if offsets != map[] {
        var selected := SelectSnippetArgument();
      }
    }

    /**
     * The queueing loop of insert_snippet: from the largest number down,
     * each number's group is pushed on the front of the queue, so that the
     * queue starts with the groups by increasing number.
     */
    method QueueGroups(offsets: map<nat, seq<Range>>, p: nat)
      requires Valid()
      requires forall k, r :: k in offsets && r in offsets[k] ==> r.0 <= r.1 && p + r.1 <= |text|
      modifies this
      ensures Valid()
      ensures snippetsMarks == NewGroups(offsets, p) + old(snippetsMarks)
      ensures text == old(text) && insert == old(insert) && bound == old(bound)
      ensures extraSnippetCursors == old(extraSnippetCursors)
      ensures Settings() == old(Settings())
    {
      snippetsMarks := QueueAll(offsets, p, |text|, snippetsMarks);
    }

    /**
     * The outer loop of insert_snippet over the argument numbers, largest
     * first, each group pushed on the front of `queue`.
     */
    static method QueueAll(offsets: map<nat, seq<Range>>, p: nat, size: nat, queue: seq<seq<Range>>)
      returns (marks: seq<seq<Range>>)
      requires GroupsWithin(queue, size)
      requires forall k, r :: k in offsets && r in offsets[k] ==> r.0 <= r.1 && p + r.1 <= size
      ensures marks == NewGroups(offsets, p) + queue
      ensures GroupsWithin(marks, size)
    {
      marks := queue;
      var remaining := offsets.Keys;
      ghost var done: set<nat> := {};
      while remaining != {}
        invariant Partition(offsets.Keys, remaining, done)
        invariant AllBelow(remaining, done)
        invariant marks == GroupsOf(offsets, done, p) + queue
        invariant GroupsWithin(marks, size)
        decreases |remaining|
      {
        ghost var largest := Largest(remaining);
        var k :| k in remaining && forall j :: j in remaining ==> j <= k;
        var group := ShiftGroup(offsets[k], p);
        QueueLoopStep(offsets, p, size, queue, remaining, done, k, marks);
        MoveKey(offsets.Keys, remaining, done, k);
        marks := [group] + marks;
        done := done + {k};
        remaining := remaining - {k};
      }
      PartitionDone(offsets.Keys, done);
    }

    /** The inner loop of insert_snippet: one mark pair per range, at the offsets of the inserted snippet. */
    static method ShiftGroup(rs: seq<Range>, p: nat) returns (group: seq<Range>)
      ensures group == ShiftRanges(rs, p)
    {
      group := [];
      for j := 0 to |rs|
        invariant group == ShiftRanges(rs[..j], p)
      {
        group := group + [(p + rs[j].0, p + rs[j].1)];
      }
      assert rs[..|rs|] == rs;
    }

    /**
     * select_snippet_argument: the extra snippet cursors are removed; then
     * the front group, if any, is taken off the queue, its first range is
     * selected and an extra cursor is placed at the start of each other range.
     */
    method SelectSnippetArgument() returns (selected: bool)
      requires Valid()
      modifies this
      ensures Valid()
      ensures selected <==> old(snippetsMarks) != []
      ensures text == old(text) && languageId == old(languageId)
      ensures tabChar == old(tabChar) && tabSize == old(tabSize) && tab == old(tab)
      ensures !selected ==> snippetsMarks == [] && extraSnippetCursors == [] && insert == old(insert) && bound == old(bound)
      ensures selected ==>
                var front := old(snippetsMarks)[0];
                && snippetsMarks == old(snippetsMarks)[1..]
                && extraSnippetCursors == (if front == [] then [] else Starts(front[1..]))
                && (if front == [] then insert == old(insert) && bound == old(bound) else (insert, bound) == front[0])
    {
      extraSnippetCursors := [];
      if snippetsMarks == [] {
        return false;
      }
      var front := snippetsMarks[0];
      var start, end := insert, bound;
      var cursors: seq<nat> := [];
      for j := 0 to |front|
        invariant cursors == (if j == 0 then [] else Starts(front[1..j]))
        invariant if j == 0 then start == insert && end == bound else (start, end) == front[0]
      {
        if j == 0 {
          start, end := front[j].0, front[j].1;
        } else {
          cursors := cursors + [front[j].0];
        }
      }
      if front != [] {
        assert front[1..|front|] == front[1..];
      }
      insert, bound, extraSnippetCursors := start, end, cursors;
      snippetsMarks := snippetsMarks[1..];
      return true;
    }

    /**
     * clear_snippet_marks: the queue and the extra snippet cursors are
     * emptied; the result says whether there was anything to clear.
     */
    method ClearSnippetMarks() returns (cleared: bool)
      requires Valid()
      modifies this
      ensures Valid()
      ensures cleared <==> old(snippetsMarks) != [] || old(extraSnippetCursors) != []
      ensures snippetsMarks == [] && extraSnippetCursors == []
      ensures text == old(text) && insert == old(insert) && bound == old(bound) && languageId == old(languageId)
      ensures tabChar == old(tabChar) && tabSize == old(tabSize) && tab == old(tab)
    {
      cleared := false;
      if snippetsMarks != [] {
        snippetsMarks := [];
        cleared := true;
      }
      if extraSnippetCursors != [] {
        extraSnippetCursors := [];
        cleared := true;
      }
    }
  }

  /** One round of the queueing loop: the group of a number below all queued ones goes in front. */
  lemma QueueStep(offsets: map<nat, seq<Range>>, done: set<nat>, k: nat, p: nat)
    requires done <= offsets.Keys && k in offsets
    requires forall j :: j in done ==> k < j
    ensures GroupsOf(offsets, done + {k}, p) == [ShiftRanges(offsets[k], p)] + GroupsOf(offsets, done, p)
  {
    SortedKeysPrepend(done, k);
    forall i | 0 <= i < |SortedKeys(done)|
      ensures SortedKeys(done)[i] in offsets
    {
      assert SortedKeys(done)[i] in SortedKeys(done);
    }
    QueuePrepend(offsets, k, SortedKeys(done), p);
  }

  /** `remaining` and `done` split `keys` between them. */
  predicate Partition(keys: set<nat>, remaining: set<nat>, done: set<nat>)
  {
    remaining <= keys && done <= keys && forall x :: x in keys ==> (x in remaining <==> x !in done)
  }

  lemma MoveKey(keys: set<nat>, remaining: set<nat>, done: set<nat>, k: nat)
    requires Partition(keys, remaining, done) && k in remaining
    ensures Partition(keys, remaining - {k}, done + {k}) && |remaining - {k}| < |remaining|
  {
  }

  lemma PartitionDone(keys: set<nat>, done: set<nat>)
    requires Partition(keys, {}, done)
    ensures done == keys
  {
  }

  /** One turn of the loop of insert_snippet: the largest remaining number's group goes on the front. */
  lemma QueueLoopStep(offsets: map<nat, seq<Range>>, p: nat, size: nat, queue: seq<seq<Range>>,
                      remaining: set<nat>, done: set<nat>, k: nat, marks: seq<seq<Range>>)
    requires forall k, r :: k in offsets && r in offsets[k] ==> r.0 <= r.1 && p + r.1 <= size
    requires remaining <= offsets.Keys && done <= offsets.Keys
    requires k in remaining && forall j :: j in remaining ==> j <= k
    requires AllBelow(remaining, done)
    requires marks == GroupsOf(offsets, done, p) + queue && GroupsWithin(marks, size)
    ensures AllBelow(remaining - {k}, done + {k})
    ensures [ShiftRanges(offsets[k], p)] + marks == GroupsOf(offsets, done + {k}, p) + queue
    ensures GroupsWithin([ShiftRanges(offsets[k], p)] + marks, size)
  {
    var g := ShiftRanges(offsets[k], p);
    forall j | 0 <= j < |g|
      ensures g[j].0 <= g[j].1 <= size
    {
      assert offsets[k][j] in offsets[k];
    }
    GroupsWithinPush(g, marks, size);
    QueueStep(offsets, done, k, p);
    OrderStep(remaining, done, k);
    PushFront(g, GroupsOf(offsets, done, p), queue);
  }

  /** Every number of `lower` is below every number of `upper`. */
  predicate AllBelow(lower: set<nat>, upper: set<nat>)
  {
    forall i, j :: i in lower && j in upper ==> i < j
  }

  /** Moving the largest remaining number to the queued ones keeps the remaining ones below. */
  lemma OrderStep(remaining: set<nat>, done: set<nat>, k: nat)
    requires k in remaining && forall j :: j in remaining ==> j <= k
    requires AllBelow(remaining, done)
    ensures AllBelow(remaining - {k}, done + {k})
  {
  }

  lemma QueuePrepend(offsets: map<nat, seq<Range>>, k: nat, ks: seq<nat>, p: nat)
    requires k in offsets && forall i :: 0 <= i < |ks| ==> ks[i] in offsets
    ensures QueueOf(offsets, [k] + ks, p) == [ShiftRanges(offsets[k], p)] + QueueOf(offsets, ks, p)
  {
    assert forall i :: 0 < i <= |ks| ==> ([k] + ks)[i] == ks[i - 1];
  }
}
