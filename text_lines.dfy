/**
 * The text buffer as a sequence of characters: lines, line starts and ends,
 * clamped line/offset positions, the indentation end, smart home and token
 * bounds. GTK iterators are offsets into the text.
 *
 * Lines are the segments between '\n' characters. A '\r' that precedes a
 * '\n' is part of the line delimiter, as GTK's `ends_line` treats "\r\n";
 * any other '\r' is treated as an ordinary character.
 */
module TextLines {
  import opened Wrappers

  // ----- lines -----

  /** The index of the first '\n', or the length when there is none. */
  function NewlineIndex(t: string): (n: nat)
    ensures n <= |t|
    ensures forall i :: 0 <= i < n ==> t[i] != '\n'
    ensures n < |t| ==> t[n] == '\n'
  {
    if t == [] || t[0] == '\n' then 0 else 1 + NewlineIndex(t[1..])
  }

  /** The lines of a text: the segments between its '\n' characters (one more than there are '\n'). */
  function SplitLines(t: string): (ls: seq<string>)
    ensures |ls| >= 1
    ensures forall k :: 0 <= k < |ls| ==> '\n' !in ls[k]
    decreases |t|
  {
    var n := NewlineIndex(t);
    if n == |t| then [t] else [t[..n]] + SplitLines(t[n + 1..])
  }

  /** Lines joined with '\n'. */
  function JoinLines(ls: seq<string>): string
    requires |ls| >= 1
  {
    if |ls| == 1 then ls[0] else ls[0] + "\n" + JoinLines(ls[1..])
  }

  /** Joining the lines of a text gives the text back. */
  lemma {:induction false} JoinSplit(t: string)
    ensures JoinLines(SplitLines(t)) == t
    decreases |t|
  {
    var n := NewlineIndex(t);
    if n < |t| {
      JoinSplit(t[n + 1..]);
      assert t == t[..n] + "\n" + t[n + 1..];
    }
  }

  /** Splitting joined lines that hold no '\n' gives the lines back. */
  lemma {:induction false} SplitJoin(ls: seq<string>)
    requires |ls| >= 1
    requires forall k :: 0 <= k < |ls| ==> '\n' !in ls[k]
    ensures SplitLines(JoinLines(ls)) == ls
  {
    if |ls| == 1 {
      NoNewlineIndex(ls[0]);
    } else {
      var t := JoinLines(ls);
      SplitJoin(ls[1..]);
      NoNewlineIndex(ls[0]);
      NewlineIndexAfter(ls[0], JoinLines(ls[1..]));
      assert t[|ls[0]| + 1..] == JoinLines(ls[1..]);
      assert t[..|ls[0]|] == ls[0];
    }
  }

  lemma NoNewlineIndex(s: string)
    requires '\n' !in s
    ensures NewlineIndex(s) == |s|
  {
  }

  lemma {:induction false} NewlineIndexAfter(s: string, rest: string)
    requires '\n' !in s
    ensures NewlineIndex(s + "\n" + rest) == |s|
    decreases |s|
  {
    var t := s + "\n" + rest;
    if s != [] {
      assert s[0] in s;
      assert t[1..] == s[1..] + "\n" + rest;
      NewlineIndexAfter(s[1..], rest);
    }
  }

  /** The number of lines of a text, as GTK counts them. */
  function LineCount(t: string): (n: nat)
    ensures n >= 1
  {
    |SplitLines(t)|
  }

  /** The offset where line `k` begins in the joined text. */
  function LineOffset(ls: seq<string>, k: nat): nat
    requires k < |ls|
  {
    if k == 0 then 0 else |ls[0]| + 1 + LineOffset(ls[1..], k - 1)
  }

  /** Line `k` is found at its offset, followed by '\n' unless it is the last line. */
  lemma {:induction false} LineAt(ls: seq<string>, k: nat)
    requires k < |ls|
    ensures var t := JoinLines(ls);
            var o := LineOffset(ls, k);
            && o + |ls[k]| <= |t|
            && t[o..o + |ls[k]|] == ls[k]
            && (k + 1 < |ls| ==> o + |ls[k]| < |t| && t[o + |ls[k]|] == '\n')
            && (k + 1 == |ls| ==> o + |ls[k]| == |t|)
  {
    if k > 0 {
      LineAt(ls[1..], k - 1);
      var t := JoinLines(ls);
      var o := LineOffset(ls, k);
      var n := |ls[0]| + 1;
      assert t[n..] == JoinLines(ls[1..]);
      assert t[o..o + |ls[k]|] == t[n..][o - n..o - n + |ls[k]|];
    } else if |ls| > 1 {
      assert JoinLines(ls) == ls[0] + "\n" + JoinLines(ls[1..]);
    }
  }

  /** Replacing line `k` replaces exactly its characters in the joined text. */
  lemma {:induction false} JoinReplace(ls: seq<string>, k: nat, s: string)
    requires k < |ls|
    ensures LineOffset(ls, k) + |ls[k]| <= |JoinLines(ls)|
    ensures JoinLines(ls[k := s]) ==
              JoinLines(ls)[..LineOffset(ls, k)] + s + JoinLines(ls)[LineOffset(ls, k) + |ls[k]|..]
  {
    if k == 0 {
      JoinReplaceFirst(ls, s);
    } else {
      JoinReplace(ls[1..], k - 1, s);
      JoinReplaceLater(ls, k, s);
    }
  }

  lemma JoinReplaceFirst(ls: seq<string>, s: string)
    requires 0 < |ls|
    ensures |ls[0]| <= |JoinLines(ls)|
    ensures JoinLines(ls[0 := s]) == s + JoinLines(ls)[|ls[0]|..]
  {
    var t := JoinLines(ls);
    var r := ls[0 := s];
    if |ls| == 1 {
      assert t == ls[0];
    } else {
      var u := JoinLines(ls[1..]);
      assert r[1..] == ls[1..];
      assert t == ls[0] + "\n" + u;
      assert t[|ls[0]|..] == "\n" + u;
    }
  }

  /** The replacement of a later line, from the replacement in the lines after the first. */
  lemma JoinReplaceLater(ls: seq<string>, k: nat, s: string)
    requires 0 < k < |ls|
    requires LineOffset(ls[1..], k - 1) + |ls[k]| <= |JoinLines(ls[1..])|
    requires JoinLines(ls[1..][k - 1 := s]) ==
               JoinLines(ls[1..])[..LineOffset(ls[1..], k - 1)] + s +
               JoinLines(ls[1..])[LineOffset(ls[1..], k - 1) + |ls[k]|..]
    ensures LineOffset(ls, k) + |ls[k]| <= |JoinLines(ls)|
    ensures JoinLines(ls[k := s]) ==
              JoinLines(ls)[..LineOffset(ls, k)] + s + JoinLines(ls)[LineOffset(ls, k) + |ls[k]|..]
  {
    var r := ls[k := s];
    assert r[1..] == ls[1..][k - 1 := s];
    assert JoinLines(r) == ls[0] + "\n" + JoinLines(r[1..]);
    assert JoinLines(ls) == ls[0] + "\n" + JoinLines(ls[1..]);
    assert LineOffset(ls, k) == |ls[0]| + 1 + LineOffset(ls[1..], k - 1);
    SpliceAfterLine(ls[0], JoinLines(ls[1..]), JoinLines(r[1..]), LineOffset(ls[1..], k - 1), |ls[k]|, s);
  }

  /** A splice in the text after a first line and its '\n', in terms of the whole text. */
  lemma SpliceAfterLine(first: string, u: string, u': string, o: nat, len: nat, s: string)
    requires o + len <= |u| && u' == u[..o] + s + u[o + len..]
    ensures var t := first + "\n" + u;
            && |first| + 1 + o + len <= |t|
            && first + "\n" + u' == t[..|first| + 1 + o] + s + t[|first| + 1 + o + len..]
  {
    var t := first + "\n" + u;
    var n := |first| + 1;
    assert t[..n + o] == first + "\n" + u[..o];
    assert t[n + o + len..] == u[o + len..];
  }

  /** The offset of the first character of line `k` (get_iter_at_line). */
  function LineStart(t: string, k: nat): nat
    requires k < LineCount(t)
  {
    LineOffset(SplitLines(t), k)
  }

  /** Whether line `k` is followed by "\r\n" rather than "\n". */
  predicate EndsWithCr(ls: seq<string>, k: nat)
    requires k < |ls|
  {
    k + 1 < |ls| && |ls[k]| > 0 && ls[k][|ls[k]| - 1] == '\r'
  }

  /** The number of characters of line `k` before its delimiter. */
  function ContentLength(ls: seq<string>, k: nat): (n: nat)
    requires k < |ls|
    ensures n <= |ls[k]|
  {
    if EndsWithCr(ls, k) then |ls[k]| - 1 else |ls[k]|
  }

  /** Whether position `p` ends a line, as GTK's `ends_line` for "\n" and "\r\n" delimiters. */
  predicate EndsLine(t: string, p: nat)
    requires p <= |t|
  {
    p == |t| || t[p] == '\n' || (t[p] == '\r' && p + 1 < |t| && t[p + 1] == '\n')
  }

  /**
   * get_iter_at_line_end: the end of buffer past the last line, and otherwise
   * the position of the line's delimiter ("\r\n" counts as one).
   */
  function LineEnd(t: string, k: nat): (e: nat)
    ensures e <= |t|
    ensures k >= LineCount(t) ==> e == |t|
    ensures k < LineCount(t) ==>
              && LineStart(t, k) <= e
              && (forall i :: LineStart(t, k) <= i < e ==> t[i] != '\n' && !EndsLine(t, i))
              && EndsLine(t, e)
  {
    if k >= LineCount(t) then |t|
    else
      var ls := SplitLines(t);
      LineEndFacts(t, k);
      LineStart(t, k) + ContentLength(ls, k)
  }

  lemma LineEndFacts(t: string, k: nat)
    requires k < LineCount(t)
    ensures var ls := SplitLines(t);
            var o := LineStart(t, k);
            var e := o + ContentLength(ls, k);
            && e <= |t|
            && (forall i :: o <= i < e ==> t[i] != '\n' && !EndsLine(t, i))
            && EndsLine(t, e)
  {
    assert LineStart(t, k) == LineOffset(SplitLines(t), k);
    JoinSplit(t);
    JoinedLineEnd(t, SplitLines(t), k);
  }

  lemma JoinedLineEnd(t: string, ls: seq<string>, k: nat)
    requires k < |ls| && JoinLines(ls) == t
    requires forall j :: 0 <= j < |ls| ==> '\n' !in ls[j]
    ensures var o := LineOffset(ls, k);
            var e := o + ContentLength(ls, k);
            && e <= |t|
            && (forall i :: o <= i < e ==> t[i] != '\n' && !EndsLine(t, i))
            && EndsLine(t, e)
  {
    var o := LineOffset(ls, k);
    var e := o + ContentLength(ls, k);
    LineAt(ls, k);
    var line := ls[k];
    forall i | o <= i < o + |line|
      ensures t[i] == line[i - o] && t[i] != '\n'
    {
      assert t[i] == t[o..o + |line|][i - o] == line[i - o];
      assert line[i - o] in line;
    }
    forall i | o <= i < e
      ensures !EndsLine(t, i)
    {
      // Only a '\r' right before the delimiter could end the line early, and
      // ContentLength stops before such a '\r'.
      if i + 1 == e && e < |t| && t[e] == '\n' {
        assert !EndsWithCr(ls, k) && e == o + |line|;
        assert t[i] == line[|line| - 1];
      }
    }
    if EndsWithCr(ls, k) {
      assert t[e] == t[o..o + |line|][|line| - 1];
    }
  }

  /** The length of line `k`'s content. */
  function LineLength(t: string, k: nat): nat
    requires k < LineCount(t)
  {
    ContentLength(SplitLines(t), k)
  }

  /** A position given as a line number and an offset into that line, with its offset in the text. */
  datatype LinePos = LinePos(line: nat, offset: nat, pos: nat)

  /**
   * get_iter_at_line_offset: the line is clamped into [0, line count - 1] and
   * the offset into [0, length of that line without its delimiter].
   */
  function IterAtLineOffset(t: string, line: int, offset: int): (r: LinePos)
    ensures r.line < LineCount(t) && r.offset <= LineLength(t, r.line)
    ensures r.pos == LineStart(t, r.line) + r.offset
    ensures r.line == if line < 0 then 0 else if line >= LineCount(t) then LineCount(t) - 1 else line
    ensures r.offset == if offset < 0 then 0 else if offset > LineLength(t, r.line) then LineLength(t, r.line) else offset
  {
    var l1 := if line < LineCount(t) - 1 then line else LineCount(t) - 1;
    var l := if l1 < 0 then 0 else l1;
    var o1 := if offset < LineLength(t, l) then offset else LineLength(t, l);
    var o := if o1 < 0 then 0 else o1;
    LinePos(l, o, LineStart(t, l) + o)
  }

  /** Clamping is idempotent, and a position already in range is left where it is. */
  lemma ClampInRange(t: string, line: int, offset: int)
    ensures var r := IterAtLineOffset(t, line, offset);
            IterAtLineOffset(t, r.line, r.offset) == r
    ensures 0 <= line < LineCount(t) && 0 <= offset <= LineLength(t, line) ==>
              IterAtLineOffset(t, line, offset) == LinePos(line, offset, LineStart(t, line) + offset)
  {
  }

  /** The clamped position lies inside the text, at or before the line's end. */
  lemma ClampWithinLine(t: string, line: int, offset: int)
    ensures var r := IterAtLineOffset(t, line, offset);
            LineStart(t, r.line) <= r.pos <= LineEnd(t, r.line) <= |t|
  {
  }

  // ----- indentation -----

  /** The first position at or after `p` that is not a blank. */
  function IndentEnd(t: string, p: nat): (e: nat)
    requires p <= |t|
    ensures p <= e <= |t|
    ensures forall i :: p <= i < e ==> IsBlank(t[i])
    ensures e == |t| || !IsBlank(t[e])
    decreases |t| - p
  {
    if p < |t| && IsBlank(t[p]) then IndentEnd(t, p + 1) else p
  }

  /** get_tabs_end_iter: the loop that moves over the blanks at the start of a line. */
  method TabsEnd(t: string, lineStart: nat) returns (e: nat)
    requires lineStart <= |t|
    ensures e == IndentEnd(t, lineStart)
  {
    e := lineStart;
    while e < |t| && IsBlank(t[e]) && !EndsLine(t, e)
      invariant lineStart <= e <= |t|
      invariant IndentEnd(t, e) == IndentEnd(t, lineStart)
      decreases |t| - e
    {
      e := e + 1;
    }
  }

  /** Whether `p` is the first position of a line. */
  predicate StartsLine(t: string, p: nat)
    requires p <= |t|
  {
    p == 0 || t[p - 1] == '\n'
  }

  /** The start of the line that contains position `p`. */
  function LineBegin(t: string, p: nat): (s: nat)
    requires p <= |t|
    ensures s <= p && StartsLine(t, s)
    ensures forall i :: s <= i < p ==> t[i] != '\n'
  {
    if StartsLine(t, p) then p else LineBegin(t, p - 1)
  }

  /**
   * get_smart_home_iter: from inside the text of a line, or from the line
   * start, go to the end of the indentation; from within the indentation,
   * go to the line start.
   */
  function SmartHome(t: string, p: nat): (r: nat)
    requires p <= |t|
    ensures r == LineBegin(t, p) || r == IndentEnd(t, LineBegin(t, p))
    ensures p == LineBegin(t, p) ==> r == IndentEnd(t, p)
    ensures p > IndentEnd(t, LineBegin(t, p)) ==> r == IndentEnd(t, LineBegin(t, p))
    ensures LineBegin(t, p) < p <= IndentEnd(t, LineBegin(t, p)) ==> r == LineBegin(t, p)
  {
    var start := LineBegin(t, p);
    var sentence := IndentEnd(t, start);
    if p > sentence || p == start then sentence else start
  }

  /** Pressing home twice from inside an indented line returns to the line's start, then to the indentation's end. */
  lemma SmartHomeToggles(t: string, p: nat)
    requires p <= |t|
    requires LineBegin(t, p) < IndentEnd(t, LineBegin(t, p)) < p
    ensures SmartHome(t, p) == IndentEnd(t, LineBegin(t, p))
    ensures SmartHome(t, SmartHome(t, p)) == LineBegin(t, p)
    ensures SmartHome(t, SmartHome(t, SmartHome(t, p))) == IndentEnd(t, LineBegin(t, p))
  {
    var s := LineBegin(t, p);
    var e := IndentEnd(t, s);
    SameLineBegin(t, s, e);
    SameLineBegin(t, s, s);
  }

  /** Positions on the same line share its start. */
  lemma {:induction false} SameLineBegin(t: string, s: nat, q: nat)
    requires s <= q <= |t| && StartsLine(t, s)
    requires forall i :: s <= i < q ==> t[i] != '\n'
    ensures LineBegin(t, q) == s
    decreases q
  {
    if q > s {
      SameLineBegin(t, s, q - 1);
    }
  }

  // ----- tokens -----

  /** is_token_char: ASCII letters and digits, '_', and every code point from 128 on. */
  predicate IsTokenChar(c: char)
  {
    ('A' <= c <= 'Z') || ('a' <= c <= 'z') || ('0' <= c <= '9') || c == '_' || c as int >= 128
  }

  /** The character at `p`, where the end of the text counts as a non-token character. */
  predicate TokenAt(t: string, p: nat)
  {
    p < |t| && IsTokenChar(t[p])
  }

  /**
   * get_token_iters: the maximal run of token characters around `p` when the
   * character at `p` is one; otherwise the empty range at `p`.
   */
  method TokenBounds(t: string, p: nat) returns (start: nat, end: nat)
    requires p <= |t|
    ensures start <= p <= end <= |t|
    ensures forall i :: start <= i < end ==> IsTokenChar(t[i])
    ensures !TokenAt(t, p) ==> start == p && end == p
    ensures TokenAt(t, p) ==> (start == 0 || !IsTokenChar(t[start - 1])) && !TokenAt(t, end)
  {
    start := p;
    end := p;
    var it: nat := p;
    while TokenAt(t, it)
      invariant it <= p && start <= p
      invariant it == start || it + 1 == start
      invariant it == start ==> start == p
      invariant it + 1 == start ==> forall i :: start <= i <= p ==> TokenAt(t, i)
      decreases it
    {
      start := it;
      assert forall i :: start <= i <= p ==> TokenAt(t, i);
      if it == 0 {
        break;
      }
      it := it - 1;
    }
    assert TokenAt(t, p) ==> forall i :: start <= i <= p ==> TokenAt(t, i);
    while TokenAt(t, end)
      invariant p <= end <= |t|
      invariant forall i :: p <= i < end ==> IsTokenChar(t[i])
      decreases |t| - end
    {
      end := end + 1;
    }
    forall i | start <= i < end
      ensures IsTokenChar(t[i])
    {
      if i < p {
        assert TokenAt(t, i);
      }
    }
  }
}
