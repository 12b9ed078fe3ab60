/**
 * Trailing-whitespace cleanup of a text buffer: the whole-buffer cleanup of
 * `cleanup_whitespace_characters()` as a function on the text with its
 * properties, the backward scan over a line's trailing blanks, and the blank
 * range removed around a position by `cleanup_whitespace_characters(iter)`.
 */
module Cleanup {
  import opened Wrappers
  import opened TextLines

  /** The longest prefix of `s` that does not end with a blank. */
  function StripTrailing(s: string): (r: string)
    ensures |r| <= |s| && r == s[..|r|]
    ensures forall i :: |r| <= i < |s| ==> IsBlank(s[i])
    ensures r == [] || !IsBlank(r[|r| - 1])
  {
    if s != [] && IsBlank(s[|s| - 1]) then StripTrailing(s[..|s| - 1]) else s
  }

  /** Line `k` with the blanks before its delimiter removed; the '\r' of a "\r\n" delimiter stays. */
  function CleanLine(ls: seq<string>, k: nat): string
    requires k < |ls|
  {
    if EndsWithCr(ls, k) then StripTrailing(ls[k][..|ls[k]| - 1]) + "\r" else StripTrailing(ls[k])
  }

  function CleanLines(ls: seq<string>): (r: seq<string>)
    ensures |r| == |ls|
    ensures forall k :: 0 <= k < |ls| ==> r[k] == CleanLine(ls, k)
  {
    seq(|ls|, k requires 0 <= k < |ls| => CleanLine(ls, k))
  }

  /** What `cleanup_whitespace_characters()` leaves in the buffer. */
  function CleanupText(t: string): (r: string)
    ensures StartsLine(r, |r|)
  {
    var j := JoinLines(CleanLines(SplitLines(t)));
    if StartsLine(j, |j|) then j else j + "\n"
  }

  /** Every '\r' is the last character of a line that is not the last: it belongs to a "\r\n". */
  ghost predicate NoLoneCr(ls: seq<string>)
  {
    forall k, i :: 0 <= k < |ls| && 0 <= i < |ls[k]| && ls[k][i] == '\r' ==> EndsWithCr(ls, k) && i == |ls[k]| - 1
  }

  lemma CleanLinesNoNewline(ls: seq<string>)
    requires forall k :: 0 <= k < |ls| ==> '\n' !in ls[k]
    ensures forall k :: 0 <= k < |ls| ==> '\n' !in CleanLines(ls)[k]
  {
    forall k | 0 <= k < |ls|
      ensures '\n' !in CleanLines(ls)[k]
    {
      var l := ls[k];
      if EndsWithCr(ls, k) {
        assert StripTrailing(l[..|l| - 1]) == l[..|StripTrailing(l[..|l| - 1])|];
      }
    }
  }

  /** Joining one more line appends a '\n' and the line. */
  lemma {:induction false} JoinSnoc(ls: seq<string>, x: string)
    requires |ls| >= 1
    ensures JoinLines(ls + [x]) == JoinLines(ls) + "\n" + x
  {
    if |ls| > 1 {
      assert (ls + [x])[1..] == ls[1..] + [x];
      JoinSnoc(ls[1..], x);
    }
  }

  /**
   * The lines of the cleaned buffer are the cleaned lines, plus one empty
   * line when a final '\n' was added: the line count is kept otherwise.
   */
  lemma CleanupLines(t: string)
    ensures var ls := SplitLines(t);
            var j := JoinLines(CleanLines(ls));
            SplitLines(CleanupText(t)) == CleanLines(ls) + (if StartsLine(j, |j|) then [] else [""])
  {
    var ls := SplitLines(t);
    var cl := CleanLines(ls);
    var j := JoinLines(cl);
    CleanLinesNoNewline(ls);
    if StartsLine(j, |j|) {
      SplitJoin(cl);
    } else {
      JoinSnoc(cl, "");
      var c2 := cl + [""];
      forall k | 0 <= k < |c2|
        ensures '\n' !in c2[k]
      {
        if k < |cl| {
          assert c2[k] == cl[k];
        }
      }
      assert j + "\n" + "" == j + "\n";
      SplitJoin(c2);
    }
  }

  /** Cleaning a line keeps its text up to the last non-blank and its "\r\n" delimiter; only blanks go. */
  lemma CleanLineRemovesOnlyTrailingBlanks(ls: seq<string>, k: nat)
    requires k < |ls|
    ensures var l := ls[k];
            var c := CleanLine(ls, k);
            var n := ContentLength(ls, k);
            var m := if EndsWithCr(ls, k) then |c| - 1 else |c|;
            && m <= n
            && c[..m] == l[..m]
            && (forall i :: m <= i < n ==> IsBlank(l[i]))
            && (m == 0 || !IsBlank(c[m - 1]))
            && c[m..] == l[n..]
  {
    var l := ls[k];
    if EndsWithCr(ls, k) {
      var body := l[..|l| - 1];
      var s := StripTrailing(body);
      assert CleanLine(ls, k) == s + "\r";
      assert (s + "\r")[..|s|] == s;
      assert l[..|s|] == body[..|s|];
      assert forall i :: |s| <= i < |l| - 1 ==> l[i] == body[i];
    }
  }

  lemma StripTrailingIdempotent(s: string)
    ensures StripTrailing(StripTrailing(s)) == StripTrailing(s)
  {
  }

  lemma StripTrailingNoCr(s: string)
    requires '\r' !in s
    ensures '\r' !in StripTrailing(s)
  {
    var r := StripTrailing(s);
    forall i | 0 <= i < |r|
      ensures r[i] != '\r'
    {
      assert r[i] == s[i] && s[i] in s;
    }
  }

  /** A line that holds no '\r' is cleaned to its stripped text, wherever it stands. */
  lemma CleanLineWithoutCr(ls: seq<string>, k: nat)
    requires k < |ls| && '\r' !in ls[k]
    ensures CleanLine(ls, k) == StripTrailing(ls[k])
    ensures !EndsWithCr(ls, k)
  {
    if |ls[k]| > 0 {
      assert ls[k][|ls[k]| - 1] in ls[k];
    }
  }

  /** Under NoLoneCr, the cleaned lines are cleaned again to themselves, even with an empty line appended. */
  lemma CleanLinesStable(ls: seq<string>, extra: seq<string>)
    requires NoLoneCr(ls)
    requires extra == [] || extra == [""]
    ensures CleanLines(CleanLines(ls) + extra) == CleanLines(ls) + extra
  {
    var cl := CleanLines(ls);
    var c2 := cl + extra;
    forall k | 0 <= k < |c2|
      ensures CleanLine(c2, k) == c2[k]
    {
      if k < |ls| {
        var l := ls[k];
        if EndsWithCr(ls, k) {
          var body := l[..|l| - 1];
          assert '\r' !in body by {
            forall i | 0 <= i < |body|
              ensures body[i] != '\r'
            {
              assert l[i] == body[i];
            }
          }
          var s := StripTrailing(body);
          StripTrailingNoCr(body);
          assert c2[k] == s + "\r";
          assert EndsWithCr(c2, k);
          assert c2[k][..|c2[k]| - 1] == s;
          StripTrailingIdempotent(body);
        } else {
          assert '\r' !in l by {
            forall i | 0 <= i < |l|
              ensures l[i] != '\r'
            {
            }
          }
          StripTrailingNoCr(l);
          CleanLineWithoutCr(ls, k);
          StripTrailingIdempotent(l);
          CleanLineWithoutCr(c2, k);
        }
      } else {
        assert c2[k] == "";
      }
    }
  }

  /** Cleaning a cleaned buffer changes nothing, for buffers whose every '\r' is part of a "\r\n". */
  lemma CleanupIdempotent(t: string)
    requires NoLoneCr(SplitLines(t))
    ensures CleanupText(CleanupText(t)) == CleanupText(t)
  {
    var ls := SplitLines(t);
    var cl := CleanLines(ls);
    var j := JoinLines(cl);
    var r := CleanupText(t);
    var extra: seq<string> := if StartsLine(j, |j|) then [] else [""];
    CleanupLines(t);
    assert SplitLines(r) == cl + extra;
    CleanLinesStable(ls, extra);
    JoinSplit(r);
    assert JoinLines(CleanLines(SplitLines(r))) == r;
  }

  /** The text of the cleanup test line by line, and the lines it is expected to become. */
  const HelloWorld: seq<string> :=
    ["#include <iostream>  ", "    ", "int main() {  ", "  std::cout << \"hello world\\n\";    ", "}"]
  const HelloWorldCleaned: seq<string> :=
    ["#include <iostream>", "", "int main() {", "  std::cout << \"hello world\\n\";", "}", ""]

  /** A line whose blanks start at `n` and whose character before `n` is not a blank strips to its first `n` characters. */
  lemma StripKnown(s: string, n: nat)
    requires n <= |s|
    requires forall i :: n <= i < |s| ==> IsBlank(s[i])
    requires n == 0 || !IsBlank(s[n - 1])
    ensures StripTrailing(s) == s[..n]
  {
  }

  /** The cleanup test's example: trailing blanks go, the blank line empties, a final '\n' is added. */
  lemma CleanupHelloWorld()
    ensures CleanupText(JoinLines(HelloWorld)) == JoinLines(HelloWorldCleaned)
  {
    HelloWorldLines();
    HelloWorldCleanedJoin();
  }

  lemma HelloWorldLines()
    ensures SplitLines(JoinLines(HelloWorld)) == HelloWorld
    ensures CleanLines(HelloWorld) == HelloWorldCleaned[..5]
  {
    HelloWorldSplit();
    HelloWorldClean();
  }

  lemma HelloWorldSplit()
    ensures SplitLines(JoinLines(HelloWorld)) == HelloWorld
  {
    assert forall k :: 0 <= k < 5 ==> '\n' !in HelloWorld[k];
    SplitJoin(HelloWorld);
  }

  lemma HelloWorldClean()
    ensures CleanLines(HelloWorld) == HelloWorldCleaned[..5]
  {
    HelloWorldLine0();
    HelloWorldLine1();
    HelloWorldLine2();
    HelloWorldLine3();
    HelloWorldLine4();
  }

  lemma HelloWorldLine0() ensures CleanLine(HelloWorld, 0) == HelloWorldCleaned[0]
  {
    CleanExampleLine(HelloWorld, 0, HelloWorldCleaned[0]);
  }

  lemma HelloWorldLine1() ensures CleanLine(HelloWorld, 1) == HelloWorldCleaned[1]
  {
    CleanExampleLine(HelloWorld, 1, HelloWorldCleaned[1]);
  }

  lemma HelloWorldLine2() ensures CleanLine(HelloWorld, 2) == HelloWorldCleaned[2]
  {
    CleanExampleLine(HelloWorld, 2, HelloWorldCleaned[2]);
  }

  lemma HelloWorldLine3() ensures CleanLine(HelloWorld, 3) == HelloWorldCleaned[3]
  {
    CleanExampleLine(HelloWorld, 3, HelloWorldCleaned[3]);
  }

  lemma HelloWorldLine4() ensures CleanLine(HelloWorld, 4) == HelloWorldCleaned[4]
  {
    CleanExampleLine(HelloWorld, 4, HelloWorldCleaned[4]);
  }

  lemma HelloWorldCleanedJoin()
    ensures var j := JoinLines(HelloWorldCleaned[..5]);
            !StartsLine(j, |j|) && j + "\n" == JoinLines(HelloWorldCleaned)
  {
    var cs := HelloWorldCleaned[..5];
    var j := JoinLines(cs);
    LineAt(cs, 4);
    assert j[|j| - 1] == '}';
    JoinSnoc(cs, "");
    assert j + "\n" + "" == j + "\n";
    assert cs + [""] == HelloWorldCleaned;
  }

  lemma CleanExampleLine(ls: seq<string>, k: nat, c: string)
    requires k < |ls| && '\r' !in ls[k]
    requires |c| <= |ls[k]| && ls[k][..|c|] == c
    requires forall i :: |c| <= i < |ls[k]| ==> IsBlank(ls[k][i])
    requires c == [] || !IsBlank(c[|c| - 1])
    ensures CleanLine(ls, k) == c
  {
    CleanLineWithoutCr(ls, k);
    StripKnown(ls[k], |c|);
  }

  /**
   * The backward scan of `cleanup_whitespace_characters()` over one line
   * [start, end): from the line end back over blanks, stopping at the line start.
   */
  method TrailingBlankStart(t: string, start: nat, end: nat) returns (it: nat)
    requires start < end <= |t|
    ensures it == start + |StripTrailing(t[start..end])|
  {
    it := end;
    while it > start && (it == end || IsBlank(t[it]))
      invariant start <= it <= end
      invariant it < end ==> StripTrailing(t[start..end]) == StripTrailing(t[start..it + 1])
      decreases it
    {
      if it < end {
        StripDrop(t, start, it);
      }
      it := it - 1;
    }
    StripAt(t, start, it);
    if !IsBlank(t[it]) {
      it := it + 1;
    }
  }

  /** A blank at `it` is stripped from the line [start, it]. */
  lemma StripDrop(t: string, start: nat, it: nat)
    requires start <= it < |t| && IsBlank(t[it])
    ensures StripTrailing(t[start..it + 1]) == StripTrailing(t[start..it])
  {
    assert t[start..it + 1][..it - start] == t[start..it];
  }

  /** Where the backward scan stops: a non-blank ends the stripped line, a blank at the line start empties it. */
  lemma StripAt(t: string, start: nat, it: nat)
    requires start <= it < |t|
    ensures !IsBlank(t[it]) ==> |StripTrailing(t[start..it + 1])| == it + 1 - start
    ensures IsBlank(t[it]) && it == start ==> |StripTrailing(t[start..it + 1])| == 0
  {
    if IsBlank(t[it]) && it == start {
      assert t[start..it + 1][..0] == [];
    }
  }

  /**
   * `cleanup_whitespace_characters(iter)`: the range that is erased around
   * `p` — the blanks after `p` up to the line end, and the blanks before `p`
   * unless they reach back to the line start (the indentation is kept).
   */
  method BlankRangeAround(t: string, p: nat) returns (b: nat, e: nat)
    requires p <= |t|
    ensures b <= p <= e <= |t|
    ensures forall i :: b <= i < e ==> IsBlank(t[i])
    ensures e == |t| || !IsBlank(t[e])
    ensures b < p ==> LineBegin(t, p) < b && !IsBlank(t[b - 1])
    ensures b == p ==> p == LineBegin(t, p) || !IsBlank(t[p - 1]) ||
                       forall i :: LineBegin(t, p) <= i < p ==> IsBlank(t[i])
  {
    e := p;
    while e < |t| && IsBlank(t[e]) && !EndsLine(t, e)
      invariant p <= e <= |t|
      invariant forall i :: p <= i < e ==> IsBlank(t[i])
      decreases |t| - e
    {
      e := e + 1;
    }
    var s := p;
    if !StartsLine(t, s) {
      s := s - 1;
      while IsBlank(t[s]) && !StartsLine(t, s)
        invariant LineBegin(t, p) <= s < p
        invariant forall i :: s < i < p ==> IsBlank(t[i])
        decreases s
      {
        s := s - 1;
      }
      if !IsBlank(t[s]) {
        s := s + 1;
      }
    }
    if StartsLine(t, s) {
      b := p;
    } else {
      b := s;
    }
  }

  // ----- the per-line loop of cleanup_whitespace_characters() -----

  /** The lines before `n` cleaned and the others as they were: the buffer after `n` rounds of the loop. */
  function PartlyCleaned(ls: seq<string>, n: nat): (r: seq<string>)
    ensures |r| == |ls|
    ensures forall k :: 0 <= k < |ls| ==> r[k] == if k < n then CleanLine(ls, k) else ls[k]
  {
    seq(|ls|, k requires 0 <= k < |ls| => if k < n then CleanLine(ls, k) else ls[k])
  }

  /**
   * One round of the loop on line `n`: the buffer still has the original
   * number of lines, and erasing from the end of the line's text without its
   * trailing blanks up to the line end cleans line `n`.
   */
  lemma CleanStep(ls: seq<string>, n: nat)
    requires n < |ls|
    requires forall k :: 0 <= k < |ls| ==> '\n' !in ls[k]
    ensures var t := JoinLines(PartlyCleaned(ls, n));
            && LineCount(t) == |ls|
            && LineStart(t, n) <= LineEnd(t, n) <= |t|
            && t[..TrimmedEnd(t, LineStart(t, n), LineEnd(t, n))] + t[LineEnd(t, n)..] == JoinLines(PartlyCleaned(ls, n + 1))
  {
    PartlyCleanedNoNewline(ls, n);
    CleanLineOf(PartlyCleaned(ls, n), n);
    NextPartlyCleaned(ls, n);
  }

  /** The same round on any lines without '\n'. */
  lemma CleanLineOf(ls: seq<string>, n: nat)
    requires n < |ls|
    requires forall k :: 0 <= k < |ls| ==> '\n' !in ls[k]
    ensures var t := JoinLines(ls);
            && LineCount(t) == |ls|
            && LineStart(t, n) <= LineEnd(t, n) <= |t|
            && t[..TrimmedEnd(t, LineStart(t, n), LineEnd(t, n))] + t[LineEnd(t, n)..] == JoinLines(ls[n := CleanLine(ls, n)])
  {
    assert && LineCount(JoinLines(ls)) == |ls|
           && LineStart(JoinLines(ls), n) == LineOffset(ls, n)
           && LineEnd(JoinLines(ls), n) == LineOffset(ls, n) + ContentLength(ls, n) by {
      SplitJoin(ls);
      LineBounds(JoinLines(ls), ls, n);
    }
    CleanReplace(ls, n, LineStart(JoinLines(ls), n), LineEnd(JoinLines(ls), n));
  }

  /** One more round cleans line `n` of the partly cleaned lines. */
  lemma NextPartlyCleaned(ls: seq<string>, n: nat)
    requires n < |ls|
    ensures PartlyCleaned(ls, n + 1) == PartlyCleaned(ls, n)[n := CleanLine(PartlyCleaned(ls, n), n)]
  {
    assert PartlyCleaned(ls, n)[n] == ls[n];
    assert CleanLine(PartlyCleaned(ls, n), n) == CleanLine(ls, n);
  }

  /** Line start, line end and line count of a text whose lines are known. */
  lemma LineBounds(t: string, lines: seq<string>, n: nat)
    requires SplitLines(t) == lines && n < |lines|
    ensures LineCount(t) == |lines|
    ensures LineStart(t, n) == LineOffset(lines, n)
    ensures LineEnd(t, n) == LineOffset(lines, n) + ContentLength(lines, n)
  {
  }

  /** Where the text of [s, e) ends once its trailing blanks are left out. */
  function TrimmedEnd(t: string, s: nat, e: nat): nat
    requires s <= e <= |t|
  {
    s + |StripTrailing(t[s..e])|
  }

  /** Replacing line `n`, whose text is [s, e) of the joined lines, by its cleaned form, as an erase. */
  lemma CleanReplace(ls: seq<string>, n: nat, s: nat, e: nat)
    requires n < |ls| && s == LineOffset(ls, n) && e == s + ContentLength(ls, n)
    ensures s <= e <= |JoinLines(ls)|
    ensures JoinLines(ls)[..TrimmedEnd(JoinLines(ls), s, e)] + JoinLines(ls)[e..] == JoinLines(ls[n := CleanLine(ls, n)])
  {
    var t := JoinLines(ls);
    var c := CleanLine(ls, n);
    LineAt(ls, n);
    assert t[s..s + |ls[n]|] == ls[n];
    EraseTrailing(t, s, e, ls, n);
    JoinReplace(ls, n, c);
    assert JoinLines(ls[n := c]) == t[..s] + c + t[s + |ls[n]|..];
  }

  /**
   * Erasing the trailing blanks of the text of line `n`, found at offset
   * `o` and ending at `e` before its delimiter, replaces the line by its
   * cleaned form.
   */
  lemma EraseTrailing(t: string, o: nat, e: nat, lines: seq<string>, n: nat)
    requires n < |lines| && o + |lines[n]| <= |t| && t[o..o + |lines[n]|] == lines[n]
    requires e == o + ContentLength(lines, n)
    ensures o <= e <= |t|
    ensures t[..TrimmedEnd(t, o, e)] + t[e..] == t[..o] + CleanLine(lines, n) + t[o + |lines[n]|..]
  {
    assert t[o..e] == lines[n][..ContentLength(lines, n)];
    assert TrimmedEnd(t, o, e) == o + |StripTrailing(lines[n][..ContentLength(lines, n)])|;
    assert t[..TrimmedEnd(t, o, e)] == t[..o] + StripTrailing(lines[n][..ContentLength(lines, n)]);
    if EndsWithCr(lines, n) {
      assert t[e..] == "\r" + t[o + |lines[n]|..];
    } else {
      assert lines[n][..ContentLength(lines, n)] == lines[n];
    }
  }

  lemma PartlyCleanedNoNewline(ls: seq<string>, n: nat)
    requires forall k :: 0 <= k < |ls| ==> '\n' !in ls[k]
    ensures forall k :: 0 <= k < |ls| ==> '\n' !in PartlyCleaned(ls, n)[k]
  {
    CleanLinesNoNewline(ls);
    forall k | 0 <= k < |ls|
      ensures '\n' !in PartlyCleaned(ls, n)[k]
    {
      if k < n {
        assert PartlyCleaned(ls, n)[k] == CleanLines(ls)[k];
      }
    }
  }

  /** The loop never changes the number of lines. */
  lemma LinesOfPartlyCleaned(ls: seq<string>, n: nat)
    requires |ls| >= 1
    requires forall k :: 0 <= k < |ls| ==> '\n' !in ls[k]
    ensures LineCount(JoinLines(PartlyCleaned(ls, n))) == |ls|
  {
    PartlyCleanedNoNewline(ls, n);
    SplitJoin(PartlyCleaned(ls, n));
  }
}
