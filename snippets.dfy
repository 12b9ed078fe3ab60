/**
 * Snippet expansion: the placeholders `${<number>:<text>}` of a snippet are
 * replaced by their text, and the ranges of that text are collected per
 * number so that the editor can visit them in increasing order.
 */
module Snippets {
  import opened Wrappers

  // ----- searching -----

  /** Whether "${" starts at `i`. */
  predicate OpensAt(s: string, i: nat)
  {
    i + 1 < |s| && s[i] == '$' && s[i + 1] == '{'
  }

  /** The search for "${" at or after `from`. */
  function FindOpen(s: string, from: nat): (r: Option<nat>)
    ensures r.Some? ==> from <= r.value && OpensAt(s, r.value)
    decreases |s| - from
  {
    if from + 1 >= |s| then None
    else if s[from] == '$' && s[from + 1] == '{' then Some(from)
    else FindOpen(s, from + 1)
  }

  /** The search for the character `c` at or after `from`. */
  function FindChar(s: string, c: char, from: nat): (r: Option<nat>)
    ensures r.Some? ==> from <= r.value < |s| && s[r.value] == c
    decreases |s| - from
  {
    if from >= |s| then None
    else if s[from] == c then Some(from)
    else FindChar(s, c, from + 1)
  }

  /** The search finds the first "${" at or after `from`, and nothing when there is none. */
  lemma {:induction false} FindOpenFirst(s: string, from: nat)
    ensures var r := FindOpen(s, from);
            forall i :: from <= i && (r.None? || i < r.value) ==> !OpensAt(s, i)
    decreases |s| - from
  {
    if from + 1 < |s| && !(s[from] == '$' && s[from + 1] == '{') {
      FindOpenFirst(s, from + 1);
    }
  }

  /** The search finds the first `c` at or after `from`, and nothing when there is none. */
  lemma {:induction false} FindCharFirst(s: string, c: char, from: nat)
    ensures var r := FindChar(s, c, from);
            forall i :: from <= i < |s| && (r.None? || i < r.value) ==> s[i] != c
    decreases |s| - from
  {
    if from < |s| && s[from] != c {
      FindCharFirst(s, c, from + 1);
    }
  }

  lemma {:induction false} FindOpenAt(s: string, from: nat, p: nat)
    requires from <= p && OpensAt(s, p)
    requires forall i :: from <= i < p ==> s[i] != '$'
    ensures FindOpen(s, from) == Some(p)
    decreases p - from
  {
    if from < p {
      FindOpenAt(s, from + 1, p);
    }
  }

  lemma {:induction false} FindOpenNone(s: string, from: nat)
    requires forall i :: from <= i < |s| ==> s[i] != '$'
    ensures FindOpen(s, from) == None
    decreases |s| - from
  {
    if from + 1 < |s| {
      FindOpenNone(s, from + 1);
    }
  }

  lemma {:induction false} FindCharAt(s: string, c: char, from: nat, p: nat)
    requires from <= p < |s| && s[p] == c
    requires forall i :: from <= i < p ==> s[i] != c
    ensures FindChar(s, c, from) == Some(p)
    decreases p - from
  {
    if from < p {
      FindCharAt(s, c, from + 1, p);
    }
  }

  // ----- std::stoul -----

  predicate IsSpace(c: char)
  {
    c == ' ' || c == '\t' || c == '\n' || c == '\U{B}' || c == '\U{C}' || c == '\r'
  }

  predicate IsDigit(c: char)
  {
    '0' <= c <= '9'
  }

  /** The value of the characters `s[i..j]` read as decimal digits. */
  function DigitsValue(s: string, i: nat, j: nat): int
    requires i <= j <= |s|
    decreases j - i
  {
    if j == i then 0 else DigitsValue(s, i, j - 1) * 10 + (s[j - 1] as int - '0' as int)
  }

  /** The largest `unsigned long`. */
  const ULongMax: nat := 0xFFFF_FFFF_FFFF_FFFF

  /** Where `std::stoul` is in its reading: white space and sign, the first digit, further digits. */
  datatype Phase = Lead | First | More

  function PhaseRank(p: Phase): nat
  {
    match p
    case Lead => 2
    case First => 1
    case More => 0
  }

  /**
   * `std::stoul` in base 10 read one character at a time from `i`: leading
   * white space, an optional sign, at least one digit. None where it throws:
   * no digit, or a value past `ULongMax` (the value only grows with more
   * digits, so the reading may stop there). A minus sign negates modulo
   * 2^64: 0 stays 0, any other v becomes 2^64 - v.
   */
  function Scan(s: string, i: nat, phase: Phase, neg: bool, v: nat): (r: Option<nat>)
    requires i <= |s| && v <= ULongMax
    ensures r.Some? ==> r.value <= ULongMax
    decreases |s| - i, PhaseRank(phase)
  {
    match phase
    case Lead =>
      if i < |s| && IsSpace(s[i]) then Scan(s, i + 1, Lead, false, 0)
      else if i < |s| && (s[i] == '-' || s[i] == '+') then Scan(s, i + 1, First, s[i] == '-', 0)
      else Scan(s, i, First, false, 0)
    case First =>
      if i < |s| && IsDigit(s[i]) then Scan(s, i + 1, More, neg, s[i] as nat - '0' as nat)
      else None
    case More =>
      if i < |s| && IsDigit(s[i]) then
        var w := v * 10 + (s[i] as nat - '0' as nat);
        if w > ULongMax then None else Scan(s, i + 1, More, neg, w)
      else Some(if neg && v != 0 then ULongMax + 1 - v else v)
  }

  function Stoul(s: string): (r: Option<nat>)
    ensures r.Some? ==> r.value <= ULongMax
  {
    Scan(s, 0, Lead, false, 0)
  }

  lemma {:induction false} ScanNoDigit(s: string, i: nat, phase: Phase, neg: bool, v: nat)
    requires i <= |s| && v <= ULongMax && phase != More
    requires forall k :: i <= k < |s| ==> !IsDigit(s[k])
    ensures Scan(s, i, phase, neg, v) == None
    decreases |s| - i, PhaseRank(phase)
  {
    if phase == Lead {
      if i < |s| && IsSpace(s[i]) {
        ScanNoDigit(s, i + 1, Lead, false, 0);
      } else if i < |s| && (s[i] == '-' || s[i] == '+') {
        ScanNoDigit(s, i + 1, First, s[i] == '-', 0);
      } else {
        ScanNoDigit(s, i, First, false, 0);
      }
    }
  }

  /** `std::stoul` throws on a string without a digit. */
  lemma StoulNeedsDigit(s: string)
    requires forall i :: 0 <= i < |s| ==> !IsDigit(s[i])
    ensures Stoul(s) == None
  {
    ScanNoDigit(s, 0, Lead, false, 0);
  }

  /** The decimal representation of `n`. */
  function Digits(n: nat): (d: string)
    ensures d != [] && forall i :: 0 <= i < |d| ==> IsDigit(d[i])
  {
    var last := ['0' + (n % 10) as char];
    if n < 10 then last else Digits(n / 10) + last
  }

  lemma {:induction false} DigitsValuePrefix(s: string, t: string, j: nat)
    requires j <= |s| && j <= |t| && s[..j] == t[..j]
    ensures DigitsValue(s, 0, j) == DigitsValue(t, 0, j)
  {
    if j > 0 {
      assert s[j - 1] == s[..j][j - 1];
      assert t[j - 1] == t[..j][j - 1];
      assert s[..j - 1] == s[..j][..j - 1];
      assert t[..j - 1] == t[..j][..j - 1];
      DigitsValuePrefix(s, t, j - 1);
    }
  }

  lemma {:induction false} DigitsValueOf(n: nat)
    ensures DigitsValue(Digits(n), 0, |Digits(n)|) == n
  {
    if n >= 10 {
      DigitsValueOf(n / 10);
      var d := Digits(n);
      var h := Digits(n / 10);
      assert d[..|h|] == h[..|h|];
      DigitsValuePrefix(d, h, |h|);
    }
  }

  lemma {:induction false} DigitsValueGrows(s: string, i: nat, j: nat)
    requires i < j <= |s| && forall k :: i <= k < j ==> IsDigit(s[k])
    ensures 0 <= DigitsValue(s, i, j - 1) <= DigitsValue(s, i, j)
    decreases j - i
  {
    if j - 1 > i {
      DigitsValueGrows(s, i, j - 1);
    }
  }

  /** Reading further digits of a number that fits ends with the whole number. */
  lemma {:induction false} ScanDigits(s: string, i: nat, v: nat)
    requires 0 < i <= |s| && v <= ULongMax && forall k :: 0 <= k < |s| ==> IsDigit(s[k])
    requires v == DigitsValue(s, 0, i) && DigitsValue(s, 0, |s|) <= ULongMax
    ensures Scan(s, i, More, false, v) == Some(DigitsValue(s, 0, |s|))
    decreases |s| - i
  {
    if i < |s| {
      var k := |s|;
      while k > i + 1
        invariant i + 1 <= k <= |s|
        invariant DigitsValue(s, 0, k) <= ULongMax
        decreases k
      {
        DigitsValueGrows(s, 0, k);
        k := k - 1;
      }
      DigitsValueGrows(s, 0, i + 1);
      ScanDigits(s, i + 1, DigitsValue(s, 0, i + 1));
    }
  }

  /** Writing a number in decimal and reading it back with `std::stoul` gives the number. */
  lemma StoulDigits(n: nat)
    requires n <= ULongMax
    ensures Stoul(Digits(n)) == Some(n)
  {
    var d := Digits(n);
    DigitsValueOf(n);
    assert !IsSpace(d[0]) && d[0] != '-' && d[0] != '+';
    assert Scan(d, 0, Lead, false, 0) == Scan(d, 0, First, false, 0);
    assert DigitsValue(d, 0, 1) == d[0] as nat - '0' as nat;
    if |d| > 1 {
      DigitsValueGrows(d, 0, 1 + 1);
    }
    ScanDigits(d, 1, DigitsValue(d, 0, 1));
  }

  // ----- expansion -----

  /** A placeholder's number and the range its text occupies in the expanded snippet. */
  datatype Argument = Argument(number: nat, start: nat, end: nat)

  /** Ranges that follow each other from `lo` on and end by `hi`. */
  predicate Ordered(args: seq<Argument>, lo: nat, hi: nat)
  {
    if args == [] then lo <= hi
    else lo <= args[0].start <= args[0].end && Ordered(args[1..], args[0].end, hi)
  }

  /** Where the loop stops, or the positions of the "${", ':' and '}' of a placeholder and its number. */
  datatype Next = Stop | At(open: nat, colon: nat, close: nat, number: nat)

  /**
   * One placeholder as the loop finds it from `pos`: the positions of "${",
   * ':' and '}' and the number; Stop where the loop stops.
   */
  function NextPlaceholder(s: string, pos: nat): (r: Next)
    ensures r.At? ==> pos <= r.open && r.open + 2 <= r.colon < r.close < |s|
    decreases |s| - pos
  {
    if pos + 1 >= |s| then Stop
    else if s[pos] == '$' && s[pos + 1] == '{' then PlaceholderFrom(s, pos)
    else NextPlaceholder(s, pos + 1)
  }

  /** The placeholder whose "${" is at `open`: its ':' and '}' must follow and its number must read. */
  function PlaceholderFrom(s: string, open: nat): (r: Next)
    ensures r.At? ==> r.open == open && open + 2 <= r.colon < r.close < |s|
  {
    var colon := FindChar(s, ':', open + 2);
    if colon.None? then Stop
    else
      var close := FindChar(s, '}', colon.value + 1);
      if close.None? then Stop
      else
        var number := Stoul(s[open + 2..colon.value]);
        if number.None? then Stop
        else At(open, colon.value, close.value, number.value)
  }

  /** Finding the next placeholder is searching for "${" and reading the placeholder there. */
  lemma {:induction false} NextViaFind(s: string, pos: nat)
    ensures NextPlaceholder(s, pos) == match FindOpen(s, pos)
                                       case None => Stop
                                       case Some(open) => PlaceholderFrom(s, open)
    decreases |s| - pos
  {
    if pos + 1 < |s| && !(s[pos] == '$' && s[pos + 1] == '{') {
      NextViaFind(s, pos + 1);
    }
  }

  /** The expanded text and, in the order they were found, the placeholders. */
  datatype Expansion = Expansion(text: string, args: seq<Argument>)

  /** The text once the placeholder at `p1`..`p3` with its ':' at `p2` is replaced by its text. */
  function Erased(s: string, p1: nat, p2: nat, p3: nat): (s': string)
    requires p1 < p2 < p3 < |s|
    ensures |s'| == |s| - (p2 - p1 + 2)
  {
    s[..p1] + s[p2 + 1..p3] + s[p3 + 1..]
  }

  /**
   * The expansion loop from position `pos`: the expanded text and the
   * placeholders in the order they were found. The loop stops at the first
   * "${" that has no ':' and '}' after it or whose number `std::stoul`
   * rejects.
   */
  function Expand(s: string, pos: nat): Expansion
    requires pos <= |s|
    decreases |s| - pos
  {
    match NextPlaceholder(s, pos)
    case Stop => Expansion(s, [])
    case At(p1, p2, p3, n) =>
      var len := p3 - p2 - 1;
      var rest := Expand(Erased(s, p1, p2, p3), p1 + len);
      Expansion(rest.text, [Argument(n, p1, p1 + len)] + rest.args)
  }

  /**
   * The expansion keeps the text before `pos`, and the ranges it reports
   * follow each other, from `pos` on, within the expanded text.
   */
  lemma {:induction false} ExpandShape(s: string, pos: nat)
    requires pos <= |s|
    ensures var r := Expand(s, pos);
            pos <= |r.text| && r.text[..pos] == s[..pos] && Ordered(r.args, pos, |r.text|)
    decreases |s| - pos
  {
    if NextPlaceholder(s, pos).Stop? {
      ExpandNone(s, pos);
    } else {
      var s', p1, q, n := ExpandFirst(s, pos);
      ExpandShape(s', q);
      ShapeStep(s, pos, s', p1, q, n, Expand(s, pos), Expand(s', q));
    }
  }

  /**
   * The first step of the expansion from `pos` where a placeholder follows: its argument
   * runs from `p1` to `q` in the text `s'` the step leaves, which agrees with `s` before `p1`.
   */
  lemma ExpandFirst(s: string, pos: nat) returns (s': string, p1: nat, q: nat, n: nat)
    requires pos <= |s| && NextPlaceholder(s, pos).At?
    ensures pos <= p1 <= q <= |s'| && p1 <= |s| && |s'| - q < |s| - pos && s'[..p1] == s[..p1]
    ensures Expand(s, pos) == Expansion(Expand(s', q).text, [Argument(n, p1, q)] + Expand(s', q).args)
  {
    var At(a, b, c, m) := NextPlaceholder(s, pos);
    ExpandUnfold(s, pos, a, b, c, m);
    s', p1, q, n := Erased(s, a, b, c), a, a + (c - b - 1), m;
    assert s'[..p1] == s[..p1];
  }

  /** Where no placeholder follows, the expansion is the text itself with no arguments. */
  lemma ExpandNone(s: string, pos: nat)
    requires pos <= |s| && NextPlaceholder(s, pos).Stop?
    ensures Expand(s, pos) == Expansion(s, [])
  {
  }

  /** The shape of an expansion whose first argument runs from `p1` to `q`, from the shape of the rest. */
  lemma ShapeStep(s: string, pos: nat, s': string, p1: nat, q: nat, n: nat, e: Expansion, rest: Expansion)
    requires pos <= p1 <= q <= |s'| && p1 <= |s| && s'[..p1] == s[..p1]
    requires e == Expansion(rest.text, [Argument(n, p1, q)] + rest.args)
    requires q <= |rest.text| && rest.text[..q] == s'[..q] && Ordered(rest.args, q, |rest.text|)
    ensures pos <= |e.text| && e.text[..pos] == s[..pos] && Ordered(e.args, pos, |e.text|)
  {
    var t := rest.text;
    assert t[..pos] == t[..q][..pos];
    assert s'[..q][..pos] == s'[..p1][..pos];
    assert s[..p1][..pos] == s[..pos];
    assert ([Argument(n, p1, q)] + rest.args)[1..] == rest.args;
  }

  /** The loop of `insert_snippet` that expands the placeholders and groups their ranges by number. */
  method ParseSnippet(snippet: string) returns (text: string, offsets: map<nat, seq<(nat, nat)>>)
    ensures text == Expand(snippet, 0).text
    ensures offsets == GroupArgs(Expand(snippet, 0).args)
  {
    text := snippet;
    offsets := map[];
    var pos1: nat := 0;
    ghost var args: seq<Argument> := [];
    ghost var whole := Expand(snippet, 0);
    assert args + Expand(text, pos1).args == Expand(text, pos1).args;
    while true
      invariant pos1 <= |text|
      invariant whole == Expansion(Expand(text, pos1).text, args + Expand(text, pos1).args)
      invariant offsets == GroupArgs(args)
      decreases |text| - pos1
    {
      var next, text', pos' := ExpandStep(text, pos1);
      if next.Stop? {
        break;
      }
      var n := next.number;
      ShiftArgument(whole, Expand(text, pos1), Expand(text', pos'), args, Argument(n, next.open, pos'));
      GroupArgsSnoc(args, Argument(n, next.open, pos'));
      offsets := offsets[n := (if n in offsets then offsets[n] else []) + [(next.open, pos')]];
      text, pos1 := text', pos';
      args := args + [Argument(n, next.open, pos')];
    }
    assert args + [] == args;
  }

  /**
   * One round of the loop keeps its invariant: where the expansion from here
   * is the argument `a` followed by the expansion from the next position,
   * moving `a` to the arguments found so far leaves the whole unchanged.
   */
  lemma ShiftArgument(whole: Expansion, here: Expansion, next: Expansion, args: seq<Argument>, a: Argument)
    requires here == Expansion(next.text, [a] + next.args)
    requires whole == Expansion(here.text, args + here.args)
    ensures whole == Expansion(next.text, (args + [a]) + next.args)
  {
    assert (args + [a]) + next.args == args + ([a] + next.args);
  }

  /**
   * The searches at the head of the loop: "${" from `pos`, then ':' and '}', then the number
   * between "${" and ':'; a failure anywhere ends the loop.
   */
  method ReadPlaceholder(text: string, pos: nat) returns (next: Next)
    ensures next == NextPlaceholder(text, pos)
  {
    NextViaFind(text, pos);
    var f1 := FindOpen(text, pos);
    if f1.None? {
      return Stop;
    }
    var p1 := f1.value;
    var f2 := FindChar(text, ':', p1 + 2);
    if f2.None? {
      return Stop;
    }
    var p2 := f2.value;
    var f3 := FindChar(text, '}', p2 + 1);
    if f3.None? {
      return Stop;
    }
    var number := Stoul(text[p1 + 2..p2]);
    if number.None? {
      return Stop;
    }
    return At(p1, p2, f3.value, number.value);
  }

  /**
   * One turn of the loop: the placeholder that follows `pos` is read and, when there is one,
   * its '}' and then its "${", number and ':' are erased, and the search goes on after its text.
   */
  method ExpandStep(text: string, pos: nat) returns (next: Next, text': string, pos': nat)
    requires pos <= |text|
    ensures next.Stop? ==> Expand(text, pos) == Expansion(text, [])
    ensures next.At? ==> pos' <= |text'| && |text'| - pos' < |text| - pos
    ensures next.At? ==> Expand(text, pos) == Expansion(Expand(text', pos').text, [Argument(next.number, next.open, pos')] + Expand(text', pos').args)
  {
    next := ReadPlaceholder(text, pos);
    text', pos' := text, pos;
    if next.Stop? {
      ExpandNone(text, pos);
      return;
    }
    var p1, p2, p3 := next.open, next.colon, next.close;
    var length := p3 - p2 - 1;
    ExpandUnfold(text, pos, p1, p2, p3, next.number);
    EraseTwice(text, p1, p2, p3);
    text' := text[..p3] + text[p3 + 1..];
    text' := text'[..p1] + text'[p2 + 1..];
    pos' := p1 + length;
  }

  /** The two `erase` calls, the '}' first, remove the placeholder's "${", number, ':' and '}'. */
  lemma EraseTwice(s: string, p1: nat, p2: nat, p3: nat)
    requires p1 < p2 < p3 < |s|
    ensures var u := s[..p3] + s[p3 + 1..];
            p2 < |u| && u[..p1] + u[p2 + 1..] == Erased(s, p1, p2, p3)
  {
    var u := s[..p3] + s[p3 + 1..];
    assert u[..p1] == s[..p1];
    assert u[p2 + 1..] == s[p2 + 1..p3] + s[p3 + 1..];
  }
  // ----- grouping by number -----

  /** The ranges of the placeholders numbered `n`, in the order they were found. */
  function RangesOf(args: seq<Argument>, n: nat): (rs: seq<(nat, nat)>)
    ensures |rs| <= |args|
  {
    if args == [] then []
    else
      var a := args[|args| - 1];
      RangesOf(args[..|args| - 1], n) + (if a.number == n then [(a.start, a.end)] else [])
  }

  /** The map from number to ranges that the loop builds. */
  function GroupArgs(args: seq<Argument>): map<nat, seq<(nat, nat)>>
  {
    if args == [] then map[]
    else
      var a := args[|args| - 1];
      var m := GroupArgs(args[..|args| - 1]);
      m[a.number := (if a.number in m then m[a.number] else []) + [(a.start, a.end)]]
  }

  /** The map holds exactly the numbers that occur. */
  lemma {:induction false} GroupArgsKeys(args: seq<Argument>)
    ensures forall n :: n in GroupArgs(args) <==> exists i :: 0 <= i < |args| && args[i].number == n
  {
    if args != [] {
      var init := args[..|args| - 1];
      var a := args[|args| - 1];
      GroupArgsKeys(init);
      GroupArgsLast(args);
      forall n
        ensures n in GroupArgs(args) <==> exists i :: 0 <= i < |args| && args[i].number == n
      {
        if n in GroupArgs(init) {
          var i :| 0 <= i < |init| && init[i].number == n;
          assert args[i].number == n;
        }
        if exists i :: 0 <= i < |args| && args[i].number == n {
          var i :| 0 <= i < |args| && args[i].number == n;
          if i < |init| {
            assert init[i].number == n;
          }
        }
      }
    }
  }

  /** Each number maps to the ranges of its placeholders, in the order they were found, and to at least one. */
  lemma {:induction false} GroupArgsValues(args: seq<Argument>)
    ensures forall n :: n in GroupArgs(args) ==> GroupArgs(args)[n] == RangesOf(args, n) && GroupArgs(args)[n] != []
  {
    if args != [] {
      var init := args[..|args| - 1];
      var a := args[|args| - 1];
      GroupArgsValues(init);
      GroupArgsKeys(init);
      GroupArgsLast(args);
      forall n | n in GroupArgs(args)
        ensures GroupArgs(args)[n] == RangesOf(args, n) && GroupArgs(args)[n] != []
      {
        if n != a.number {
          assert RangesOf(args, n) == RangesOf(init, n) + [];
        } else if n !in GroupArgs(init) {
          RangesAbsent(init, n);
        }
      }
    }
  }

  lemma GroupArgsLast(args: seq<Argument>)
    requires args != []
    ensures var a := args[|args| - 1];
            var m := GroupArgs(args[..|args| - 1]);
            GroupArgs(args) == m[a.number := (if a.number in m then m[a.number] else []) + [(a.start, a.end)]]
  {
  }

  /** One more placeholder adds its range under its number. */
  lemma GroupArgsSnoc(args: seq<Argument>, a: Argument)
    ensures var m := GroupArgs(args);
            GroupArgs(args + [a]) == m[a.number := (if a.number in m then m[a.number] else []) + [(a.start, a.end)]]
  {
    assert (args + [a])[..|args|] == args;
  }

  lemma {:induction false} RangesAbsent(args: seq<Argument>, n: nat)
    requires forall i :: 0 <= i < |args| ==> args[i].number != n
    ensures RangesOf(args, n) == []
  {
    if args != [] {
      RangesAbsent(args[..|args| - 1], n);
    }
  }

  // ----- the round trip -----

  /** Literal text followed by one placeholder. */
  datatype Piece = Piece(lit: string, number: nat, text: string)

  function Placeholder(n: nat, t: string): string
  {
    "${" + Digits(n) + ":" + t + "}"
  }

  /** A snippet written out. */
  function Render(pieces: seq<Piece>, tail: string): string
  {
    if pieces == [] then tail
    else pieces[0].lit + Placeholder(pieces[0].number, pieces[0].text) + Render(pieces[1..], tail)
  }

  /** A snippet with its placeholders replaced by their text. */
  function Plain(pieces: seq<Piece>, tail: string): string
  {
    if pieces == [] then tail
    else pieces[0].lit + pieces[0].text + Plain(pieces[1..], tail)
  }

  /** Where each placeholder's text lands when the plain text starts at `off`. */
  function Args(off: nat, pieces: seq<Piece>): seq<Argument>
    decreases |pieces|
  {
    if pieces == [] then []
    else
      var start := off + |pieces[0].lit|;
      [Argument(pieces[0].number, start, start + |pieces[0].text|)] + Args(start + |pieces[0].text|, pieces[1..])
  }

  /**
   * Where the loop stops in `t`: there is no "${", or the first one has no ':'
   * after it, no '}' after that ':', or a number `std::stoul` rejects.
   */
  predicate StopsFirst(t: string)
  {
    match FindOpen(t, 0)
    case None => true
    case Some(o) =>
      var colon := FindChar(t, ':', o + 2);
      colon.None? || FindChar(t, '}', colon.value + 1).None? || Stoul(t[o + 2..colon.value]).None?
  }

  /**
   * Literal text without '$', placeholder text without '}', numbers an
   * `unsigned long` holds, and a tail where the loop stops.
   */
  predicate WellFormed(pieces: seq<Piece>, tail: string)
  {
    && StopsFirst(tail)
    && forall k :: 0 <= k < |pieces| ==>
         '$' !in pieces[k].lit && '}' !in pieces[k].text && pieces[k].number <= ULongMax
  }

  /** A placeholder found in a text that follows `k` other characters, in the positions of the whole. */
  function ShiftNext(r: Next, k: nat): Next
  {
    match r
    case Stop => Stop
    case At(a, b, c, n) => At(a + k, b + k, c + k, n)
  }

  /** Searching `pre + t` from inside `t` finds what searching `t` finds, moved by `|pre|`. */
  lemma {:induction false} FindCharShift(pre: string, t: string, c: char, i: nat)
    ensures FindChar(pre + t, c, |pre| + i) == match FindChar(t, c, i)
                                              case None => None
                                              case Some(j) => Some(|pre| + j)
    decreases |t| - i
  {
    if i < |t| {
      assert (pre + t)[|pre| + i] == t[i];
      if t[i] != c {
        FindCharShift(pre, t, c, i + 1);
      }
    }
  }

  lemma PlaceholderFromShift(pre: string, t: string, o: nat)
    ensures PlaceholderFrom(pre + t, |pre| + o) == ShiftNext(PlaceholderFrom(t, o), |pre|)
  {
    FindCharShift(pre, t, ':', o + 2);
    var colon := FindChar(t, ':', o + 2);
    if colon.Some? {
      FindCharShift(pre, t, '}', colon.value + 1);
      assert (pre + t)[|pre| + o + 2..|pre| + colon.value] == t[o + 2..colon.value];
    }
  }

  /** The next placeholder of `pre + t` from inside `t` is the next placeholder of `t`, moved by `|pre|`. */
  lemma {:induction false} NextPlaceholderShift(pre: string, t: string, i: nat)
    ensures NextPlaceholder(pre + t, |pre| + i) == ShiftNext(NextPlaceholder(t, i), |pre|)
    decreases |t| - i
  {
    if i + 1 < |t| {
      assert (pre + t)[|pre| + i] == t[i] && (pre + t)[|pre| + i + 1] == t[i + 1];
      if t[i] == '$' && t[i + 1] == '{' {
        PlaceholderFromShift(pre, t, i);
      } else {
        NextPlaceholderShift(pre, t, i + 1);
      }
    }
  }

  /** The placeholder written out, with the positions of its parts. */
  lemma PlaceholderAt(a: string, d: string, t: string, r: string)
    ensures var s := a + "${" + d + ":" + t + "}" + r;
            var p2 := |a| + 2 + |d|;
            && s[|a|..|a| + 2] == "${"
            && s[|a| + 2..p2] == d
            && s[p2..p2 + 1] == ":"
            && s[p2 + 1..p2 + 1 + |t|] == t
            && s[p2 + 1 + |t|..p2 + 2 + |t|] == "}"
            && s[..|a|] == a
            && s[p2 + 2 + |t|..] == r
  {
  }

  /** Where the characters before `lo + |run|` are those of `run`, none of which is `c`, the search for `c` from `lo` reaches it. */
  lemma FindAfterRun(s: string, c: char, lo: nat, run: string)
    requires lo + |run| < |s| && s[lo..lo + |run|] == run && s[lo + |run|] == c
    requires c !in run
    ensures FindChar(s, c, lo) == Some(lo + |run|)
  {
    forall i | lo <= i < lo + |run|
      ensures s[i] != c
    {
      assert s[i] == run[i - lo];
    }
    FindCharAt(s, c, lo, lo + |run|);
  }

  /** Decimal digits hold no ':'. */
  lemma DigitsNoColon(n: nat)
    ensures ':' !in Digits(n)
  {
  }

  lemma NextPlaceholderIs(s: string, pos: nat, p1: nat, p2: nat, p3: nat, n: nat)
    requires FindOpen(s, pos) == Some(p1) && FindChar(s, ':', p1 + 2) == Some(p2) && FindChar(s, '}', p2 + 1) == Some(p3)
    requires p2 <= |s| && Stoul(s[p1 + 2..p2]) == Some(n)
    ensures NextPlaceholder(s, pos) == At(p1, p2, p3, n)
  {
    NextViaFind(s, pos);
    PlaceholderFromIs(s, p1, p2, p3, n);
  }

  /** The placeholder at `p1` reads as found by the two searches and the number. */
  lemma PlaceholderFromIs(s: string, p1: nat, p2: nat, p3: nat, n: nat)
    requires FindChar(s, ':', p1 + 2) == Some(p2) && FindChar(s, '}', p2 + 1) == Some(p3)
    requires p2 <= |s| && Stoul(s[p1 + 2..p2]) == Some(n)
    ensures PlaceholderFrom(s, p1) == At(p1, p2, p3, n)
  {
  }

  /** The three searches of one step on a placeholder written out after `a`, and what the step leaves. */
  lemma PlaceholderSteps(a: string, d: string, t: string, r: string, from: nat)
    requires from <= |a| && forall i :: from <= i < |a| ==> a[i] != '$'
    requires ':' !in d && '}' !in t
    ensures var s := a + "${" + d + ":" + t + "}" + r;
            var p1 := |a|;
            var p2 := p1 + 2 + |d|;
            var p3 := p2 + 1 + |t|;
            && FindOpen(s, from) == Some(p1)
            && FindChar(s, ':', p1 + 2) == Some(p2)
            && FindChar(s, '}', p2 + 1) == Some(p3)
            && s[p1 + 2..p2] == d
            && Erased(s, p1, p2, p3) == a + t + r
  {
    var s := a + "${" + d + ":" + t + "}" + r;
    PlaceholderAt(a, d, t, r);
    forall i | from <= i < |a|
      ensures s[i] != '$'
    {
      assert s[i] == a[i];
    }
    var p1 := |a|;
    var p2 := p1 + 2 + |d|;
    FindOpenAt(s, from, p1);
    FindAfterRun(s, ':', p1 + 2, d);
    FindAfterRun(s, '}', p2 + 1, t);
    ErasedAt(a, d, t, r);
  }

  /** Erasing the placeholder written out after `a` leaves its text in its place. */
  lemma ErasedAt(a: string, d: string, t: string, r: string)
    ensures var s := a + "${" + d + ":" + t + "}" + r;
            var p2 := |a| + 2 + |d|;
            Erased(s, |a|, p2, p2 + 1 + |t|) == a + t + r
  {
    PlaceholderAt(a, d, t, r);
  }

  /** One step of the expansion: the placeholder found, then the expansion of what the step leaves. */
  lemma ExpandUnfold(s: string, pos: nat, p1: nat, p2: nat, p3: nat, n: nat)
    requires pos <= |s| && NextPlaceholder(s, pos) == At(p1, p2, p3, n)
    ensures p1 + (p3 - p2 - 1) <= |Erased(s, p1, p2, p3)|
    ensures var rest := Expand(Erased(s, p1, p2, p3), p1 + (p3 - p2 - 1));
            Expand(s, pos) == Expansion(rest.text, [Argument(n, p1, p1 + (p3 - p2 - 1))] + rest.args)
  {
  }

  /** One step of the loop on a placeholder written `d` after `a`, which holds no '$' from `from` on. */
  lemma ExpandStepAt(a: string, from: nat, d: string, n: nat, t: string, r: string)
    requires from <= |a| && forall i :: from <= i < |a| ==> a[i] != '$'
    requires Stoul(d) == Some(n) && ':' !in d && '}' !in t
    ensures var s := a + "${" + d + ":" + t + "}" + r;
            Expand(s, from) ==
              var rest := Expand(a + t + r, |a + t|);
              Expansion(rest.text, [Argument(n, |a|, |a + t|)] + rest.args)
  {
    var s := a + "${" + d + ":" + t + "}" + r;
    var p2 := |a| + 2 + |d|;
    var p3 := p2 + 1 + |t|;
    PlaceholderNext(a, from, d, n, t, r);
    ExpandUnfold(s, from, |a|, p2, p3, n);
    assert |a| + (p3 - p2 - 1) == |a + t|;
  }

  /** The placeholder written `d` after `a` is the next one from `from`, and the step leaves `a + t + r`. */
  lemma PlaceholderNext(a: string, from: nat, d: string, n: nat, t: string, r: string)
    requires from <= |a| && forall i :: from <= i < |a| ==> a[i] != '$'
    requires Stoul(d) == Some(n) && ':' !in d && '}' !in t
    ensures var s := a + "${" + d + ":" + t + "}" + r;
            var p1 := |a|;
            var p2 := p1 + 2 + |d|;
            var p3 := p2 + 1 + |t|;
            NextPlaceholder(s, from) == At(p1, p2, p3, n) && Erased(s, p1, p2, p3) == a + t + r
  {
    PlaceholderSteps(a, d, t, r, from);
    NextPlaceholderIs(a + "${" + d + ":" + t + "}" + r, from, |a|, |a| + 2 + |d|, |a| + 2 + |d| + 1 + |t|, n);
  }

  /** Literal text without '$' appended to `pre` holds no '$' after `pre`. */
  lemma LiteralNoOpen(pre: string, lit: string)
    requires '$' !in lit
    ensures forall i :: |pre| <= i < |pre + lit| ==> (pre + lit)[i] != '$'
  {
    forall i | |pre| <= i < |pre + lit|
      ensures (pre + lit)[i] != '$'
    {
      assert (pre + lit)[i] == lit[i - |pre|];
    }
  }

  /**
   * Expanding a well-formed snippet gives its plain text and, for each
   * placeholder in order, its number and where its text lands.
   */
  lemma {:induction false} ExpandRender(pre: string, pieces: seq<Piece>, tail: string)
    requires WellFormed(pieces, tail)
    ensures Expand(pre + Render(pieces, tail), |pre|) == Expansion(pre + Plain(pieces, tail), Args(|pre|, pieces))
    decreases |pieces|
  {
    if pieces == [] {
      ExpandPlainTail(pre, tail);
    } else {
      var p := pieces[0];
      assert WellFormed(pieces[1..], tail);
      ExpandRender(pre + p.lit + p.text, pieces[1..], tail);
      ExpandRenderCons(pre, pieces, tail);
    }
  }

  /** The step of `ExpandRender` from the pieces after the first to all of them. */
  lemma ExpandRenderCons(pre: string, pieces: seq<Piece>, tail: string)
    requires pieces != [] && WellFormed(pieces, tail)
    requires var p := pieces[0];
             var pre' := pre + p.lit + p.text;
             Expand(pre' + Render(pieces[1..], tail), |pre'|) == Expansion(pre' + Plain(pieces[1..], tail), Args(|pre'|, pieces[1..]))
    ensures Expand(pre + Render(pieces, tail), |pre|) == Expansion(pre + Plain(pieces, tail), Args(|pre|, pieces))
  {
    var p := pieces[0];
    var r := Render(pieces[1..], tail);
    var a := pre + p.lit;
    var d := Digits(p.number);
    ArgsCons(pre, pieces);
    PlainCons(pre, pieces, tail);
    RenderCons(pre, pieces, tail);
    StoulDigits(p.number);
    DigitsNoColon(p.number);
    LiteralNoOpen(pre, p.lit);
    ExpandStepAt(a, |pre|, d, p.number, p.text, r);
  }

  /** A tail where the loop stops is kept as it is, with no range recorded in it. */
  lemma ExpandPlainTail(pre: string, tail: string)
    requires StopsFirst(tail)
    ensures Expand(pre + tail, |pre|) == Expansion(pre + tail, [])
  {
    NextViaFind(tail, 0);
    NextPlaceholderShift(pre, tail, 0);
    ExpandNone(pre + tail, |pre|);
  }

  lemma RenderCons(pre: string, pieces: seq<Piece>, tail: string)
    requires pieces != []
    ensures var p := pieces[0];
            pre + Render(pieces, tail) ==
            pre + p.lit + "${" + Digits(p.number) + ":" + p.text + "}" + Render(pieces[1..], tail)
  {
  }

  lemma ArgsCons(pre: string, pieces: seq<Piece>)
    requires pieces != []
    ensures var p := pieces[0];
            Args(|pre|, pieces) ==
            [Argument(p.number, |pre + p.lit|, |pre + p.lit + p.text|)] + Args(|pre + p.lit + p.text|, pieces[1..])
  {
  }

  lemma PlainCons(pre: string, pieces: seq<Piece>, tail: string)
    requires pieces != []
    ensures var p := pieces[0];
            pre + p.lit + p.text + Plain(pieces[1..], tail) == pre + Plain(pieces, tail)
  {
  }

  /**
   * The loop stops at the first malformed placeholder, wherever it comes:
   * after any number of well-formed placeholders, a tail whose first "${"
   * lacks its ':', its '}' or a number `std::stoul` reads is inserted as it
   * is, and no range is recorded in it.
   */
  lemma StopsAtMalformed(pieces: seq<Piece>, tail: string)
    requires WellFormed(pieces, tail) && FindOpen(tail, 0).Some?
    ensures var e := Expand(Render(pieces, tail), 0);
            var keep := |e.text| - |tail|;
            && e == Expansion(Plain(pieces, tail), Args(0, pieces))
            && |tail| <= |e.text| && e.text[keep..] == tail
            && forall k :: 0 <= k < |e.args| ==> e.args[k].end <= keep
  {
    var empty: string := [];
    ExpandRender(empty, pieces, tail);
    ArgsBeforeTail(0, pieces, tail);
    assert empty + Render(pieces, tail) == Render(pieces, tail);
    assert empty + Plain(pieces, tail) == Plain(pieces, tail);
  }

  /** The plain text ends with the tail, and every placeholder's range ends before it. */
  lemma {:induction false} ArgsBeforeTail(off: nat, pieces: seq<Piece>, tail: string)
    ensures var t := Plain(pieces, tail);
            && |tail| <= |t| && t[|t| - |tail|..] == tail
            && forall k :: 0 <= k < |Args(off, pieces)| ==> Args(off, pieces)[k].end <= off + |t| - |tail|
    decreases |pieces|
  {
    if pieces != [] {
      var p := pieces[0];
      var off' := off + |p.lit| + |p.text|;
      ArgsBeforeTail(off', pieces[1..], tail);
      var t := Plain(pieces, tail);
      var t' := Plain(pieces[1..], tail);
      assert t == p.lit + p.text + t';
      assert t[|t| - |tail|..] == t'[|t'| - |tail|..];
      var args := Args(off, pieces);
      var rest := Args(off', pieces[1..]);
      assert args == [Argument(p.number, off + |p.lit|, off')] + rest;
      forall k | 0 <= k < |args|
        ensures args[k].end <= off + |t| - |tail|
      {
        if k > 0 {
          assert args[k] == rest[k - 1];
        }
      }
    }
  }

  /** A "${" followed by a number without digits and a ':' is a place where the loop stops. */
  lemma MissingNumberStops(lit: string, t: string, r: string)
    requires '$' !in lit && ':' !in t
    requires forall i :: 0 <= i < |t| ==> !IsDigit(t[i])
    ensures StopsFirst(lit + "${" + t + ":" + r)
    ensures FindOpen(lit + "${" + t + ":" + r, 0) == Some(|lit|)
  {
    var s := lit + "${" + t + ":" + r;
    var p1 := |lit|;
    forall i | 0 <= i < p1
      ensures s[i] != '$'
    {
      assert s[i] == lit[i];
    }
    FindOpenAt(s, 0, p1);
    assert s[p1 + 2..p1 + 2 + |t|] == t;
    FindAfterRun(s, ':', p1 + 2, t);
    StoulNeedsDigit(t);
  }

  // ----- ranges of the parse -----

  /** Each placeholder's range in the plain text spells the placeholder's text and carries its number. */
  lemma {:induction false} ArgsSpellText(pre: string, pieces: seq<Piece>, tail: string)
    ensures var s := pre + Plain(pieces, tail);
            var args := Args(|pre|, pieces);
            && |args| == |pieces|
            && forall k :: 0 <= k < |pieces| ==>
                 && args[k].number == pieces[k].number
                 && args[k].start <= args[k].end <= |s|
                 && s[args[k].start..args[k].end] == pieces[k].text
    decreases |pieces|
  {
    if pieces != [] {
      var p := pieces[0];
      var pre' := pre + p.lit + p.text;
      ArgsSpellText(pre', pieces[1..], tail);
      var s := pre + Plain(pieces, tail);
      assert s == pre' + Plain(pieces[1..], tail);
      var rest := Args(|pre'|, pieces[1..]);
      var args := Args(|pre|, pieces);
      assert args == [Argument(p.number, |pre| + |p.lit|, |pre| + |p.lit| + |p.text|)] + rest;
      forall k | 0 <= k < |pieces|
        ensures && args[k].number == pieces[k].number
                && args[k].start <= args[k].end <= |s|
                && s[args[k].start..args[k].end] == pieces[k].text
      {
        if k == 0 {
          assert s[|pre| + |p.lit|..|pre| + |p.lit| + |p.text|] == p.text;
        } else {
          assert args[k] == rest[k - 1] && pieces[k] == pieces[1..][k - 1];
        }
      }
    }
  }

  /** Every argument of an ordered list lies within [lo, hi]. */
  lemma {:induction false} OrderedWithin(args: seq<Argument>, lo: nat, hi: nat)
    requires Ordered(args, lo, hi)
    ensures lo <= hi
    ensures forall i :: 0 <= i < |args| ==> lo <= args[i].start <= args[i].end <= hi
  {
    if args != [] {
      OrderedWithin(args[1..], args[0].end, hi);
      forall i | 0 <= i < |args|
        ensures lo <= args[i].start <= args[i].end <= hi
      {
        if i > 0 {
          assert args[i] == args[1..][i - 1];
        }
      }
    }
  }

  /** Each range recorded under `n` is the range of an argument numbered `n`. */
  lemma {:induction false} RangesFromArgs(args: seq<Argument>, n: nat)
    ensures forall r :: r in RangesOf(args, n) ==> exists i :: 0 <= i < |args| && args[i] == Argument(n, r.0, r.1)
  {
    if args != [] {
      var init := args[..|args| - 1];
      RangesFromArgs(init, n);
      forall r | r in RangesOf(args, n)
        ensures exists i :: 0 <= i < |args| && args[i] == Argument(n, r.0, r.1)
      {
        if r in RangesOf(init, n) {
          var i :| 0 <= i < |init| && init[i] == Argument(n, r.0, r.1);
          assert args[i] == init[i];
        } else {
          assert args[|args| - 1] == Argument(n, r.0, r.1);
        }
      }
    }
  }

  /** Every range the parse records lies within the expanded text, its start before its end. */
  lemma ParsedRangesWithin(snippet: string)
    ensures var e := Expand(snippet, 0);
            var m := GroupArgs(e.args);
            forall n: nat, r: (nat, nat) :: n in m && r in m[n] ==> r.0 <= r.1 <= |e.text|
  {
    var e := Expand(snippet, 0);
    var m := GroupArgs(e.args);
    ExpandShape(snippet, 0);
    OrderedWithin(e.args, 0, |e.text|);
    GroupArgsValues(e.args);
    forall n: nat, r: (nat, nat) | n in m && r in m[n]
      ensures r.0 <= r.1 <= |e.text|
    {
      RangesFromArgs(e.args, n);
      var i :| 0 <= i < |e.args| && e.args[i] == Argument(n, r.0, r.1);
    }
  }
}
