/**
 * Compile-command handling: the shell-like tokenizer of a compilation
 * database `command` string, escape removal, `parameter_values`, the
 * classification of files by extension and the composition of the clang
 * argument list of `get_arguments`.
 */
module CompileCommands {
  import opened Wrappers

  // ----- parameter_values -----

  /** Reference definition: the element after each occurrence of `name` that is not itself consumed as a value. */
  function ValuesAfter(ps: seq<string>, name: string): seq<string>
    decreases |ps|
  {
    if ps == [] then []
    else if ps[0] == name then (if |ps| >= 2 then [ps[1]] + ValuesAfter(ps[2..], name) else [])
    else ValuesAfter(ps[1..], name)
  }

  /** What the scan of parameter_values still adds from position `i` on, `found` saying the previous element was `name`. */
  function StillAfter(ps: seq<string>, name: string, i: nat, found: bool): seq<string>
    requires i <= |ps|
  {
    if found then (if i < |ps| then [ps[i]] + ValuesAfter(ps[i + 1..], name) else [])
    else ValuesAfter(ps[i..], name)
  }

  lemma StillAfterStep(ps: seq<string>, name: string, i: nat, found: bool)
    requires i < |ps|
    ensures StillAfter(ps, name, i, found) ==
            (if found then [ps[i]] else []) + StillAfter(ps, name, i + 1, !found && ps[i] == name)
  {
    assert ps[i + 1..] == ps[i..][1..];
    if !found && ps[i] == name && i + 1 < |ps| {
      assert ps[i + 2..] == ps[i..][2..];
    }
  }

  /** Command::parameter_values: the scan with a `found_argument` flag. */
  method ParameterValues(ps: seq<string>, name: string) returns (values: seq<string>)
    ensures values == ValuesAfter(ps, name)
  {
    values := [];
    var found := false;
    for i := 0 to |ps|
      invariant ValuesAfter(ps, name) == values + StillAfter(ps, name, i, found)
    {
      StillAfterStep(ps, name, i, found);
      if found {
        values := values + [ps[i]];
        found := false;
      } else if ps[i] == name {
        found := true;
      }
    }
  }

  /** `v` immediately follows some occurrence of `name` in `ps`. */
  predicate FollowsName(ps: seq<string>, name: string, v: string)
  {
    exists i :: 0 <= i < |ps| - 1 && ps[i] == name && ps[i + 1] == v
  }

  lemma FollowsInSuffix(ps: seq<string>, j: nat, name: string, v: string)
    requires j <= |ps| && FollowsName(ps[j..], name, v)
    ensures FollowsName(ps, name, v)
  {
    var i :| 0 <= i < |ps[j..]| - 1 && ps[j..][i] == name && ps[j..][i + 1] == v;
    assert ps[j + i] == name && ps[j + i + 1] == v;
  }

  /** Every value returned immediately follows an occurrence of `name`. */
  lemma {:induction false} ValuesFollowName(ps: seq<string>, name: string)
    ensures forall k :: 0 <= k < |ValuesAfter(ps, name)| ==> FollowsName(ps, name, ValuesAfter(ps, name)[k])
    decreases |ps|
  {
    if ps != [] && ps[0] == name && |ps| >= 2 {
      ValuesFollowName(ps[2..], name);
      var r := ValuesAfter(ps, name);
      assert r == [ps[1]] + ValuesAfter(ps[2..], name);
      forall k | 0 <= k < |r|
        ensures FollowsName(ps, name, r[k])
      {
        if k == 0 {
          assert ps[0] == name && ps[1] == r[0];
        } else {
          FollowsInSuffix(ps, 2, name, r[k]);
        }
      }
    } else if ps != [] && ps[0] != name {
      ValuesFollowName(ps[1..], name);
      forall k | 0 <= k < |ValuesAfter(ps, name)|
        ensures FollowsName(ps, name, ValuesAfter(ps, name)[k])
      {
        FollowsInSuffix(ps, 1, name, ValuesAfter(ps, name)[k]);
      }
    }
  }

  /** At its first occurrence, `name` takes the next element; a trailing `name` contributes nothing. */
  lemma {:induction false} FirstOccurrenceTakesNext(pre: seq<string>, name: string, post: seq<string>)
    requires name !in pre
    ensures post != [] ==> ValuesAfter(pre + [name] + post, name) == [post[0]] + ValuesAfter(post[1..], name)
    ensures ValuesAfter(pre + [name], name) == []
    decreases |pre|
  {
    if pre != [] {
      assert (pre + [name] + post)[1..] == pre[1..] + [name] + post;
      assert (pre + [name])[1..] == pre[1..] + [name];
      FirstOccurrenceTakesNext(pre[1..], name, post);
    } else {
      assert [name] + post == pre + [name] + post;
      if post != [] {
        assert ([name] + post)[2..] == post[1..];
      }
    }
  }

  // ----- escape removal -----

  /** Escape removal: each backslash is dropped and the character after it kept, scanning left to right. */
  function Unescape(p: string): (r: string)
    ensures |r| <= |p|
    ensures p != [] ==> r != []
    decreases |p|
  {
    if |p| < 2 then p
    else if p[0] == '\\' then [p[1]] + Unescape(p[2..])
    else [p[0]] + Unescape(p[1..])
  }

  /** Every character preceded by a backslash. */
  function EscapeAll(x: string): (r: string)
    ensures |r| == 2 * |x|
  {
    if x == [] then [] else ['\\', x[0]] + EscapeAll(x[1..])
  }

  /** Escape removal undoes escaping every character. */
  lemma {:induction false} UnescapeEscapeAll(x: string)
    ensures Unescape(EscapeAll(x)) == x
  {
    if x != [] {
      UnescapeEscapeAll(x[1..]);
      assert EscapeAll(x)[2..] == EscapeAll(x[1..]);
    }
  }

  /** A parameter without backslashes is left as it is. */
  lemma {:induction false} UnescapeNoBackslash(p: string)
    requires '\\' !in p
    ensures Unescape(p) == p
    decreases |p|
  {
    if |p| >= 2 {
      assert p[0] != '\\';
      UnescapeNoBackslash(p[1..]);
    }
  }

  /** One step of the escape-removal loop keeps the already-processed prefix plus the rest's unescaping. */
  lemma UnescapeStep(r: string, c: nat)
    requires c + 1 < |r|
    ensures r[c] == '\\' ==>
              var next := r[..c] + [r[c + 1]] + r[c + 2..];
              next[..c + 1] + Unescape(next[c + 1..]) == r[..c] + Unescape(r[c..])
    ensures r[c] != '\\' ==> r[..c + 1] + Unescape(r[c + 1..]) == r[..c] + Unescape(r[c..])
  {
    UnescapeFront(r[c..]);
    if r[c] == '\\' {
      assert r[c..][1] == r[c + 1] && r[c..][2..] == r[c + 2..];
      CutAfter(r[..c], r[c + 1], r[c + 2..]);
    } else {
      assert r[c..][1..] == r[c + 1..];
      assert r[..c + 1] == r[..c] + [r[c]];
    }
  }

  /** The first step of escape removal on a parameter of two or more characters. */
  lemma UnescapeFront(t: string)
    requires |t| >= 2
    ensures t[0] == '\\' ==> Unescape(t) == [t[1]] + Unescape(t[2..])
    ensures t[0] != '\\' ==> Unescape(t) == [t[0]] + Unescape(t[1..])
  {
  }

  /** Cutting `a + [x] + b` just after `x`. */
  lemma CutAfter(a: string, x: char, b: string)
    ensures (a + [x] + b)[..|a| + 1] == a + [x] && (a + [x] + b)[|a| + 1..] == b
  {
  }

  /** The escape-removal loop of add_parameter, rewriting the parameter in place. */
  method RemoveEscapes(p: string) returns (r: string)
    requires p != []  // the tokenizer only passes non-empty parameters; the unsigned bound `size() - 1` would wrap otherwise
    ensures r == Unescape(p)
  {
    r := p;
    var c := 0;
    while c + 1 < |r|
      invariant 0 <= c <= |r|
      invariant r[..c] + Unescape(r[c..]) == Unescape(p)
    {
      UnescapeStep(r, c);
      if r[c] == '\\' {
        r := r[..c] + [r[c + 1]] + r[c + 2..];
      }
      c := c + 1;
    }
    assert |r[c..]| < 2;
    assert r[..c] + r[c..] == r;
  }

  // ----- tokenizer -----

  /** What the tokenizer does with one character, given its flags. */
  datatype Action = Escaped | Escape | Separate | ToggleSingle | ToggleDouble | Keep

  /** The branch the tokenizer loop takes for character `c`. */
  function Classify(c: char, backslash: bool, single: bool, double: bool): Action
  {
    if backslash then Escaped
    else if c == '\\' then Escape
    else if IsBlank(c) && !single && !double then Separate
    else if c == '\'' && !double then ToggleSingle
    else if c == '"' && !single then ToggleDouble
    else Keep
  }

  /** Whether the character belongs to the current parameter. */
  predicate Counted(a: Action) { a == Escaped || a == Escape || a == Keep }

  /**
   * The tokenizer's variables as written: flags, the start position of the
   * current parameter (-1 for std::string::npos), its size, and the parameters so far.
   */
  datatype RawScan = RawScan(backslash: bool, single: bool, double: bool, start: int, size: nat, params: seq<string>)

  /** std::string::substr(start, size), which clamps the size to the end of the string. */
  function Substr(s: string, start: nat, size: nat): string
    requires start <= |s|
  {
    if start + size <= |s| then s[start..start + size] else s[start..]
  }

  /** One iteration of the tokenizer loop, as written. */
  function RawStep(s: string, c: nat, st: RawScan): RawScan
    requires c < |s|
    requires st.start < 0 || st.start <= c
  {
    match Classify(s[c], st.backslash, st.single, st.double)
    case Separate =>
      if st.start >= 0 then st.(params := st.params + [Unescape(Substr(s, st.start, st.size))], start := -1, size := 0)
      else st
    case ToggleSingle => st.(single := !st.single)
    case ToggleDouble => st.(double := !st.double)
    case Escaped => Grow(st.(backslash := false), c)
    case Escape => Grow(st.(backslash := true), c)
    case Keep => Grow(st, c)
  }

  /** The tail of the loop body: start a parameter if none is open, and count the character. */
  function Grow(st: RawScan, c: nat): RawScan
  {
    st.(start := if st.start < 0 then c else st.start, size := st.size + 1)
  }

  /** The tokenizer from position `c` on, as written, including the final add_parameter. */
  function RawScanFrom(s: string, c: nat, st: RawScan): seq<string>
    requires c <= |s|
    requires st.start < 0 || st.start <= c
    decreases |s| - c
  {
    if c == |s| then
      if st.start >= 0 then st.params + [Unescape(Substr(s, st.start, st.size))] else st.params
    else
      RawScanFrom(s, c + 1, RawStep(s, c, st))
  }

  /** The tokenizer of the CompileCommands constructor, as written. */
  function RawTokens(command: string): seq<string>
  {
    RawScanFrom(command, 0, RawScan(false, false, false, -1, 0, []))
  }

  /** The tokenizer loop of the CompileCommands constructor, with its flags and add_parameter. */
  method TokenizeCommand(command: string) returns (params: seq<string>)
    ensures params == RawTokens(command)
  {
    params := [];
    var backslash, single, double := false, false, false;
    var start: int := -1;
    var size: nat := 0;
    for c := 0 to |command|
      invariant start < 0 ==> size == 0
      invariant start >= 0 ==> size >= 1 && start + size <= c
      invariant RawScanFrom(command, c, RawScan(backslash, single, double, start, size, params)) == RawTokens(command)
    {
      ghost var st := RawScan(backslash, single, double, start, size, params);
      ghost var next := RawStep(command, c, st);
      if backslash {
        backslash := false;
      } else if command[c] == '\\' {
        backslash := true;
      } else if IsBlank(command[c]) && !backslash && !single && !double {
        if start >= 0 {
          var p := RemoveEscapes(command[start..start + size]);
          params := params + [p];
          start := -1;
          size := 0;
        }
        assert RawScan(backslash, single, double, start, size, params) == next;
        continue;
      } else if command[c] == '\'' && !backslash && !double {
        single := !single;
        assert RawScan(backslash, single, double, start, size, params) == next;
        continue;
      } else if command[c] == '"' && !backslash && !single {
        double := !double;
        assert RawScan(backslash, single, double, start, size, params) == next;
        continue;
      }
      if start < 0 {
        start := c;
      }
      size := size + 1;
      assert RawScan(backslash, single, double, start, size, params) == next;
    }
    if start >= 0 {
      var p := RemoveEscapes(command[start..start + size]);
      params := params + [p];
    }
  }

  /**
   * The tokenizer with the evident intent: a parameter is the sequence of the
   * characters it counts (quotes that toggle are dropped), not the contiguous
   * substring that starts at its first character.
   */
  datatype Scan = Scan(backslash: bool, single: bool, double: bool, open: bool, acc: string, params: seq<string>)

  function StepScan(s: string, c: nat, st: Scan): Scan
    requires c < |s|
  {
    match Classify(s[c], st.backslash, st.single, st.double)
    case Separate =>
      if st.open then st.(params := st.params + [Unescape(st.acc)], open := false, acc := []) else st
    case ToggleSingle => st.(single := !st.single)
    case ToggleDouble => st.(double := !st.double)
    case Escaped => st.(backslash := false, open := true, acc := st.acc + [s[c]])
    case Escape => st.(backslash := true, open := true, acc := st.acc + [s[c]])
    case Keep => st.(open := true, acc := st.acc + [s[c]])
  }

  function ScanFrom(s: string, c: nat, st: Scan): seq<string>
    requires c <= |s|
    decreases |s| - c
  {
    if c == |s| then (if st.open then st.params + [Unescape(st.acc)] else st.params)
    else ScanFrom(s, c + 1, StepScan(s, c, st))
  }

  /** The corrected tokenizer. */
  function Tokens(command: string): seq<string>
  {
    ScanFrom(command, 0, Scan(false, false, false, false, [], []))
  }

  /** A scanner state whose open parameter is never empty. */
  ghost predicate ScanOk(st: Scan)
  {
    (st.open <==> st.acc != []) && forall k :: 0 <= k < |st.params| ==> st.params[k] != []
  }

  lemma {:induction false} ScanFromNonEmpty(s: string, c: nat, st: Scan)
    requires c <= |s| && ScanOk(st)
    ensures forall k :: 0 <= k < |ScanFrom(s, c, st)| ==> ScanFrom(s, c, st)[k] != []
    decreases |s| - c
  {
    if c < |s| {
      ScanFromNonEmpty(s, c + 1, StepScan(s, c, st));
    }
  }

  /**
   * An as-written scanner state whose open parameter has counted at least one
   * character, all before `c`, and whose parameters are non-empty.
   */
  ghost predicate RawOk(st: RawScan, c: nat)
  {
    && (st.start < 0 ==> st.size == 0)
    && (st.start >= 0 ==> st.size >= 1 && st.start + st.size <= c)
    && forall k :: 0 <= k < |st.params| ==> st.params[k] != []
  }

  lemma {:induction false} RawScanFromNonEmpty(s: string, c: nat, st: RawScan)
    requires c <= |s| && RawOk(st, c)
    ensures forall k :: 0 <= k < |RawScanFrom(s, c, st)| ==> RawScanFrom(s, c, st)[k] != []
    decreases |s| - c
  {
    if c < |s| {
      RawScanFromNonEmpty(s, c + 1, RawStep(s, c, st));
    } else if st.start >= 0 {
      assert |Substr(s, st.start, st.size)| == st.size;
    }
  }

  /**
   * Runs of blanks never produce a parameter: add_parameter only runs after a
   * counted character, so every parameter is non-empty, as written and corrected.
   */
  lemma TokensNonEmpty(command: string)
    ensures forall k :: 0 <= k < |RawTokens(command)| ==> RawTokens(command)[k] != []
    ensures forall k :: 0 <= k < |Tokens(command)| ==> Tokens(command)[k] != []
  {
    RawScanFromNonEmpty(command, 0, RawScan(false, false, false, -1, 0, []));
    ScanFromNonEmpty(command, 0, Scan(false, false, false, false, [], []));
  }

  /** The length of the leading run of non-blank characters. */
  function WordLength(t: string): (n: nat)
    ensures n <= |t|
    ensures forall i :: 0 <= i < n ==> !IsBlank(t[i])
    ensures n == |t| || IsBlank(t[n])
  {
    if t == [] || IsBlank(t[0]) then 0 else 1 + WordLength(t[1..])
  }

  /** Reference definition: the maximal runs of non-blank characters, in order. */
  function Words(t: string): seq<string>
    decreases |t|
  {
    if t == [] then []
    else if IsBlank(t[0]) then Words(t[1..])
    else [t[..WordLength(t)]] + Words(t[WordLength(t)..])
  }

  /** No quote and no backslash characters. */
  predicate Plain(t: string)
  {
    forall i :: 0 <= i < |t| ==> t[i] != '\'' && t[i] != '"' && t[i] != '\\'
  }

  /** The parameters of `t` when a parameter holding `acc` is already open. */
  function OpenWords(acc: string, t: string): seq<string>
  {
    [acc + t[..WordLength(t)]] + Words(t[WordLength(t)..])
  }

  lemma OpenWordsBlank(acc: string, t: string)
    requires t != [] && IsBlank(t[0])
    ensures OpenWords(acc, t) == [acc] + Words(t[1..])
  {
    assert acc + t[..0] == acc;
  }

  lemma OpenWordsKeep(acc: string, t: string)
    requires t != [] && !IsBlank(t[0])
    ensures OpenWords(acc, t) == OpenWords(acc + [t[0]], t[1..])
  {
    var u := t[1..];
    var n := WordLength(u);
    assert WordLength(t) == n + 1;
    assert t[..n + 1] == [t[0]] + u[..n];
    assert t[n + 1..] == u[n..];
    assert acc + t[..n + 1] == acc + [t[0]] + u[..n];
  }

  lemma WordsKeep(t: string)
    requires t != [] && !IsBlank(t[0])
    ensures Words(t) == OpenWords([t[0]], t[1..])
  {
    var u := t[1..];
    var n := WordLength(u);
    assert WordLength(t) == n + 1;
    assert t[..n + 1] == [t[0]] + u[..n];
    assert t[n + 1..] == u[n..];
  }

  /** On a character that is neither a quote nor a backslash, with no flag set, the scanner separates or keeps. */
  lemma StepPlain(s: string, c: nat, st: Scan)
    requires c < |s| && s[c] != '\'' && s[c] != '"' && s[c] != '\\'
    requires !st.backslash && !st.single && !st.double
    ensures ScanFrom(s, c, st) == ScanFrom(s, c + 1,
              if IsBlank(s[c]) then (if st.open then st.(params := st.params + [Unescape(st.acc)], open := false, acc := []) else st)
              else st.(open := true, acc := st.acc + [s[c]]))
  {
    assert Classify(s[c], false, false, false) == if IsBlank(s[c]) then Separate else Keep;
  }

  lemma {:induction false} ScanFromPlain(s: string, c: nat, st: Scan)
    requires c <= |s| && Plain(s) && Plain(st.acc)
    requires !st.backslash && !st.single && !st.double
    requires st.open <==> st.acc != []
    ensures ScanFrom(s, c, st) == st.params + (if st.open then OpenWords(st.acc, s[c..]) else Words(s[c..]))
    decreases |s| - c
  {
    if c == |s| {
      assert s[c..] == [];
      if st.open {
        UnescapeNoBackslash(st.acc);
        assert st.acc + s[c..][..0] == st.acc;
      }
    } else if IsBlank(s[c]) {
      if st.open {
        UnescapeNoBackslash(st.acc);
      }
      ScanFromPlain(s, c + 1, if st.open then st.(params := st.params + [st.acc], open := false, acc := []) else st);
      PlainBlank(s, c, st);
    } else {
      ScanFromPlain(s, c + 1, st.(open := true, acc := st.acc + [s[c]]));
      PlainKeep(s, c, st);
    }
  }

  /** A blank closes the open parameter, if any. */
  lemma PlainBlank(s: string, c: nat, st: Scan)
    requires c < |s| && Plain(s) && IsBlank(s[c]) && (st.open ==> Unescape(st.acc) == st.acc)
    requires !st.backslash && !st.single && !st.double
    requires var next := if st.open then st.(params := st.params + [st.acc], open := false, acc := []) else st;
             ScanFrom(s, c + 1, next) == next.params + Words(s[c + 1..])
    ensures ScanFrom(s, c, st) == st.params + (if st.open then OpenWords(st.acc, s[c..]) else Words(s[c..]))
  {
    assert s[c..][0] == s[c] && s[c..][1..] == s[c + 1..];
    StepPlain(s, c, st);
    if st.open {
      OpenWordsBlank(st.acc, s[c..]);
    }
  }

  /** Any other character is added to the open parameter, opening one if needed. */
  lemma PlainKeep(s: string, c: nat, st: Scan)
    requires c < |s| && Plain(s) && !IsBlank(s[c])
    requires !st.backslash && !st.single && !st.double
    requires st.open <==> st.acc != []
    requires ScanFrom(s, c + 1, st.(open := true, acc := st.acc + [s[c]])) ==
             st.params + OpenWords(st.acc + [s[c]], s[c + 1..])
    ensures ScanFrom(s, c, st) == st.params + (if st.open then OpenWords(st.acc, s[c..]) else Words(s[c..]))
  {
    assert s[c..][0] == s[c] && s[c..][1..] == s[c + 1..];
    StepPlain(s, c, st);
    if st.open {
      OpenWordsKeep(st.acc, s[c..]);
    } else {
      WordsKeep(s[c..]);
      assert st.acc + [s[c]] == [s[c]];
    }
  }

  /** For a command with no quotes and no backslashes, the parameters are its maximal runs of non-blanks. */
  lemma PlainCommandWords(command: string)
    requires Plain(command)
    ensures Tokens(command) == Words(command)
  {
    ScanFromPlain(command, 0, Scan(false, false, false, false, [], []));
    assert command[0..] == command;
  }

  /** Inside a quote, every character but the closing quote is kept, blanks included. */
  lemma {:induction false} ScanQuoted(s: string, c: nat, st: Scan, q: char, e: nat)
    requires q == '\'' || q == '"'
    requires c <= e < |s| && s[e] == q
    requires forall i :: c <= i < e ==> s[i] != q && s[i] != '\\'
    requires !st.backslash && (if q == '\'' then st.single && !st.double else st.double && !st.single)
    ensures ScanFrom(s, c, st) ==
              ScanFrom(s, e + 1, st.(single := false, double := false,
                                     open := st.open || e > c, acc := st.acc + s[c..e]))
    decreases e - c
  {
    if c == e {
      assert s[c..e] == [];
      assert st.acc + s[c..e] == st.acc;
    } else {
      var next := StepScan(s, c, st);
      assert next == st.(open := true, acc := st.acc + [s[c]]);
      ScanQuoted(s, c + 1, next, q, e);
      assert st.acc + [s[c]] + s[c + 1..e] == st.acc + s[c..e];
    }
  }

  /** The same run inside a quote, as written: the characters are counted from the first one on. */
  lemma {:induction false} RawScanQuoted(s: string, c: nat, st: RawScan, q: char, e: nat)
    requires q == '\'' || q == '"'
    requires c <= e < |s| && s[e] == q
    requires forall i :: c <= i < e ==> s[i] != q && s[i] != '\\'
    requires !st.backslash && (if q == '\'' then st.single && !st.double else st.double && !st.single)
    requires st.start < 0 || st.start <= c
    ensures RawScanFrom(s, c, st) ==
              RawScanFrom(s, e + 1, st.(single := false, double := false,
                                        start := if st.start < 0 && e > c then c else st.start,
                                        size := st.size + (e - c)))
    decreases e - c
  {
    if c < e {
      RawScanQuoted(s, c + 1, Grow(st, c), q, e);
    }
  }

  /**
   * A parameter fully enclosed in one pair of matching quotes yields its inner
   * text, blanks kept, as written and corrected: counting starts after the
   * opening quote and stops before the closing one.
   */
  lemma QuotedParameter(q: char, inner: string)
    requires q == '\'' || q == '"'
    requires inner != [] && q !in inner && '\\' !in inner
    ensures RawTokens([q] + inner + [q]) == [inner]
    ensures Tokens([q] + inner + [q]) == [inner]
  {
    QuotedParameterRaw(q, inner);
    QuotedParameterTokens(q, inner);
  }

  lemma QuotedParameterRaw(q: char, inner: string)
    requires q == '\'' || q == '"'
    requires inner != [] && q !in inner && '\\' !in inner
    ensures RawTokens([q] + inner + [q]) == [inner]
  {
    var s := [q] + inner + [q];
    var r0 := RawScan(false, false, false, -1, 0, []);
    var r1 := RawStep(s, 0, r0);
    assert RawTokens(s) == RawScanFrom(s, 1, r1);
    RawScanQuoted(s, 1, r1, q, |s| - 1);
    var r2 := r1.(single := false, double := false, start := 1, size := |inner|);
    assert Substr(s, 1, |inner|) == inner;
    assert RawScanFrom(s, |s|, r2) == [Unescape(inner)];
    UnescapeNoBackslash(inner);
  }

  lemma QuotedParameterTokens(q: char, inner: string)
    requires q == '\'' || q == '"'
    requires inner != [] && q !in inner && '\\' !in inner
    ensures Tokens([q] + inner + [q]) == [inner]
  {
    var s := [q] + inner + [q];
    var st0 := Scan(false, false, false, false, [], []);
    var st1 := StepScan(s, 0, st0);
    assert Tokens(s) == ScanFrom(s, 1, st1);
    assert s[1..|s| - 1] == inner;
    ScanQuoted(s, 1, st1, q, |s| - 1);
    var st2 := st1.(single := false, double := false, open := true, acc := st1.acc + s[1..|s| - 1]);
    assert st2.acc == inner;
    assert ScanFrom(s, |s|, st2) == [Unescape(inner)];
    UnescapeNoBackslash(inner);
  }

  /** A run of escaped characters, as written: every character is counted and no flag changes. */
  lemma {:induction false} RawScanEscaped(s: string, c: nat, st: RawScan, x: string)
    requires c <= |s| && s[c..] == EscapeAll(x)
    requires !st.backslash && (st.start < 0 || st.start <= c)
    ensures RawScanFrom(s, c, st) ==
              RawScanFrom(s, |s|, st.(start := if st.start < 0 && x != [] then c else st.start,
                                      size := st.size + (|s| - c)))
    decreases |x|
  {
    if x != [] {
      assert s[c] == s[c..][0] == '\\' && s[c + 1] == s[c..][1];
      assert s[c + 2..] == s[c..][2..] == EscapeAll(x[1..]);
      var st1 := Grow(st.(backslash := true), c);
      assert RawStep(s, c, st) == st1;
      var st2 := Grow(st1.(backslash := false), c + 1);
      assert RawStep(s, c + 1, st1) == st2;
      RawScanEscaped(s, c + 2, st2, x[1..]);
    }
  }

  /** The same run, corrected: every character is kept in the open parameter. */
  lemma {:induction false} ScanEscaped(s: string, c: nat, st: Scan, x: string)
    requires c <= |s| && s[c..] == EscapeAll(x)
    requires !st.backslash
    ensures ScanFrom(s, c, st) == ScanFrom(s, |s|, st.(open := st.open || x != [], acc := st.acc + s[c..]))
    decreases |x|
  {
    if x != [] {
      assert s[c] == s[c..][0] == '\\' && s[c + 1] == s[c..][1];
      assert s[c + 2..] == s[c..][2..] == EscapeAll(x[1..]);
      var st1 := st.(backslash := true, open := true, acc := st.acc + [s[c]]);
      assert StepScan(s, c, st) == st1;
      var st2 := st1.(backslash := false, acc := st1.acc + [s[c + 1]]);
      assert StepScan(s, c + 1, st1) == st2;
      ScanEscaped(s, c + 2, st2, x[1..]);
      assert s[c..] == [s[c], s[c + 1]] + s[c + 2..];
      assert st2.acc + s[c + 2..] == st.acc + s[c..];
    } else {
      assert st.acc + s[c..] == st.acc;
    }
  }

  /**
   * A backslash before every character keeps blanks from separating and quotes
   * from toggling: any non-empty text so escaped is one parameter, the text
   * itself, as written and corrected.
   */
  lemma EscapedParameter(x: string)
    requires x != []
    ensures RawTokens(EscapeAll(x)) == [x]
    ensures Tokens(EscapeAll(x)) == [x]
  {
    var s := EscapeAll(x);
    assert s[0..] == s;
    RawScanEscaped(s, 0, RawScan(false, false, false, -1, 0, []), x);
    assert Substr(s, 0, |s|) == s;
    var empty: string := [];
    ScanEscaped(s, 0, Scan(false, false, false, false, empty, []), x);
    assert empty + s == s;
    UnescapeEscapeAll(x);
  }

  /** A backslash keeps the next character from separating, and escape removal drops the backslash. */
  lemma EscapedBlank()
    ensures Tokens("a\\ b") == ["a b"]
    ensures RawTokens("a\\ b") == ["a b"]
  {
    EscapedBlankTokens();
    QuoteFreeAgree("a\\ b");
  }

  lemma EscapedBlankTokens()
    ensures Tokens("a\\ b") == ["a b"]
  {
    var s := "a\\ b";
    var c1 := Scan(false, false, false, true, "a", []);
    var c2 := c1.(backslash := true, acc := "a\\");
    var c3 := c2.(backslash := false, acc := "a\\ ");
    var c4 := c3.(acc := s);
    assert StepScan(s, 0, Scan(false, false, false, false, [], [])) == c1;
    assert StepScan(s, 1, c1) == c2;
    assert StepScan(s, 2, c2) == c3;
    assert StepScan(s, 3, c3) == c4;
    UnescapeEscapedBlank();
    assert ScanFrom(s, 4, c4) == ["a b"];
  }

  lemma UnescapeEscapedBlank()
    ensures Unescape("a\\ b") == "a b"
  {
    assert Unescape("b") == "b";
    assert Unescape(" b") == " b";
    assert Unescape("\\ b") == " b";
  }

  // ----- agreement of the two tokenizers where no quote is skipped -----

  /** No quote characters at all. */
  predicate QuoteFree(t: string)
  {
    forall i :: 0 <= i < |t| ==> t[i] != '\'' && t[i] != '"'
  }

  /** The as-written state and the corrected state describe the same parameter. */
  ghost predicate Agree(s: string, c: nat, rs: RawScan, st: Scan)
  {
    && c <= |s|
    && rs.backslash == st.backslash && rs.single == st.single && rs.double == st.double
    && rs.params == st.params
    && (rs.start >= 0 <==> st.open)
    && (rs.start < 0 ==> rs.size == 0 && st.acc == [])
    && (rs.start >= 0 ==> rs.start + rs.size == c && st.acc == s[rs.start..c])
  }

  lemma {:induction false} AgreeScan(s: string, c: nat, rs: RawScan, st: Scan)
    requires QuoteFree(s) && Agree(s, c, rs, st) && !rs.single && !rs.double
    ensures RawScanFrom(s, c, rs) == ScanFrom(s, c, st)
    decreases |s| - c
  {
    if c < |s| {
      AgreeStep(s, c, rs, st);
      AgreeScan(s, c + 1, RawStep(s, c, rs), StepScan(s, c, st));
    }
  }

  /** One character keeps the two states in agreement, and sets no quote flag. */
  lemma AgreeStep(s: string, c: nat, rs: RawScan, st: Scan)
    requires QuoteFree(s) && Agree(s, c, rs, st) && !rs.single && !rs.double && c < |s|
    ensures var rn := RawStep(s, c, rs);
            Agree(s, c + 1, rn, StepScan(s, c, st)) && !rn.single && !rn.double
  {
    if rs.start >= 0 {
      assert s[rs.start..c + 1] == s[rs.start..c] + [s[c]];
    }
  }

  /** Without quote characters, the tokenizer as written and the corrected one agree. */
  lemma QuoteFreeAgree(command: string)
    requires QuoteFree(command)
    ensures RawTokens(command) == Tokens(command)
  {
    AgreeScan(command, 0, RawScan(false, false, false, -1, 0, []), Scan(false, false, false, false, [], []));
  }

  /**
   * As written, a quote inside a parameter is not counted but the parameter is
   * cut out as a contiguous substring: the quote stays and the last character is lost.
   */
  lemma QuoteInsideParameter()
    ensures RawTokens("x\"a\"") == ["x\""]
    ensures Tokens("x\"a\"") == ["xa"]
  {
    var s := "x\"a\"";
    var r0 := RawScan(false, false, false, -1, 0, []);
    var r1 := RawScan(false, false, false, 0, 1, []);
    var r2 := RawScan(false, false, true, 0, 1, []);
    var r3 := RawScan(false, false, true, 0, 2, []);
    var r4 := RawScan(false, false, false, 0, 2, []);
    assert RawStep(s, 0, r0) == r1;
    assert RawStep(s, 1, r1) == r2;
    assert RawStep(s, 2, r2) == r3;
    assert RawStep(s, 3, r3) == r4;
    assert Substr(s, 0, 2) == "x\"";
    assert Unescape("x\"") == "x\"";
    assert RawScanFrom(s, 4, r4) == ["x\""];
    var c0 := Scan(false, false, false, false, [], []);
    var c1 := Scan(false, false, false, true, "x", []);
    var c2 := c1.(double := true);
    var c3 := c2.(acc := "xa");
    var c4 := c3.(double := false);
    assert StepScan(s, 0, c0) == c1;
    assert StepScan(s, 1, c1) == c2;
    assert StepScan(s, 2, c2) == c3;
    assert StepScan(s, 3, c3) == c4;
    assert Unescape("xa") == "xa";
    assert ScanFrom(s, 4, c4) == ["xa"];
  }

  // ----- is_header / is_source -----

  /** Header extensions: C, C++ and CUDA headers. */
  predicate IsHeader(ext: string)
  {
    ext == ".h" || ext == ".hh" || ext == ".hp" || ext == ".hpp" || ext == ".h++" || ext == ".tcc" || ext == ".cuh"
  }

  /** Source extensions: C, C++, CUDA and OpenCL sources. */
  predicate IsSource(ext: string)
  {
    ext == ".c" || ext == ".cpp" || ext == ".cxx" || ext == ".cc" || ext == ".C" || ext == ".c++" ||
    ext == ".cu" || ext == ".cl"
  }

  /** No extension is both a header and a source extension, and the empty extension is neither. */
  lemma HeaderSourceDisjoint(ext: string)
    ensures !(IsHeader(ext) && IsSource(ext))
    ensures !IsHeader([]) && !IsSource([])
  {
  }

  // ----- get_arguments -----

  /** The flags that are dropped together with the argument after them. */
  predicate TakesValue(a: string, isHeader: bool)
  {
    a == "-o" || a == "-x" || (isHeader && a == "-include-pch") || a == "-MF"
  }

  /** The filter of one command's arguments, from position `c` on, with the `ignore_next` flag. */
  function FilterFrom(args: seq<string>, c: nat, ignoreNext: bool, isHeader: bool): seq<string>
    requires 1 <= c
    decreases |args| - c
  {
    if c + 1 >= |args| then []
    else if ignoreNext then FilterFrom(args, c + 1, false, isHeader)
    else if TakesValue(args[c], isHeader) then FilterFrom(args, c + 1, true, isHeader)
    else if args[c] == "-c" then FilterFrom(args, c + 1, false, isHeader)
    else [args[c]] + FilterFrom(args, c + 1, false, isHeader)
  }

  /** The arguments copied from one compilation-database command. */
  function Filtered(args: seq<string>, isHeader: bool): seq<string>
  {
    FilterFrom(args, 1, false, isHeader)
  }

  /** The arguments copied from every command, in order. */
  function FilteredAll(commands: seq<seq<string>>, isHeader: bool): seq<string>
    decreases |commands|
  {
    if commands == [] then [] else Filtered(commands[0], isHeader) + FilteredAll(commands[1..], isHeader)
  }

  lemma {:induction false} FilterFromProperties(args: seq<string>, c: nat, ignoreNext: bool, isHeader: bool)
    requires 1 <= c
    ensures forall a :: a in FilterFrom(args, c, ignoreNext, isHeader) ==>
              a != "-c" && !TakesValue(a, isHeader) && exists i :: c <= i < |args| - 1 && args[i] == a
    decreases |args| - c
  {
    if c + 1 < |args| {
      FilterFromProperties(args, c + 1, false, isHeader);
      FilterFromProperties(args, c + 1, true, isHeader);
    }
  }

  /**
   * What the filter keeps: never `-c`, `-o`, `-x`, `-MF` (nor `-include-pch`
   * for a header), and only arguments strictly between the first and the last.
   */
  lemma FilteredKeepsOnlyMiddle(args: seq<string>, isHeader: bool)
    ensures forall a :: a in Filtered(args, isHeader) ==>
              && a != "-c" && a != "-o" && a != "-x" && a != "-MF"
              && (isHeader ==> a != "-include-pch")
              && exists i :: 1 <= i < |args| - 1 && args[i] == a
  {
    FilterFromProperties(args, 1, false, isHeader);
  }

  lemma {:induction false} FilterFromPlain(args: seq<string>, c: nat, isHeader: bool)
    requires 1 <= c
    requires forall i :: c <= i < |args| - 1 ==> args[i] != "-c" && !TakesValue(args[i], isHeader)
    ensures FilterFrom(args, c, false, isHeader) == if c + 1 < |args| then args[c..|args| - 1] else []
    decreases |args| - c
  {
    if c + 1 < |args| {
      FilterFromPlain(args, c + 1, isHeader);
      if c + 2 < |args| {
        assert args[c..|args| - 1] == [args[c]] + args[c + 1..|args| - 1];
      } else {
        assert args[c..|args| - 1] == [args[c]];
      }
    }
  }

  /** Without any of the dropped flags, exactly the arguments between the first and the last are kept. */
  lemma FilteredPlain(args: seq<string>, isHeader: bool)
    requires |args| >= 2
    requires forall i :: 1 <= i < |args| - 1 ==> args[i] != "-c" && !TakesValue(args[i], isHeader)
    ensures Filtered(args, isHeader) == args[1..|args| - 1]
  {
    FilterFromPlain(args, 1, isHeader);
  }

  /** The filter loop over one command's arguments. */
  method FilterCommand(args: seq<string>, isHeader: bool) returns (kept: seq<string>)
    ensures kept == Filtered(args, isHeader)
  {
    kept := [];
    var ignoreNext := false;
    var c := 1;
    while c + 1 < |args|
      invariant 1 <= c
      invariant kept + FilterFrom(args, c, ignoreNext, isHeader) == Filtered(args, isHeader)
    {
      if ignoreNext {
        ignoreNext := false;
      } else if args[c] == "-o" || args[c] == "-x" || (isHeader && args[c] == "-include-pch") || args[c] == "-MF" {
        ignoreNext := true;
      } else if args[c] == "-c" {
      } else {
        kept := kept + [args[c]];
      }
      c := c + 1;
    }
  }

  /** The loop over the compilation database's commands for the file. */
  method FilterCommands(commands: seq<seq<string>>, isHeader: bool) returns (arguments: seq<string>)
    ensures arguments == FilteredAll(commands, isHeader)
  {
    arguments := [];
    for k := 0 to |commands|
      invariant arguments + FilteredAll(commands[k..], isHeader) == FilteredAll(commands, isHeader)
    {
      var kept := FilterCommand(commands[k], isHeader);
      assert commands[k..][1..] == commands[k + 1..];
      arguments := arguments + kept;
    }
    assert commands[|commands|..] == [];
  }

  /** The default language standard used without a compilation database. */
  const DefaultStd: string := "-std=c++1y"
  const RetainComments: string := "-fretain-comments-from-system-headers"

  /** The two clang include directories for a clang version. */
  function ClangIncludes(version: string): seq<string>
  {
    ["-I/usr/lib/clang/" + version + "/include", "-I/usr/lib64/clang/" + version + "/include"]
  }

  /** The arguments before the comment-retention flag: database or default, then clang include directories. */
  function ArgumentsHead(buildPath: string, dbLoaded: bool, commands: seq<seq<string>>, isHeader: bool,
                         clangVersion: Option<string>): seq<string>
  {
    (if buildPath != [] && dbLoaded then FilteredAll(commands, isHeader) else [DefaultStd]) +
    (if clangVersion.Some? then ClangIncludes(clangVersion.value) else [])
  }

  /** The language flags chosen by extension. */
  function LanguageFlags(extension: string, isHeader: bool): seq<string>
  {
    if extension == ".cu" || extension == ".cuh" then
      ["-xcuda", "-D__CUDACC__", "-include", "cuda_runtime.h", "-ferror-limit=1000"]
    else if extension == ".cl" then
      ["-xcl", "-cl-std=CL2.0", "-Xclang", "-finclude-default-header", "-Wno-gcc-compat"]
    else if isHeader then ["-xc++"]
    else []
  }

  /** The header warnings followed by the language flags. */
  function FileFlags(extension: string, isHeader: bool): seq<string>
  {
    (if isHeader then ["-Wno-pragma-once-outside-header", "-Wno-pragma-system-header-outside-header",
                       "-Wno-include-next-outside-header"] else []) +
    LanguageFlags(extension, isHeader)
  }

  /** The arguments after the comment-retention flag. */
  function ArgumentsTail(buildPath: string, extension: string, isHeader: bool): seq<string>
  {
    FileFlags(extension, isHeader) + (if buildPath != [] then ["-working-directory", buildPath] else [])
  }

  /** A file is treated as a header for a header extension or no extension at all. */
  predicate TreatedAsHeader(extension: string)
  {
    IsHeader(extension) || extension == []
  }

  /** The whole argument list of get_arguments. */
  function Arguments(buildPath: string, dbLoaded: bool, commands: seq<seq<string>>, extension: string,
                     clangVersion: Option<string>): seq<string>
  {
    var isHeader := TreatedAsHeader(extension);
    var head := ArgumentsHead(buildPath, dbLoaded, commands, isHeader, clangVersion);
    head + (if "-include-pch" !in head then [RetainComments] else []) + ArgumentsTail(buildPath, extension, isHeader)
  }

  /**
   * get_arguments, with the compilation database's argument lists, whether it
   * loaded, the file's extension and the clang version (when the version
   * string matched) as inputs.
   */
  method GetArguments(buildPath: string, dbLoaded: bool, commands: seq<seq<string>>, extension: string,
                      clangVersion: Option<string>) returns (arguments: seq<string>)
    ensures arguments == Arguments(buildPath, dbLoaded, commands, extension, clangVersion)
  {
    var isHeader := IsHeader(extension) || extension == [];
    arguments := HeadArguments(buildPath, dbLoaded, commands, isHeader, clangVersion);
    if "-include-pch" !in arguments {
      arguments := arguments + [RetainComments];
    }
    var tail := TailArguments(buildPath, extension, isHeader);
    arguments := arguments + tail;
  }

  /** The database (or default) arguments followed by the clang include directories. */
  method HeadArguments(buildPath: string, dbLoaded: bool, commands: seq<seq<string>>, isHeader: bool,
                       clangVersion: Option<string>) returns (arguments: seq<string>)
    ensures arguments == ArgumentsHead(buildPath, dbLoaded, commands, isHeader, clangVersion)
  {
    if buildPath != [] && dbLoaded {
      arguments := FilterCommands(commands, isHeader);
    } else {
      arguments := [DefaultStd];
    }
    if clangVersion.Some? {
      arguments := arguments + ClangIncludes(clangVersion.value);
    }
  }

  /** The header warnings, the language flags and the working directory. */
  method TailArguments(buildPath: string, extension: string, isHeader: bool) returns (tail: seq<string>)
    ensures tail == ArgumentsTail(buildPath, extension, isHeader)
  {
    var warnings: seq<string> := [];
    if isHeader {
      warnings := ["-Wno-pragma-once-outside-header", "-Wno-pragma-system-header-outside-header",
                   "-Wno-include-next-outside-header"];
    }
    var language: seq<string> := [];
    if extension == ".cu" || extension == ".cuh" {
      language := ["-xcuda", "-D__CUDACC__", "-include", "cuda_runtime.h", "-ferror-limit=1000"];
    } else if extension == ".cl" {
      language := ["-xcl", "-cl-std=CL2.0", "-Xclang", "-finclude-default-header", "-Wno-gcc-compat"];
    } else if isHeader {
      language := ["-xc++"];
    }
    var directory: seq<string> := [];
    if buildPath != [] {
      directory := ["-working-directory", buildPath];
    }
    tail := warnings + language + directory;
  }

  /** Without a build path, the default standard comes first. */
  lemma EmptyBuildPathDefaultStd(dbLoaded: bool, commands: seq<seq<string>>, extension: string,
                                 clangVersion: Option<string>)
    ensures var a := Arguments([], dbLoaded, commands, extension, clangVersion);
            |a| >= 2 && a[0] == DefaultStd && a[1] != "-include-pch"
  {
  }

  /** `-working-directory` and the build path are the final two arguments iff the build path is non-empty. */
  lemma WorkingDirectoryLast(buildPath: string, dbLoaded: bool, commands: seq<seq<string>>, extension: string,
                             clangVersion: Option<string>)
    ensures var a := Arguments(buildPath, dbLoaded, commands, extension, clangVersion);
            (|a| >= 2 && a[|a| - 2] == "-working-directory" && a[|a| - 1] == buildPath) <==> buildPath != []
  {
    var isHeader := TreatedAsHeader(extension);
    var head := ArgumentsHead(buildPath, dbLoaded, commands, isHeader, clangVersion);
    var middle := ArgumentsParts(buildPath, dbLoaded, commands, extension, clangVersion);
    DefaultHeadEndsNonEmpty(dbLoaded, commands, isHeader, clangVersion);
    FlagsEndNonEmpty(extension, isHeader);
    EndsWithDirectory(head, middle, FileFlags(extension, isHeader), buildPath,
                      Arguments(buildPath, dbLoaded, commands, extension, clangVersion));
  }

  /** The argument list in its four parts; `middle` is the comment-retention flag or nothing. */
  lemma ArgumentsParts(buildPath: string, dbLoaded: bool, commands: seq<seq<string>>, extension: string,
                       clangVersion: Option<string>) returns (middle: seq<string>)
    ensures var isHeader := TreatedAsHeader(extension);
            && (middle == [] || middle == [RetainComments])
            && Arguments(buildPath, dbLoaded, commands, extension, clangVersion) ==
               ArgumentsHead(buildPath, dbLoaded, commands, isHeader, clangVersion) + middle +
               (FileFlags(extension, isHeader) + (if buildPath != [] then ["-working-directory", buildPath] else []))
  {
    var head := ArgumentsHead(buildPath, dbLoaded, commands, TreatedAsHeader(extension), clangVersion);
    middle := if "-include-pch" !in head then [RetainComments] else [];
  }

  /** Without a build path, the head ends with a non-empty argument. */
  lemma DefaultHeadEndsNonEmpty(dbLoaded: bool, commands: seq<seq<string>>, isHeader: bool,
                                clangVersion: Option<string>)
    ensures var head := ArgumentsHead([], dbLoaded, commands, isHeader, clangVersion);
            |head| > 0 && head[|head| - 1] != []
  {
    if clangVersion.Some? {
      var head := ArgumentsHead([], dbLoaded, commands, isHeader, clangVersion);
      assert head[|head| - 1] == ClangIncludes(clangVersion.value)[1];
    }
  }

  /** The file flags are empty or end with a non-empty argument. */
  lemma FlagsEndNonEmpty(extension: string, isHeader: bool)
    ensures var flags := FileFlags(extension, isHeader);
            |flags| > 0 ==> flags[|flags| - 1] != []
  {
  }

  lemma EndsWithDirectory(head: seq<string>, middle: seq<string>, flags: seq<string>, buildPath: string,
                          a: seq<string>)
    requires a == head + middle + (flags + (if buildPath != [] then ["-working-directory", buildPath] else []))
    requires buildPath == [] ==> |head| > 0 && head[|head| - 1] != []
    requires middle == [] || middle == [RetainComments]
    requires |flags| > 0 ==> flags[|flags| - 1] != []
    ensures (|a| >= 2 && a[|a| - 2] == "-working-directory" && a[|a| - 1] == buildPath) <==> buildPath != []
  {
    if buildPath != [] {
      assert a[|a| - 2] == "-working-directory" && a[|a| - 1] == buildPath;
    } else if |flags| > 0 {
      assert a[|a| - 1] == flags[|flags| - 1];
    } else if middle != [] {
      assert a[|a| - 1] == RetainComments;
    } else {
      assert a[|a| - 1] == head[|head| - 1];
    }
  }

  /**
   * The comment-retention flag follows the database arguments and include
   * directories exactly when none of them is `-include-pch`.
   */
  lemma RetainCommentsUnlessPch(buildPath: string, dbLoaded: bool, commands: seq<seq<string>>, extension: string,
                                clangVersion: Option<string>)
    ensures var isHeader := TreatedAsHeader(extension);
            var head := ArgumentsHead(buildPath, dbLoaded, commands, isHeader, clangVersion);
            var a := Arguments(buildPath, dbLoaded, commands, extension, clangVersion);
            && a[..|head|] == head
            && ((|a| > |head| && a[|head|] == RetainComments) <==> "-include-pch" !in head)
  {
    var isHeader := TreatedAsHeader(extension);
    var head := ArgumentsHead(buildPath, dbLoaded, commands, isHeader, clangVersion);
    var a := Arguments(buildPath, dbLoaded, commands, extension, clangVersion);
    var tail := ArgumentsTail(buildPath, extension, isHeader);
    TailNotRetain(buildPath, extension, isHeader);
    FlagAfterHead(head, tail, a);
  }

  lemma FlagAfterHead(head: seq<string>, tail: seq<string>, a: seq<string>)
    requires a == head + (if "-include-pch" !in head then [RetainComments] else []) + tail
    requires |tail| > 0 ==> tail[0] != RetainComments
    ensures a[..|head|] == head
    ensures (|a| > |head| && a[|head|] == RetainComments) <==> "-include-pch" !in head
  {
    if "-include-pch" in head && |tail| > 0 {
      assert a[|head|] == tail[0];
    }
  }

  /** No tail starts with the comment-retention flag, whatever the build path. */
  lemma TailNotRetain(buildPath: string, extension: string, isHeader: bool)
    ensures var tail := ArgumentsTail(buildPath, extension, isHeader);
            |tail| > 0 ==> tail[0] != RetainComments
  {
    var flags := FileFlags(extension, isHeader);
    if |flags| > 0 {
      assert flags[0][1] != RetainComments[1];
      assert ArgumentsTail(buildPath, extension, isHeader)[0] == flags[0];
    } else if buildPath != [] {
      assert ArgumentsTail(buildPath, extension, isHeader)[0] == "-working-directory";
      assert "-working-directory"[1] != RetainComments[1];
    }
  }
}
