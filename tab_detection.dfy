/**
 * The selection step of indentation detection: from the counts of each
 * indentation character and each indentation size, the most frequent one is
 * chosen, a tie going to the key met first. The counts are kept in ordered
 * maps, so they are visited by increasing key and a tie goes to the smaller
 * key. Python sources always get four spaces. The scan of the buffer that
 * produces the counts is not part of this model: the counts are inputs.
 */
module TabDetection {
  import opened Wrappers

  /** Keys in strictly increasing order, as an ordered map visits them. */
  predicate AscendingChars(entries: seq<(char, nat)>)
  {
    forall i, j :: 0 <= i < j < |entries| ==> entries[i].0 < entries[j].0
  }

  predicate AscendingSizes(entries: seq<(nat, nat)>)
  {
    forall i, j :: 0 <= i < j < |entries| ==> entries[i].0 < entries[j].0
  }

  /**
   * The key and count the selection loop holds after visiting `entries`:
   * an entry replaces the current choice only when its count is strictly
   * larger. Nothing counted leaves `none` with a count of 0.
   */
  function Selected<K>(entries: seq<(K, nat)>, none: K): (K, nat)
  {
    if entries == [] then (none, 0)
    else
      var best := Selected(entries[..|entries| - 1], none);
      var e := entries[|entries| - 1];
      if e.1 > best.1 then e else best
  }

  /**
   * The choice is the first entry of largest count, or `none` with count 0
   * when every count is 0.
   */
  lemma {:induction false} SelectedIsFirstMaximum<K>(entries: seq<(K, nat)>, none: K)
    ensures var (k, n) := Selected(entries, none);
            && (forall j :: 0 <= j < |entries| ==> entries[j].1 <= n)
            && (n == 0 ==> k == none)
            && (n > 0 ==> exists i :: 0 <= i < |entries| && entries[i] == (k, n) &&
                                     forall j :: 0 <= j < i ==> entries[j].1 < n)
  {
    if entries != [] {
      var init := entries[..|entries| - 1];
      var e := entries[|entries| - 1];
      SelectedIsFirstMaximum(init, none);
      var (k, n) := Selected(init, none);
      if e.1 > n {
        assert entries[|entries| - 1] == e;
        forall j | 0 <= j < |entries| - 1
          ensures entries[j].1 < e.1
        {
          assert entries[j] == init[j];
        }
      } else {
        forall j | 0 <= j < |entries|
          ensures entries[j].1 <= n
        {
          if j < |init| {
            assert entries[j] == init[j];
          }
        }
        if n > 0 {
          var i :| 0 <= i < |init| && init[i] == (k, n) && forall j :: 0 <= j < i ==> init[j].1 < n;
          assert entries[i] == (k, n);
          assert forall j :: 0 <= j < i ==> entries[j] == init[j];
        }
      }
    }
  }

  /** The selection loop over an ordered map, visiting keys in increasing order. */
  method SelectMostFrequent<K>(entries: seq<(K, nat)>, none: K) returns (found: K, occurrences: nat)
    ensures (found, occurrences) == Selected(entries, none)
  {
    found, occurrences := none, 0;
    for i := 0 to |entries|
      invariant (found, occurrences) == Selected(entries[..i], none)
    {
      assert entries[..i + 1][..i] == entries[..i];
      if entries[i].1 > occurrences {
        found, occurrences := entries[i].0, entries[i].1;
      }
    }
    assert entries[..|entries|] == entries;
  }

  /**
   * find_tab_char_and_size without its scan: four spaces for Python, and
   * otherwise the most frequent indentation character and size, where
   * character 0 and size 0 mean that nothing was counted.
   */
  method FindTabCharAndSize(languageId: Option<string>, tabChars: seq<(char, nat)>, tabSizes: seq<(nat, nat)>)
    returns (tabChar: char, tabSize: nat)
    ensures languageId == Some("python") ==> tabChar == ' ' && tabSize == 4
    ensures languageId != Some("python") ==>
              tabChar == Selected(tabChars, 0 as char).0 && tabSize == Selected(tabSizes, 0).0
  {
    if languageId == Some("python") {
      return ' ', 4;
    }
    var charCount, sizeCount;
    tabChar, charCount := SelectMostFrequent(tabChars, 0 as char);
    tabSize, sizeCount := SelectMostFrequent(tabSizes, 0);
  }

  /**
   * With keys in increasing order, the chosen character is counted at
   * least as often as any other, and among those counted as often it is
   * the smallest; a character is chosen exactly when some count is
   * positive. The same holds for the size.
   */
  lemma DetectedIsSmallestMostFrequent(tabChars: seq<(char, nat)>, tabSizes: seq<(nat, nat)>)
    requires AscendingChars(tabChars) && AscendingSizes(tabSizes)
    ensures var (c, cn) := Selected(tabChars, 0 as char);
            && (forall j :: 0 <= j < |tabChars| ==> tabChars[j].1 <= cn)
            && (forall j :: 0 <= j < |tabChars| && tabChars[j].1 == cn && cn > 0 ==> c <= tabChars[j].0)
            && (cn > 0 <==> exists j :: 0 <= j < |tabChars| && tabChars[j].1 > 0)
            && (cn == 0 ==> c == 0 as char)
    ensures var (s, sn) := Selected(tabSizes, 0);
            && (forall j :: 0 <= j < |tabSizes| ==> tabSizes[j].1 <= sn)
            && (forall j :: 0 <= j < |tabSizes| && tabSizes[j].1 == sn && sn > 0 ==> s <= tabSizes[j].0)
            && (sn > 0 <==> exists j :: 0 <= j < |tabSizes| && tabSizes[j].1 > 0)
            && (sn == 0 ==> s == 0)
  {
    SelectedIsFirstMaximum(tabChars, 0 as char);
    var (c, cn) := Selected(tabChars, 0 as char);
    if cn > 0 {
      var i :| 0 <= i < |tabChars| && tabChars[i] == (c, cn) && forall j :: 0 <= j < i ==> tabChars[j].1 < cn;
      forall j | 0 <= j < |tabChars| && tabChars[j].1 == cn
        ensures c <= tabChars[j].0
      {
        if j > i {
          assert tabChars[i].0 < tabChars[j].0;
        }
      }
    }
    SelectedIsFirstMaximum(tabSizes, 0);
    var (s, sn) := Selected(tabSizes, 0);
    if sn > 0 {
      var i :| 0 <= i < |tabSizes| && tabSizes[i] == (s, sn) && forall j :: 0 <= j < i ==> tabSizes[j].1 < sn;
      forall j | 0 <= j < |tabSizes| && tabSizes[j].1 == sn
        ensures s <= tabSizes[j].0
      {
        if j > i {
          assert tabSizes[i].0 < tabSizes[j].0;
        }
      }
    }
  }
}
