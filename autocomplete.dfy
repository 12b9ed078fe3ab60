/**
 * The completion coordinator of an editing view (class Autocomplete).
 *
 * The coordinator decides when a list of completion candidates is computed,
 * hands the computation to a background worker and reconciles the worker's
 * result on the interactive context.  Threads and the dispatcher only carry
 * events, so they are modelled as explicit sequential events:
 *   - `Run`, `Stop` and the edit, mark and focus handlers are the interactive calls;
 *   - `WorkerFinished` is the worker's body, run after the caller has chosen the
 *     answers of `is_processing` and the rows `add_rows` produced;
 *   - `posted` is the dispatcher's queue and `Reconcile` runs its front entry.
 * Every hook whose answer matters is a boolean parameter; hooks with no answer
 * are counted in `calls` when their calls are observable (reparse,
 * cancel_reparse, stop_parse, on_add_rows_error).
 */
module Autocomplete {
  import opened Wrappers

  /** The four states of a coordinator. */
  datatype State = Idle | Starting | Restarting | Canceled

  /** What a finished worker posts to the interactive context. */
  datatype Continuation = Success | ShutdownError

  /** The immutable request a worker receives: buffer snapshot, 1-based line and column. */
  datatype Request = Request(buffer: string, line: int, column: int)

  /**
   * What one call of run() reads from its environment: the answers of the
   * run_check and is_processing hooks, the buffer text and the caret
   * (character offset in the buffer, 0-based line, 0-based index in the line).
   */
  datatype RunInput = RunInput(runCheck: bool, isProcessing: bool, text: string, offset: nat, line: nat, lineIndex: nat)

  /** Counts of the observable hook calls. */
  datatype Calls = Calls(spawn: nat, reparse: nat, cancelReparse: nat, stopParse: nat, addRowsError: nat)

  /** The outcome of the admission logic of run(). */
  datatype Admission = Admission(state: State, spawn: bool, cancelReparse: bool)

  /** What the edit handler does for one buffer change. */
  datatype EditReaction = CancelReparseOnly | Ignore | RunOnly | StopOnly | StopThenRun

  /** What the success continuation decides. */
  datatype Decision = Rerun | Discard | AnchorFailed | Present

  /** An interactive-context stimulus together with the hook answers at that moment. */
  datatype Stimulus =
    | Edit(dialogVisible: bool, hasFocus: bool, continueKey: bool, restartKey: bool, interactive: bool,
           runCheck: bool, isProcessing: bool)
    | MarkSet(isInsert: bool)
    | FocusOut
    | DirectRun(runCheck: bool, isProcessing: bool)

  /** stop(): a pending run is canceled; an idle or canceled coordinator stays as it is. */
  function StopState(s: State): (r: State)
    ensures r != Starting && r != Restarting
    ensures r == Idle <==> s == Idle
    ensures s == Idle || s == Canceled ==> r == s
  {
    if s == Starting || s == Restarting then Canceled else s
  }

  /** The state part of run(): admission, restart coalescing and the cancel_reparse call. */
  function Admit(s: State, runCheck: bool, isProcessing: bool): (a: Admission)
    ensures a.spawn <==> runCheck && isProcessing && s == Idle
    ensures a.spawn ==> a.state == Starting && a.cancelReparse
    ensures runCheck && !isProcessing ==> a == Admission(s, false, false)
    ensures runCheck && isProcessing && s == Canceled ==> a == Admission(Restarting, false, false)
    ensures runCheck && isProcessing && (s == Starting || s == Restarting) ==> a == Admission(s, false, false)
    ensures !runCheck ==> a.state == s && !a.spawn && (a.cancelReparse <==> s != Idle)
  {
    if runCheck then
      if !isProcessing then Admission(s, false, false)
      else
        var s1 := if s == Canceled then Restarting else s;
        if s1 != Idle then Admission(s1, false, false)
        else Admission(Starting, true, true)
    else
      Admission(s, false, s != Idle)
  }

  /** The trigger policy of the buffer-changed handler. */
  function ReactToEdit(dialogVisible: bool, hasFocus: bool, continueKey: bool, restartKey: bool,
                       interactive: bool, s: State): (r: EditReaction)
    ensures dialogVisible ==> r == CancelReparseOnly
    ensures !dialogVisible && !hasFocus ==> r == Ignore
    ensures r == RunOnly <==> !dialogVisible && hasFocus && continueKey && (interactive || s != Idle)
    ensures r == StopThenRun <==>
              !dialogVisible && hasFocus && !(continueKey && (interactive || s != Idle)) && restartKey && interactive
  {
    if dialogVisible then CancelReparseOnly
    else if !hasFocus then Ignore
    else if continueKey && (interactive || s != Idle) then RunOnly
    else if restartKey && interactive then StopThenRun
    else StopOnly
  }

  /** The state after one interactive stimulus. */
  function AfterStimulus(s: State, e: Stimulus): State
  {
    match e
    case Edit(dialogVisible, hasFocus, continueKey, restartKey, interactive, runCheck, isProcessing) =>
      (match ReactToEdit(dialogVisible, hasFocus, continueKey, restartKey, interactive, s)
       case CancelReparseOnly => s
       case Ignore => s
       case RunOnly => Admit(s, runCheck, isProcessing).state
       case StopOnly => StopState(s)
       case StopThenRun => Admit(StopState(s), runCheck, isProcessing).state)
    case MarkSet(isInsert) => if isInsert then StopState(s) else s
    case FocusOut => StopState(s)
    case DirectRun(runCheck, isProcessing) => Admit(s, runCheck, isProcessing).state
  }

  /** The state after a sequence of interactive stimuli. */
  function AfterStimuli(s: State, trace: seq<Stimulus>): State
    decreases |trace|
  {
    if trace == [] then s else AfterStimuli(AfterStimulus(s, trace[0]), trace[1..])
  }

  /** The hooks keep their default answers: run_check, is_continue_key and is_restart_key return false. */
  predicate DefaultHooks(e: Stimulus)
  {
    match e
    case Edit(_, _, continueKey, restartKey, _, runCheck, _) => !continueKey && !restartKey && !runCheck
    case DirectRun(runCheck, _) => !runCheck
    case _ => true
  }

  /** The decision of the success continuation. */
  function Decide(s: State, rowsEmpty: bool, prefixSize: nat, backwardOk: bool): (d: Decision)
    ensures d == Rerun <==> s == Restarting
    ensures s == Canceled ==> d == Discard
    ensures rowsEmpty && s != Restarting ==> d == Discard
    ensures d == AnchorFailed <==> s != Restarting && s != Canceled && !rowsEmpty && prefixSize > 0 && !backwardOk
    ensures d == Present ==> s != Restarting && s != Canceled && !rowsEmpty && (prefixSize == 0 || backwardOk)
  {
    if s == Restarting then Rerun
    else if s == Canceled || rowsEmpty then Discard
    else if prefixSize > 0 && !backwardOk then AnchorFailed
    else Present
  }

  /** The identifier characters the word stripping walks over. */
  predicate IsWordChar(c: char)
  {
    ('a' <= c <= 'z') || ('A' <= c <= 'Z') || ('0' <= c <= '9') || c == '_'
  }

  /** The start of the maximal run of identifier characters that ends just before `offset`. */
  function WordStart(text: string, offset: nat): (start: nat)
    requires offset <= |text|
    ensures start <= offset
    ensures forall i :: start <= i < offset ==> IsWordChar(text[i])
    ensures start == 0 || !IsWordChar(text[start - 1])
    decreases offset
  {
    if offset == 0 || !IsWordChar(text[offset - 1]) then offset else WordStart(text, offset - 1)
  }

  /** `text` with the positions in [start, end) replaced by spaces. */
  function Blanked(text: string, start: nat, end: nat): (r: string)
    requires start <= end <= |text|
    ensures |r| == |text|
    ensures forall i :: 0 <= i < |r| ==> r[i] == if start <= i < end then ' ' else text[i]
  {
    text[..start] + seq(end - start, _ => ' ') + text[end..]
  }

  /**
   * The request run() builds: with word stripping, the word before the caret
   * is blanked and the column moved to its start; without it, the buffer is empty.
   */
  function MakeRequest(passBuffer: bool, input: RunInput): (r: Request)
    requires input.offset <= |input.text|
    ensures r.line == input.line + 1
    ensures !passBuffer ==> r.buffer == [] && r.column == input.lineIndex + 1
    ensures passBuffer ==>
              var start := WordStart(input.text, input.offset);
              |r.buffer| == |input.text| &&
              (forall i :: 0 <= i < |r.buffer| && !(start <= i < input.offset) ==> r.buffer[i] == input.text[i]) &&
              (forall i :: start <= i < input.offset ==> r.buffer[i] == ' ' && IsWordChar(input.text[i])) &&
              r.column == input.lineIndex + 1 - (input.offset - start)
  {
    if passBuffer then
      var start := WordStart(input.text, input.offset);
      Request(Blanked(input.text, start, input.offset), input.line + 1, input.lineIndex + 1 - (input.offset - start))
    else
      Request([], input.line + 1, input.lineIndex + 1)
  }

  /** The strip loop of run(): blank the word before the caret, one character at a time. */
  method StripWordBeforeCaret(text: string, offset: nat, column: int) returns (buffer: string, col: int)
    requires offset <= |text|
    ensures buffer == Blanked(text, WordStart(text, offset), offset)
    ensures col == column - (offset - WordStart(text, offset))
  {
    buffer := text;
    col := column;
    var pos: int := offset - 1;
    while pos >= 0 && IsWordChar(buffer[pos])
      invariant -1 <= pos < offset
      invariant |buffer| == |text|
      invariant forall i :: 0 <= i < |text| ==> buffer[i] == if pos < i < offset then ' ' else text[i]
      invariant WordStart(text, offset) == WordStart(text, pos + 1)
      invariant col == column - (offset - 1 - pos)
    {
      buffer := buffer[pos := ' '];
      col := col - 1;
      pos := pos - 1;
    }
    var start := WordStart(text, offset);
    assert start == pos + 1;
    assert forall i :: 0 <= i < |text| ==> buffer[i] == Blanked(text, start, offset)[i];
  }

  /** From Idle, under the default hooks, no stimulus ever moves the coordinator. */
  lemma {:induction false} DefaultHooksStayIdle(trace: seq<Stimulus>)
    requires forall i :: 0 <= i < |trace| ==> DefaultHooks(trace[i])
    ensures AfterStimuli(Idle, trace) == Idle
    decreases |trace|
  {
    if trace != [] {
      var e := trace[0];
      assert DefaultHooks(e);
      assert AfterStimulus(Idle, e) == Idle;
      DefaultHooksStayIdle(trace[1..]);
    }
  }

  /** Stimuli never create a pending run out of a canceled one except through a run call. */
  lemma {:induction false} StopStimuliNeverStart(s: State, trace: seq<Stimulus>)
    requires s != Starting && s != Restarting
    requires forall i :: 0 <= i < |trace| ==> trace[i].MarkSet? || trace[i].FocusOut?
    ensures AfterStimuli(s, trace) == s
    decreases |trace|
  {
    if trace != [] {
      assert trace[0].MarkSet? || trace[0].FocusOut?;
      StopStimuliNeverStart(s, trace[1..]);
    }
  }

  /** stop() is idempotent. */
  lemma StopIdempotent(s: State)
    ensures StopState(StopState(s)) == StopState(s)
  {
  }

  /** Under the default key hooks, an edit with focus and no dialog reduces to stop(). */
  lemma DefaultKeysOnlyStop(interactive: bool, s: State)
    ensures ReactToEdit(false, true, false, false, interactive, s) == StopOnly
  {
  }

  /**
   * The coordinator.  `workerRunning` is the "worker pending" flag (a spawned
   * thread whose body has not finished), `posted` the dispatcher's queue,
   * `dialogOpen`/`dialogRows` the completion dialog and `userActionOpen` the
   * user action opened when the dialog is shown.
   */
  class Coordinator {
    const passBufferAndStripWord: bool
    var state: State
    var workerRunning: bool
    var request: Request
    var posted: seq<Continuation>
    var rows: seq<string>
    var prefixSize: nat
    var dialogOpen: bool
    var dialogRows: seq<string>
    var userActionOpen: bool
    var tooltip: Option<string>
    var calls: Calls

    /**
     * At most one computation is in flight (a running worker or its posted
     * continuation), and while one is, the coordinator is not idle.
     */
    ghost predicate Valid()
      reads this
    {
      && |posted| <= 1
      && !(workerRunning && posted != [])
      && ((workerRunning || posted != []) ==> state != Idle)
    }

    constructor (passBufferAndStripWord: bool)
      ensures Valid()
      ensures this.passBufferAndStripWord == passBufferAndStripWord
      ensures state == Idle && !workerRunning && posted == [] && rows == [] && prefixSize == 0
      ensures !dialogOpen && dialogRows == [] && !userActionOpen && tooltip == None
      ensures calls == Calls(0, 0, 0, 0, 0)
    {
      this.passBufferAndStripWord := passBufferAndStripWord;
      state := Idle;
      workerRunning := false;
      request := Request([], 0, 0);
      posted := [];
      rows := [];
      prefixSize := 0;
      dialogOpen := false;
      dialogRows := [];
      userActionOpen := false;
      tooltip := None;
      calls := Calls(0, 0, 0, 0, 0);
    }

    /** stop(): cooperative cancellation; the worker is not touched. */
    method Stop()
      requires Valid()
      modifies this`state
      ensures Valid()
      ensures state == StopState(old(state))
    {
      if state == Starting || state == Restarting {
        state := Canceled;
      }
    }

    /** run(): admit a request, coalesce a restart, or spawn a worker after joining the previous one. */
    method Run(input: RunInput)
      requires Valid()
      requires input.offset <= |input.text|
      modifies this
      ensures Valid()
      ensures var a := Admit(old(state), input.runCheck, input.isProcessing);
              && state == a.state
              && workerRunning == (old(workerRunning) || a.spawn)
              && (a.spawn ==> !old(workerRunning) && old(posted) == [])
              && request == (if a.spawn then MakeRequest(passBufferAndStripWord, input) else old(request))
              && calls == old(calls).(spawn := old(calls).spawn + (if a.spawn then 1 else 0),
                                      cancelReparse := old(calls).cancelReparse + (if a.cancelReparse then 1 else 0))
      ensures posted == old(posted) && rows == old(rows) && prefixSize == old(prefixSize)
      ensures dialogOpen == old(dialogOpen) && dialogRows == old(dialogRows)
      ensures userActionOpen == old(userActionOpen) && tooltip == old(tooltip)
    {
      if input.runCheck {
        if !input.isProcessing {
          return;
        }
        if state == Canceled {
          state := Restarting;
        }
        if state != Idle {
          return;
        }
        state := Starting;
        // before_add_rows(); then join the previous worker: Valid() says it has finished
        assert !workerRunning && posted == [];
        var buffer: string := [];
        var column: int := input.lineIndex + 1;
        if passBufferAndStripWord {
          buffer, column := StripWordBeforeCaret(input.text, input.offset, column);
        }
        request := Request(buffer, input.line + 1, column);
        workerRunning := true;
        calls := calls.(spawn := calls.spawn + 1);
      }
      if state != Idle {
        calls := calls.(cancelReparse := calls.cancelReparse + 1);
      }
    }

    /**
     * The worker's body: take the parse lock, check is_processing (`lockProcessing`),
     * stop_parse, replace `rows` by what add_rows produced, and post the success or
     * the shutdown-error continuation according to is_processing (`finalProcessing`).
     */
    method WorkerFinished(lockProcessing: bool, addedRows: seq<string>, finalProcessing: bool)
      requires Valid() && workerRunning
      modifies this
      ensures Valid() && !workerRunning
      ensures state == old(state) && request == old(request) && prefixSize == old(prefixSize)
      ensures dialogOpen == old(dialogOpen) && dialogRows == old(dialogRows)
      ensures userActionOpen == old(userActionOpen) && tooltip == old(tooltip)
      ensures !lockProcessing ==> posted == [] && rows == old(rows) && calls == old(calls)
      ensures lockProcessing ==>
                && rows == addedRows
                && calls == old(calls).(stopParse := old(calls).stopParse + 1)
                && posted == [if finalProcessing then Success else ShutdownError]
    {
      workerRunning := false;
      if !lockProcessing {
        return;
      }
      calls := calls.(stopParse := calls.stopParse + 1);
      rows := [];
      rows := rows + addedRows;
      posted := posted + [if finalProcessing then Success else ShutdownError];
    }

    /**
     * The dispatcher runs the front continuation.  `rerun` is what the nested
     * run() of a coalesced restart reads; `backwardOk` is whether the caret can
     * be moved back by the prefix length.
     */
    method Reconcile(rerun: RunInput, backwardOk: bool)
      requires Valid() && posted != []
      requires rerun.offset <= |rerun.text|
      modifies this
      ensures Valid() && posted == []
      ensures tooltip == old(tooltip) && prefixSize == old(prefixSize)
      ensures old(posted[0]) == ShutdownError ==>
                && state == Canceled && workerRunning == old(workerRunning) && rows == old(rows)
                && calls == old(calls).(addRowsError := old(calls).addRowsError + 1)
                && dialogOpen == old(dialogOpen) && dialogRows == old(dialogRows)
                && userActionOpen == old(userActionOpen) && request == old(request)
      ensures old(posted[0]) == Success ==>
                var d := Decide(old(state), old(rows) == [], old(prefixSize), backwardOk);
                && (d == Rerun ==>
                      var a := Admit(Idle, rerun.runCheck, rerun.isProcessing);
                      && state == a.state && workerRunning == a.spawn && rows == old(rows)
                      && request == (if a.spawn then MakeRequest(passBufferAndStripWord, rerun) else old(request))
                      && calls == old(calls).(reparse := old(calls).reparse + 1,
                                              spawn := old(calls).spawn + (if a.spawn then 1 else 0),
                                              cancelReparse := old(calls).cancelReparse + (if a.cancelReparse then 1 else 0))
                      && dialogOpen == old(dialogOpen) && dialogRows == old(dialogRows)
                      && userActionOpen == old(userActionOpen))
                && (d == Discard || d == AnchorFailed ==>
                      && state == Idle && !workerRunning && rows == old(rows) && request == old(request)
                      && calls == old(calls).(reparse := old(calls).reparse + 1)
                      && dialogOpen == old(dialogOpen) && dialogRows == old(dialogRows)
                      && userActionOpen == old(userActionOpen))
                && (d == Present ==>
                      && old(state) == Starting && state == Idle && !workerRunning && request == old(request)
                      && dialogOpen && userActionOpen && dialogRows == old(rows)
                      && |rows| == |old(rows)| && (forall i :: 0 <= i < |rows| ==> rows[i] == [])
                      && calls == old(calls))
    {
      var c := posted[0];
      posted := posted[1..];
      if c == ShutdownError {
        state := Canceled;
        calls := calls.(addRowsError := calls.addRowsError + 1);
        return;
      }
      // after_add_rows()
      if state == Restarting {
        state := Idle;
        calls := calls.(reparse := calls.reparse + 1);
        Run(rerun);
      } else if state == Canceled || rows == [] {
        state := Idle;
        calls := calls.(reparse := calls.reparse + 1);
      } else {
        if prefixSize > 0 && !backwardOk {
          state := Idle;
          calls := calls.(reparse := calls.reparse + 1);
          return;
        }
        var shown, emptied := ShowRows(rows);
        dialogOpen := true;
        dialogRows, rows := shown, emptied;
        state := Idle;
        userActionOpen := true;
      }
    }

    /**
     * The loop of after_add_rows() that hands each row to the dialog and
     * leaves an empty string in its place.
     */
    static method ShowRows(rows: seq<string>) returns (shown: seq<string>, emptied: seq<string>)
      ensures shown == rows
      ensures |emptied| == |rows| && forall i :: 0 <= i < |emptied| ==> emptied[i] == []
    {
      shown := [];
      emptied := rows;
      var i := 0;
      while i < |emptied|
        invariant 0 <= i <= |emptied| == |rows|
        invariant shown == rows[..i]
        invariant forall j :: 0 <= j < i ==> emptied[j] == []
        invariant forall j :: i <= j < |emptied| ==> emptied[j] == rows[j]
      {
        shown := shown + [emptied[i]];
        emptied := emptied[i := []];
        i := i + 1;
      }
    }

    /** The dialog's on_hide: close the user action, hide the tooltip, reparse. */
    method OnHide()
      modifies this
      ensures !dialogOpen && !userActionOpen && tooltip == None
      ensures calls == old(calls).(reparse := old(calls).reparse + 1)
      ensures state == old(state) && workerRunning == old(workerRunning) && posted == old(posted)
      ensures rows == old(rows) && dialogRows == old(dialogRows) && prefixSize == old(prefixSize)
      ensures request == old(request)
    {
      userActionOpen := false;
      tooltip := None;
      dialogOpen := false;
      calls := calls.(reparse := calls.reparse + 1);
    }

    /**
     * The dialog's on_changed: an index past `rows` only hides the tooltip;
     * otherwise on_changed is forwarded and the tooltip `tip` shown when non-empty.
     */
    method OnChanged(index: nat, tip: string) returns (forwarded: bool)
      modifies this`tooltip
      ensures forwarded <==> index < |rows|
      ensures tooltip == if forwarded && tip != [] then Some(tip) else None
    {
      if index >= |rows| {
        tooltip := None;
        return false;
      }
      forwarded := true;
      if tip == [] {
        tooltip := None;
      } else {
        tooltip := Some(tip);
      }
    }

    /** The dialog's on_select: forwarded only for an index inside `rows`. */
    method OnSelect(index: nat) returns (forwarded: bool)
      ensures forwarded <==> index < |rows|
    {
      forwarded := index < |rows|;
    }

    /** The buffer-changed handler. */
    method OnBufferChanged(dialogVisible: bool, hasFocus: bool, continueKey: bool, restartKey: bool,
                           interactive: bool, input: RunInput)
      requires Valid()
      requires input.offset <= |input.text|
      modifies this
      ensures Valid()
      ensures state == AfterStimulus(old(state), Edit(dialogVisible, hasFocus, continueKey, restartKey,
                                                      interactive, input.runCheck, input.isProcessing))
      ensures var r := ReactToEdit(dialogVisible, hasFocus, continueKey, restartKey, interactive, old(state));
              && (r == CancelReparseOnly ==>
                    calls == old(calls).(cancelReparse := old(calls).cancelReparse + 1))
              && (r == Ignore || r == StopOnly ==> calls == old(calls))
              && (r == Ignore || r == StopOnly || r == CancelReparseOnly ==>
                    workerRunning == old(workerRunning) && request == old(request))
              && (r == RunOnly || r == StopThenRun ==>
                    var a := Admit(if r == StopThenRun then StopState(old(state)) else old(state),
                                   input.runCheck, input.isProcessing);
                    && workerRunning == (old(workerRunning) || a.spawn)
                    && request == (if a.spawn then MakeRequest(passBufferAndStripWord, input) else old(request))
                    && calls == old(calls).(spawn := old(calls).spawn + (if a.spawn then 1 else 0),
                                            cancelReparse := old(calls).cancelReparse + (if a.cancelReparse then 1 else 0)))
      ensures posted == old(posted) && rows == old(rows) && dialogOpen == old(dialogOpen)
      ensures dialogRows == old(dialogRows) && userActionOpen == old(userActionOpen)
      ensures tooltip == old(tooltip) && prefixSize == old(prefixSize)
    {
      if dialogVisible {
        calls := calls.(cancelReparse := calls.cancelReparse + 1);
        return;
      }
      if !hasFocus {
        return;
      }
      if continueKey && (interactive || state != Idle) {
        Run(input);
      } else {
        Stop();
        if restartKey && interactive {
          Run(input);
        }
      }
    }

    /** The mark-set handler: moving the "insert" mark stops completion. */
    method OnMarkSet(isInsert: bool)
      requires Valid()
      modifies this`state
      ensures Valid()
      ensures state == AfterStimulus(old(state), MarkSet(isInsert))
    {
      if isInsert {
        Stop();
      }
    }

    /** The focus-out handler: always stops completion. */
    method OnFocusOut()
      requires Valid()
      modifies this`state
      ensures Valid()
      ensures state == AfterStimulus(old(state), FocusOut)
    {
      Stop();
    }
  }

  /** The run() inputs of an eligible file, a live session and a caret after "ab". */
  function EligibleRun(): (r: RunInput)
    ensures r.runCheck && r.isProcessing && r.offset <= |r.text|
  {
    RunInput(true, true, "x ab", 4, 0, 4)
  }

  /**
   * Idle, run(), then stop() before the worker returns 5 candidates: no
   * presentation, the coordinator is idle again and reparse ran once.
   */
  method ScenarioCancelBeforeCompletion() returns (finalState: State, presented: bool, reparses: nat, workers: nat)
    ensures finalState == Idle && !presented && reparses == 1 && workers == 1
  {
    var c := new Coordinator(true);
    c.Run(EligibleRun());
    c.Stop();
    c.WorkerFinished(true, ["a", "b", "c", "d", "e"], true);
    c.Reconcile(EligibleRun(), true);
    finalState, presented, reparses, workers := c.state, c.dialogOpen, c.calls.reparse, c.calls.spawn;
  }

  /**
   * Idle, run(), then a cancel and a new run() while the worker is busy: the
   * first result is never shown and exactly one more worker is spawned.
   */
  method ScenarioCoalescedRestart() returns (finalState: State, presented: bool, workers: nat, pending: bool)
    ensures finalState == Starting && !presented && workers == 2 && pending
  {
    var c := new Coordinator(true);
    c.Run(EligibleRun());
    c.OnFocusOut();
    c.Run(EligibleRun());
    c.OnFocusOut();
    c.Run(EligibleRun());
    c.WorkerFinished(true, ["a"], true);
    c.Reconcile(EligibleRun(), true);
    finalState, presented, workers, pending := c.state, c.dialogOpen, c.calls.spawn, c.workerRunning;
  }

  /**
   * With the default is_processing (true) and add_rows (no rows), an admitted
   * run ends in the empty-rows branch: idle again, one reparse, no dialog.
   */
  method ScenarioDefaultWorker() returns (finalState: State, presented: bool, reparses: nat, errors: nat)
    ensures finalState == Idle && !presented && reparses == 1 && errors == 0
  {
    var c := new Coordinator(true);
    c.Run(EligibleRun());
    c.WorkerFinished(true, [], true);
    c.Reconcile(EligibleRun(), true);
    finalState, presented, reparses, errors := c.state, c.dialogOpen, c.calls.reparse, c.calls.addRowsError;
  }

  /** Idle, run(), the worker returns 3 candidates: the dialog holds exactly those, and the state is Idle. */
  method ScenarioPresent() returns (finalState: State, shown: seq<string>, kept: nat)
    ensures finalState == Idle && shown == ["a", "b", "c"] && kept == 3
  {
    var c := new Coordinator(false);
    c.Run(EligibleRun());
    c.WorkerFinished(true, ["a", "b", "c"], true);
    c.Reconcile(EligibleRun(), true);
    finalState, shown, kept := c.state, c.dialogRows, |c.rows|;
  }
}
