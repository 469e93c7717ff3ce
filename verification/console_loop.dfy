/** The read loop of `console_handle` and what follows it, as one method:
    the set-up checks, the loop over polls and keys, the command word, the
    history store and the hand-over to the core. */
module ConsoleLoop {
  import opened CStrings
  import opened LineRead
  import opened CmdHistory
  import Completion
  import opened Console

  /** The answer of one `select` on the input. */
  datatype Poll = Ready | Idle | PollError

  /** Blocking (`cli_console_handle`) or non-blocking
      (`cli_console_handle_nb`, with the caller's timeout pointer). */
  datatype Mode = Blocking | NonBlocking(timeoutArg: Option<nat>, setup: NonBlockSetup)

  /** How the call ends. `Executed` returns success unless the handler
      returned 1; every other outcome returns error, except `Stalled`: the
      source loops forever once the input is used up in blocking mode or
      stops answering polls in non-blocking mode. */
  datatype Outcome =
    | Executed(cmd: string, arg: string, line: string, timeoutLeft: nat, handlerQuit: bool)
    | Quit
    | NoCommand
    | PollFailed
    | SetupError
    | Stalled

  predicate ReturnsSuccess(o: Outcome) {
    o.Executed? && !o.handlerQuit
  }

  /** History lines fit the prompt line. */
  predicate Fits(h: History) {
    Valid(h) && forall i :: 0 <= i < |h.slots| ==> |h.slots[i]| < MaxCommandLineLength
  }

  /** Command names fit the prompt line. */
  predicate KeysFit(keys: seq<string>) {
    forall i :: 0 <= i < |keys| ==> |keys[i]| < MaxCommandLineLength
  }

  /** The finite timeout of a non-blocking call, if it has one. */
  predicate Finite(mode: Mode) {
    mode.NonBlocking? && mode.timeoutArg.Some? && mode.timeoutArg.value != WaitForever
  }

  /** A blocking call on a running console whose input is a command line
      typed from scratch, then Enter. */
  predicate TypedCommand(mode: Mode, run: bool, input: seq<char>, t: string) {
    && mode.Blocking? && run
    && |t| < MaxCommandLineLength - 1 && Typeable([], t) && '\0' !in t
    && |t| > 0 && !IsCSpace(t[0])
    && IsPrefix(t + ['\r'], input)
  }

  /** What the key that ended a read does to the line read (`text`): the
      arrow keys recall from the history, Tab completes, any other key keeps
      the line. Only the arrow position of the history moves, and the line
      still fits the prompt. */
  function EditLine(key: Key, text: string, h: History, entry: nat, keys: seq<string>): (r: (History, string))
    requires Fits(h) && KeysFit(keys) && entry < MaxOldCommand && |text| < MaxCommandLineLength
    ensures Fits(r.0) && r.0.slots == h.slots && r.0.idx == h.idx && r.0.prevIdx == h.prevIdx
    ensures |r.1| < MaxCommandLineLength
    ensures key != KeyUp && key != KeyDown && key != KeyTab ==> r.0 == h && r.1 == text
  {
    match key {
      case KeyUp => Up(h, text, entry)
      case KeyDown => Down(h, text, entry)
      case KeyTab =>
        var c := Completion.Complete(text, keys);
        assert |c| < MaxCommandLineLength by {
          if c != text {
            var i :| 0 <= i < |keys| && |c| <= |keys[i]|;
          }
        }
        (h, c)
      case _ => (h, text)
    }
  }

  /** `console_handle` for a new call: `hist` and `run` are the console's
      history and run flag, `keys` the command names in tree order (for
      Tab), `input` the characters typed, `polls` the select answers and
      `handlerResult` what the core returns for the command. */
  method Handle(hist: History, run: bool, mode: Mode, keys: seq<string>, input: seq<char>, polls: seq<Poll>,
                handlerResult: int, ghost typed: string)
    returns (res: Outcome, hist': History, run': bool)
    requires Fits(hist) && KeysFit(keys)
    requires mode.NonBlocking? && mode.timeoutArg.Some? ==> mode.timeoutArg.value < UintRange
    ensures Fits(hist')
    ensures res.SetupError? <==> mode.NonBlocking? && (mode.timeoutArg.None? || !SetupOk(mode.setup))
    ensures !run && !res.SetupError? ==> res == Quit && hist' == hist && !run'
    ensures res.Quit? ==> !run'
    ensures res.Executed? ==>
      && run'
      && res.cmd == FirstWord(res.line) && res.cmd != []
      && res.arg == Args(res.line, |res.cmd|)
      && |res.line| < MaxCommandLineLength
      && hist' == Store(hist, res.line, |res.cmd|)
      && (res.handlerQuit <==> handlerResult == 1)
    ensures !res.Executed? ==> hist'.slots == hist.slots && hist'.idx == hist.idx && hist'.prevIdx == hist.prevIdx
    ensures res.Executed? && mode.Blocking? ==> res.timeoutLeft == WaitForever
    ensures res.Executed? && Finite(mode) ==> res.timeoutLeft <= mode.timeoutArg.value
    ensures TypedCommand(mode, run, input, typed) ==> res.Executed? && res.line == typed
  {
    var readCnt: nat, timeout: nat;
    var cycle: nat := 1;
    if mode.NonBlocking? {
      if mode.timeoutArg.None? || !SetupOk(mode.setup) {
        return SetupError, hist, run;
      }
      cycle := mode.setup.cycle;
      timeout := mode.timeoutArg.value;
      readCnt := ReadCount(timeout, cycle);
    } else {
      readCnt := 1;
      timeout := WaitForever;
    }
    var line: string := [];
    var entry := hist.oldIdx;
    var h := hist;
    var running := run;
    var inp := input;
    var ps := polls;
    ghost var scripted := TypedCommand(mode, run, input, typed);
    while running && readCnt > 0
      invariant Fits(h) && h.slots == hist.slots && h.idx == hist.idx && h.prevIdx == hist.prevIdx
      invariant entry < MaxOldCommand
      invariant |line| < MaxCommandLineLength
      invariant running ==> run
      invariant !run ==> h == hist
      invariant mode.Blocking? ==> timeout == WaitForever
      invariant mode.NonBlocking? ==> cycle == mode.setup.cycle && cycle > 0
      invariant Finite(mode) ==> PollBudget(readCnt, timeout, cycle, mode.timeoutArg.value)
      invariant scripted ==>
        (inp == input && line == [] && readCnt == 1 && running) || (readCnt == 0 && line == typed && running)
      decreases |inp| + |ps|
    {
      if mode.NonBlocking? {
        if |ps| == 0 {
          return Stalled, h, running;
        }
        var p := ps[0];
        ps := ps[1..];
        if p == PollError {
          return PollFailed, h, running;
        }
        if p == Idle {
          if Finite(mode) {
            IdlePollWithinTimeout(readCnt, timeout, cycle, mode.timeoutArg.value);
          }
          var next := IdlePoll(readCnt, timeout, cycle);
          readCnt, timeout := next.0, next.1;
          continue;
        }
      } else if |inp| == 0 {
        return Stalled, h, running;
      }
      if scripted {
        TypeThenEnter([], typed, inp[|typed| + 1..]);
        assert inp == typed + ['\r'] + inp[|typed| + 1..];
      }
      var r := ReadLine(line, inp);
      inp := r.rest;
      if r.stop {
        running := false;
      }
      var e := EditLine(r.key, CStr(r.line), h, entry, keys);
      h, line := e.0, e.1;
      if r.key == KeyEnter {
        readCnt := 0;
      }
    }
    if !running {
      return Quit, h, false;
    }
    var w := FirstWord(line);
    if w == [] {
      return NoCommand, h, running;
    }
    hist' := Store(h, line, |w|);
    res := Executed(w, Args(line, |w|), line, timeout, handlerResult == 1);
    run' := running;
  }
}
