/** One call of `console_handle`: read keys into the prompt line until
    Enter (editing it with backspace, the history keys and Tab), then hand
    the first word and the rest of the line to the core and record the line
    in the history. In non-blocking mode every round first polls the input
    with a `select` of one cycle; the number of idle polls allowed comes
    from the caller's timeout. The poll answers, the characters typed and
    the handler's return value are parameters. */
module Console {
  import opened CStrings
  import opened Arith

  /** `CLIOS_IO_WAIT_FOREVER`, `(unsigned)-1`. */
  const WaitForever: nat := 0xFFFF_FFFF

  /** The range of `unsigned int`. */
  const UintRange: nat := 0x1_0000_0000

  /** The select cycle used when the caller gives none. */
  const DefaultCycle: nat := 100

  /** `CLI_MAX_FUNCTION_NAME_LENGTH`: the `%64s` width of the command word. */
  const MaxFunctionNameLength: nat := 64

  /** `cycle_time_ms` as `console_non_block_init` stores it. */
  function CycleTime(requested: nat): (r: nat)
    ensures r > 0
    ensures requested > 0 ==> r == requested
  {
    if requested == 0 then DefaultCycle else requested
  }

  /** The select set-up of a console: `io_fd`, `max_io_fd`, `cycle_time_ms`. */
  datatype NonBlockSetup = NonBlockSetup(ioFd: int, maxIoFd: int, cycle: nat)

  /** The check `console_handle` makes before a non-blocking call. */
  predicate SetupOk(s: NonBlockSetup) {
    s.ioFd >= 0 && s.maxIoFd != 0 && s.cycle != 0
  }

  /** `console_non_block_init`: everything is cleared first; with
      non-blocking enabled the descriptor of the input (`fileno`) is taken,
      which fails when it is negative. The flag says whether the call
      succeeded. */
  function NonBlockInit(enable: bool, fileno: int, cycle: nat): (r: (NonBlockSetup, bool))
    ensures enable && fileno >= 0 <==> r.1 && SetupOk(r.0)
    ensures r.1 <==> !enable || fileno >= 0
    ensures r.1 && enable ==> r.0.ioFd == fileno && r.0.cycle == CycleTime(cycle)
  {
    var cleared := NonBlockSetup(-1, 0, 0);
    if !enable then (cleared, true)
    else if fileno < 0 then (cleared, false)
    else (NonBlockSetup(fileno, fileno + 1, CycleTime(cycle)), true)
  }

  /** `read_cnt` for a non-blocking call: as many cycles as the timeout
      holds, at least one, or wait forever. */
  function ReadCount(timeout: nat, cycle: nat): (r: nat)
    requires cycle > 0 && timeout < UintRange
    ensures r >= 1
    ensures timeout == WaitForever <==> r == WaitForever
    ensures timeout != WaitForever && timeout < cycle ==> r == 1
    ensures timeout != WaitForever && timeout >= cycle ==> r * cycle <= timeout < (r + 1) * cycle
  {
    if timeout == WaitForever then WaitForever
    else
      DivBounds(timeout, cycle);
      if timeout / cycle == 0 then 1 else timeout / cycle
  }

  /** A poll with no input waiting: one cycle less, and the time left
      recomputed with `unsigned` arithmetic. */
  function IdlePoll(readCnt: nat, timeout: nat, cycle: nat): (r: (nat, nat))
  {
    if readCnt != WaitForever && readCnt > 0 then
      (readCnt - 1, ((readCnt - 1) * cycle) % UintRange)
    else (readCnt, timeout)
  }

  /** What the idle polls keep: the count only goes down, and what it stands
      for never exceeds the caller's timeout. */
  predicate PollBudget(readCnt: nat, timeout: nat, cycle: nat, initial: nat) {
    && timeout <= initial
    && (readCnt <= 1 || readCnt * cycle <= initial)
  }

  /** An idle poll never makes the time left exceed the caller's timeout,
      so the `unsigned` product never wraps. */
  lemma IdlePollWithinTimeout(readCnt: nat, timeout: nat, cycle: nat, initial: nat)
    requires initial < WaitForever && cycle > 0 && PollBudget(readCnt, timeout, cycle, initial)
    ensures var r := IdlePoll(readCnt, timeout, cycle);
      PollBudget(r.0, r.1, cycle, initial) && r.0 <= readCnt
    ensures readCnt > 0 ==> IdlePoll(readCnt, timeout, cycle).1 == (readCnt - 1) * cycle
  {
    if readCnt > 1 {
      assert (readCnt - 1) * cycle <= readCnt * cycle;
    }
  }

  /** The count and time left a call starts with, when its timeout is
      finite, are within the budget. */
  lemma ReadCountWithinTimeout(timeout: nat, cycle: nat)
    requires cycle > 0 && timeout < WaitForever
    ensures PollBudget(ReadCount(timeout, cycle), timeout, cycle, timeout)
  {
  }

  /** Number of leading characters `sscanf` skips as white space. */
  function SkipSpace(s: string): (r: nat)
    ensures r <= |s|
    ensures forall i :: 0 <= i < r ==> IsCSpace(s[i])
    ensures r < |s| ==> !IsCSpace(s[r])
  {
    if |s| == 0 || !IsCSpace(s[0]) then 0 else 1 + SkipSpace(s[1..])
  }

  /** The characters `%s` takes: non-space ones, at most `n`. */
  function TakeWord(s: string, n: nat): (r: string)
    ensures |r| <= n && IsPrefix(r, s)
    ensures forall i :: 0 <= i < |r| ==> !IsCSpace(r[i])
    ensures |r| < n && |r| < |s| ==> IsCSpace(s[|r|])
  {
    if n == 0 || |s| == 0 || IsCSpace(s[0]) then [] else [s[0]] + TakeWord(s[1..], n - 1)
  }

  /** `sscanf(prompt_line, "%64s", user_cmd)`: the first word of the line,
      cut at 64 characters; empty when the line holds no word. */
  function FirstWord(line: string): (r: string)
    ensures |r| <= MaxFunctionNameLength
    ensures r == [] <==> forall i :: 0 <= i < |line| ==> IsCSpace(line[i])
    ensures r != [] ==> OccursAt(line, r, SkipSpace(line))
    ensures forall i :: 0 <= i < |r| ==> !IsCSpace(r[i])
    ensures r != [] ==>
      |r| == MaxFunctionNameLength || SkipSpace(line) + |r| == |line| || IsCSpace(line[SkipSpace(line) + |r|])
  {
    var k := SkipSpace(line);
    var w := TakeWord(line[k..], MaxFunctionNameLength);
    assert k < |line| ==> w != [];
    assert |w| < MaxFunctionNameLength && |w| < |line[k..]| ==> line[k + |w|] == line[k..][|w|];
    w
  }

  /** The argument string `prompt_line + len + 1`: the line after the word
      and the character that ends it. When the word runs to the end of the
      line this points at the zeroed bytes behind the terminator. */
  function Args(line: string, len: nat): string {
    if len + 1 <= |line| then line[len + 1..] else []
  }

  /** A line typed as a word, one blank and the arguments is taken apart
      into exactly those. */
  lemma FirstWordArgs(w: string, a: string)
    requires 0 < |w| <= MaxFunctionNameLength
    requires forall i :: 0 <= i < |w| ==> !IsCSpace(w[i])
    ensures FirstWord(w + " " + a) == w
    ensures Args(w + " " + a, |w|) == a
  {
    var line := w + " " + a;
    assert SkipSpace(line) == 0 by {
      assert line[0] == w[0];
    }
    TakeWordExact(w, " " + a, MaxFunctionNameLength);
    assert line == w + (" " + a);
    assert line[|w| + 1..] == a;
  }

  lemma {:induction false} TakeWordExact(w: string, rest: string, n: nat)
    requires |w| <= n
    requires forall i :: 0 <= i < |w| ==> !IsCSpace(w[i])
    requires |rest| > 0 && IsCSpace(rest[0])
    ensures TakeWord(w + rest, n) == w
    decreases |w|
  {
    if |w| == 0 {
      assert w + rest == rest;
    } else {
      assert (w + rest)[1..] == w[1..] + rest;
      TakeWordExact(w[1..], rest, n - 1);
      assert w == [w[0]] + w[1..];
    }
  }
}
