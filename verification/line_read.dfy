/** The key state machine of the console, `cmd_line_read`: characters are
    read one at a time and appended to the prompt line until a key that
    ends the read (Enter, backspace, Tab, Ctrl-D, an arrow sequence) or the
    end of the input. Leading blanks are skipped and a second blank in a
    row overwrites the first. The input is a finite sequence of characters;
    once it is used up every further read reports end of file and yields
    the NUL character, as `char_read` does. */
module LineRead {
  import opened CStrings

  /** `CLI_MAX_COMMAND_LINE_LENGTH`: the size of the prompt-line buffer. */
  const MaxCommandLineLength: nat := 640

  /** `KEY_INPUT_*`: why a read ended. */
  datatype Key = KeyNone | KeyEnter | KeyBs | KeyUp | KeyDown | KeyChar | KeyTab

  const BsLinux: char := 127 as char
  const BsTty: char := 8 as char
  const CtrlD: char := 4 as char
  const TabChar: char := 9 as char
  const EscChar: char := 27 as char

  /** A character that ends the read or starts an escape sequence. */
  predicate IsControl(c: char) {
    c == BsLinux || c == BsTty || c == CtrlD || c == TabChar || c == '\r' || c == '\n' || c == EscChar
  }

  /** The outcome of one read: the characters now in the line (before the
      terminator), the index the terminator was written to, the key, whether
      Ctrl-D cleared the run flag, and the input not consumed. */
  datatype ReadResult = ReadResult(line: string, termAt: int, key: Key, stop: bool, rest: seq<char>)

  /** No two blanks in a row. */
  predicate NoDoubleSpace(s: string) {
    forall i :: 0 <= i < |s| - 1 ==> !(s[i] == ' ' && s[i + 1] == ' ')
  }

  /** What the loop keeps between characters: `blank` (`blank_cnt`) is only
      nonzero right after a blank, and `first` only holds while nothing has
      been written. */
  predicate LoopState(buf: string, blank: nat, first: bool) {
    && (blank > 0 ==> |buf| > 0 && buf[|buf| - 1] == ' ')
    && (first ==> buf == [])
  }

  /** One turn of the loop: either the read goes on from a new state with
      the rest of the input, or it ends with a result. */
  datatype Step =
    | Go(buf: string, room: nat, blank: nat, first: bool, rest: seq<char>)
    | Done(r: ReadResult)

  /** One turn of the loop of `cmd_line_read` from the point where `buf` is
      in the line and `room` is the remaining count of `len`; a skipped
      leading blank or an overwritten second blank does not use up the
      count. As written (`keepReading` false) the read ends with `KeyChar` as
      soon as the count runs out, before looking at the next key. With
      `keepReading` a full line drops further characters but still reads
      keys. */
  function NextStep(buf: string, room: nat, blank: nat, first: bool, keepReading: bool, input: seq<char>): (s: Step)
    requires LoopState(buf, blank, first)
    ensures s.Go? ==>
      && LoopState(s.buf, s.blank, s.first)
      && IsPrefix(buf, s.buf) && |s.buf| + s.room == |buf| + room
      && s.room <= room && |s.rest| < |input|
    ensures s.Done? && s.r.key != KeyBs ==> s.r.line == buf && s.r.termAt == |buf|
    ensures s.Done? && s.r.key == KeyBs ==>
      if buf == [] then s.r.line == [] && s.r.termAt == -1
      else s.r.line == buf[..|buf| - 1] && s.r.termAt == |buf| - 1
    ensures s.Done? ==> |s.r.rest| <= |input| && (s.r.stop ==> s.r.key == KeyNone)
    ensures s.Done? && keepReading && |input| > 0 ==> |s.r.rest| < |input|
  {
    if room == 0 && !keepReading then Done(ReadResult(buf, |buf|, KeyChar, false, input))
    else if |input| == 0 then Done(ReadResult(buf, |buf|, KeyNone, false, []))
    else
      var c := input[0];
      var rest := input[1..];
      if first && c == ' ' then Go(buf, room, blank, first, rest)
      else if c == ' ' then
        if blank > 0 then Go(buf, room, blank + 1, false, rest)
        else if room == 0 then Go(buf, room, blank, first, rest)
        else Go(buf + [' '], room - 1, 1, false, rest)
      else if c == BsLinux || c == BsTty then
        Done(ReadResult(if |buf| > 0 then buf[..|buf| - 1] else buf, |buf| - 1, KeyBs, false, rest))
      else if c == CtrlD then Done(ReadResult(buf, |buf|, KeyNone, true, rest))
      else if c == TabChar then Done(ReadResult(buf, |buf|, KeyTab, false, rest))
      else if c == '\r' || c == '\n' then Done(ReadResult(buf, |buf|, KeyEnter, false, rest))
      else if c == EscChar then
        if |rest| == 0 then
          // end of file right after ESC: the NUL `char_read` delivers is stored
          if room == 0 then Go(buf, room, blank, first, [])
          else Go(buf + ['\0'], room - 1, 0, false, [])
        else if rest[0] != '[' then Done(ReadResult(buf, |buf|, KeyChar, false, rest[1..]))
        else if |rest| == 1 then Done(ReadResult(buf, |buf|, KeyChar, false, []))
        else
          var k := if rest[1] == 'A' then KeyUp else if rest[1] == 'B' then KeyDown else KeyChar;
          Done(ReadResult(buf, |buf|, k, false, rest[2..]))
      else if room == 0 then Go(buf, room, blank, first, rest)
      else Go(buf + [c], room - 1, 0, false, rest)
  }

  /** The loop of `cmd_line_read`, turn after turn until the read ends. */
  function ReadLoop(buf: string, room: nat, blank: nat, first: bool, keepReading: bool, input: seq<char>): (r: ReadResult)
    requires LoopState(buf, blank, first)
    ensures |r.line| <= |buf| + room
    ensures r.stop ==> r.key == KeyNone
    ensures |r.rest| <= |input|
    ensures keepReading && |input| > 0 ==> |r.rest| < |input|
    decreases room, |input|
  {
    match NextStep(buf, room, blank, first, keepReading, input)
    case Done(r) => r
    case Go(b, rm, bl, f, rest) => ReadLoop(b, rm, bl, f, keepReading, rest)
  }

  /** The line of `r` grew from `buf`, except that a backspace removed its
      last character; the terminator sits right after the line, or before
      the buffer when a backspace found the line empty. */
  predicate Grown(buf: string, r: ReadResult) {
    && (r.key != KeyBs ==> IsPrefix(buf, r.line) && r.termAt == |r.line|)
    && (r.key == KeyBs ==> (r.termAt == |r.line| && |r.line| + 1 >= |buf|) || (r.termAt == -1 && r.line == [] && buf == []))
    && (r.key == KeyBs && |buf| > 0 ==> IsPrefix(buf[..|buf| - 1], r.line))
  }

  lemma GrownFrom(buf: string, b: string, r: ReadResult)
    requires IsPrefix(buf, b) && Grown(b, r)
    ensures Grown(buf, r)
  {
    if r.key == KeyBs && |buf| > 0 {
      assert b[..|b| - 1][..|buf| - 1] == buf[..|buf| - 1];
    }
  }

  /** The line only grows from what was in it, except for a backspace. */
  lemma {:induction false} ReadLoopGrows(buf: string, room: nat, blank: nat, first: bool, keepReading: bool, input: seq<char>)
    requires LoopState(buf, blank, first)
    ensures Grown(buf, ReadLoop(buf, room, blank, first, keepReading, input))
    decreases room, |input|
  {
    var s := NextStep(buf, room, blank, first, keepReading, input);
    if s.Go? {
      var r := ReadLoop(s.buf, s.room, s.blank, s.first, keepReading, s.rest);
      ReadLoopGrows(s.buf, s.room, s.blank, s.first, keepReading, s.rest);
      GrownFrom(buf, s.buf, r);
      assert ReadLoop(buf, room, blank, first, keepReading, input) == r;
    } else {
      assert ReadLoop(buf, room, blank, first, keepReading, input) == s.r;
    }
  }

  /** No doubled blank so far, and none about to be made. */
  predicate SpaceState(buf: string, blank: nat) {
    NoDoubleSpace(buf) && (blank == 0 && |buf| > 0 ==> buf[|buf| - 1] != ' ')
  }

  lemma StepNoDoubleSpace(buf: string, room: nat, blank: nat, first: bool, keepReading: bool, input: seq<char>)
    requires LoopState(buf, blank, first) && SpaceState(buf, blank)
    ensures var s := NextStep(buf, room, blank, first, keepReading, input);
      && (s.Go? ==> SpaceState(s.buf, s.blank))
      && (s.Done? ==> NoDoubleSpace(s.r.line))
  {
  }

  /** Blanks are never doubled in the line: a second blank in a row takes
      the place of the first. */
  lemma {:induction false} ReadLoopNoDoubleSpace(buf: string, room: nat, blank: nat, first: bool, keepReading: bool, input: seq<char>)
    requires LoopState(buf, blank, first) && SpaceState(buf, blank)
    ensures NoDoubleSpace(ReadLoop(buf, room, blank, first, keepReading, input).line)
    decreases room, |input|
  {
    var s := NextStep(buf, room, blank, first, keepReading, input);
    StepNoDoubleSpace(buf, room, blank, first, keepReading, input);
    if s.Go? {
      ReadLoopNoDoubleSpace(s.buf, s.room, s.blank, s.first, keepReading, s.rest);
    }
  }

  /** The line so far does not start with a blank, and is empty only while
      leading blanks are still skipped. */
  predicate LeadState(buf: string, first: bool) {
    if buf == [] then first else buf[0] != ' '
  }

  lemma StepNoLeadingBlank(buf: string, room: nat, blank: nat, first: bool, keepReading: bool, input: seq<char>)
    requires LoopState(buf, blank, first) && LeadState(buf, first)
    ensures var s := NextStep(buf, room, blank, first, keepReading, input);
      && (s.Go? ==> LeadState(s.buf, s.first))
      && (s.Done? && |s.r.line| > 0 ==> s.r.line[0] != ' ')
  {
  }

  /** A line that starts with a non-blank keeps it, and an empty line read
      from the start never gets a leading blank. */
  lemma {:induction false} ReadLoopNoLeadingBlank(buf: string, room: nat, blank: nat, first: bool, keepReading: bool, input: seq<char>)
    requires LoopState(buf, blank, first) && LeadState(buf, first)
    ensures var r := ReadLoop(buf, room, blank, first, keepReading, input);
      |r.line| > 0 ==> r.line[0] != ' '
    decreases room, |input|
  {
    var s := NextStep(buf, room, blank, first, keepReading, input);
    StepNoLeadingBlank(buf, room, blank, first, keepReading, input);
    if s.Go? {
      ReadLoopNoLeadingBlank(s.buf, s.room, s.blank, s.first, keepReading, s.rest);
    }
  }

  /** An ordinary character, or a blank that follows a non-blank, is
      appended when there is room. */
  lemma StepTypes(buf: string, room: nat, blank: nat, first: bool, keepReading: bool, input: seq<char>)
    requires LoopState(buf, blank, first) && room > 0 && |input| > 0 && !IsControl(input[0])
    requires input[0] == ' ' ==> !first && blank == 0
    ensures NextStep(buf, room, blank, first, keepReading, input)
         == Go(buf + [input[0]], room - 1, if input[0] == ' ' then 1 else 0, false, input[1..])
    ensures ReadLoop(buf, room, blank, first, keepReading, input)
         == ReadLoop(buf + [input[0]], room - 1, if input[0] == ' ' then 1 else 0, false, keepReading, input[1..])
  {
  }

  /** Text without control keys, with single blanks and no leading blank. */
  predicate Typeable(buf: string, t: string) {
    && (forall i :: 0 <= i < |t| ==> !IsControl(t[i]))
    && NoDoubleSpace(buf + t)
    && (buf == [] && |t| > 0 ==> t[0] != ' ')
  }

  /** Typing the first character of typeable text leaves typeable text, and
      a blank among it never follows another blank. */
  lemma TypeableStep(buf: string, blank: nat, first: bool, t: string)
    requires LoopState(buf, blank, first) && Typeable(buf, t) && t != []
    ensures !IsControl(t[0])
    ensures t[0] == ' ' ==> !first && blank == 0
    ensures Typeable(buf + [t[0]], t[1..])
    ensures (buf + [t[0]]) + t[1..] == buf + t
  {
    var c := t[0];
    assert (buf + [c]) + t[1..] == buf + t;
    if c == ' ' && |buf| > 0 {
      // the blank follows a non-blank, so `blank_cnt` is zero
      assert (buf + t)[|buf|] == ' ';
      assert buf[|buf| - 1] == (buf + t)[|buf| - 1];
    }
  }

  /** Typing the first character of typeable text, with Enter and more
      input behind it, appends the character and goes on with the rest. */
  lemma TypeFirstOf(buf: string, room: nat, blank: nat, first: bool, keepReading: bool, t: string, after: seq<char>)
    requires LoopState(buf, blank, first) && Typeable(buf, t) && 0 < |t| <= room
    ensures LoopState(buf + [t[0]], if t[0] == ' ' then 1 else 0, false)
    ensures Typeable(buf + [t[0]], t[1..]) && (buf + [t[0]]) + t[1..] == buf + t
    ensures ReadLoop(buf, room, blank, first, keepReading, t + after)
         == ReadLoop(buf + [t[0]], room - 1, if t[0] == ' ' then 1 else 0, false, keepReading, t[1..] + after)
  {
    TypeableStep(buf, blank, first, t);
    var input := t + after;
    assert input[0] == t[0] && input[1..] == t[1..] + after;
    StepTypes(buf, room, blank, first, keepReading, input);
  }

  /** Enter ends the read with the line as it is. */
  lemma EnterEnds(buf: string, room: nat, blank: nat, first: bool, keepReading: bool, after: seq<char>)
    requires LoopState(buf, blank, first) && room > 0
    ensures ReadLoop(buf, room, blank, first, keepReading, ['\r'] + after) == ReadResult(buf, |buf|, KeyEnter, false, after)
  {
    assert (['\r'] + after)[0] == '\r' && (['\r'] + after)[1..] == after;
  }

  /** The first turn on a key that ends the read. */
  lemma ControlStep(buf: string, room: nat, blank: nat, first: bool, keepReading: bool, c: char, rest: seq<char>)
    requires LoopState(buf, blank, first) && (room > 0 || keepReading)
    requires c == '\r' || c == '\n' || c == BsLinux || c == BsTty || c == TabChar || c == CtrlD
    ensures ReadLoop(buf, room, blank, first, keepReading, [c] + rest)
         == NextStep(buf, room, blank, first, keepReading, [c] + rest).r
    ensures NextStep(buf, room, blank, first, keepReading, [c] + rest).r.rest == rest
  {
    assert ([c] + rest)[0] == c && ([c] + rest)[1..] == rest;
  }

  /** Whatever the line holds and however much room is left, Enter (`\r`
      or `\n`) ends the read with `KeyEnter`, either backspace with `KeyBs`
      and the last character removed, Tab with `KeyTab`, and Ctrl-D with
      `KeyNone` and the run flag cleared; the input after the key is left. */
  lemma KeyOfControl(buf: string, room: nat, blank: nat, first: bool, keepReading: bool, c: char, rest: seq<char>)
    requires LoopState(buf, blank, first) && (room > 0 || keepReading)
    ensures var r := ReadLoop(buf, room, blank, first, keepReading, [c] + rest);
      && ((c == '\r' || c == '\n') ==> r == ReadResult(buf, |buf|, KeyEnter, false, rest))
      && ((c == BsLinux || c == BsTty) ==>
            r == ReadResult(if |buf| > 0 then buf[..|buf| - 1] else [], |buf| - 1, KeyBs, false, rest))
      && (c == TabChar ==> r == ReadResult(buf, |buf|, KeyTab, false, rest))
      && (c == CtrlD ==> r == ReadResult(buf, |buf|, KeyNone, true, rest))
  {
    if c == '\r' || c == '\n' || c == BsLinux || c == BsTty || c == TabChar || c == CtrlD {
      ControlStep(buf, room, blank, first, keepReading, c, rest);
    }
  }

  /** `ESC [ A` ends the read with `KeyUp`, `ESC [ B` with `KeyDown`, and
      any other third character (left, right, ...) with a plain `KeyChar`;
      nothing of the sequence is stored in the line. */
  lemma KeyOfArrow(buf: string, room: nat, blank: nat, first: bool, keepReading: bool, d: char, rest: seq<char>)
    requires LoopState(buf, blank, first) && (room > 0 || keepReading)
    ensures ReadLoop(buf, room, blank, first, keepReading, [EscChar, '[', d] + rest)
         == ReadResult(buf, |buf|, if d == 'A' then KeyUp else if d == 'B' then KeyDown else KeyChar, false, rest)
  {
    var input := [EscChar, '[', d] + rest;
    assert input[0] == EscChar && input[1..][0] == '[' && input[1..][1] == d && input[1..][2..] == rest;
  }

  /** `ESC` followed by anything but `[` ends the read with a plain
      `KeyChar`, consuming both characters. */
  lemma KeyOfEscape(buf: string, room: nat, blank: nat, first: bool, keepReading: bool, e: char, rest: seq<char>)
    requires LoopState(buf, blank, first) && (room > 0 || keepReading) && e != '['
    ensures ReadLoop(buf, room, blank, first, keepReading, [EscChar, e] + rest)
         == ReadResult(buf, |buf|, KeyChar, false, rest)
  {
    var input := [EscChar, e] + rest;
    assert input[0] == EscChar && input[1..][0] == e && input[1..][1..] == rest;
  }

  /** Typing text that fits and then Enter ends the read with the text
      appended to the line (`fin`) and the input after Enter left over. */
  lemma {:induction false} TypeEnter(buf: string, room: nat, blank: nat, first: bool, keepReading: bool, t: string, tail: seq<char>, fin: string)
    requires LoopState(buf, blank, first) && Typeable(buf, t) && |t| < room && fin == buf + t
    ensures ReadLoop(buf, room, blank, first, keepReading, t + (['\r'] + tail)) == ReadResult(fin, |fin|, KeyEnter, false, tail)
    decreases |t|
  {
    if t == [] {
      assert t + (['\r'] + tail) == ['\r'] + tail && fin == buf;
      EnterEnds(buf, room, blank, first, keepReading, tail);
    } else {
      TypeFirstOf(buf, room, blank, first, keepReading, t, ['\r'] + tail);
      TypeEnter(buf + [t[0]], room - 1, if t[0] == ' ' then 1 else 0, false, keepReading, t[1..], tail, fin);
    }
  }

  /** As written (the read ends once the count runs out), typing exactly as
      many characters as the count allows ends the read with them appended
      (`fin`) and a plain character as the key. */
  lemma {:induction false} TypeFill(buf: string, room: nat, blank: nat, first: bool, t: string, fin: string)
    requires LoopState(buf, blank, first) && Typeable(buf, t) && |t| == room && fin == buf + t
    ensures ReadLoop(buf, room, blank, first, false, t) == ReadResult(fin, |fin|, KeyChar, false, [])
    decreases |t|
  {
    if t == [] {
      assert fin == buf;
    } else {
      assert t + [] == t && t[1..] + [] == t[1..];
      TypeFirstOf(buf, room, blank, first, false, t, []);
      TypeFill(buf + [t[0]], room - 1, if t[0] == ' ' then 1 else 0, false, t[1..], fin);
    }
  }

  /** `cmd_line_read` as written: the count is the whole buffer size, and a
      backspace on an empty line writes the terminator before the buffer. */
  function ReadLineAsWritten(buf: string, input: seq<char>): (r: ReadResult)
    requires |buf| <= MaxCommandLineLength
    ensures -1 <= r.termAt <= MaxCommandLineLength
  {
    ReadLoopGrows(buf, MaxCommandLineLength - |buf|, 0, buf == [], false, input);
    ReadLoop(buf, MaxCommandLineLength - |buf|, 0, buf == [], false, input)
  }

  /** A full line of typed text puts the terminator one past the end of the
      buffer. */
  lemma ReadLineAsWrittenOverflows(t: string)
    requires |t| == MaxCommandLineLength && Typeable([], t)
    ensures ReadLineAsWritten([], t).termAt == MaxCommandLineLength
  {
    TypeFill([], MaxCommandLineLength, 0, true, t, t);
  }

  /** Once the line is full the read returns without consuming a key, so the
      Enter that follows is never seen. */
  lemma ReadLineAsWrittenStallsWhenFull(t: string, tail: seq<char>)
    requires |t| == MaxCommandLineLength
    ensures ReadLineAsWritten(t, tail) == ReadResult(t, |t|, KeyChar, false, tail)
  {
  }

  /** A backspace on an empty line writes the terminator at index -1. */
  lemma ReadLineAsWrittenBackspaceUnderflows()
    ensures ReadLineAsWritten([], [BsLinux]).termAt == -1
  {
  }

  /** `cmd_line_read` with the terminator kept inside the buffer: the count
      leaves one byte for it, backspace on an empty line writes it at index
      0, and a full line still reads keys. */
  function ReadLine(buf: string, input: seq<char>): (r: ReadResult)
    requires |buf| < MaxCommandLineLength
    ensures 0 <= r.termAt < MaxCommandLineLength
    ensures |r.line| < MaxCommandLineLength
    ensures r.termAt == |r.line|
    ensures |input| > 0 ==> |r.rest| < |input|
    ensures r.key != KeyBs ==> IsPrefix(buf, r.line)
  {
    ReadLoopGrows(buf, MaxCommandLineLength - 1 - |buf|, 0, buf == [], true, input);
    var r := ReadLoop(buf, MaxCommandLineLength - 1 - |buf|, 0, buf == [], true, input);
    if r.termAt < 0 then r.(termAt := 0) else r
  }

  /** The line read from an empty prompt has no leading blank and no double
      blank. */
  lemma ReadLineCollapsed(input: seq<char>)
    ensures NoDoubleSpace(ReadLine([], input).line)
    ensures |ReadLine([], input).line| > 0 ==> ReadLine([], input).line[0] != ' '
  {
    ReadLoopNoDoubleSpace([], MaxCommandLineLength - 1, 0, true, true, input);
    ReadLoopNoLeadingBlank([], MaxCommandLineLength - 1, 0, true, true, input);
  }

  /** The key a prompt-line read returns is the one typed: Enter, Tab,
      Ctrl-D (which also stops the console), a backspace (which drops the
      last character, and on an empty line leaves the terminator at 0), and
      the up and down arrows. */
  lemma ReadLineKey(buf: string, c: char, d: char, rest: seq<char>)
    requires |buf| < MaxCommandLineLength
    ensures var r := ReadLine(buf, [c] + rest);
      && ((c == '\r' || c == '\n') ==> r == ReadResult(buf, |buf|, KeyEnter, false, rest))
      && ((c == BsLinux || c == BsTty) && |buf| > 0 ==> r == ReadResult(buf[..|buf| - 1], |buf| - 1, KeyBs, false, rest))
      && ((c == BsLinux || c == BsTty) && buf == [] ==> r == ReadResult([], 0, KeyBs, false, rest))
      && (c == TabChar ==> r == ReadResult(buf, |buf|, KeyTab, false, rest))
      && (c == CtrlD ==> r == ReadResult(buf, |buf|, KeyNone, true, rest))
    ensures ReadLine(buf, [EscChar, '[', d] + rest)
         == ReadResult(buf, |buf|, if d == 'A' then KeyUp else if d == 'B' then KeyDown else KeyChar, false, rest)
  {
    var room := MaxCommandLineLength - 1 - |buf|;
    KeyOfControl(buf, room, 0, buf == [], true, c, rest);
    KeyOfArrow(buf, room, 0, buf == [], true, d, rest);
  }

  /** `blank_cnt` starts at zero on every call, so a blank typed right after
      a read that left the line ending in a blank (a backspace, a recalled
      or completed line) is appended: the line then holds a doubled blank. */
  lemma ReadLineDoublesBlankAcrossCalls(buf: string, tail: seq<char>)
    requires 0 < |buf| < MaxCommandLineLength - 1 && buf[|buf| - 1] == ' '
    ensures ReadLine(buf, [' ', '\r'] + tail).line == buf + " "
    ensures !NoDoubleSpace(ReadLine(buf, [' ', '\r'] + tail).line)
  {
    var input := [' ', '\r'] + tail;
    assert input[0] == ' ' && input[1..] == ['\r'] + tail;
    KeyOfControl(buf + " ", MaxCommandLineLength - 2 - |buf|, 1, false, true, '\r', tail);
    var line := buf + " ";
    assert line[|buf| - 1] == ' ' && line[|buf|] == ' ';
  }

  /** Typing text that fits and pressing Enter yields the line with the text
      appended. */
  lemma TypeThenEnter(buf: string, t: string, tail: seq<char>)
    requires |buf| + |t| < MaxCommandLineLength - 1 && Typeable(buf, t)
    ensures ReadLine(buf, t + ['\r'] + tail) == ReadResult(buf + t, |buf + t|, KeyEnter, false, tail)
  {
    TypeEnter(buf, MaxCommandLineLength - 1 - |buf|, 0, buf == [], true, t, tail, buf + t);
    assert t + ['\r'] + tail == t + (['\r'] + tail);
  }
}
