/** Tab completion of the console (`cli_complete_prepare`,
    `cli_complete_print` and the Tab branch of `console_handle`): the
    registered command names are walked in tree order; those that start with
    the typed line are the matches. One match replaces the line; several are
    listed in columns and the line becomes their longest common prefix. */
module Completion {
  import opened CStrings
  import opened Arith
  import LineRead

  /** The initial `match_chars`: the size of the prompt line less its terminator. */
  const MatchCharsInit: nat := LineRead.MaxCommandLineLength - 1

  /** `struct cli_console_complete_s`, the fields the prepare walk fills in. */
  datatype Shared = Shared(matchNum: nat, maxLen: nat, found: Option<string>, matchChars: nat)

  /** The names that start with `input`, in walk order. */
  function Matches(keys: seq<string>, input: string): (r: seq<string>)
    ensures |r| <= |keys|
    ensures forall i :: 0 <= i < |r| ==> r[i] in keys && IsPrefix(input, r[i])
    ensures forall k :: k in keys && IsPrefix(input, k) ==> k in r
  {
    if |keys| == 0 then []
    else
      var k := keys[|keys| - 1];
      Matches(keys[..|keys| - 1], input) + (if IsPrefix(input, k) then [k] else [])
  }

  /** The loop of `cli_complete_prepare` that looks for the first position,
      up to the longer length and counting the terminators, where two names
      differ. */
  function FirstMismatch(a: string, b: string, i: nat, len: nat): (r: Option<nat>)
    ensures r.Some? ==> i <= r.value <= len && CharAt(a, r.value) != CharAt(b, r.value)
    decreases len + 1 - i
  {
    if i > len then None
    else if CharAt(a, i) != CharAt(b, i) then Some(i)
    else FirstMismatch(a, b, i + 1, len)
  }

  lemma {:induction false} FirstMismatchFrom(a: string, b: string, i: nat, len: nat)
    requires i <= Lcp(a, b) <= len
    requires CharAt(a, Lcp(a, b)) != CharAt(b, Lcp(a, b))
    ensures FirstMismatch(a, b, i, len) == Some(Lcp(a, b))
    decreases len + 1 - i
  {
    if i < Lcp(a, b) {
      assert a[i] == a[..Lcp(a, b)][i] && b[i] == b[..Lcp(a, b)][i];
      FirstMismatchFrom(a, b, i + 1, len);
    }
  }

  /** For two different names the loop stops at their longest common
      prefix. */
  lemma FirstMismatchIsLcp(a: string, b: string)
    requires a != b && '\0' !in a && '\0' !in b
    ensures FirstMismatch(a, b, 0, if |a| > |b| then |a| else |b|) == Some(Lcp(a, b))
  {
    LcpOfDifferent(a, b);
    FirstMismatchFrom(a, b, 0, if |a| > |b| then |a| else |b|);
  }

  /** One call of `cli_complete_prepare` for the name `k`. */
  function PrepareStep(s: Shared, k: string, input: string): (r: Shared)
    ensures IsPrefix(input, k) ==> r.matchNum == s.matchNum + 1 && r.found == Some(k)
    ensures !IsPrefix(input, k) ==> r == s
  {
    if |input| > |k| then s
    else if k[..|input|] != input then s
    else
      var maxLen := if |k| > s.maxLen then |k| else s.maxLen;
      var chars :=
        if s.found.None? then s.matchChars
        else
          var m := s.found.value;
          var stop := FirstMismatch(k, m, 0, if |k| > |m| then |k| else |m|);
          if stop.Some? && stop.value < s.matchChars then stop.value else s.matchChars;
      Shared(s.matchNum + 1, maxLen, Some(k), chars)
  }

  /** The walk of `cli_complete_prepare` over the names in tree order, from
      the values the Tab branch sets up. */
  function Prepare(keys: seq<string>, input: string): (r: Shared)
    ensures r.matchNum == |Matches(keys, input)|
    ensures r.found.None? <==> |Matches(keys, input)| == 0
    ensures r.found.Some? ==> r.found.value == Matches(keys, input)[|Matches(keys, input)| - 1]
  {
    if |keys| == 0 then Shared(0, 0, None, MatchCharsInit)
    else PrepareStep(Prepare(keys[..|keys| - 1], input), keys[|keys| - 1], input)
  }

  /** `max_match_len` is the length of the longest match. */
  predicate MaxLenOf(m: seq<string>, maxLen: nat) {
    && (forall i :: 0 <= i < |m| ==> |m[i]| <= maxLen)
    && (|m| == 0 ==> maxLen == 0)
    && (|m| > 0 ==> exists i :: 0 <= i < |m| && |m[i]| == maxLen)
  }

  lemma {:induction false} PrepareMaxLen(keys: seq<string>, input: string)
    ensures MaxLenOf(Matches(keys, input), Prepare(keys, input).maxLen)
    decreases |keys|, 1
  {
    if |keys| > 0 {
      if IsPrefix(input, keys[|keys| - 1]) {
        PrepareMaxLenMatch(keys, input);
      } else {
        PrepareMaxLen(keys[..|keys| - 1], input);
        assert Matches(keys, input) == Matches(keys[..|keys| - 1], input);
        assert Prepare(keys, input).maxLen == Prepare(keys[..|keys| - 1], input).maxLen;
      }
    }
  }

  /** A matching name raises the maximum to its own length or leaves it. */
  lemma {:induction false} PrepareMaxLenMatch(keys: seq<string>, input: string)
    requires |keys| > 0 && IsPrefix(input, keys[|keys| - 1])
    ensures MaxLenOf(Matches(keys, input), Prepare(keys, input).maxLen)
    decreases |keys|, 0
  {
    var keys', k := keys[..|keys| - 1], keys[|keys| - 1];
    PrepareMaxLen(keys', input);
    var m', s := Matches(keys', input), Prepare(keys', input);
    var ml := Prepare(keys, input).maxLen;
    var m := m' + [k];
    assert Matches(keys, input) == m;
    assert ml == if |k| > s.maxLen then |k| else s.maxLen;
    if |k| >= s.maxLen {
      assert |m[|m'|]| == ml;
    } else {
      var i :| 0 <= i < |m'| && |m'[i]| == s.maxLen;
      assert |m[i]| == ml;
    }
    forall i | 0 <= i < |m|
      ensures |m[i]| <= ml
    {
      if i < |m'| {
        assert m[i] == m'[i];
      }
    }
  }

  /** The first `n` characters are shared by every name of `m`. */
  predicate CommonTo(m: seq<string>, n: nat)
    requires |m| > 0
  {
    n <= |m[0]| && forall j :: 0 <= j < |m| ==> n <= |m[j]| && m[j][..n] == m[0][..n]
  }

  /** Names stored in the command tree: distinct, without NUL. */
  predicate Names(keys: seq<string>) {
    && (forall i, j :: 0 <= i < j < |keys| ==> keys[i] != keys[j])
    && (forall i :: 0 <= i < |keys| ==> '\0' !in keys[i])
  }

  /** Two or more matches share exactly their first `match_chars`
      characters (unless the initial bound is smaller), which cover the
      typed input. */
  predicate CommonPrefixOf(m: seq<string>, mc: nat, input: string) {
    && |m| >= 2
    && CommonTo(m, mc)
    && (mc == MatchCharsInit || exists j :: 0 <= j < |m| - 1 && Lcp(m[j], m[j + 1]) == mc)
    && mc <= MatchCharsInit
    && (mc >= |input| || mc == MatchCharsInit)
  }

  lemma PrepareStepChars(m: seq<string>, s: Shared, k: string, input: string)
    requires |m| >= 1 && s.found.Some? && s.found.value == m[|m| - 1] && k != m[|m| - 1]
    requires '\0' !in k && '\0' !in m[|m| - 1] && IsPrefix(input, k)
    requires forall j :: 0 <= j < |m| ==> IsPrefix(input, m[j])
    requires |m| == 1 ==> s.matchChars == MatchCharsInit
    requires |m| >= 2 ==> CommonPrefixOf(m, s.matchChars, input)
    ensures CommonPrefixOf(m + [k], PrepareStep(s, k, input).matchChars, input)
  {
    var last := m[|m| - 1];
    var m' := m + [k];
    FirstMismatchIsLcp(k, last);
    var l := Lcp(k, last);
    assert Lcp(last, k) == l by {
      LcpMaximal(last, k, l);
      LcpMaximal(k, last, Lcp(last, k));
    }
    LcpMaximal(k, last, |input|);
    var mc := PrepareStep(s, k, input).matchChars;
    assert mc == (if l < s.matchChars then l else s.matchChars);
    forall j | 0 <= j < |m'|
      ensures mc <= |m'[j]| && m'[j][..mc] == m'[0][..mc]
    {
      assert m'[0] == m[0];
      if j == |m| {
        CommonPrefixShorter(k, last, l, mc);
        if |m| >= 2 {
          CommonPrefixShorter(last, m[0], s.matchChars, mc);
        }
      } else {
        assert m'[j] == m[j];
        if |m| >= 2 {
          CommonPrefixShorter(m[j], m[0], s.matchChars, mc);
        }
      }
    }
    if mc != MatchCharsInit {
      if mc == l {
        assert Lcp(m'[|m| - 1], m'[|m|]) == mc;
      } else {
        var j :| 0 <= j < |m| - 1 && Lcp(m[j], m[j + 1]) == s.matchChars;
        assert m'[j] == m[j] && m'[j + 1] == m[j + 1];
      }
    }
  }

  /** After the walk `match_chars` is the initial bound while at most one
      name matched, and the longest common prefix of the matches otherwise. */
  lemma {:induction false} PrepareCommonPrefix(keys: seq<string>, input: string)
    requires Names(keys)
    ensures var m := Matches(keys, input);
      && (|m| <= 1 ==> Prepare(keys, input).matchChars == MatchCharsInit)
      && (|m| >= 2 ==> CommonPrefixOf(m, Prepare(keys, input).matchChars, input))
    decreases |keys|, 1
  {
    if |keys| > 0 {
      if IsPrefix(input, keys[|keys| - 1]) {
        PrepareCommonPrefixMatch(keys, input);
      } else {
        PrepareCommonPrefixSkip(keys, input);
      }
    }
  }

  /** A last name that does not match changes neither the matches nor the
      count. */
  lemma {:induction false} PrepareCommonPrefixSkip(keys: seq<string>, input: string)
    requires Names(keys) && |keys| > 0 && !IsPrefix(input, keys[|keys| - 1])
    ensures var m := Matches(keys, input);
      && (|m| <= 1 ==> Prepare(keys, input).matchChars == MatchCharsInit)
      && (|m| >= 2 ==> CommonPrefixOf(m, Prepare(keys, input).matchChars, input))
    decreases |keys|, 0
  {
    var keys' := keys[..|keys| - 1];
    assert Names(keys');
    PrepareCommonPrefix(keys', input);
    assert Matches(keys, input) == Matches(keys', input);
    assert Prepare(keys, input).matchChars == Prepare(keys', input).matchChars;
  }

  /** A last name that matches is compared with the match before it. */
  lemma {:induction false} PrepareCommonPrefixMatch(keys: seq<string>, input: string)
    requires Names(keys) && |keys| > 0 && IsPrefix(input, keys[|keys| - 1])
    ensures var m := Matches(keys, input);
      && (|m| <= 1 ==> Prepare(keys, input).matchChars == MatchCharsInit)
      && (|m| >= 2 ==> CommonPrefixOf(m, Prepare(keys, input).matchChars, input))
    decreases |keys|, 0
  {
    var keys' := keys[..|keys| - 1];
    var k := keys[|keys| - 1];
    assert Names(keys');
    PrepareCommonPrefix(keys', input);
    var m := Matches(keys', input);
    var s := Prepare(keys', input);
    assert Matches(keys, input) == m + [k];
    assert Prepare(keys, input) == PrepareStep(s, k, input);
    if |m| >= 1 {
      StepAfterMatch(keys, input);
      assert s.found.Some? && s.found.value == m[|m| - 1];
      PrepareStepChars(m, s, k, input);
    }
  }

  /** The name walked last differs from the last earlier match, and neither
      holds a NUL. */
  lemma StepAfterMatch(keys: seq<string>, input: string)
    requires Names(keys) && |keys| > 0
    requires |Matches(keys[..|keys| - 1], input)| >= 1
    ensures var m := Matches(keys[..|keys| - 1], input);
      && keys[|keys| - 1] != m[|m| - 1]
      && '\0' !in keys[|keys| - 1] && '\0' !in m[|m| - 1]
  {
    var keys' := keys[..|keys| - 1];
    var m := Matches(keys', input);
    var last := m[|m| - 1];
    assert last in keys';
    var i :| 0 <= i < |keys'| && keys'[i] == last;
    assert keys[i] == last;
  }

  /** The Tab branch: one match replaces the line; with several, the line
      becomes the first `match_chars` characters of the last match when
      that count is not zero; otherwise the line is kept. */
  function Complete(line: string, keys: seq<string>): (r: string)
    ensures r == line || exists i :: 0 <= i < |keys| && |r| <= |keys[i]|
  {
    var s := Prepare(keys, line);
    if s.matchNum == 1 then s.found.value
    else if s.matchNum > 1 && s.matchChars > 0 then
      var m := s.found.value;
      // `match_chars` never exceeds the length of a match (PrepareCommonPrefix)
      if s.matchChars <= |m| then m[..s.matchChars] else m
    else line
  }

  /** Tab never takes typed characters away, every match still starts with
      the new line, and with several matches nothing longer is common to all
      of them. */
  lemma CompleteExtends(line: string, keys: seq<string>)
    requires Names(keys) && |line| <= MatchCharsInit
    ensures var r := Complete(line, keys);
      var m := Matches(keys, line);
      && IsPrefix(line, r)
      && (forall i :: 0 <= i < |m| ==> IsPrefix(r, m[i]))
      && (|m| == 0 ==> r == line)
      && (|m| == 1 ==> r == m[0])
      && (|m| >= 2 ==> |r| == MatchCharsInit || exists j :: 0 <= j < |m| - 1 && Lcp(m[j], m[j + 1]) == |r|)
  {
    var m := Matches(keys, line);
    if |m| >= 2 {
      CompleteSeveral(line, keys);
    } else if |m| == 1 {
      CompleteOne(line, keys);
    } else {
      CompleteNone(line, keys);
    }
  }

  /** Tab with one match: the line becomes that name. */
  lemma CompleteOne(line: string, keys: seq<string>)
    requires Names(keys) && |line| <= MatchCharsInit && |Matches(keys, line)| == 1
    ensures var r := Complete(line, keys);
      var m := Matches(keys, line);
      && r == m[0] && IsPrefix(line, r) && IsPrefix(r, m[0])
  {
    var r := Complete(line, keys);
    assert r == Matches(keys, line)[0] && r[..|r|] == r;
  }

  /** Tab without a match keeps the line. */
  lemma CompleteNone(line: string, keys: seq<string>)
    requires Names(keys) && |line| <= MatchCharsInit && |Matches(keys, line)| == 0
    ensures Complete(line, keys) == line
  {
  }

  /** Tab with several matches: the line becomes their common prefix. */
  lemma CompleteSeveral(line: string, keys: seq<string>)
    requires Names(keys) && |line| <= MatchCharsInit && |Matches(keys, line)| >= 2
    ensures var r := Complete(line, keys);
      var m := Matches(keys, line);
      && IsPrefix(line, r)
      && (forall i :: 0 <= i < |m| ==> IsPrefix(r, m[i]))
      && (|r| == MatchCharsInit || exists j :: 0 <= j < |m| - 1 && Lcp(m[j], m[j + 1]) == |r|)
  {
    var m := Matches(keys, line);
    var s := Prepare(keys, line);
    var r := Complete(line, keys);
    PrepareCommonPrefix(keys, line);
    var last := m[|m| - 1];
    var mc := s.matchChars;
    assert CommonPrefixOf(m, mc, line);
    assert mc <= |last| && last[..mc] == m[0][..mc];
    if mc > 0 {
      assert r == last[..mc];
      forall i | 0 <= i < |m|
        ensures IsPrefix(r, m[i])
      {
        assert m[i][..mc] == m[0][..mc];
      }
      assert line == last[..|line|];
      assert r[..|line|] == last[..mc][..|line|];
    } else {
      assert r == line && |line| == 0;
    }
  }

  /** `terminal_width` when the terminal does not report one. */
  const DefaultWidth: nat := 80

  /** `clios_terminal_width_get`: the reported column count, or 80 when
      none is reported. */
  function TerminalWidth(reported: Option<nat>): (w: nat)
    ensures w > 0
    ensures reported.Some? && reported.value > 0 ==> w == reported.value
  {
    if reported.Some? && reported.value != 0 then reported.value else DefaultWidth
  }

  /** A column layout for names of at most `maxLen` characters: as many
      columns of `maxLen + 1` characters as the width holds, or one when
      not even one fits; the width shared out evenly among the columns,
      rounded down; and every column wider than the longest name whenever
      the width allows it. */
  predicate GoodLayout(width: nat, maxLen: nat, mpl: nat, colLen: nat) {
    && mpl >= 1
    && (width <= maxLen ==> mpl == 1)
    && (width > maxLen ==> mpl * (maxLen + 1) <= width < (mpl + 1) * (maxLen + 1))
    && mpl * colLen <= width < mpl * (colLen + 1)
    && (width > maxLen ==> colLen > maxLen)
  }

  /** `matches_per_line` and `match_col_len`: `terminal_width` divided by
      `max_match_len + 1`, raised to one, and the width shared out among
      that many columns. */
  function Layout(width: nat, maxLen: nat): (r: (nat, nat))
    requires width > 0
    ensures GoodLayout(width, maxLen, r.0, r.1)
  {
    var perLine := width / (maxLen + 1);
    var mpl := if perLine == 0 then 1 else perLine;
    LayoutFacts(width, maxLen, mpl);
    (mpl, width / mpl)
  }

  lemma LayoutFacts(width: nat, maxLen: nat, mpl: nat)
    requires width > 0
    requires mpl == (if width / (maxLen + 1) == 0 then 1 else width / (maxLen + 1))
    ensures GoodLayout(width, maxLen, mpl, width / mpl)
  {
    var perLine := width / (maxLen + 1);
    var colLen := width / mpl;
    DivBounds(width, maxLen + 1);
    DivBounds(width, mpl);
    assert mpl * colLen == colLen * mpl && mpl * (colLen + 1) == (colLen + 1) * mpl;
    if width <= maxLen {
      assert perLine * (maxLen + 1) < 1 * (maxLen + 1);
      MulLess(perLine, 1, maxLen + 1);
    } else {
      assert 1 * (maxLen + 1) < (perLine + 1) * (maxLen + 1);
      MulLess(1, perLine + 1, maxLen + 1);
      assert mpl == perLine;
      assert mpl * (maxLen + 1) == perLine * (maxLen + 1);
      assert (mpl + 1) * (maxLen + 1) == (perLine + 1) * (maxLen + 1);
      if mpl == 1 {
        DivUnique(width, 1, width, 0);
      } else {
        assert (maxLen + 1) * mpl < (colLen + 1) * mpl;
        MulLess(maxLen + 1, colLen + 1, mpl);
      }
    }
  }

  /** The layout is pinned down: one width and name length admit only one
      column count and one column width. */
  lemma LayoutUnique(width: nat, maxLen: nat, mpl: nat, colLen: nat, mpl': nat, colLen': nat)
    requires GoodLayout(width, maxLen, mpl, colLen) && GoodLayout(width, maxLen, mpl', colLen')
    ensures mpl == mpl' && colLen == colLen'
  {
    if width > maxLen {
      FloorUnique(width, maxLen + 1, mpl, mpl');
    }
    FloorUniqueLeft(width, mpl, colLen, colLen');
  }

  /** Whether `cli_complete_print` ends a line after the match with index
      `i` of `num`. */
  predicate BreakAfter(i: nat, num: nat, mpl: nat)
    requires mpl >= 1
  {
    i != 0 && i + 1 != num && (i + 1) % mpl == 0
  }

  /** How many line breaks come before the match with index `i`. */
  function LineOf(i: nat, num: nat, mpl: nat): nat
    requires mpl >= 1
  {
    if i == 0 then 0 else LineOf(i - 1, num, mpl) + (if BreakAfter(i - 1, num, mpl) then 1 else 0)
  }

  /** The matches are listed `matches_per_line` to a line, except that with
      one per line the first two share the first line. */
  lemma {:induction false} LineOfMatch(i: nat, num: nat, mpl: nat)
    requires mpl >= 1 && i < num
    ensures LineOf(i, num, mpl) == i / mpl - (if mpl == 1 && i > 0 then 1 else 0)
  {
    if i > 0 {
      LineOfMatch(i - 1, num, mpl);
      DivStep(i - 1, mpl);
      if mpl == 1 {
        assert (i - 1) / 1 == i - 1 && i / 1 == i;
      }
    }
  }

  /** A run of blanks. */
  function Blanks(n: nat): (r: string)
    ensures |r| == n && forall i :: 0 <= i < n ==> r[i] == ' '
  {
    if n == 0 then [] else Blanks(n - 1) + [' ']
  }

  /** The cell of the match `k` with index `i` as the print pass lays it
      out: the name and the line end when the row breaks after it, else the
      name padded with blanks to the column width. */
  predicate IsCell(k: string, i: nat, num: nat, mpl: nat, colLen: nat, c: string)
    requires mpl >= 1
  {
    if BreakAfter(i, num, mpl) then c == k + Crlf
    else
      && IsPrefix(k, c)
      && |c| == (if colLen > |k| then colLen else |k|)
      && forall j :: |k| <= j < |c| ==> c[j] == ' '
  }

  /** What `cli_complete_print` writes for the match with index `i`: the
      name, then a line end or blanks up to the column width. */
  function PrintCell(k: string, i: nat, num: nat, mpl: nat, colLen: nat): (r: string)
    requires mpl >= 1
    ensures IsPrefix(k, r)
    ensures !BreakAfter(i, num, mpl) ==> |r| == (if colLen > |k| then colLen else |k|)
    ensures !BreakAfter(i, num, mpl) ==> forall j :: |k| <= j < |r| ==> r[j] == ' '
    ensures BreakAfter(i, num, mpl) ==> r[|k|..] == Crlf
    ensures IsCell(k, i, num, mpl, colLen, r)
  {
    if BreakAfter(i, num, mpl) then k + Crlf
    else k + Blanks(if colLen > |k| then colLen - |k| else 0)
  }

  /** The second walk: every match, in walk order, with its cell. */
  function PrintMatches(m: seq<string>, mpl: nat, colLen: nat): (r: seq<string>)
    requires mpl >= 1
    ensures |r| == |m|
    ensures forall i :: 0 <= i < |m| ==> IsPrefix(m[i], r[i])
    ensures forall i :: 0 <= i < |m| ==> IsCell(m[i], i, |m|, mpl, colLen, r[i])
  {
    seq(|m|, i requires 0 <= i < |m| => PrintCell(m[i], i, |m|, mpl, colLen))
  }

  /** How many of the first `i` printed cells end their row. */
  function RowEnds(m: seq<string>, r: seq<string>, i: nat): nat
    requires i <= |m| && |r| == |m|
  {
    if i == 0 then 0 else RowEnds(m, r, i - 1) + (if r[i - 1] == m[i - 1] + Crlf then 1 else 0)
  }

  /** A padded cell never ends in the line end. */
  lemma PaddedIsNoRowEnd(k: string, c: string)
    requires IsPrefix(k, c) && forall j :: |k| <= j < |c| ==> c[j] == ' '
    ensures c != k + Crlf
  {
    if c == k + Crlf {
      assert c[|k|] == '\r';
    }
  }

  /** The printed list has its line ends where the rows break: before the
      match with index `i` stand exactly `i / matches_per_line` line ends,
      one fewer with one match per row, so matches are printed
      `matches_per_line` to a row. */
  lemma {:induction false} PrintedRows(m: seq<string>, mpl: nat, colLen: nat, i: nat)
    requires mpl >= 1 && i < |m|
    ensures RowEnds(m, PrintMatches(m, mpl, colLen), i) == i / mpl - (if mpl == 1 && i > 0 then 1 else 0)
  {
    PrintedRowsLineOf(m, mpl, colLen, i);
    LineOfMatch(i, |m|, mpl);
  }

  lemma {:induction false} PrintedRowsLineOf(m: seq<string>, mpl: nat, colLen: nat, i: nat)
    requires mpl >= 1 && i <= |m|
    ensures RowEnds(m, PrintMatches(m, mpl, colLen), i) == LineOf(i, |m|, mpl)
  {
    if i > 0 {
      var r := PrintMatches(m, mpl, colLen);
      PrintedRowsLineOf(m, mpl, colLen, i - 1);
      assert IsCell(m[i - 1], i - 1, |m|, mpl, colLen, r[i - 1]);
      if !BreakAfter(i - 1, |m|, mpl) {
        PaddedIsNoRowEnd(m[i - 1], r[i - 1]);
      }
    }
  }
}
