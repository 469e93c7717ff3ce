/** The text handling of the dispatcher (`cmd_parse_execute`): blanks are
    collapsed, the reserved `CLI` prefix is dropped, the line is split at
    its first blank into command word and argument tail, and the word is
    looked up in the command tree. Also the help-flag test
    `cmd_check_help`. All of it works on the line in place in the source;
    here each step maps a string to a string. */
module Dispatch {
  import opened CStrings
  import opened CmdTree
  import opened Groups
  import opened Registry

  /** The characters other than blanks, in order. */
  function NonBlanks(s: string): (r: string)
    ensures |r| <= |s|
    ensures forall i :: 0 <= i < |r| ==> !IsSpace(r[i])
  {
    if |s| == 0 then []
    else (if IsSpace(s[0]) then [] else [s[0]]) + NonBlanks(s[1..])
  }

  lemma NonBlanksCons(c: char, s: string)
    ensures NonBlanks([c] + s) == (if IsSpace(c) then [] else [c]) + NonBlanks(s)
  {
    assert ([c] + s)[0] == c && ([c] + s)[1..] == s;
  }

  /** No two blanks in a row. */
  predicate NoDoubleBlank(s: string) {
    forall i :: 0 <= i < |s| - 1 ==> !(IsSpace(s[i]) && IsSpace(s[i + 1]))
  }

  /** A line whose blanks are single and inside: what the dispatcher
      expects after collapsing. */
  predicate Normalized(s: string) {
    && (|s| > 0 ==> !IsSpace(s[0]) && !IsSpace(s[|s| - 1]))
    && NoDoubleBlank(s)
  }

  /** The line starts inside a word. */
  predicate StartsWord(s: string) {
    |s| > 0 && !IsSpace(s[0])
  }

  /** The words of a line: its maximal runs of non-blanks, in order. */
  function Words(s: string): (r: seq<string>)
    ensures StartsWord(s) ==> |r| > 0
  {
    if |s| == 0 then []
    else if IsSpace(s[0]) then Words(s[1..])
    else
      var ws := Words(s[1..]);
      if StartsWord(s[1..]) then [[s[0]] + ws[0]] + ws[1..] else [[s[0]]] + ws
  }

  /** A blank in front adds no word; a non-blank in front starts a new word
      or joins the word the rest starts with. */
  lemma WordsCons(c: char, t: string)
    ensures Words([c] + t) ==
      if IsSpace(c) then Words(t)
      else if StartsWord(t) then [[c] + Words(t)[0]] + Words(t)[1..]
      else [[c]] + Words(t)
  {
    assert ([c] + t)[0] == c && ([c] + t)[1..] == t;
  }

  /** Two tails with the same words, both starting a word or neither, keep
      the same words behind the same character. */
  lemma WordsCongruent(c: char, t: string, u: string)
    requires Words(t) == Words(u) && (StartsWord(t) <==> StartsWord(u))
    ensures Words([c] + t) == Words([c] + u)
  {
    WordsCons(c, t);
    WordsCons(c, u);
  }

  /** The first loop of `remove_whitespaces`: skip the leading blanks. */
  function DropLeading(s: string): (r: string)
    ensures |r| <= |s| && r == s[|s| - |r|..]
    ensures |r| > 0 ==> !IsSpace(r[0])
    ensures forall i :: 0 <= i < |s| - |r| ==> IsSpace(s[i])
    ensures NonBlanks(r) == NonBlanks(s)
    ensures Words(r) == Words(s)
  {
    if |s| > 0 && IsSpace(s[0]) then
      NonBlanksCons(s[0], s[1..]);
      assert s == [s[0]] + s[1..];
      DropLeading(s[1..])
    else s
  }

  /** The second loop of `remove_whitespaces` as written: the first blank of
      a run is kept unless it is the last character of the line, the others
      are skipped. `inRun` is the source's counter `i` being nonzero. */
  function CollapseAsWritten(s: string, inRun: bool): (r: string)
    ensures inRun && |r| > 0 ==> !IsSpace(r[0])
    ensures NonBlanks(r) == NonBlanks(s)
  {
    if |s| == 0 then []
    else
      NonBlanksCons(s[0], s[1..]);
      assert s == [s[0]] + s[1..];
      if IsSpace(s[0]) then
        if !inRun && |s| > 1 then
          var t := CollapseAsWritten(s[1..], true);
          NonBlanksCons(s[0], t);
          [s[0]] + t
        else CollapseAsWritten(s[1..], inRun)
      else
        var t := CollapseAsWritten(s[1..], false);
        NonBlanksCons(s[0], t);
        [s[0]] + t
  }

  /** `remove_whitespaces` as written. */
  function RemoveWhitespacesAsWritten(s: string): (r: string)
    ensures |r| > 0 ==> !IsSpace(r[0])
    ensures NoDoubleBlank(r)
    ensures NonBlanks(r) == NonBlanks(s)
    ensures Words(r) == Words(s)
  {
    CollapseAsWrittenNoDoubleBlank(DropLeading(s), false);
    CollapseAsWrittenWords(DropLeading(s), false);
    CollapseAsWritten(DropLeading(s), false)
  }

  /** Outside a run, the collapse as written starts inside a word exactly
      when its input does. */
  lemma CollapseAsWrittenStarts(s: string)
    ensures StartsWord(CollapseAsWritten(s, false)) <==> StartsWord(s)
  {
  }

  /** The collapse as written keeps the words of the line: it drops blanks
      only. */
  lemma {:induction false} CollapseAsWrittenWords(s: string, inRun: bool)
    ensures Words(CollapseAsWritten(s, inRun)) == Words(s)
    decreases |s|
  {
    if |s| > 0 {
      var c := s[0];
      assert s == [c] + s[1..];
      WordsCons(c, s[1..]);
      if IsSpace(c) {
        if !inRun && |s| > 1 {
          CollapseAsWrittenWords(s[1..], true);
          WordsCons(c, CollapseAsWritten(s[1..], true));
        } else {
          CollapseAsWrittenWords(s[1..], inRun);
        }
      } else {
        CollapseAsWrittenWords(s[1..], false);
        CollapseAsWrittenStarts(s[1..]);
        WordsCongruent(c, CollapseAsWritten(s[1..], false), s[1..]);
      }
    }
  }

  /** The collapse as written keeps only the first blank of a run. */
  lemma {:induction false} CollapseAsWrittenNoDoubleBlank(s: string, inRun: bool)
    ensures NoDoubleBlank(CollapseAsWritten(s, inRun))
    decreases |s|
  {
    if |s| > 0 {
      if IsSpace(s[0]) {
        if !inRun && |s| > 1 {
          CollapseAsWrittenNoDoubleBlank(s[1..], true);
          NoDoubleBlankCons(s[0], CollapseAsWritten(s[1..], true));
        } else {
          CollapseAsWrittenNoDoubleBlank(s[1..], inRun);
        }
      } else {
        CollapseAsWrittenNoDoubleBlank(s[1..], false);
        NoDoubleBlankCons(s[0], CollapseAsWritten(s[1..], false));
      }
    }
  }

  /** A word followed by a run of two blanks at the end of the line keeps
      one blank behind it. */
  lemma RemoveWhitespacesAsWrittenKeepsTrailingBlank(w: string)
    requires |w| > 0 && NoSpace(w)
    ensures RemoveWhitespacesAsWritten(w + "  ") == w + " "
    ensures !Normalized(RemoveWhitespacesAsWritten(w + "  "))
  {
    assert DropLeading(w + "  ") == w + "  " by {
      assert (w + "  ")[0] == w[0];
    }
    WordThenTwoBlanks(w);
    assert (w + " ")[|w|] == ' ';
  }

  /** The collapse as written turns a word and two blanks into the word and
      one blank. */
  lemma {:induction false} WordThenTwoBlanks(w: string)
    requires NoSpace(w)
    ensures CollapseAsWritten(w + "  ", false) == w + " "
    decreases |w|
  {
    if |w| == 0 {
      assert w + "  " == "  ";
      assert "  "[1..] == " " && " "[1..] == [];
      assert CollapseAsWritten(" ", true) == [];
    } else {
      assert w + "  " == [w[0]] + (w[1..] + "  ");
      CollapseAsWrittenChar(w[0], w[1..] + "  ");
      WordThenTwoBlanks(w[1..]);
      assert w + " " == [w[0]] + (w[1..] + " ");
    }
  }

  /** A non-blank in front of the line is copied by the collapse as written. */
  lemma CollapseAsWrittenChar(c: char, t: string)
    requires !IsSpace(c)
    ensures CollapseAsWritten([c] + t, false) == [c] + CollapseAsWritten(t, false)
  {
    assert ([c] + t)[1..] == t;
  }

  /** Putting a character in front keeps blanks single when the character
      is no blank or the rest does not start with one. */
  lemma NoDoubleBlankCons(c: char, t: string)
    requires NoDoubleBlank(t)
    requires IsSpace(c) && |t| > 0 ==> !IsSpace(t[0])
    ensures NoDoubleBlank([c] + t)
  {
    var u := [c] + t;
    forall i | 0 <= i < |u| - 1
      ensures !(IsSpace(u[i]) && IsSpace(u[i + 1]))
    {
      if i > 0 {
        assert u[i] == t[i - 1] && u[i + 1] == t[i];
      }
    }
  }

  /** The corrected second loop: a blank is held back and written only when
      a non-blank follows it, so runs inside the line become their first
      blank and runs at the end disappear. */
  function Collapse(s: string, pending: Option<char>): (r: string)
    requires pending.Some? ==> IsSpace(pending.value)
    ensures pending.None? && |s| > 0 && !IsSpace(s[0]) ==> |r| > 0 && r[0] == s[0]
    ensures |r| > 0 ==> !IsSpace(r[|r| - 1])
  {
    if |s| == 0 then []
    else if IsSpace(s[0]) then
      Collapse(s[1..], if pending.None? then Some(s[0]) else pending)
    else
      var t := Collapse(s[1..], None);
      if pending.Some? then [pending.value] + ([s[0]] + t)
      else [s[0]] + t
  }

  /** The corrected collapse never leaves two blanks in a row. */
  lemma {:induction false} CollapseNoDoubleBlank(s: string, pending: Option<char>)
    requires pending.Some? ==> IsSpace(pending.value)
    ensures NoDoubleBlank(Collapse(s, pending))
    decreases |s|
  {
    if |s| > 0 {
      if IsSpace(s[0]) {
        CollapseNoDoubleBlank(s[1..], if pending.None? then Some(s[0]) else pending);
      } else {
        var t := Collapse(s[1..], None);
        CollapseNoDoubleBlank(s[1..], None);
        NoDoubleBlankCons(s[0], t);
        if pending.Some? {
          NoDoubleBlankCons(pending.value, [s[0]] + t);
        }
      }
    }
  }

  /** The corrected collapse keeps the non-blank characters in their order. */
  lemma {:induction false} CollapseNonBlanks(s: string, pending: Option<char>)
    requires pending.Some? ==> IsSpace(pending.value)
    ensures NonBlanks(Collapse(s, pending)) == NonBlanks(s)
    decreases |s|
  {
    if |s| > 0 {
      NonBlanksCons(s[0], s[1..]);
      assert s == [s[0]] + s[1..];
      if IsSpace(s[0]) {
        CollapseNonBlanks(s[1..], if pending.None? then Some(s[0]) else pending);
      } else {
        var t := Collapse(s[1..], None);
        CollapseNonBlanks(s[1..], None);
        NonBlanksCons(s[0], t);
        if pending.Some? {
          NonBlanksCons(pending.value, [s[0]] + t);
        }
      }
    }
  }

  /** A held-back blank is the first character of whatever the corrected
      collapse writes. */
  lemma {:induction false} CollapsePendingFirst(s: string, pending: Option<char>)
    requires pending.Some? && IsSpace(pending.value)
    ensures !StartsWord(Collapse(s, pending))
    decreases |s|
  {
    if |s| > 0 && IsSpace(s[0]) {
      CollapsePendingFirst(s[1..], pending);
    }
  }

  /** The corrected collapse keeps the words of the line, and starts inside
      a word exactly when its input does. */
  lemma {:induction false} CollapseWords(s: string, pending: Option<char>)
    requires pending.Some? ==> IsSpace(pending.value)
    ensures Words(Collapse(s, pending)) == Words(s)
    ensures pending.None? ==> (StartsWord(Collapse(s, pending)) <==> StartsWord(s))
    decreases |s|
  {
    if |s| > 0 {
      var c := s[0];
      assert s == [c] + s[1..];
      WordsCons(c, s[1..]);
      if IsSpace(c) {
        var p := if pending.None? then Some(c) else pending;
        CollapseWords(s[1..], p);
        CollapsePendingFirst(s[1..], p);
      } else {
        var t := Collapse(s[1..], None);
        CollapseWords(s[1..], None);
        WordsCongruent(c, t, s[1..]);
        if pending.Some? {
          WordsCons(pending.value, [c] + t);
        }
      }
    }
  }

  /** `remove_whitespaces`, corrected: leading and trailing blanks go, runs
      inside the line shrink to one blank, and the words stay as they were,
      in their order. */
  function RemoveWhitespaces(s: string): (r: string)
    ensures Normalized(r)
    ensures NonBlanks(r) == NonBlanks(s)
    ensures Words(r) == Words(s)
  {
    CollapseNonBlanks(DropLeading(s), None);
    CollapseNoDoubleBlank(DropLeading(s), None);
    CollapseWords(DropLeading(s), None);
    Collapse(DropLeading(s), None)
  }

  /** The corrected collapse leaves a collapsed line alone. */
  lemma {:induction false} CollapseNormalized(s: string)
    requires Normalized(s)
    ensures Collapse(s, None) == s
    decreases |s|, 1
  {
    if |s| > 1 {
      if IsSpace(s[1]) {
        CollapseNormalizedBlank(s);
      } else {
        CollapseNormalizedChar(s);
      }
    }
  }

  /** One step of the corrected collapse on a leading blank. */
  lemma CollapseBlankHead(s: string, pending: Option<char>)
    requires |s| > 0 && IsSpace(s[0]) && (pending.Some? ==> IsSpace(pending.value))
    ensures Collapse(s, pending) == Collapse(s[1..], if pending.None? then Some(s[0]) else pending)
  {
  }

  /** One step of the corrected collapse on a leading non-blank. */
  lemma CollapseCharHead(s: string, pending: Option<char>)
    requires |s| > 0 && !IsSpace(s[0]) && (pending.Some? ==> IsSpace(pending.value))
    ensures Collapse(s, pending) == (if pending.Some? then [pending.value] else []) + ([s[0]] + Collapse(s[1..], None))
  {
  }

  /** A single blank inside a collapsed line is held back and written
      before the character after it. */
  lemma {:induction false} CollapseNormalizedBlank(s: string)
    requires Normalized(s) && |s| > 1 && IsSpace(s[1])
    ensures Collapse(s, None) == s
    decreases |s|, 0
  {
    var u := s[2..];
    NormalizedAfterBlank(s, 2);
    CollapseNormalized(u);
    var v := Collapse(u[1..], None);
    CollapseCharHead(u, None);
    assert [u[0]] + v == u;
    CollapseCharHead(u, Some(s[1]));
    assert Collapse(u, Some(s[1])) == [s[1]] + u;
    CollapseBlankHead(s[1..], None);
    assert s[1..][1..] == u;
    assert Collapse(s[1..], None) == [s[1]] + u;
    CollapseCharHead(s, None);
    assert s == [s[0]] + ([s[1]] + u);
  }

  lemma {:induction false} CollapseNormalizedChar(s: string)
    requires Normalized(s) && |s| > 1 && !IsSpace(s[1])
    ensures Collapse(s, None) == s
    decreases |s|, 0
  {
    assert Normalized(s[1..]);
    CollapseNormalized(s[1..]);
    assert s == [s[0]] + s[1..];
  }

  /** A line is left unchanged by the corrected collapsing exactly when it
      is already collapsed; collapsing twice is collapsing once. */
  lemma RemoveWhitespacesFixpoint(s: string)
    ensures RemoveWhitespaces(s) == s <==> Normalized(s)
    ensures RemoveWhitespaces(RemoveWhitespaces(s)) == RemoveWhitespaces(s)
  {
    if Normalized(s) {
      assert DropLeading(s) == s;
      CollapseNormalized(s);
    }
    var r := RemoveWhitespaces(s);
    assert DropLeading(r) == r;
    CollapseNormalized(r);
  }

  /** As written and corrected agree on a line that does not end in a
      blank, outside a run of blanks. */
  lemma {:induction false} CollapseAgreesOutside(s: string)
    requires |s| > 0 && !IsSpace(s[|s| - 1])
    ensures CollapseAsWritten(s, false) == Collapse(s, None)
    decreases |s|, 1
  {
    if |s| > 1 {
      if IsSpace(s[0]) {
        OutsideBlank(s);
      } else {
        OutsideChar(s);
      }
    }
  }

  /** The same inside a run of blanks: `pending` on the corrected side is
      the blank the loop as written has already copied. */
  lemma {:induction false} CollapseAgreesInside(s: string, c: char)
    requires |s| > 0 && !IsSpace(s[|s| - 1]) && IsSpace(c)
    ensures [c] + CollapseAsWritten(s, true) == Collapse(s, Some(c))
    decreases |s|, 1
  {
    if |s| > 1 {
      if IsSpace(s[0]) {
        InsideBlank(s, c);
      } else {
        InsideChar(s, c);
      }
    }
  }

  /** A blank that starts a run is copied by the loop as written and held
      back by the corrected one. */
  lemma {:induction false} OutsideBlank(s: string)
    requires |s| > 1 && IsSpace(s[0]) && !IsSpace(s[|s| - 1])
    ensures CollapseAsWritten(s, false) == Collapse(s, None)
    decreases |s|, 0
  {
    var t := s[1..];
    assert s == [s[0]] + t;
    CollapseAgreesInside(t, s[0]);
  }

  lemma {:induction false} OutsideChar(s: string)
    requires |s| > 1 && !IsSpace(s[0]) && !IsSpace(s[|s| - 1])
    ensures CollapseAsWritten(s, false) == Collapse(s, None)
    decreases |s|, 0
  {
    var t := s[1..];
    assert s == [s[0]] + t;
    CollapseAgreesOutside(t);
  }

  /** Further blanks of a run are skipped by both. */
  lemma {:induction false} InsideBlank(s: string, c: char)
    requires |s| > 1 && IsSpace(s[0]) && !IsSpace(s[|s| - 1]) && IsSpace(c)
    ensures [c] + CollapseAsWritten(s, true) == Collapse(s, Some(c))
    decreases |s|, 0
  {
    var t := s[1..];
    assert s == [s[0]] + t;
    CollapseAgreesInside(t, c);
  }

  /** The character that ends a run follows the one blank kept of it. */
  lemma {:induction false} InsideChar(s: string, c: char)
    requires |s| > 1 && !IsSpace(s[0]) && !IsSpace(s[|s| - 1]) && IsSpace(c)
    ensures [c] + CollapseAsWritten(s, true) == Collapse(s, Some(c))
    decreases |s|, 0
  {
    var t := s[1..];
    assert s == [s[0]] + t;
    CollapseAgreesOutside(t);
    assert [c] + ([s[0]] + CollapseAsWritten(t, false)) == [c] + [s[0]] + CollapseAsWritten(t, false);
  }

  lemma RemoveWhitespacesAgree(s: string)
    requires |s| > 0 && !IsSpace(s[|s| - 1])
    ensures RemoveWhitespacesAsWritten(s) == RemoveWhitespaces(s)
  {
    var d := DropLeading(s);
    if |d| > 0 {
      assert d[|d| - 1] == s[|s| - 1];
      CollapseAgreesOutside(d);
    }
  }

  /** The reserved word `cmd_parse_execute` strips, and how many of its
      characters are compared. */
  const ReservedPrefix: string := "CLI_"
  const ReservedLen: nat := 3

  /** Matching the rest of a prefix character by character. */
  lemma PrefixStep(s: string, prefix: string, length: nat, l: nat)
    requires l < length <= |prefix| && |s| > 0
    ensures IsPrefix(prefix[l..length], s) <==> s[0] == prefix[l] && IsPrefix(prefix[l + 1..length], s[1..])
    ensures IsPrefix(s, prefix[l..length]) <==> s[0] == prefix[l] && IsPrefix(s[1..], prefix[l + 1..length])
    ensures s[0] == prefix[l] ==> prefix[..l + 1] + s[1..] == prefix[..l] + s
    ensures IsPrefix(prefix[l..length], s) ==> s[length - l..] == s[1..][length - l - 1..]
  {
    var p := prefix[l..length];
    assert p == [prefix[l]] + prefix[l + 1..length];
    assert s == [s[0]] + s[1..];
    PrefixCons(prefix[l], s[0], prefix[l + 1..length], s[1..]);
    PrefixCons(s[0], prefix[l], s[1..], prefix[l + 1..length]);
    if s[0] == prefix[l] {
      assert prefix[..l + 1] == prefix[..l] + [s[0]];
    }
  }

  /** Two sequences with heads start one another exactly when the heads
      agree and the tails do. */
  lemma PrefixCons(a: char, b: char, p: string, s: string)
    ensures IsPrefix([a] + p, [b] + s) <==> a == b && IsPrefix(p, s)
  {
    if IsPrefix([a] + p, [b] + s) {
      assert ([b] + s)[0] == ([a] + p)[0];
      assert forall i :: 0 <= i < |p| ==> s[i] == ([b] + s)[i + 1] == ([a] + p)[i + 1] == p[i];
    }
    if a == b && IsPrefix(p, s) {
      assert ([b] + s)[..|p| + 1] == [b] + s[..|p|];
    }
  }

  /** The loop of `remove_prefix` as written, after `l` characters of the
      prefix have matched and been held back: on the first mismatch the held
      characters are written back followed by the rest of the line; when the
      line ends first they are lost. */
  function StripAsWritten(s: string, prefix: string, length: nat, l: nat): (r: string)
    requires l <= length <= |prefix|
    ensures r == (if IsPrefix(prefix[l..length], s) then s[length - l..]
                  else if IsPrefix(s, prefix[l..length]) then []
                  else prefix[..l] + s)
    decreases |s|
  {
    if |s| == 0 then []
    else if l < length then
      if s[0] == prefix[l] then
        PrefixStep(s, prefix, length, l);
        StripAsWritten(s[1..], prefix, length, l + 1)
      else
        PrefixStep(s, prefix, length, l);
        assert s == [s[0]] + s[1..];
        prefix[..l] + [s[0]] + s[1..]
    else s
  }

  /** `remove_prefix` as written. */
  function RemovePrefixAsWritten(s: string, prefix: string, length: nat): (r: string)
    requires length <= |prefix|
  {
    StripAsWritten(s, prefix, length, 0)
  }

  /** A line that is a proper beginning of the reserved word is erased. */
  lemma RemovePrefixAsWrittenErasesShortLine()
    ensures RemovePrefixAsWritten("CL", ReservedPrefix, ReservedLen) == ""
    ensures RemovePrefixAsWritten("C", ReservedPrefix, ReservedLen) == ""
  {
    assert ReservedPrefix[0..3] == "CLI";
    assert !IsPrefix("CLI", "CL") && IsPrefix("CL", "CLI");
    assert !IsPrefix("CLI", "C") && IsPrefix("C", "CLI");
  }

  /** The corrected loop: when the line ends while characters are held
      back, they are written back. */
  function Strip(s: string, prefix: string, length: nat, l: nat): (r: string)
    requires l <= length <= |prefix|
    ensures r == (if IsPrefix(prefix[l..length], s) then s[length - l..] else prefix[..l] + s)
    decreases |s|
  {
    if |s| == 0 then (if l < length then prefix[..l] else [])
    else if l < length then
      if s[0] == prefix[l] then
        PrefixStep(s, prefix, length, l);
        Strip(s[1..], prefix, length, l + 1)
      else
        PrefixStep(s, prefix, length, l);
        assert s == [s[0]] + s[1..];
        prefix[..l] + [s[0]] + s[1..]
    else s
  }

  /** `remove_prefix`, corrected: the first `length` characters of the
      prefix are dropped when the line starts with them, and otherwise the
      line is kept whole. */
  function RemovePrefix(s: string, prefix: string, length: nat): (r: string)
    requires length <= |prefix|
    ensures IsPrefix(prefix[..length], s) ==> prefix[..length] + r == s
    ensures !IsPrefix(prefix[..length], s) ==> r == s
  {
    Strip(s, prefix, length, 0)
  }

  /** The two agree except on a line that is a proper beginning of the
      compared part of the prefix. */
  lemma RemovePrefixAgree(s: string, prefix: string, length: nat)
    requires length <= |prefix|
    ensures RemovePrefixAsWritten(s, prefix, length) != RemovePrefix(s, prefix, length)
      <==> 0 < |s| < length && IsPrefix(s, prefix[..length])
  {
    assert prefix[0..length] == prefix[..length];
    if IsPrefix(s, prefix[..length]) && !IsPrefix(prefix[..length], s) {
      assert |s| < length;
    }
  }

  /** The loop of `cmd_parse_execute` that ends the command word at the
      first blank, which it overwrites; the argument tail starts after it. */
  function SplitWord(s: string): (r: (string, string))
    ensures NoSpace(r.0) && |r.0| <= |s| && r.0 == s[..|r.0|]
    ensures |r.0| == |s| ==> r.1 == []
    ensures |r.0| < |s| ==> IsSpace(s[|r.0|]) && r.1 == s[|r.0| + 1..]
  {
    if |s| == 0 then ([], [])
    else if IsSpace(s[0]) then ([], s[1..])
    else
      var w := SplitWord(s[1..]);
      ([s[0]] + w.0, w.1)
  }

  /** The word and the tail put back together with the blank between them
      give the line. */
  lemma SplitWordJoin(s: string)
    ensures |SplitWord(s).0| < |s| ==> s == SplitWord(s).0 + [s[|SplitWord(s).0|]] + SplitWord(s).1
    ensures |SplitWord(s).0| == |s| ==> s == SplitWord(s).0
  {
    var k := |SplitWord(s).0|;
    if k < |s| {
      assert s == s[..k] + [s[k]] + s[k + 1..];
    } else {
      assert s[..k] == s;
    }
  }

  /** What follows a blank in a collapsed line is collapsed too. */
  lemma NormalizedAfterBlank(s: string, k: nat)
    requires Normalized(s) && 0 < k <= |s| && IsSpace(s[k - 1])
    ensures Normalized(s[k..]) && |s[k..]| > 0
  {
    var a := s[k..];
    forall i | 0 <= i < |a| - 1
      ensures !(IsSpace(a[i]) && IsSpace(a[i + 1]))
    {
      assert a[i] == s[k + i] && a[i + 1] == s[k + i + 1];
    }
    assert a[0] == s[k];
    assert a[|a| - 1] == s[|s| - 1];
  }

  /** In a collapsed line the argument tail is collapsed as well, and a
      tail is only split off behind a non-empty word. */
  lemma SplitWordNormalized(s: string)
    requires Normalized(s)
    ensures Normalized(SplitWord(s).1)
    ensures SplitWord(s).1 != [] ==> SplitWord(s).0 != []
  {
    var (w, a) := SplitWord(s);
    if |w| < |s| {
      NormalizedAfterBlank(s, |w| + 1);
    }
  }

  /** The collapsed line with the reserved prefix dropped. */
  function Normalize(line: string): string {
    RemovePrefix(RemoveWhitespaces(line), ReservedPrefix, ReservedLen)
  }

  /** Where a reply of the dispatcher goes: back into the command buffer or
      into the output file. */
  datatype Sink = CmdBuffer | OutFile

  /** What `cmd_parse_execute` does with a line: call a handler (with the
      core context instead of the user data for a built-in command), or
      write a fixed error reply. */
  datatype Outcome =
    | Invoke(fct: Handler, coreCtx: bool, cmd: string, arg: string)
    | Reply(text: string, sink: Sink)

  const UnknownReply: string := "errorcode=-1 (unknown command)" + Crlf
  const NoFctReply: string := "errorcode=-1 (internal error, no function pointer)" + Crlf

  /** The lookup half of `cmd_parse_execute`: the command word is searched
      in the tree and its handler called with the argument tail. A stored
      handler of the other output mode reads as the null function of this
      mode. */
  function Execute(c: CmdCore, cmd: string, arg: string): (r: Outcome)
    ensures r.Invoke? ==> r.cmd == cmd && r.arg == arg && Find(c.tree, cmd).Some?
    ensures r.Invoke? ==> r.coreCtx == Builtin(Find(c.tree, cmd).value.mask)
    ensures r.Reply? && r.text == UnknownReply ==> r.sink == CmdBuffer
  {
    match Find(c.tree, cmd)
    case None => Reply(UnknownReply, CmdBuffer)
    case Some(d) =>
      if HandlerFits(c.outMode, d.fct) then Invoke(d.fct, Builtin(d.mask), cmd, arg)
      else Reply(NoFctReply, if c.outMode == BufferOut then CmdBuffer else OutFile)
  }

  /** On a valid core the handler stored under the word is called exactly
      when the word is registered, and "unknown command" is answered
      otherwise; the null-function reply cannot occur. */
  lemma ExecuteLookup(c: CmdCore, cmd: string, arg: string)
    requires Valid(c)
    ensures Execute(c, cmd, arg).Invoke? <==> cmd in Keys(c.tree)
    ensures Execute(c, cmd, arg) == Reply(UnknownReply, CmdBuffer) <==> cmd !in Keys(c.tree)
    ensures Execute(c, cmd, arg).Invoke? ==> Execute(c, cmd, arg).fct == Find(c.tree, cmd).value.fct
  {
    FindIffPresent(c.tree, cmd);
    if Find(c.tree, cmd).Some? {
      assert (cmd, Find(c.tree, cmd).value) in Entries(c.tree);
    }
  }

  /** The command word and argument tail `cmd_parse_execute` cuts a line
      into. */
  function Command(line: string): (r: (string, string))
    ensures NoSpace(r.0)
  {
    SplitWord(Normalize(line))
  }

  /** `cmd_parse_execute` after its null-buffer check. */
  function ParseExecute(c: CmdCore, line: string): (r: Outcome)
  {
    Execute(c, Command(line).0, Command(line).1)
  }

  /** On a valid core a line is dispatched to the handler of its first word
      exactly when that word is registered, and answered "unknown command"
      otherwise. */
  lemma ParseExecuteLookup(c: CmdCore, line: string)
    requires Valid(c)
    ensures ParseExecute(c, line).Invoke? <==> Command(line).0 in Keys(c.tree)
    ensures ParseExecute(c, line) == Reply(UnknownReply, CmdBuffer) <==> Command(line).0 !in Keys(c.tree)
    ensures ParseExecute(c, line).Invoke? ==>
      && ParseExecute(c, line).cmd == Command(line).0
      && ParseExecute(c, line).arg == Command(line).1
  {
    ExecuteLookup(c, Command(line).0, Command(line).1);
  }

  /** Blanks in front of a line make no difference. */
  lemma ParseExecuteSkipsLeadingBlank(c: CmdCore, b: char, line: string)
    requires IsSpace(b)
    ensures ParseExecute(c, [b] + line) == ParseExecute(c, line)
  {
    assert ([b] + line)[1..] == line;
  }

  /** A command word and its argument tail written as one line. */
  function JoinLine(w: string, a: string): string {
    if a == [] then w else w + " " + a
  }

  /** A word and a collapsed tail make a collapsed line. */
  lemma JoinLineNormalized(w: string, a: string)
    requires |w| > 0 && NoSpace(w) && Normalized(a)
    ensures Normalized(JoinLine(w, a))
  {
    var line := JoinLine(w, a);
    if a != [] {
      forall i | 0 <= i < |line| - 1
        ensures !(IsSpace(line[i]) && IsSpace(line[i + 1]))
      {
        if i + 1 < |w| {
          assert line[i] == w[i] && line[i + 1] == w[i + 1];
        } else if i + 1 == |w| {
          assert line[i] == w[i];
        } else if i == |w| {
          assert line[i + 1] == a[0];
        } else {
          assert line[i] == a[i - |w| - 1] && line[i + 1] == a[i - |w|];
        }
      }
      assert line[0] == w[0];
      assert line[|line| - 1] == a[|a| - 1];
    } else {
      assert line[|line| - 1] == w[|w| - 1];
    }
  }

  /** Splitting a joined line gives back the word and the tail. */
  lemma {:induction false} SplitJoinLine(w: string, a: string)
    requires NoSpace(w) && (a != [] ==> |w| > 0)
    ensures SplitWord(JoinLine(w, a)) == (w, a)
    decreases |w|
  {
    if |w| == 0 {
      assert a == [];
    } else {
      var line := JoinLine(w, a);
      assert line[0] == w[0] && line[1..] == JoinLine(w[1..], a);
      if |w| > 1 || a == [] {
        SplitJoinLine(w[1..], a);
      } else {
        assert JoinLine(w[1..], a) == " " + a;
        assert SplitWord(" " + a) == ([], a);
      }
      assert w == [w[0]] + w[1..];
    }
  }

  /** A blank-free beginning of a joined line is a beginning of its word. */
  lemma JoinLinePrefix(p: string, w: string, a: string)
    requires NoSpace(p) && IsPrefix(p, JoinLine(w, a))
    ensures IsPrefix(p, w)
  {
    var line := JoinLine(w, a);
    if a != [] {
      assert line[|w|] == ' ';
      assert forall i :: 0 <= i < |p| ==> p[i] == line[i];
    }
    assert |p| <= |w|;
    assert line[..|p|] == w[..|p|];
  }

  /** A collapsed line whose first word does not start with the reserved
      word is left as it is by the dispatcher's clean-up. */
  lemma NormalizeJoinLine(w: string, a: string)
    requires |w| > 0 && NoSpace(w) && !IsPrefix("CLI", w)
    requires Normalized(a)
    ensures Normalize(JoinLine(w, a)) == JoinLine(w, a)
  {
    var line := JoinLine(w, a);
    JoinLineNormalized(w, a);
    if IsPrefix("CLI", line) {
      JoinLinePrefix("CLI", w, a);
    }
    NormalizeKeeps(line);
  }

  /** A collapsed line that does not start with the reserved word is left
      as it is by the dispatcher's clean-up. */
  lemma NormalizeKeeps(line: string)
    requires Normalized(line) && !IsPrefix("CLI", line)
    ensures Normalize(line) == line
  {
    RemoveWhitespacesFixpoint(line);
    assert ReservedPrefix[..ReservedLen] == "CLI";
  }

  /** A collapsed line whose first word does not start with the reserved
      word is dispatched with that word as the command and the rest as the
      argument tail. */
  lemma ParseExecuteNormalizedLine(c: CmdCore, w: string, a: string)
    requires Valid(c)
    requires |w| > 0 && NoSpace(w) && !IsPrefix("CLI", w)
    requires Normalized(a)
    requires Find(c.tree, w).Some?
    ensures var d := Find(c.tree, w).value;
      ParseExecute(c, JoinLine(w, a)) == Invoke(d.fct, Builtin(d.mask), w, a)
  {
    NormalizeJoinLine(w, a);
    SplitJoinLine(w, a);
    assert Command(JoinLine(w, a)) == (w, a);
    assert ParseExecute(c, JoinLine(w, a)) == Execute(c, w, a);
    FindIffPresent(c.tree, w);
    ExecuteLookup(c, w, a);
  }

  /** The help flags `cmd_check_help` looks for. */
  const HelpTokens: seq<string> := ["-h", "--help", "/h", "-?"]

  /** The token stands alone at the start of the line: it is followed by a
      blank or ends the line. */
  predicate HelpAt(s: string, t: string) {
    IsPrefix(t, s) && (|s| == |t| || IsSpace(s[|t|]))
  }

  /** The loop of `cmd_check_help` from table entry `i` on: the first
      occurrence of each token is searched for; one that is not at the start
      of the line, or is not followed by a blank or the terminator, does not
      count. */
  function CheckHelpFrom(s: string, i: nat): (r: bool)
    requires i <= |HelpTokens|
    requires '\0' !in s
    ensures r <==> exists j :: i <= j < |HelpTokens| && HelpAt(s, HelpTokens[j])
    decreases |HelpTokens| - i
  {
    if i == |HelpTokens| then false
    else
      var t := HelpTokens[i];
      StrStrAtStart(s, t);
      assert HelpAt(s, t) <==> StrStr(s, t) == Some(0) && (IsSpace(CharAt(s, |t|)) || CharAt(s, |t|) == '\0') by {
        if |s| > |t| {
          assert s[|t|] in s;
        }
      }
      match StrStr(s, t)
      case None => CheckHelpFrom(s, i + 1)
      case Some(p) =>
        if p > 0 then CheckHelpFrom(s, i + 1)
        else if IsSpace(CharAt(s, |t|)) || CharAt(s, |t|) == '\0' then true
        else CheckHelpFrom(s, i + 1)
  }

  /** `cmd_check_help`: a null argument is no help request. */
  function CheckHelp(cmd: Option<string>): (r: bool)
    requires cmd.Some? ==> '\0' !in cmd.value
    ensures r <==> cmd.Some? && exists j :: 0 <= j < |HelpTokens| && HelpAt(cmd.value, HelpTokens[j])
  {
    cmd.Some? && CheckHelpFrom(cmd.value, 0)
  }

  /** A flag after the command word, or glued to it, is not a help request;
      a flag alone or in front of further words is. */
  lemma CheckHelpExamples()
    ensures !CheckHelp(Some("cmd -h")) && !CheckHelp(Some("cmd-h"))
    ensures !CheckHelp(Some("-hx"))
    ensures CheckHelp(Some("-h")) && CheckHelp(Some("--help all"))
  {
    assert HelpTokens[0] == "-h" && HelpAt("-h", "-h");
    assert HelpTokens[1] == "--help" && "--help all"[..6] == "--help" && HelpAt("--help all", "--help");
    assert forall j :: 0 <= j < |HelpTokens| ==> HelpTokens[j][0] != 'c';
    assert forall j :: 0 <= j < |HelpTokens| ==> !HelpAt("-hx", HelpTokens[j]) by {
      assert "-hx"[..2] == "-h";
    }
  }
}
