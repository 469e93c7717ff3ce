/** The command history of the console: a ring of `CLI_MAX_OLD_COMMAND`
    earlier lines (`old_command`), the slot the next line goes to (`idx`),
    the slot last written (`prev_idx`) and the slot the arrow keys are on
    (`old_idx`). An empty string is a slot never written. */
module CmdHistory {
  import opened CStrings

  /** `CLI_MAX_OLD_COMMAND`. */
  const MaxOldCommand: nat := 4

  datatype History = History(slots: seq<string>, idx: nat, oldIdx: nat, prevIdx: nat)

  /** Four slots and every index on one of them. */
  predicate Valid(h: History) {
    |h.slots| == MaxOldCommand && h.idx < MaxOldCommand && h.oldIdx < MaxOldCommand && h.prevIdx < MaxOldCommand
  }

  /** The zeroed history of a new console. */
  function Fresh(): (h: History)
    ensures Valid(h)
  {
    History(["", "", "", ""], 0, 0, 0)
  }

  /** What the ring keeps between commands: either nothing has been stored
      yet, or the slot last written holds a line and is the one just before
      `idx`. */
  predicate Linked(h: History) {
    && Valid(h)
    && (h == Fresh() || (h.prevIdx == (h.idx + MaxOldCommand - 1) % MaxOldCommand && h.slots[h.prevIdx] != ""))
  }

  /** The slot before `i` in the ring. */
  function Before(i: nat): (r: nat)
    requires i < MaxOldCommand
    ensures r < MaxOldCommand && (r + 1) % MaxOldCommand == i
  {
    if i > 0 then i - 1 else MaxOldCommand - 1
  }

  /** The slot after `i` in the ring. */
  function After(i: nat): (r: nat)
    requires i < MaxOldCommand
    ensures r < MaxOldCommand && r == (i + 1) % MaxOldCommand
  {
    if i + 1 >= MaxOldCommand then 0 else i + 1
  }

  /** The Up key: step back one slot; a written slot replaces the line,
      an empty one puts `old_idx` back to where it was when the console
      call began (`entry`) and keeps the line. */
  function Up(h: History, line: string, entry: nat): (r: (History, string))
    requires Valid(h) && entry < MaxOldCommand
    ensures Valid(r.0) && r.0.slots == h.slots && r.0.idx == h.idx && r.0.prevIdx == h.prevIdx
    ensures h.slots[Before(h.oldIdx)] != "" ==> r == (h.(oldIdx := Before(h.oldIdx)), h.slots[Before(h.oldIdx)])
    ensures h.slots[Before(h.oldIdx)] == "" ==> r == (h.(oldIdx := entry), line)
  {
    var o := if h.oldIdx > 0 then h.oldIdx - 1 else MaxOldCommand - 1;
    if |h.slots[o]| > 0 then (h.(oldIdx := o), h.slots[o]) else (h.(oldIdx := entry), line)
  }

  /** The Down key: step forward one slot, with the same handling of an
      empty slot. */
  function Down(h: History, line: string, entry: nat): (r: (History, string))
    requires Valid(h) && entry < MaxOldCommand
    ensures Valid(r.0) && r.0.slots == h.slots && r.0.idx == h.idx && r.0.prevIdx == h.prevIdx
    ensures h.slots[After(h.oldIdx)] != "" ==> r == (h.(oldIdx := After(h.oldIdx)), h.slots[After(h.oldIdx)])
    ensures h.slots[After(h.oldIdx)] == "" ==> r == (h.(oldIdx := entry), line)
  {
    var o := h.oldIdx + 1;
    var o' := if o >= MaxOldCommand then 0 else o;
    if |h.slots[o']| > 0 then (h.(oldIdx := o'), h.slots[o']) else (h.(oldIdx := entry), line)
  }

  /** Down takes back an Up that moved, as long as the slot it started
      from is written. */
  lemma UpThenDown(h: History, line: string, entry: nat)
    requires Valid(h) && entry < MaxOldCommand
    requires h.slots[Before(h.oldIdx)] != "" && h.slots[h.oldIdx] != ""
    ensures var (h1, l1) := Up(h, line, entry);
      Down(h1, l1, entry) == (h, h.slots[h.oldIdx])
  {
  }

  /** Storing a submitted line whose command word is `cmdLen` characters
      long: the line goes to slot `idx` unless the slot last written
      already starts with the same `cmdLen` characters; either way the arrow
      keys start again from `idx`. */
  function Store(h: History, line: string, cmdLen: nat): (r: History)
    requires Valid(h)
    ensures Valid(r)
    ensures StrNEq(h.slots[h.prevIdx], line, cmdLen) ==> r == h.(oldIdx := h.idx)
    ensures !StrNEq(h.slots[h.prevIdx], line, cmdLen) ==>
      && r.slots == h.slots[h.idx := line]
      && r.prevIdx == h.idx
      && r.idx == After(h.idx)
      && r.oldIdx == r.idx
  {
    if !StrNEq(h.slots[h.prevIdx], line, cmdLen) then
      var i := h.idx + 1;
      var i' := if i >= MaxOldCommand then 0 else i;
      History(h.slots[h.idx := line], i', i', h.idx)
    else h.(oldIdx := h.idx)
  }

  /** Storing a line that holds a command keeps the ring linked. */
  lemma StoreKeepsLinked(h: History, line: string, cmdLen: nat)
    requires Linked(h) && 0 < cmdLen <= |line|
    ensures Linked(Store(h, line, cmdLen))
  {
    if h == Fresh() {
      assert !StrNEq("", line, cmdLen);
    }
  }

  /** Up right after a command recalls a line that starts with the same
      `cmdLen` characters: the line itself when it was stored, otherwise
      the entry that made the store unnecessary. */
  lemma StoreThenUp(h: History, line: string, cmdLen: nat, current: string, entry: nat)
    requires Linked(h) && 0 < cmdLen <= |line| && entry < MaxOldCommand
    ensures var h1 := Store(h, line, cmdLen);
      var recalled := Up(h1, current, entry).1;
      StrNEq(recalled, line, cmdLen)
    ensures !StrNEq(h.slots[h.prevIdx], line, cmdLen) ==>
      Up(Store(h, line, cmdLen), current, entry).1 == line
  {
    var h1 := Store(h, line, cmdLen);
    if h == Fresh() {
      assert !StrNEq("", line, cmdLen);
    }
    if !StrNEq(h.slots[h.prevIdx], line, cmdLen) {
      assert Before(h1.oldIdx) == h.idx;
      assert h1.slots[h.idx] == line;
    } else {
      assert Before(h1.oldIdx) == h.prevIdx;
    }
  }

  /** The same line submitted twice in a row is stored once. */
  lemma NoRepeatedStore(h: History, line: string, cmdLen: nat)
    requires Valid(h) && 0 < cmdLen <= |line|
    ensures Store(Store(h, line, cmdLen), line, cmdLen).slots == Store(h, line, cmdLen).slots
  {
    var h1 := Store(h, line, cmdLen);
    if !StrNEq(h.slots[h.prevIdx], line, cmdLen) {
      assert h1.slots[h1.prevIdx] == line;
    }
  }
}
