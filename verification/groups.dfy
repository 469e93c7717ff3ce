/** Group classification of commands (`cli_core_user_group_init`,
    `user_group_mask_get`): a command is put into a group by an explicit mask,
    or else by the longest entry of a (search key, group number) table that
    is a prefix of its long name, or else into the misc group. */
module Groups {
  import opened CStrings

  /** At most this many groups can be counted; a list reaching it is refused. */
  const MaxUserGroups: nat := 15
  /** `CLI_USER_MASK_ALL`: the bits a caller may request. */
  const UserMaskAll: bv32 := 0x0000_FFFF
  /** `CLI_USER_MASK_MISC`. */
  const UserMaskMisc: bv32 := 0x0000_8000
  /** Internal mask bits: detailed help, long form, short form, built-in. */
  const MaskDetailed: bv32 := 0x0008_0000
  const MaskLong: bv32 := 0x0004_0000
  const MaskShort: bv32 := 0x0002_0000
  const MaskBuiltin: bv32 := 0x8000_0000

  /** The mask marks a built-in command. */
  predicate Builtin(mask: bv32) {
    mask & MaskBuiltin != 0
  }

  type Byte = x: int | 0 <= x < 256

  /** `struct cli_group_key_entry_s`: a search key compared with long names
      and the number of the group it selects. */
  datatype KeyEntry = KeyEntry(searchKey: string, groupNum: Byte)

  /** `struct cli_group_s`, without the two fixed description strings. */
  datatype GroupCfg = GroupCfg(
    names: seq<string>,
    entries: seq<KeyEntry>,
    regMask: bv32,
    notRegMask: bv32)

  const NoGroups := GroupCfg([], [], 0, 0)

  /** The mask bit of group `n`. */
  function GroupBit(n: nat): bv32
    requires n < MaxUserGroups
  {
    1 as bv32 << n
  }

  /** The mask of the first `n` groups. */
  function LowBits(n: nat): bv32
    requires n <= MaxUserGroups
  {
    (1 as bv32 << n) - 1
  }

  /** A group bit is a single user bit other than the misc bit, and it lies
      in the mask of every longer group list. */
  lemma GroupBitInRange(n: nat, m: nat)
    requires n < m <= MaxUserGroups
    ensures GroupBit(n) != 0 && GroupBit(n) & !UserMaskAll == 0 && GroupBit(n) & UserMaskMisc == 0
    ensures GroupBit(n) & !LowBits(m) == 0
  {
  }

  /** What every configuration `GroupInit` produces satisfies, and what the
      group lookup relies on to keep its shift in range. */
  predicate WellFormed(g: GroupCfg) {
    && |g.names| < MaxUserGroups
    && (forall e :: e in g.entries ==> e.groupNum < |g.names|)
    && g.regMask == LowBits(|g.names|)
  }

  /** The quick first-character check, the length check and `strncmp` of
      the group lookup: an entry matches a long name it is a prefix of, and
      an empty search key only matches an empty name. */
  predicate EntryMatches(e: KeyEntry, longName: string) {
    && CharAt(longName, 0) == CharAt(e.searchKey, 0)
    && IsPrefix(e.searchKey, longName)
  }

  /** For a non-empty search key the match is plain prefix matching. */
  lemma EntryMatchesNonEmpty(e: KeyEntry, longName: string)
    requires |e.searchKey| > 0
    ensures EntryMatches(e, longName) <==> IsPrefix(e.searchKey, longName)
  {
    if IsPrefix(e.searchKey, longName) {
      assert longName[0] == longName[..|e.searchKey|][0];
    }
  }

  /** The loop of `user_group_mask_get` over the first `n` entries: the
      first match is kept until a strictly longer search key matches. */
  function BestMatch(entries: seq<KeyEntry>, longName: string, n: nat): (r: Option<nat>)
    requires n <= |entries|
    ensures r.None? <==> forall j :: 0 <= j < n ==> !EntryMatches(entries[j], longName)
    ensures r.Some? ==> r.value < n && EntryMatches(entries[r.value], longName)
    ensures r.Some? ==> forall j :: 0 <= j < n && EntryMatches(entries[j], longName) ==>
      |entries[j].searchKey| <= |entries[r.value].searchKey|
    ensures r.Some? ==> forall j :: 0 <= j < r.value && EntryMatches(entries[j], longName) ==>
      |entries[j].searchKey| < |entries[r.value].searchKey|
  {
    if n == 0 then None
    else
      var best := BestMatch(entries, longName, n - 1);
      if !EntryMatches(entries[n - 1], longName) then best
      else if best.None? then Some(n - 1)
      else if |entries[n - 1].searchKey| > |entries[best.value].searchKey| then Some(n - 1)
      else best
  }

  /** The table lookup of `user_group_mask_get`: the bit of the group of the
      best matching search key, or the misc bit when none matches. */
  function PrefixGroup(g: GroupCfg, longName: string): (r: bv32)
    requires WellFormed(g)
    ensures r != 0 && r & !UserMaskAll == 0
    ensures r == UserMaskMisc <==> forall j :: 0 <= j < |g.entries| ==> !EntryMatches(g.entries[j], longName)
    ensures r != UserMaskMisc ==> r & !g.regMask == 0
  {
    var best := BestMatch(g.entries, longName, |g.entries|);
    if best.None? then UserMaskMisc
    else
      var num := g.entries[best.value].groupNum;
      assert g.entries[best.value] in g.entries;
      GroupBitInRange(num, |g.names|);
      GroupBit(num)
  }

  /** The requested user bits that name no registered group. */
  function Unregistered(g: GroupCfg, userMask: bv32): bv32 {
    userMask & UserMaskAll & !g.regMask
  }

  /** Bit algebra the group lookup relies on, stated on plain masks. */
  lemma MaskAlgebra(user: bv32, reg: bv32, noted: bv32)
    ensures (user & UserMaskAll & !reg) & !UserMaskAll == 0
    ensures (user & UserMaskAll) & !UserMaskAll == 0
    ensures user & UserMaskAll == 0 ==> user & UserMaskAll & !reg == 0
    ensures (noted | (user & UserMaskAll & !reg)) & reg == noted & reg
  {
  }

  /** `user_group_mask_get`, its result: explicitly requested bits that name
      no registered group are returned as they are; other explicit bits are
      returned as requested; without explicit bits the prefix table decides. */
  function GroupMask(g: GroupCfg, userMask: bv32, longName: string): (r: bv32)
    requires WellFormed(g)
    ensures r != 0 && r & !UserMaskAll == 0
    ensures Unregistered(g, userMask) != 0 ==> r == Unregistered(g, userMask)
    ensures Unregistered(g, userMask) == 0 && userMask & UserMaskAll != 0 ==> r == userMask & UserMaskAll
    ensures userMask & UserMaskAll == 0 ==>
      (r == UserMaskMisc <==> forall j :: 0 <= j < |g.entries| ==> !EntryMatches(g.entries[j], longName))
  {
    MaskAlgebra(userMask, g.regMask, g.notRegMask);
    var explicit := userMask & UserMaskAll;
    if Unregistered(g, userMask) != 0 then Unregistered(g, userMask)
    else if explicit != 0 then explicit
    else PrefixGroup(g, longName)
  }

  /** Unless a command ends up in the misc group, or was explicitly put into
      unregistered groups, its mask only holds registered group bits. */
  lemma GroupMaskRegistered(g: GroupCfg, userMask: bv32, longName: string)
    requires WellFormed(g)
    requires Unregistered(g, userMask) == 0
    ensures GroupMask(g, userMask, longName) != UserMaskMisc ==> GroupMask(g, userMask, longName) & !g.regMask == 0
  {
    if userMask & UserMaskAll == 0 {
      MaskAlgebra(userMask, g.regMask, g.notRegMask);
      assert GroupMask(g, userMask, longName) == PrefixGroup(g, longName);
    }
  }

  /** `user_group_mask_get`, its side effect: requested bits that name no
      registered group are remembered in the not-registered mask. */
  function NoteUnregistered(g: GroupCfg, userMask: bv32): (r: GroupCfg)
    requires WellFormed(g)
    ensures WellFormed(r)
    ensures r.names == g.names && r.entries == g.entries && r.regMask == g.regMask
    ensures r.notRegMask == g.notRegMask | Unregistered(g, userMask)
    ensures r.notRegMask & g.regMask == g.notRegMask & g.regMask
  {
    MaskAlgebra(userMask, g.regMask, g.notRegMask);
    g.(notRegMask := g.notRegMask | Unregistered(g, userMask))
  }

  /** Group selected by the prefix table: the search key that picks it is the
      longest matching one, and the earliest of equally long ones. */
  lemma PrefixGroupIsLongestEarliest(g: GroupCfg, longName: string)
    requires WellFormed(g)
    requires BestMatch(g.entries, longName, |g.entries|).Some?
    ensures
      var b := BestMatch(g.entries, longName, |g.entries|).value;
      GroupMask(g, 0, longName) == GroupBit(g.entries[b].groupNum)
      && (forall j :: 0 <= j < |g.entries| && EntryMatches(g.entries[j], longName) ==>
            |g.entries[j].searchKey| <= |g.entries[b].searchKey|)
      && (forall j :: 0 <= j < b && EntryMatches(g.entries[j], longName) ==>
            |g.entries[j].searchKey| < |g.entries[b].searchKey|)
  {
  }

  /** `cli_core_user_group_init`, given whether the core is still counting
      and whether the two table allocations succeed (`allocOk`): the
      previous configuration is always dropped first; a list of 15 or more
      names, an entry naming a group beyond the list, or a failed allocation
      is refused; without names or without entries nothing gets registered
      and the call succeeds; otherwise the names and entries are registered
      and the first `|names|` group bits become the registered mask. */
  function GroupInit(counting: bool, prev: GroupCfg, names: seq<string>, entries: Option<seq<KeyEntry>>,
                     allocOk: bool): (r: (GroupCfg, bool))
    ensures !counting ==> r == (prev, false)
    ensures counting ==> WellFormed(r.0)
    ensures counting && |names| >= MaxUserGroups ==> r == (NoGroups, false)
    ensures counting && |names| < MaxUserGroups && (|names| == 0 || entries.None? || entries.value == []) ==>
      r == (NoGroups, true)
    ensures counting && 0 < |names| < MaxUserGroups && entries.Some? && entries.value != [] ==>
      && (r.1 <==> allocOk && forall e :: e in entries.value ==> e.groupNum < |names|)
      && (r.1 ==> r.0 == GroupCfg(names, entries.value, LowBits(|names|), 0))
      && (!r.1 ==> r.0 == NoGroups)
  {
    if !counting then (prev, false)
    else if |names| >= MaxUserGroups then (NoGroups, false)
    else if |names| == 0 then (NoGroups, true)
    else if entries.None? then (NoGroups, true)
    else if exists e :: e in entries.value && e.groupNum >= |names| then (NoGroups, false)
    else if |entries.value| == 0 then (NoGroups, true)
    else if !allocOk then (NoGroups, false)
    else (GroupCfg(names, entries.value, LowBits(|names|), 0), true)
  }

  /** After a successful group set-up, a command registered without an
      explicit group lands in the group of the longest (then earliest)
      matching search key of the table, or in the misc group when no key
      matches; a command registered for one listed group stays in it. */
  lemma GroupInitClassifies(prev: GroupCfg, names: seq<string>, es: seq<KeyEntry>, longName: string, n: nat)
    requires 0 < |names| < MaxUserGroups && GroupInit(true, prev, names, Some(es), true).1
    ensures
      var g := GroupInit(true, prev, names, Some(es), true).0;
      var b := BestMatch(es, longName, |es|);
      && GroupMask(g, 0, longName) == (if b.None? then UserMaskMisc else GroupBit(es[b.value].groupNum))
      && (n < |names| ==> GroupMask(g, GroupBit(n), longName) == GroupBit(n))
  {
    var g := GroupInit(true, prev, names, Some(es), true).0;
    MaskAlgebra(0, g.regMask, g.notRegMask);
    if es != [] {
      TableClassifies(g, longName);
    }
    if n < |names| {
      ExplicitGroupKept(g, n, longName);
    }
  }

  /** Without explicit bits a command gets the group of its best matching
      search key, or the misc group. */
  lemma TableClassifies(g: GroupCfg, longName: string)
    requires WellFormed(g)
    ensures
      var b := BestMatch(g.entries, longName, |g.entries|);
      GroupMask(g, 0, longName) == (if b.None? then UserMaskMisc else GroupBit(g.entries[b.value].groupNum))
  {
    MaskAlgebra(0, g.regMask, g.notRegMask);
    assert GroupMask(g, 0, longName) == PrefixGroup(g, longName);
  }

  /** A single group bit, registered or not, is returned as requested. */
  lemma ExplicitGroupKept(g: GroupCfg, n: nat, longName: string)
    requires WellFormed(g) && n < MaxUserGroups
    ensures GroupMask(g, GroupBit(n), longName) == GroupBit(n)
  {
    GroupBitInRange(n, MaxUserGroups);
    assert GroupBit(n) & UserMaskAll == GroupBit(n);
    if Unregistered(g, GroupBit(n)) != 0 {
      assert Unregistered(g, GroupBit(n)) == GroupBit(n) & !g.regMask;
      assert GroupBit(n) & !g.regMask == GroupBit(n) by {
        assert g.regMask == LowBits(|g.names|);
        if n < |g.names| {
          GroupBitInRange(n, |g.names|);
        } else {
          assert (1 as bv32 << n) & ((1 as bv32 << |g.names|) - 1) == 0;
        }
      }
    }
  }
}
