/** The command core (`struct cli_cmd_core_s`) and its life cycle: commands
    are first counted (two tree nodes each), then the node arena is
    armed and every command is registered under its short and its long
    name, then the core is switched active; a shutdown returns it to the
    counting state. Also the clone counter of `cli_core_clone` and
    `cli_core_release`. */
module Registry {
  import opened CStrings
  import opened CmdTree
  import opened Groups

  /** `enum cli_cmd_core_state_e`. */
  datatype CoreState = Count | Allocate | Active | Delete

  /** `enum cli_cmd_core_out_mode_e`: handlers print into a buffer or a file. */
  datatype OutMode = BufferOut | FileOut

  /** `struct cli_cmd_core_s`: `hasArena` stands for a non-null node array;
      the used-node count is kept next to the tree it describes. */
  datatype CmdCore = CmdCore(
    state: CoreState,
    outMode: OutMode,
    nNodes: nat,
    nUsed: nat,
    hasArena: bool,
    tree: Tree)

  /** Why `cmd_core_key_add` reports an error; the source returns the same
      error code for each and only its diagnostics differ. */
  datatype AddError = WrongState | NullName | MissingFct | NoRoom | DuplicateLong

  /** A handler of the shape the core's output mode calls. */
  predicate HandlerFits(m: OutMode, h: Handler) {
    m.BufferOut? <==> h.BufFct?
  }

  /** What holds of every core the operations below produce. */
  predicate Valid(c: CmdCore) {
    && Size(c.tree) == c.nUsed <= c.nNodes
    && Ordered(c.tree) && UniqueKeys(c.tree)
    && (c.state == Count ==> c.tree == Leaf && !c.hasArena)
    && (c.state == Allocate ==> c.hasArena)
    && (c.state == Active ==> c.tree != Leaf)
    && (forall e :: e in Entries(c.tree) ==> HandlerFits(c.outMode, e.1.fct))
  }

  /** `core_init`: a fresh core counts commands. */
  function NewCore(mode: OutMode): (r: CmdCore)
    ensures Valid(r) && r.state == Count && r.outMode == mode
  {
    CmdCore(Count, mode, 0, 0, false, Leaf)
  }

  /** The guard of `cmd_core_key_insert` for taking a node from the arena. */
  predicate Room(c: CmdCore) {
    c.hasArena && c.nUsed < c.nNodes && c.state == Allocate
  }

  /** The handler slot the output mode selects, if the caller filled it. */
  function SelectFct(m: OutMode, bufFct: Option<nat>, fileFct: Option<nat>): (r: Option<Handler>)
    ensures r.Some? ==> HandlerFits(m, r.value)
    ensures r.None? <==> (if m == BufferOut then bufFct.None? else fileFct.None?)
  {
    match m
    case BufferOut => if bufFct.None? then None else Some(BufFct(bufFct.value))
    case FileOut => if fileFct.None? then None else Some(FileFct(fileFct.value))
  }

  /** Inserts a key into the core's tree, taking a node when it succeeds. */
  function InsertKey(c: CmdCore, key: string, data: CmdData): (r: (CmdCore, Status))
    ensures r.0 == c.(tree := Insert(c.tree, key, data, Room(c)).0,
                      nUsed := if r.1 == StatusOk then c.nUsed + 1 else c.nUsed)
    ensures r.1 == Insert(c.tree, key, data, Room(c)).1
  {
    var (t, s) := Insert(c.tree, key, data, Room(c));
    (c.(tree := t, nUsed := if s == StatusOk then c.nUsed + 1 else c.nUsed), s)
  }

  /** `cmd_core_key_add`: in the counting state reserve two nodes; in the
      allocating state insert the short name (help text: the long name) and
      then the long name (LONG bit set, help text: the short name). A short
      name already present is tolerated and keeps its first registration; a
      long name already present is an error, after the short name has
      already been inserted. */
  function KeyAdd(c: CmdCore, mask: bv32, short: Option<string>, long: Option<string>,
                  bufFct: Option<nat>, fileFct: Option<nat>): (r: (CmdCore, Option<AddError>))
    ensures c.state == Count ==> r == (c.(nNodes := c.nNodes + 2), None)
    ensures c.state != Count && c.state != Allocate ==> r == (c, Some(WrongState))
    ensures c.state == Allocate && (short.None? || long.None?) ==> r == (c, Some(NullName))
    ensures c.state == Allocate && short.Some? && long.Some? ==>
      (r.1 == Some(MissingFct) <==> SelectFct(c.outMode, bufFct, fileFct).None?)
    ensures r.0.state == c.state && r.0.outMode == c.outMode && r.0.hasArena == c.hasArena
    ensures c.state != Count ==> r.0.nNodes == c.nNodes
    ensures c.nUsed <= r.0.nUsed <= c.nUsed + 2
    ensures r.1 == Some(NoRoom) ==> !c.hasArena || c.nNodes < c.nUsed + 2
    ensures r.1.None? && c.state == Allocate ==> r.0.nUsed >= c.nUsed + 1
    ensures Keys(c.tree) <= Keys(r.0.tree)
    ensures r.1 != Some(DuplicateLong) && r.1 != Some(NoRoom) ==>
      Keys(r.0.tree) == Keys(c.tree) + (if r.1.None? && c.state == Allocate then {short.value, long.value} else {})
  {
    if c.state == Count then (c.(nNodes := c.nNodes + 2), None)
    else if c.state != Allocate then (c, Some(WrongState))
    else if short.None? || long.None? then (c, Some(NullName))
    else
      var fct := SelectFct(c.outMode, bufFct, fileFct);
      if fct.None? then (c, Some(MissingFct))
      else
        var (c1, s1) := InsertKey(c, short.value, CmdData(long.value, mask, fct.value));
        if s1 == MemExhausted then (c, Some(NoRoom))
        else
          var (c2, s2) := InsertKey(c1, long.value, CmdData(short.value, mask | MaskLong, fct.value));
          if s2 == DuplicateKey then (c1, Some(DuplicateLong))
          else if s2 == MemExhausted then (c1, Some(NoRoom))
          else (c2, None)
  }

  /** Inserting one key keeps the core valid when its handler fits. */
  lemma InsertKeyPreservesValid(c: CmdCore, key: string, data: CmdData)
    requires Valid(c) && c.state == Allocate && HandlerFits(c.outMode, data.fct)
    ensures Valid(InsertKey(c, key, data).0)
  {
    var r := InsertKey(c, key, data);
    InsertDuplicateIff(c.tree, key, data, Room(c));
    InsertKeepsOrdered(c.tree, key, data, Room(c));
    if r.1 == StatusOk {
      InsertKeepsUnique(c.tree, key, data, Room(c));
      InsertAddsEntry(c.tree, key, data, Room(c));
    }
    assert Size(r.0.tree) == r.0.nUsed <= r.0.nNodes;
    assert Ordered(r.0.tree) && UniqueKeys(r.0.tree);
    assert forall e :: e in Entries(r.0.tree) ==> HandlerFits(r.0.outMode, e.1.fct);
  }

  /** Registering keeps the core valid: node count, search order, unique
      keys and handlers of the core's output mode. */
  lemma KeyAddPreservesValid(c: CmdCore, mask: bv32, short: Option<string>, long: Option<string>,
                             bufFct: Option<nat>, fileFct: Option<nat>)
    requires Valid(c)
    ensures Valid(KeyAdd(c, mask, short, long, bufFct, fileFct).0)
  {
    if c.state == Allocate && short.Some? && long.Some? && SelectFct(c.outMode, bufFct, fileFct).Some? {
      var fct := SelectFct(c.outMode, bufFct, fileFct).value;
      var d1 := CmdData(long.value, mask, fct);
      var d2 := CmdData(short.value, mask | MaskLong, fct);
      InsertKeyPreservesValid(c, short.value, d1);
      var c1 := InsertKey(c, short.value, d1).0;
      InsertKeyPreservesValid(c1, long.value, d2);
    }
  }

  /** A successful registration of a new pair of names can be looked up
      under both: the long name with the LONG bit and the short name as help
      text, the short name with the long name as help text. */
  lemma KeyAddRegistersBoth(c: CmdCore, mask: bv32, short: string, long: string,
                            bufFct: Option<nat>, fileFct: Option<nat>)
    requires Valid(c) && c.state == Allocate
    requires short != long && short != EmptyCmd && long != EmptyCmd
    requires short !in Keys(c.tree)
    requires KeyAdd(c, mask, Some(short), Some(long), bufFct, fileFct).1.None?
    ensures
      var t := KeyAdd(c, mask, Some(short), Some(long), bufFct, fileFct).0.tree;
      var fct := SelectFct(c.outMode, bufFct, fileFct).value;
      && Find(t, short) == Some(CmdData(long, mask, fct))
      && Find(t, long) == Some(CmdData(short, mask | MaskLong, fct))
  {
    var fct := SelectFct(c.outMode, bufFct, fileFct).value;
    var d1 := CmdData(long, mask, fct);
    var d2 := CmdData(short, mask | MaskLong, fct);
    var (c1, s1) := InsertKey(c, short, d1);
    InsertDuplicateIff(c.tree, short, d1, Room(c));
    InsertKeepsOrdered(c.tree, short, d1, Room(c));
    FindAfterInsert(c.tree, short, d1, Room(c));
    var (c2, s2) := InsertKey(c1, long, d2);
    FindAfterInsert(c1.tree, long, d2, Room(c1));
    FindOtherAfterInsert(c1.tree, long, d2, Room(c1), short);
  }

  /** A short name that is already registered keeps its first entry; the
      new command is still registered under its long name when that name
      is new and a node is free: the call succeeds and the long name finds
      the short name as help text, the LONG bit and the handler. */
  lemma KeyAddDuplicateShortKeepsFirst(c: CmdCore, mask: bv32, short: string, long: string,
                                       bufFct: Option<nat>, fileFct: Option<nat>)
    requires Valid(c) && c.state == Allocate
    requires short != long && long != EmptyCmd
    requires short != EmptyCmd && short in Keys(c.tree)
    ensures
      var r := KeyAdd(c, mask, Some(short), Some(long), bufFct, fileFct);
      Find(r.0.tree, short) == Find(c.tree, short)
    ensures
      var r := KeyAdd(c, mask, Some(short), Some(long), bufFct, fileFct);
      var fct := SelectFct(c.outMode, bufFct, fileFct);
      long !in Keys(c.tree) && c.hasArena && c.nUsed < c.nNodes && fct.Some? ==>
        r.1.None? && Find(r.0.tree, long) == Some(CmdData(short, mask | MaskLong, fct.value))
  {
    if SelectFct(c.outMode, bufFct, fileFct).Some? {
      var fct := SelectFct(c.outMode, bufFct, fileFct).value;
      var d1 := CmdData(long, mask, fct);
      var d2 := CmdData(short, mask | MaskLong, fct);
      InsertDuplicateIff(c.tree, short, d1, Room(c));
      var (c1, s1) := InsertKey(c, short, d1);
      assert s1 == DuplicateKey && c1 == c;
      var c2 := InsertKey(c, long, d2).0;
      FindOtherAfterInsert(c.tree, long, d2, Room(c), short);
      assert Find(c2.tree, short) == Find(c.tree, short);
      var r := KeyAdd(c, mask, Some(short), Some(long), bufFct, fileFct);
      assert r.0 == c || r.0 == c2;
      if long !in Keys(c.tree) && c.hasArena && c.nUsed < c.nNodes {
        InsertDuplicateIff(c.tree, long, d2, Room(c));
        assert Insert(c.tree, long, d2, Room(c)).1 == StatusOk;
        FindAfterInsert(c.tree, long, d2, Room(c));
      }
    }
  }

  /** Registering a long name that is already registered fails, and the
      entry already stored under it is left as it was. */
  lemma KeyAddDuplicateLongFails(c: CmdCore, mask: bv32, short: string, long: string,
                                 bufFct: Option<nat>, fileFct: Option<nat>)
    requires Valid(c) && c.state == Allocate
    requires short != long && long != EmptyCmd && long in Keys(c.tree)
    requires SelectFct(c.outMode, bufFct, fileFct).Some?
    ensures
      var r := KeyAdd(c, mask, Some(short), Some(long), bufFct, fileFct);
      && r.1.Some? && (r.1 == Some(DuplicateLong) || r.1 == Some(NoRoom))
      && Find(r.0.tree, long) == Find(c.tree, long)
  {
    var fct := SelectFct(c.outMode, bufFct, fileFct).value;
    var d1 := CmdData(long, mask, fct);
    var d2 := CmdData(short, mask | MaskLong, fct);
    var c1 := InsertKey(c, short, d1).0;
    FindOtherAfterInsert(c.tree, short, d1, Room(c), long);
    InsertKeyPreservesValid(c, short, d1);
    InsertDuplicateIff(c1.tree, long, d2, Room(c1));
  }

  /** `cli_core_cfg_mode_cmd_reg`: leave the counting state by allocating
      the node arena, unless no command was counted or the allocation
      (`allocOk`) fails. */
  function CfgModeCmdReg(c: CmdCore, allocOk: bool): (r: (CmdCore, bool))
    ensures r.1 <==> c.state == Count && c.nNodes > 0 && allocOk
    ensures r.1 ==> r.0 == c.(state := Allocate, hasArena := true)
    ensures !r.1 ==> r.0 == c
    ensures Valid(c) ==> Valid(r.0)
  {
    if c.state != Count then (c, false)
    else if c.nNodes == 0 then (c, false)
    else if !allocOk then (c, false)
    else (c.(state := Allocate, hasArena := true), true)
  }

  /** `cli_core_cfg_mode_active`: leave the allocating state once the arena
      exists and at least one command is in the tree. */
  function CfgModeActive(c: CmdCore): (r: (CmdCore, bool))
    ensures r.1 <==> c.state == Allocate && c.hasArena && c.tree != Leaf
    ensures r.1 ==> r.0 == c.(state := Active)
    ensures !r.1 ==> r.0 == c
    ensures Valid(c) ==> Valid(r.0)
  {
    if c.state != Allocate then (c, false)
    else if !c.hasArena || c.tree == Leaf then (c, false)
    else (c.(state := Active), true)
  }

  /** `cli_core_cfg_cmd_shutdown`: whatever state the core is in, drop the
      tree and the arena and start counting again in the given mode. */
  function Shutdown(c: CmdCore, mode: OutMode): (r: CmdCore)
    ensures Valid(r) && r.state == Count && r.outMode == mode
    ensures r.nNodes == 0 && r.nUsed == 0 && Keys(r.tree) == {}
  {
    CmdCore(Count, mode, 0, 0, false, Leaf)
  }

  /** A shut down core is indistinguishable from a freshly created one. */
  lemma ShutdownIsFresh(c: CmdCore, mode: OutMode)
    ensures Shutdown(c, mode) == NewCore(mode)
    ensures !CfgModeCmdReg(Shutdown(c, mode), true).1
  {
  }

  /** One registration call of the setup sequence. */
  datatype Registration = Registration(mask: bv32, short: string, long: string, fct: nat)

  /** Runs the registrations in order, as the user's registration function
      does in each of the two passes, and reports whether any of them ran
      out of nodes. */
  function RegisterAll(c: CmdCore, regs: seq<Registration>): (r: (CmdCore, bool))
    ensures r.0.state == c.state && r.0.outMode == c.outMode && r.0.hasArena == c.hasArena
    ensures c.state == Count ==> r.0 == c.(nNodes := c.nNodes + 2 * |regs|)
    ensures c.state == Count ==> !r.1
    ensures c.state != Count ==> r.0.nNodes == c.nNodes
    ensures Keys(c.tree) <= Keys(r.0.tree)
    decreases |regs|
  {
    if |regs| == 0 then (c, false)
    else
      var g := regs[0];
      var (c1, err) := KeyAdd(c, g.mask, Some(g.short), Some(g.long), Some(g.fct), Some(g.fct));
      var (c2, exhausted) := RegisterAll(c1, regs[1..]);
      (c2, exhausted || err == Some(NoRoom))
  }

  lemma {:induction false} RegisterAllPreservesValid(c: CmdCore, regs: seq<Registration>)
    requires Valid(c)
    ensures Valid(RegisterAll(c, regs).0)
    decreases |regs|
  {
    if |regs| > 0 {
      var g := regs[0];
      KeyAddPreservesValid(c, g.mask, Some(g.short), Some(g.long), Some(g.fct), Some(g.fct));
      RegisterAllPreservesValid(KeyAdd(c, g.mask, Some(g.short), Some(g.long), Some(g.fct), Some(g.fct)).0, regs[1..]);
    }
  }

  /** Node accounting of the two passes: in the allocating pass the arena
      never runs out when it has two free nodes per remaining registration. */
  lemma {:induction false} RegisterAllHasRoom(c: CmdCore, regs: seq<Registration>)
    requires c.state == Allocate && c.hasArena
    requires c.nUsed + 2 * |regs| <= c.nNodes
    ensures !RegisterAll(c, regs).1
    decreases |regs|
  {
    if |regs| > 0 {
      var g := regs[0];
      var (c1, err) := KeyAdd(c, g.mask, Some(g.short), Some(g.long), Some(g.fct), Some(g.fct));
      RegisterAllHasRoom(c1, regs[1..]);
    }
  }

  /** The whole setup sequence: count every registration, allocate, register
      every registration again, activate. No registration runs out of nodes,
      and with at least one registration the core becomes active. */
  lemma SetupSequence(mode: OutMode, regs: seq<Registration>)
    requires |regs| > 0
    ensures
      var counted := RegisterAll(NewCore(mode), regs).0;
      var armed := CfgModeCmdReg(counted, true);
      var filled := RegisterAll(armed.0, regs);
      && armed.1 && !filled.1
      && CfgModeActive(filled.0).1
  {
    var counted := RegisterAll(NewCore(mode), regs).0;
    var armed := CfgModeCmdReg(counted, true).0;
    assert armed == CmdCore(Allocate, mode, 2 * |regs|, 0, true, Leaf);
    RegisterAllHasRoom(armed, regs);
    var g := regs[0];
    var f := SelectFct(mode, Some(g.fct), Some(g.fct)).value;
    var c1 := InsertKey(armed, g.short, CmdData(g.long, g.mask, f)).0;
    assert g.short in Keys(c1.tree);
    var c2 := KeyAdd(armed, g.mask, Some(g.short), Some(g.long), Some(g.fct), Some(g.fct)).0;
    assert Keys(c1.tree) <= Keys(c2.tree);
    assert g.short in Keys(RegisterAll(c2, regs[1..]).0.tree);
  }

  /** The part of `struct cli_core_context_s` the clone bookkeeping uses. */
  datatype CoreCtx = CoreCtx(cmd: CmdCore, groups: GroupCfg, isClone: bool, nClones: nat)

  /** `cli_core_clone`: only an active core can be cloned; the clone shares
      its tree and group tables but owns no arena, and the parent counts it. */
  function Clone(parent: CoreCtx): (r: Option<(CoreCtx, CoreCtx)>)
    ensures r.Some? <==> parent.cmd.state == Active
    ensures r.Some? ==> r.value.0 == parent.(nClones := parent.nClones + 1)
    ensures r.Some? ==>
      && r.value.1.cmd.tree == parent.cmd.tree && r.value.1.cmd.state == Active
      && r.value.1.cmd.outMode == parent.cmd.outMode
      && !r.value.1.cmd.hasArena && r.value.1.isClone && r.value.1.nClones == 0
      && r.value.1.groups == parent.groups
    ensures r.Some? && Valid(parent.cmd) ==> Valid(r.value.1.cmd)
  {
    if parent.cmd.state != Active then None
    else
      var child := CoreCtx(parent.cmd.(hasArena := false), parent.groups, true, 0);
      Some((parent.(nClones := parent.nClones + 1), child))
  }

  /** `cli_core_release` of a clone, as seen by its parent: the clone
      counter goes down but never below zero, nothing else changes. */
  function ReleaseClone(parent: CoreCtx): (r: CoreCtx)
    ensures r.cmd == parent.cmd && r.groups == parent.groups && r.isClone == parent.isClone
    ensures parent.nClones > 0 ==> r.nClones + 1 == parent.nClones
    ensures parent.nClones == 0 ==> r.nClones == 0
  {
    parent.(nClones := if parent.nClones > 0 then parent.nClones - 1 else 0)
  }

  /** Releasing a clone undoes the parent's side of cloning it, and the
      clone finds exactly what the parent finds. */
  lemma CloneRelease(parent: CoreCtx, key: string)
    requires parent.cmd.state == Active
    ensures ReleaseClone(Clone(parent).value.0) == parent
    ensures Find(Clone(parent).value.1.cmd.tree, key) == Find(parent.cmd.tree, key)
  {
  }
}
