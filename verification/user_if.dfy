/** The list of user interfaces (`struct cli_user_context_s`) a core
    notifies on exit, events and dumps: `cli_user_if_register` appends at
    the tail, `cli_user_if_unregister` unlinks one entry, and
    `all_user_if_quit` calls every exit callback in list order. A list node
    is identified by a handle, standing for its address. */
module UserIf {
  import opened CStrings

  /** One registered user interface: its handle, its callback data and the
      three optional callbacks. */
  datatype UserCtx = UserCtx(handle: nat, data: nat, exitCb: Option<nat>, eventCb: Option<nat>, dumpCb: Option<nat>)

  /** The list from `p_user_head`, and the next unused handle. */
  datatype UserList = UserList(sinks: seq<UserCtx>, nextHandle: nat)

  /** Handles are distinct and all below the next unused one. */
  predicate Valid(l: UserList) {
    && (forall i, j :: 0 <= i < j < |l.sinks| ==> l.sinks[i].handle != l.sinks[j].handle)
    && (forall i :: 0 <= i < |l.sinks| ==> l.sinks[i].handle < l.nextHandle)
  }

  /** `cli_user_if_register`: refused when the caller's handle slot is not
      empty; fails when the node cannot be allocated (`allocOk`); otherwise
      the new interface is appended at the tail and its handle returned. */
  function Register(l: UserList, slot: Option<nat>, data: nat, exitCb: Option<nat>, eventCb: Option<nat>,
                    dumpCb: Option<nat>, allocOk: bool): (r: (UserList, Option<nat>))
    ensures slot.Some? || !allocOk ==> r == (l, None)
    ensures slot.None? && allocOk ==>
      && r.1 == Some(l.nextHandle)
      && r.0.sinks == l.sinks + [UserCtx(l.nextHandle, data, exitCb, eventCb, dumpCb)]
    ensures Valid(l) ==> Valid(r.0)
  {
    if slot.Some? then (l, None)
    else if !allocOk then (l, None)
    else
      var u := UserCtx(l.nextHandle, data, exitCb, eventCb, dumpCb);
      (UserList(l.sinks + [u], l.nextHandle + 1), Some(l.nextHandle))
  }

  /** Position of the entry with the given handle, if any. */
  function IndexOf(s: seq<UserCtx>, handle: nat): (r: Option<nat>)
    ensures r.Some? ==> r.value < |s| && s[r.value].handle == handle
    ensures r.Some? ==> forall j :: 0 <= j < r.value ==> s[j].handle != handle
    ensures r.None? ==> forall j :: 0 <= j < |s| ==> s[j].handle != handle
  {
    if |s| == 0 then None
    else if s[0].handle == handle then Some(0)
    else
      var k := IndexOf(s[1..], handle);
      if k.None? then None else Some(k.value + 1)
  }

  /** `cli_user_if_unregister`: an empty handle slot is accepted as is; an
      entry found in the list is unlinked; a handle not in the list is an
      error. The result says whether the call succeeded. */
  function Unregister(l: UserList, slot: Option<nat>): (r: (UserList, bool))
    ensures slot.None? ==> r == (l, true)
    ensures slot.Some? ==> (r.1 <==> exists i :: 0 <= i < |l.sinks| && l.sinks[i].handle == slot.value)
    ensures !r.1 ==> r.0 == l
    ensures slot.Some? && r.1 ==>
      exists i :: 0 <= i < |l.sinks| && l.sinks[i].handle == slot.value && r.0.sinks == l.sinks[..i] + l.sinks[i + 1..]
    ensures r.0.nextHandle == l.nextHandle
  {
    if slot.None? then (l, true)
    else
      var k := IndexOf(l.sinks, slot.value);
      if k.None? then (l, false)
      else (l.(sinks := l.sinks[..k.value] + l.sinks[k.value + 1..]), true)
  }

  /** Unregistering keeps the remaining handles distinct and removes the
      handle from the list. */
  lemma UnregisterPreservesValid(l: UserList, handle: nat)
    requires Valid(l)
    ensures Valid(Unregister(l, Some(handle)).0)
    ensures forall i :: 0 <= i < |Unregister(l, Some(handle)).0.sinks| ==>
      Unregister(l, Some(handle)).0.sinks[i].handle != handle
  {
    var k := IndexOf(l.sinks, handle);
    if k.Some? {
      var s := l.sinks;
      var r := s[..k.value] + s[k.value + 1..];
      forall i | 0 <= i < |r|
        ensures r[i] == (if i < k.value then s[i] else s[i + 1])
      {
      }
    }
  }

  /** Unregistering the interface just registered gives back the list. */
  lemma RegisterUnregister(l: UserList, data: nat, exitCb: Option<nat>, eventCb: Option<nat>, dumpCb: Option<nat>)
    requires Valid(l)
    ensures
      var (l1, h) := Register(l, None, data, exitCb, eventCb, dumpCb, true);
      h.Some? && Unregister(l1, h).0.sinks == l.sinks
  {
    var u := UserCtx(l.nextHandle, data, exitCb, eventCb, dumpCb);
    var s := l.sinks + [u];
    assert IndexOf(s, l.nextHandle) == Some(|l.sinks|) by {
      assert s[|l.sinks|].handle == l.nextHandle;
      assert forall j :: 0 <= j < |l.sinks| ==> s[j] == l.sinks[j];
    }
    assert s[..|l.sinks|] + s[|l.sinks| + 1..] == l.sinks;
  }

  /** The exit callbacks of the list, in list order. */
  function ExitCalls(s: seq<UserCtx>): (r: seq<nat>)
    ensures |r| <= |s|
  {
    if |s| == 0 then []
    else
      var u := s[|s| - 1];
      ExitCalls(s[..|s| - 1]) + (if u.exitCb.Some? then [u.exitCb.value] else [])
  }

  /** Exactly the exit callbacks present in the list are called. */
  lemma {:induction false} ExitCallsMembers(s: seq<UserCtx>, c: nat)
    ensures c in ExitCalls(s) <==> exists i :: 0 <= i < |s| && s[i].exitCb == Some(c)
    decreases |s|
  {
    if |s| > 0 {
      var p := s[..|s| - 1];
      ExitCallsMembers(p, c);
      if exists i :: 0 <= i < |s| && s[i].exitCb == Some(c) {
        var i :| 0 <= i < |s| && s[i].exitCb == Some(c);
        if i < |p| {
          assert p[i].exitCb == Some(c);
        }
      }
    }
  }

  lemma {:induction false} ExitCallsAppend(s: seq<UserCtx>, t: seq<UserCtx>)
    ensures ExitCalls(s + t) == ExitCalls(s) + ExitCalls(t)
    decreases |t|
  {
    if |t| == 0 {
      assert s + t == s;
    } else {
      var t' := t[..|t| - 1];
      assert (s + t)[..|s + t| - 1] == s + t';
      ExitCallsAppend(s, t');
    }
  }

  /** An interface registered last has its exit callback called last. */
  lemma RegisteredLastQuitsLast(l: UserList, data: nat, exitCb: nat, eventCb: Option<nat>, dumpCb: Option<nat>)
    ensures
      var l1 := Register(l, None, data, Some(exitCb), eventCb, dumpCb, true).0;
      ExitCalls(l1.sinks) == ExitCalls(l.sinks) + [exitCb]
  {
    var u := UserCtx(l.nextHandle, data, Some(exitCb), eventCb, dumpCb);
    ExitCallsAppend(l.sinks, [u]);
  }

  /** A callback that unlinks its own interface removes it. */
  predicate RemovesSelf(u: UserCtx, selfRemoving: set<nat>) {
    u.exitCb.Some? && u.handle in selfRemoving
  }

  /** The interfaces left once every self-removing exit callback has run. */
  function Survivors(s: seq<UserCtx>, selfRemoving: set<nat>): (r: seq<UserCtx>)
    ensures |r| <= |s|
  {
    if |s| == 0 then []
    else
      var u := s[|s| - 1];
      Survivors(s[..|s| - 1], selfRemoving) + (if RemovesSelf(u, selfRemoving) then [] else [u])
  }

  /** An interface survives the quit walk exactly when its exit callback
      does not unlink it. */
  lemma {:induction false} SurvivorsMembers(s: seq<UserCtx>, selfRemoving: set<nat>, u: UserCtx)
    ensures u in Survivors(s, selfRemoving) <==> u in s && !RemovesSelf(u, selfRemoving)
    decreases |s|
  {
    if |s| > 0 {
      SurvivorsMembers(s[..|s| - 1], selfRemoving, u);
      assert s == s[..|s| - 1] + [s[|s| - 1]];
    }
  }

  /** In a list with distinct handles the search finds each entry where it is. */
  lemma IndexOfDistinct(s: seq<UserCtx>, p: nat)
    requires p < |s|
    requires forall i, j :: 0 <= i < j < |s| ==> s[i].handle != s[j].handle
    ensures IndexOf(s, s[p].handle) == Some(p)
  {
  }

  /** Unlinking an entry of a valid list leaves what was around it. */
  lemma UnlinkAt(l: UserList, done: seq<UserCtx>, u: UserCtx, rest: seq<UserCtx>)
    requires Valid(l) && l.sinks == done + [u] + rest
    ensures Unregister(l, Some(u.handle)).0 == UserList(done + rest, l.nextHandle)
    ensures Valid(UserList(done + rest, l.nextHandle))
  {
    assert l.sinks[|done|] == u;
    IndexOfDistinct(l.sinks, |done|);
    UnregisterPreservesValid(l, u.handle);
    assert l.sinks[..|done|] == done;
    assert l.sinks[|done| + 1..] == rest;
  }
}
