/** The exit walk of the core, `all_user_if_quit`, over the list of user
    interfaces. */
module UserQuit {
  import opened CStrings
  import opened UserIf

  /** The state in the middle of the quit walk: the exit callbacks of the
      first `i` entries have been called, and of those entries only the ones
      that did not unlink themselves are left. */
  predicate Walked(l: UserList, selfRemoving: set<nat>, i: nat, calls: seq<nat>, left: UserList)
    requires i <= |l.sinks|
  {
    && calls == ExitCalls(l.sinks[..i])
    && left == UserList(Survivors(l.sinks[..i], selfRemoving) + l.sinks[i..], l.nextHandle)
  }

  /** One step of the quit walk: the visited entry's exit callback is called,
      the entry stays unless that callback unlinks it, and the list stays
      valid. */
  lemma QuitStep(l: UserList, selfRemoving: set<nat>, i: nat, calls: seq<nat>, left: UserList)
    requires i < |l.sinks| && Walked(l, selfRemoving, i, calls, left) && Valid(left)
    ensures var u := l.sinks[i];
      var calls' := calls + (if u.exitCb.Some? then [u.exitCb.value] else []);
      var left' := if RemovesSelf(u, selfRemoving) then Unregister(left, Some(u.handle)).0 else left;
      Walked(l, selfRemoving, i + 1, calls', left') && Valid(left')
  {
    var s := l.sinks;
    var u := s[i];
    var done := Survivors(s[..i], selfRemoving);
    assert s[..i + 1][..i] == s[..i];
    assert s[i..] == [u] + s[i + 1..];
    if RemovesSelf(u, selfRemoving) {
      UnlinkAt(left, done, u, s[i + 1..]);
      assert done + [] == done;
    }
  }

  /** `all_user_if_quit`: walk the list and call every exit callback. The
      successor is read before the callback runs, so a callback may unlink
      its own interface (the handles in `selfRemoving`) without the walk
      losing its way. Returns the callbacks called and the list left. */
  method QuitAll(l: UserList, selfRemoving: set<nat>) returns (calls: seq<nat>, left: UserList)
    requires Valid(l)
    ensures calls == ExitCalls(l.sinks)
    ensures left.sinks == Survivors(l.sinks, selfRemoving)
    ensures Valid(left) && left.nextHandle == l.nextHandle
  {
    calls := [];
    left := l;
    var i := 0;
    assert l.sinks[..0] == [] && l.sinks[0..] == l.sinks;
    assert Walked(l, selfRemoving, 0, calls, left);
    while i < |l.sinks|
      invariant 0 <= i <= |l.sinks|
      invariant Walked(l, selfRemoving, i, calls, left) && Valid(left)
    {
      var u := l.sinks[i];
      QuitStep(l, selfRemoving, i, calls, left);
      calls := calls + (if u.exitCb.Some? then [u.exitCb.value] else []);
      if RemovesSelf(u, selfRemoving) {
        left := Unregister(left, Some(u.handle)).0;
      }
      i := i + 1;
    }
    assert l.sinks[..i] == l.sinks;
    assert l.sinks[i..] == [];
    assert left.sinks == Survivors(l.sinks, selfRemoving) + [];
  }
}
