/** Hooks as the macros of src/Hook/HookMacros.h install and uninstall them, module by module:
    what a group of hooks on one handle is left like, what a transaction that is still open
    does to that, what is never freed, and why the callers' premises are needed. */
module HookGroups {
  import opened Outcomes
  import opened Detours
  import opened Transactions

  // ---- group uninstall ----

  /** The UNINSTALL_HOOK macro: detach, and null the caller's pointer if that worked. */
  function UninstallHook(s: State, e: Hook): State {
    if e.target < |s.cells| && s.cells[e.target] != Null then
      var t := DetachStep(s, Some(e.target), e.detour);
      if Find(s.active, Some(e.target), e.detour) < |s.active| then t.(cells := Write(t.cells, e.target, Null)) else t
    else s
  }

  function UninstallAll(s: State, hooks: seq<Hook>): State
    decreases hooks
  {
    if hooks == [] then s else UninstallAll(UninstallHook(s, hooks[0]), hooks[1..])
  }

  /** hooks lists the entries of handle g, in any order. */
  ghost predicate Lists(s: State, g: Handle, hooks: seq<Hook>) {
    Targets(hooks) && forall e :: e in hooks <==> e in s.active && e.handle == g
  }

  /** All of g's hooks off at once: no detour of g is routing any more and every pointer of g
      is back on real code, while its trampolines stay mapped. */
  function Off(s: State, g: Handle): State {
    Uninstall(s, g).(uninstalled := s.uninstalled + {g}, cells := Restored(s.cells, s.active, g))
  }

  lemma {:induction false} KeptRemoveOwn(hooks: seq<Hook>, i: nat)
    requires i < |hooks|
    ensures Kept(Remove(hooks, i), hooks[i].handle) == Kept(hooks, hooks[i].handle)
  {
    if i == 0 {
      RemoveFirst(hooks);
    } else {
      KeptRemoveOwn(hooks[1..], i - 1);
      RemoveBehind(hooks, i);
      KeptCons(hooks[0], Remove(hooks[1..], i - 1), hooks[i].handle);
    }
  }

  lemma FindListed(s: State, e: Hook)
    requires Targets(s.active) && e in s.active
    ensures var i := Find(s.active, Some(e.target), e.detour); i < |s.active| && s.active[i] == e
  {
    var j :| 0 <= j < |s.active| && s.active[j] == e;
    FindIs(s.active, j);
  }

  /** A detach that names no entry by both its target and its detour changes nothing. */
  lemma UnknownDetachChangesNothing(s: State, target: Option<Cell>, detour: Pointer)
    requires forall e :: e in s.active ==> Some(e.target) != target || e.detour != detour
    ensures DetachStep(s, target, detour) == s
  {
    FindNone(s.active, target, detour);
  }

  /** Detaching a hook of an uninstalled handle writes through no target; a pointer nulled
      before stays null. */
  lemma SiblingDetachWritesNothing(s: State, e: Hook)
    requires Inv(s) && e in s.active && e.handle in s.uninstalled
    ensures DetachStep(s, Some(e.target), e.detour).cells == s.cells
  {
    FindListed(s, e);
  }

  /** The first detach of a hook acts as if all of its handle's hooks had been taken off. */
  lemma FirstDetachTakesAllOff(s: State, e: Hook)
    requires Inv(s) && e in s.active && s.current != Some(e.handle) && e.handle !in s.uninstalled
    ensures Inv(Off(s, e.handle)) && e.handle !in Off(s, e.handle).installed
    ensures forall x :: x in s.active ==>
              && x.target < |s.cells|
              && Off(s, e.handle).cells[x.target] == if x.handle == e.handle then x.original else s.cells[x.target]
    ensures DetachStep(s, Some(e.target), e.detour) == DetachStep(Off(s, e.handle), Some(e.target), e.detour)
    ensures UninstallHook(s, e) == UninstallHook(Off(s, e.handle), e)
  {
    hide Owned, Serials, Kept, Refers, Remove;
    RefersIn(s.active, e);
    UninstallKeeps(s, e.handle);
    FindListed(s, e);
    CellsInRange(s);
    RestoredIs(s.cells, s.active, e.handle);
    assert EntryOk(s, e) && EntryOk(Off(s, e.handle), e);
  }

  /** Uninstalling one hook of a handle whose hooks are off. */
  lemma UninstallOne(s: State, e: Hook)
    requires Inv(s) && e in s.active && s.current != Some(e.handle) && e.handle in s.uninstalled
    ensures var t, g := UninstallHook(s, e), e.handle;
            && Inv(t) && t.current == s.current && t.created == s.created
            && e.target < |s.cells| && t.cells == s.cells[e.target := Null]
            && (forall x :: x in t.active <==> x in s.active && x != e) && Kept(t.active, g) == Kept(s.active, g)
            && t.installed == s.installed
            && (if Refers(t.active, g) then
                  t.uninstalled == s.uninstalled && t.live == s.live && t.destroyed == s.destroyed
                else
                  && t.uninstalled == s.uninstalled - {g} && t.live == s.live - {g}
                  && t.destroyed == s.destroyed + [s.live[g]])
  {
    hide Owned, Serials, Kept;
    FindListed(s, e);
    assert EntryOk(s, e);
    var i := Find(s.active, Some(e.target), e.detour);
    DetachKeeps(s, Some(e.target), e.detour);
    SiblingDetachWritesNothing(s, e);
    RemoveIs(s.active, i);
    KeptRemoveOwn(s.active, i);
    var d := DetachStep(s, Some(e.target), e.detour);
    assert !Hooked(d, e.target) by {
      forall k | 0 <= k < |d.active| ensures d.active[k].target != e.target {
        assert d.active[k] in s.active;
      }
    }
    StoreKeeps(d, e.target, Null);
  }

  lemma {:induction false} UninstallRest(s: State, g: Handle, hooks: seq<Hook>)
    requires Inv(s) && Lists(s, g, hooks) && hooks != [] && s.current != Some(g) && g in s.uninstalled
    ensures var t := UninstallAll(s, hooks);
            && Inv(t) && t.active == Kept(s.active, g) && t.current == s.current && t.installed == s.installed
            && t.live == s.live - {g} && t.destroyed == s.destroyed + [s.live[g]]
            && t.uninstalled == s.uninstalled - {g}
            && |t.cells| == |s.cells|
            && (forall c :: 0 <= c < |s.cells| ==>
                  t.cells[c] == if Targeted(hooks, c) then Null else s.cells[c])
    decreases |hooks|
  {
    hide Inv, UninstallHook, Kept;
    var e, rest := hooks[0], hooks[1..];
    assert e in hooks;
    var t := UninstallHook(s, e);
    UninstallOne(s, e);
    ListsRest(s, t, g, hooks);
    if rest == [] {
      NoneLeft(t, g);
      NothingAttached(t.cells, t.active, g);
    } else {
      assert rest[0] in rest;
      RefersIn(t.active, rest[0]);
      UninstallRest(t, g, rest);
      TargetedRest(hooks);
    }
  }

  lemma TargetedRest(hooks: seq<Hook>)
    requires hooks != []
    ensures forall c: Cell :: Targeted(hooks, c) <==> c == hooks[0].target || Targeted(hooks[1..], c)
  {
    forall c: Cell ensures Targeted(hooks, c) <==> c == hooks[0].target || Targeted(hooks[1..], c) {
      if i :| 0 <= i < |hooks| && hooks[i].target == c {
        assert i == 0 || hooks[1..][i - 1].target == c;
      }
      if i :| 0 <= i < |hooks[1..]| && hooks[1..][i].target == c {
        assert hooks[i + 1].target == c;
      }
    }
  }

  lemma ListsRest(s: State, t: State, g: Handle, hooks: seq<Hook>)
    requires Lists(s, g, hooks) && hooks != [] && forall x :: x in t.active <==> x in s.active && x != hooks[0]
    ensures Lists(t, g, hooks[1..])
  {
    assert hooks == [hooks[0]] + hooks[1..];
    forall i | 0 <= i < |hooks[1..]| ensures hooks[1..][i] != hooks[0] {
      assert hooks[1..][i].target == hooks[i + 1].target != hooks[0].target;
    }
  }

  lemma NoneLeft(t: State, g: Handle)
    requires Lists(t, g, [])
    ensures !Refers(t.active, g)
  {
    if Refers(t.active, g) {
      var x := Referring(t.active, g);
      assert false;
    }
  }

  /** Uninstalling all hooks of a handle that is not open, in any order: every target ends up null,
      no other pointer and no other handle's entry changes, no detour of the handle routes
      any more, and the handle is destroyed exactly once. */
  lemma GroupUninstall(s: State, g: Handle, hooks: seq<Hook>)
    requires Inv(s) && Lists(s, g, hooks) && hooks != [] && s.current != Some(g)
    ensures var t := UninstallAll(s, hooks);
            && Inv(t) && t.active == Kept(s.active, g) && g !in t.installed && t.uninstalled == s.uninstalled - {g}
            && g in s.live && t.live == s.live - {g} && t.destroyed == s.destroyed + [s.live[g]]
            && |t.cells| == |s.cells|
            && forall c :: 0 <= c < |s.cells| ==> t.cells[c] == if Targeted(hooks, c) then Null else s.cells[c]
  {
    var e := hooks[0];
    assert e in hooks;
    HandleOf(s, e);
    if g in s.uninstalled {
      hide UninstallHook, UninstallAll, Kept, Inv, Lists;
      UninstallRest(s, g, hooks);
    } else {
      OffThenRest(s, g, hooks);
    }
  }

  lemma OffThenRest(s: State, g: Handle, hooks: seq<Hook>)
    requires Inv(s) && Lists(s, g, hooks) && hooks != [] && s.current != Some(g) && g !in s.uninstalled
    ensures var t := UninstallAll(s, hooks);
            && Inv(t) && t.active == Kept(s.active, g) && g !in t.installed && t.uninstalled == s.uninstalled - {g}
            && g in s.live && t.live == s.live - {g} && t.destroyed == s.destroyed + [s.live[g]]
            && |t.cells| == |s.cells|
            && forall c :: 0 <= c < |s.cells| ==> t.cells[c] == if Targeted(hooks, c) then Null else s.cells[c]
  {
    hide UninstallHook, Kept, Inv;
    var e := hooks[0];
    assert e in hooks;
    InvNames(s, e);
    FirstDetachTakesAllOff(s, e);
    assert UninstallAll(s, hooks) == UninstallAll(Off(s, g), hooks);
    UninstallRest(Off(s, g), g, hooks);
    OffElsewhere(s, g, hooks);
  }

  lemma HandleOf(s: State, e: Hook)
    requires Inv(s) && e in s.active
    ensures e.handle in s.live && (e.handle in s.uninstalled ==> e.handle !in s.installed)
    ensures e.target < |s.cells| && e.original.Code? && s.cells[e.target] != Null
  {
    assert EntryOk(s, e);
  }

  // ---- a module of hooks ----

  /** The state that a Begin starts from: a transaction that is still open is taken back. */
  function Abandoned(s: State): State {
    if s.current.Some? then Rollback(s) else s
  }

  lemma BeginAbandons(s: State, handle: Option<Handle>)
    requires Inv(s) && Proper(s, Begin(handle))
    ensures BeginStep(s, handle) == BeginStep(Abandoned(s), handle)
    ensures Inv(Abandoned(s)) && Abandoned(s).current.None? && Proper(Abandoned(s), Begin(handle))
    ensures Abandoned(s).created == s.created && |Abandoned(s).cells| == |s.cells|
  {
    if s.current.Some? {
      hide Kept, Restored, EntryOk, Owned, Serials, Refers;
      CurrentIsLive(s);
      StepKeeps(s, Commit(false));
    }
  }

  /** Taking back touches the entries of the open handle, and nothing else. */
  lemma AbandonedIs(s: State)
    requires Inv(s)
    ensures var u := Abandoned(s);
            && (forall e :: e in u.active <==> e in s.active && s.current != Some(e.handle))
            && (forall e :: e in s.active ==>
                  && e.target < |u.cells|
                  && u.cells[e.target] == if s.current == Some(e.handle) then e.original else s.cells[e.target])
            && (forall c :: 0 <= c < |s.cells| && !Hooked(s, c) ==> u.cells[c] == s.cells[c])
            && (forall g :: g in u.live <==> g in s.live && s.current != Some(g))
            && (forall g :: g in u.live ==> u.live[g] == s.live[g])
  {
    if s.current.Some? {
      var h := s.current.value;
      KeptIs(s.active, h);
      CellsInRange(s);
      RestoredIs(s.cells, s.active, h);
      assert forall e :: e in s.active ==> exists i :: 0 <= i < |s.active| && s.active[i] == e;
    }
  }

  /** What the Uninstall function of a module of hooks does: UNHOOK_BEGIN, one UNINSTALL_HOOK
      per hook, UNHOOK_END; handle is what creating the transaction's handle gave, and installs
      what installing its nothing answered. */
  function UninstallModule(s: State, hooks: seq<Hook>, handle: Option<Handle>, installs: bool): State {
    CommitStep(UninstallAll(BeginStep(s, handle), hooks), installs)
  }

  lemma ListsAbandoned(s: State, g: Handle, hooks: seq<Hook>)
    requires Inv(s) && Lists(s, g, hooks) && s.current != Some(g)
    ensures Lists(Abandoned(s), g, hooks)
  {
    hide Inv;
    AbandonedIs(s);
  }

  /** Uninstalling a module nulls its pointers and frees the handle of its hooks, whether or not
      the surrounding transaction works; if it works, its own handle stays behind.  A
      transaction of others that was still open is taken back first. */
  lemma ModuleUninstall(s: State, g: Handle, hooks: seq<Hook>, handle: Option<Handle>, installs: bool)
    requires Inv(s) && Lists(s, g, hooks) && hooks != [] && s.current != Some(g) && Proper(s, Begin(handle))
    ensures var t, u := UninstallModule(s, hooks, handle, installs), Abandoned(s);
            && Inv(t) && t.current.None? && t.active == Kept(u.active, g) && g in u.live
            && t.live == (if handle.Some? && installs then (u.live - {g})[handle.value := s.created] else u.live - {g})
            && t.destroyed == u.destroyed + [u.live[g]] + (if handle.Some? && !installs then [s.created] else [])
            && |t.cells| == |s.cells| == |u.cells|
            && forall c :: 0 <= c < |s.cells| ==> t.cells[c] == if Targeted(hooks, c) then Null else u.cells[c]
  {
    hide Inv, Kept, UninstallAll, Refers, BeginStep, CommitStep, Abandoned, Lists;
    var u := Abandoned(s);
    BeginAbandons(s, handle);
    ListsAbandoned(s, g, hooks);
    ModuleFromRest(u, g, hooks, handle, installs);
    assert UninstallModule(s, hooks, handle, installs) == UninstallModule(u, hooks, handle, installs);
  }

  lemma ModuleFromRest(s: State, g: Handle, hooks: seq<Hook>, handle: Option<Handle>, installs: bool)
    requires Inv(s) && s.current.None? && Lists(s, g, hooks) && hooks != [] && Proper(s, Begin(handle))
    ensures var t := UninstallModule(s, hooks, handle, installs);
            && Inv(t) && t.current.None? && t.active == Kept(s.active, g) && g in s.live
            && t.live == (if handle.Some? && installs then (s.live - {g})[handle.value := s.created] else s.live - {g})
            && t.destroyed == s.destroyed + [s.live[g]] + (if handle.Some? && !installs then [s.created] else [])
            && |t.cells| == |s.cells|
            && forall c :: 0 <= c < |s.cells| ==> t.cells[c] == if Targeted(hooks, c) then Null else s.cells[c]
  {
    hide Inv, Kept, UninstallAll, Refers, BeginStep, CommitStep;
    var begun := BeginStep(s, handle);
    StepKeeps(s, Begin(handle));
    BeginsEmpty(s, handle);
    InvNames(s, hooks[0]);
    GroupUninstall(begun, g, hooks);
    var off := UninstallAll(begun, hooks);
    UninstallAllKeepsCurrent(begun, hooks);
    KeptIs(s.active, g);
    if begun.current.Some? && Refers(off.active, begun.current.value) {
      var e := Referring(off.active, begun.current.value);
      assert e in s.active;
      RefersIn(s.active, e);
    }
    CommitsEmpty(off, installs);
  }

  /** Ending a transaction that attached nothing. */
  lemma CommitsEmpty(s: State, installs: bool)
    requires Inv(s) && (s.current.Some? ==> !Refers(s.active, s.current.value))
    ensures var t := CommitStep(s, installs);
            && Inv(t) && t.current.None? && t.active == s.active && t.cells == s.cells
            && t.live == (if s.current.Some? && !installs then s.live - {s.current.value} else s.live)
            && t.destroyed == s.destroyed + (if s.current.Some? && !installs then [s.live[s.current.value]] else [])
  {
    StepKeeps(s, Commit(installs));
    if s.current.Some? {
      NothingAttached(s.cells, s.active, s.current.value);
    }
  }

  // ---- installing a module ----

  /** One INSTALL_HOOK: what the pattern search gave, the pointer and the detour, and what funchook
      will answer. */
  datatype Install = Install(found: Option<Pointer>, target: Cell, detour: Pointer, handle: Option<Handle>,
                             prepares: bool)

  function InstallOne(s: State, i: Install): State {
    if i.found.None? then s
    else Step(Step(s, Store(i.target, i.found.value)), Attach(Some(i.target), i.detour, i.handle, i.prepares))
  }

  function InstallAll(s: State, items: seq<Install>): State {
    if items == [] then s else InstallOne(InstallAll(s, items[..|items| - 1]), items[|items| - 1])
  }

  /** What the Install function of a module of hooks does. */
  function InstallModule(s: State, items: seq<Install>, handle: Option<Handle>, installs: bool): State {
    CommitStep(InstallAll(BeginStep(s, handle), items), installs)
  }

  /** The entries that such a list makes. */
  function HooksOf(items: seq<Install>, h: Handle): seq<Hook> {
    if items == [] then []
    else
      var i := items[|items| - 1];
      HooksOf(items[..|items| - 1], h) +
      if i.found.Some? && i.prepares && i.detour != Null then [Hook(h, i.target, i.detour, i.found.value)] else []
  }

  /** The pointers with what was found stored. */
  function Found(cells: seq<Pointer>, items: seq<Install>): (r: seq<Pointer>)
    ensures |r| == |cells|
  {
    if items == [] then cells
    else
      var i := items[|items| - 1];
      var before := Found(cells, items[..|items| - 1]);
      if i.found.Some? then Write(before, i.target, i.found.value) else before
  }

  /** An entry for each function that was found and prepared, and for no other. */
  lemma {:induction false} HooksOfIs(items: seq<Install>, h: Handle)
    ensures forall e :: e in HooksOf(items, h) <==>
              exists i :: i in items && i.found.Some? && i.prepares && i.detour != Null
                          && e == Hook(h, i.target, i.detour, i.found.value)
  {
    if items != [] {
      var front, last := items[..|items| - 1], items[|items| - 1];
      HooksOfIs(front, h);
      assert items == front + [last];
    }
  }

  /** What was found stands in its pointer, and no other pointer changes. */
  lemma {:induction false} FoundIs(cells: seq<Pointer>, items: seq<Install>)
    requires forall k, n :: 0 <= k < n < |items| ==> items[k].target != items[n].target
    ensures forall i :: i in items && i.target < |cells| ==>
              Found(cells, items)[i.target] == if i.found.Some? then i.found.value else cells[i.target]
    ensures forall c :: 0 <= c < |cells| && (forall i :: i in items ==> i.target != c) ==>
              Found(cells, items)[c] == cells[c]
  {
    if items != [] {
      var front, last := items[..|items| - 1], items[|items| - 1];
      FoundIs(cells, front);
      assert items == front + [last];
      forall i | i in front ensures i.target != last.target {
        var k :| 0 <= k < |front| && front[k] == i;
        assert items[k] == i;
      }
    }
  }

  /** Every hook has a pointer of its own that is not hooked yet, and what is found is code. */
  predicate Installable(s: State, items: seq<Install>) {
    && (forall k :: 0 <= k < |items| ==> items[k].target < |s.cells| && !Hooked(s, items[k].target))
    && (forall k :: 0 <= k < |items| ==> items[k].found.Some? ==> items[k].found.value.Code?)
    && (forall k, n :: 0 <= k < n < |items| ==> items[k].target != items[n].target)
  }

  /** t is s with these entries on the open handle h and these pointers otherwise. */
  predicate HasHooks(s: State, t: State, h: Handle, hooks: seq<Hook>, cells: seq<Pointer>) {
    && s.current == t.current == Some(h) && h in s.live && t.live == s.live && t.installed == s.installed
    && t.active == s.active + hooks && |t.cells| == |s.cells| == |cells|
    && (forall e :: e in hooks ==> e.handle == h && e.target < |cells| && e.original == cells[e.target])
    && forall c :: 0 <= c < |t.cells| ==> t.cells[c] == if Targeted(hooks, c) then Trampoline(s.live[h]) else cells[c]
  }

  lemma {:induction false} HookTargets(items: seq<Install>, h: Handle)
    ensures forall e :: e in HooksOf(items, h) ==> exists k :: 0 <= k < |items| && items[k].target == e.target
  {
    if items != [] {
      var front := items[..|items| - 1];
      HookTargets(front, h);
      forall e | e in HooksOf(items, h) ensures exists k :: 0 <= k < |items| && items[k].target == e.target {
        if e in HooksOf(front, h) {
          var k :| 0 <= k < |front| && front[k].target == e.target;
          assert items[k].target == e.target;
        } else {
          assert items[|items| - 1].target == e.target;
        }
      }
    }
  }

  lemma {:induction false} InstallsPrepare(s: State, items: seq<Install>, h: Handle)
    requires Inv(s) && s.current == Some(h) && Installable(s, items)
    ensures Inv(InstallAll(s, items)) && HasHooks(s, InstallAll(s, items), h, HooksOf(items, h), Found(s.cells, items))
    decreases |items|
  {
    hide Inv, InstallOne, HooksOf, Found, HasHooks, Hooked;
    if items == [] {
      CurrentIsLive(s);
      NothingInstalled(s, h);
    } else {
      var front, i := items[..|items| - 1], items[|items| - 1];
      InstallsPrepare(s, front, h);
      HookTargets(front, h);
      InstallStep(s, InstallAll(s, front), h, HooksOf(front, h), Found(s.cells, front), i);
      LastItem(s, items, h);
    }
  }

  lemma NothingInstalled(s: State, h: Handle)
    requires s.current == Some(h) && h in s.live
    ensures HasHooks(s, InstallAll(s, []), h, HooksOf([], h), Found(s.cells, []))
  {
  }

  lemma InstallStep(s: State, t: State, h: Handle, hooks: seq<Hook>, cells: seq<Pointer>, i: Install)
    requires Inv(t) && HasHooks(s, t, h, hooks, cells) && i.target < |s.cells| && !Hooked(s, i.target)
    requires (i.found.Some? ==> i.found.value.Code?) && forall e :: e in hooks ==> e.target != i.target
    ensures Inv(InstallOne(t, i))
    ensures HasHooks(s, InstallOne(t, i), h, hooks + HooksOf([i], h),
                     if i.found.Some? then Write(cells, i.target, i.found.value) else cells)
  {
    hide Inv, InstallAll, Found, Step;
    assert [i][..0] == [] && HooksOf([], h) == [];
    if i.found.Some? {
      NotHookedYet(s, t, hooks, i.target);
      OneInstalled(s, t, h, hooks, cells, i);
      var u := Step(t, Store(i.target, i.found.value));
      StepKeeps(t, Store(i.target, i.found.value));
      StepKeeps(u, Attach(Some(i.target), i.detour, None, i.prepares));
      OpenIsUsed(u, i);
    } else {
      assert hooks + HooksOf([i], h) == hooks;
    }
  }

  /** An attach inside a transaction creates no handle. */
  lemma OpenIsUsed(s: State, i: Install)
    requires s.current.Some?
    ensures Step(s, Attach(Some(i.target), i.detour, i.handle, i.prepares)) ==
            Step(s, Attach(Some(i.target), i.detour, None, i.prepares))
  {
  }

  lemma LastItem(s: State, items: seq<Install>, h: Handle)
    requires items != []
    ensures var front, i := items[..|items| - 1], items[|items| - 1];
            && InstallAll(s, items) == InstallOne(InstallAll(s, front), i)
            && HooksOf(items, h) == HooksOf(front, h) + HooksOf([i], h)
            && Found(s.cells, items) ==
               if i.found.Some? then Write(Found(s.cells, front), i.target, i.found.value) else Found(s.cells, front)
  {
    var i := items[|items| - 1];
    assert [i][..0] == [] && HooksOf([], h) == [];
  }

  lemma NotHookedYet(s: State, t: State, hooks: seq<Hook>, c: Cell)
    requires t.active == s.active + hooks && !Hooked(s, c) && forall e :: e in hooks ==> e.target != c
    ensures !Hooked(t, c) && !Targeted(hooks, c)
  {
    forall k | 0 <= k < |t.active| ensures t.active[k].target != c {
      if k < |s.active| {
        assert t.active[k] == s.active[k];
      } else {
        assert t.active[k] == hooks[k - |s.active|];
      }
    }
  }

  lemma OneInstalled(s: State, t: State, h: Handle, hooks: seq<Hook>, cells: seq<Pointer>, i: Install)
    requires HasHooks(s, t, h, hooks, cells) && !Hooked(t, i.target) && !Targeted(hooks, i.target)
    requires i.target < |cells| && i.found.Some? && i.found.value.Code?
    ensures var u := Step(t, Store(i.target, i.found.value));
            && u.current == s.current && !Hooked(u, i.target)
            && HasHooks(s, InstallOne(t, i), h, hooks + HooksOf([i], h), Write(cells, i.target, i.found.value))
  {
    hide Targeted;
    var u, more := Step(t, Store(i.target, i.found.value)), HooksOf([i], h);
    var written := Write(cells, i.target, i.found.value);
    assert [i][..0] == [] && HooksOf([], h) == [];
    forall e | e in hooks ensures e.target != i.target && e.original == written[e.target] {
      TargetedBy(hooks, e);
    }
    assert u.active == t.active && u.cells[i.target] == i.found.value;
    assert forall c :: 0 <= c < |u.cells| ==>
             u.cells[c] == if Targeted(hooks, c) then Trampoline(s.live[h]) else written[c];
    var v := InstallOne(t, i);
    if more == [] {
      assert hooks + more == hooks;
      assert v == u;
    } else {
      assert more == [Hook(h, i.target, i.detour, i.found.value)];
      TargetedAppend(hooks, more[0]);
      assert v.active == t.active + more == s.active + (hooks + more);
      assert v.cells == u.cells[i.target := Trampoline(s.live[h])];
    }
  }

  lemma TargetedBy(hooks: seq<Hook>, e: Hook)
    requires e in hooks
    ensures Targeted(hooks, e.target)
  {
    var k :| 0 <= k < |hooks| && hooks[k] == e;
  }

  lemma {:induction false} KeptOthers(others: seq<Hook>, own: seq<Hook>, h: Handle)
    requires !Refers(others, h) && forall e :: e in own ==> e.handle == h
    ensures Kept(others + own, h) == others
    decreases |others| + |own|
  {
    var all := others + own;
    if others != [] {
      assert others[0].handle != h && all[1..] == others[1..] + own;
      assert forall i :: 0 <= i < |others[1..]| ==> others[1..][i] == others[i + 1];
      KeptOthers(others[1..], own, h);
    } else if own != [] {
      assert all[0] == own[0] && all[1..] == [] + own[1..];
      KeptOthers([], own[1..], h);
    }
  }

  /** Installing a module: if the commit works, the new handle is installed with one entry for each
      function that was found and prepared, in order, exactly those pointers lead into it, and
      every other pointer is what was found for it or unchanged.  If it fails, the pointers keep
      what was found, and no entry and no handle is left of it. */
  lemma ModuleInstall(s: State, items: seq<Install>, h: Handle, installs: bool)
    requires Inv(s) && Proper(s, Begin(Some(h))) && Installable(Abandoned(s), items)
    ensures var t, u, hooks := InstallModule(s, items, Some(h), installs), Abandoned(s), HooksOf(items, h);
            && Inv(t) && t.current.None? && |t.cells| == |s.cells|
            && t.active == u.active + (if installs then hooks else [])
            && t.live == (if installs then u.live[h := s.created] else u.live) && (installs ==> h in t.installed)
            && forall c :: 0 <= c < |t.cells| ==>
                 t.cells[c] ==
                 if installs && Targeted(hooks, c) then Trampoline(s.created) else Found(u.cells, items)[c]
  {
    hide Inv, InstallAll, HooksOf, Found, Abandoned, Kept, Restored, Installable;
    var u, begun, hooks := Abandoned(s), BeginStep(s, Some(h)), HooksOf(items, h);
    BeginAbandons(s, Some(h));
    StepKeeps(s, Begin(Some(h)));
    BeginsEmpty(u, Some(h));
    assert Installable(begun, items) by { StillInstallable(u, begun, items); }
    InstallsPrepare(begun, items, h);
    var r := InstallAll(begun, items);
    StepKeeps(r, Commit(installs));
    KeptOthers(u.active, hooks, h);
    if !installs {
      FailedInstall(begun, r, h, hooks, Found(begun.cells, items));
      FailingTakesBack(r);
    }
  }

  lemma FailingTakesBack(s: State)
    requires s.current.Some?
    ensures CommitStep(s, false).cells == Abandoned(s).cells
  {
  }

  lemma StillInstallable(s: State, t: State, items: seq<Install>)
    requires Installable(s, items) && t.active == s.active && |t.cells| == |s.cells|
    ensures Installable(t, items)
  {
  }

  lemma FailedInstall(s: State, r: State, h: Handle, hooks: seq<Hook>, cells: seq<Pointer>)
    requires Inv(r) && HasHooks(s, r, h, hooks, cells) && !Refers(s.active, h)
    ensures Abandoned(r).cells == cells
  {
    hide Inv, Abandoned;
    AbandonedIs(r);
    assert |Abandoned(r).cells| == |cells| by { BeginAbandons(r, None); }
    forall c | 0 <= c < |cells| ensures Abandoned(r).cells[c] == cells[c] {
      if k :| 0 <= k < |r.active| && r.active[k].target == c {
        assert r.active[k] in r.active;
      }
    }
  }

  /** Installing and then uninstalling a module: its entries and its handle are gone, the pointers
      it had hooked are null, and all others' entries, pointers and handles are as they were. */
  lemma InstallThenUninstall(s: State, items: seq<Install>, h: Handle, handle: Option<Handle>, installs: bool)
    requires Inv(s) && Proper(s, Begin(Some(h))) && Installable(Abandoned(s), items) && HooksOf(items, h) != []
    requires Proper(InstallModule(s, items, Some(h), true), Begin(handle))
    ensures var hooks, u := HooksOf(items, h), Abandoned(s);
            var t := UninstallModule(InstallModule(s, items, Some(h), true), hooks, handle, installs);
            && Inv(t) && t.current.None? && t.active == u.active && s.created in t.destroyed
            && t.live == (if handle.Some? && installs then u.live[handle.value := s.created + 1] else u.live)
            && |t.cells| == |s.cells|
            && forall c :: 0 <= c < |t.cells| ==>
                 t.cells[c] == if Targeted(hooks, c) then Null else Found(u.cells, items)[c]
  {
    hide Inv, HooksOf, Found, InstallModule, UninstallModule, Installable, Kept, Lists;
    var hooks, u, t := HooksOf(items, h), Abandoned(s), InstallModule(s, items, Some(h), true);
    BeginAbandons(s, Some(h));
    BeginsEmpty(u, Some(h));
    ModuleInstall(s, items, h, true);
    InstallCounts(s, items, h);
    OwnHooks(items, h);
    assert Lists(t, h, hooks) by { ListsInstalled(u.active, t, h, hooks); }
    ModuleUninstall(t, h, hooks, handle, installs);
    KeptOthers(u.active, hooks, h);
  }

  lemma {:induction false} OwnHooks(items: seq<Install>, h: Handle)
    ensures forall e :: e in HooksOf(items, h) ==> e.handle == h
  {
    if items != [] {
      OwnHooks(items[..|items| - 1], h);
    }
  }

  lemma ListsInstalled(others: seq<Hook>, t: State, h: Handle, hooks: seq<Hook>)
    requires Inv(t) && t.active == others + hooks && !Refers(others, h) && forall e :: e in hooks ==> e.handle == h
    ensures Lists(t, h, hooks)
  {
    forall i, j | 0 <= i < j < |hooks| ensures hooks[i].target != hooks[j].target {
      assert t.active[|others| + i] == hooks[i] && t.active[|others| + j] == hooks[j];
    }
    assert forall e :: e in t.active <==> e in others || e in hooks;
  }

  /** Installing a module creates one handle. */
  lemma InstallCounts(s: State, items: seq<Install>, h: Handle)
    requires Inv(s) && Proper(s, Begin(Some(h)))
    ensures InstallModule(s, items, Some(h), true).created == s.created + 1
  {
    hide Inv, InstallAll, Abandoned;
    BeginAbandons(s, Some(h));
    BeginsEmpty(Abandoned(s), Some(h));
    InstallsCreateNone(BeginStep(s, Some(h)), items);
  }

  lemma {:induction false} InstallsCreateNone(s: State, items: seq<Install>)
    requires s.current.Some?
    ensures InstallAll(s, items).current == s.current && InstallAll(s, items).created == s.created
  {
    if items != [] {
      InstallsCreateNone(s, items[..|items| - 1]);
    }
  }

  // ---- a module whose own transaction is still open ----

  lemma {:induction false} NothingToDetach(s: State, hooks: seq<Hook>)
    requires forall i :: 0 <= i < |hooks| ==> !Hooked(s, hooks[i].target)
    ensures UninstallAll(s, hooks) == s
    decreases hooks
  {
    if hooks != [] {
      var i := Find(s.active, Some(hooks[0].target), hooks[0].detour);
      assert !Hooked(s, hooks[0].target);
      assert i == |s.active|;
      NothingToDetach(s, hooks[1..]);
    }
  }

  /** The hooks of a transaction that an Attach opened and nothing has closed are not uninstalled by
      their module: its own begin takes their entries back, the detaches find nothing, and the
      pointers are left at their originals. */
  lemma OwnModuleStays(s: State, hooks: seq<Hook>, handle: Option<Handle>, installs: bool)
    requires Inv(s) && s.current.Some? && Proper(s, Begin(handle))
    requires forall e :: e in hooks ==> e in s.active && s.current == Some(e.handle)
    ensures var t := UninstallModule(s, hooks, handle, installs);
            && Inv(t) && t.current.None? && t.active == Abandoned(s).active && t.cells == Abandoned(s).cells
            && forall e :: e in hooks ==> e.target < |t.cells| && t.cells[e.target] == e.original && e.original != Null
  {
    hide Inv, UninstallAll, Refers, CommitStep, BeginStep, Abandoned;
    var begun := BeginStep(s, handle);
    StepKeeps(s, Begin(handle));
    BeginAbandons(s, handle);
    AbandonedIs(s);
    BeginsEmpty(Abandoned(s), handle);
    forall i | 0 <= i < |hooks| ensures !Hooked(begun, hooks[i].target) {
      assert hooks[i] in hooks;
      NotHookedBehind(s, begun, hooks[i]);
    }
    NothingToDetach(begun, hooks);
    CommitsEmpty(begun, installs);
    forall e | e in hooks ensures e.original != Null {
      HandleOf(s, e);
    }
  }

  lemma NotHookedBehind(s: State, t: State, e: Hook)
    requires Inv(s) && e in s.active && s.current == Some(e.handle)
    requires forall x :: x in t.active ==> x in s.active && s.current != Some(x.handle)
    ensures !Hooked(t, e.target)
  {
    AtTarget(s.active, t.active, e);
  }

  /** Exactly when UNINSTALL_HOOK inside a module's brackets nulls a hooked pointer: if and only if
      its entry is not one of the transaction that was open when the module began. */
  lemma UninstallNulls(s: State, e: Hook, handle: Option<Handle>, installs: bool)
    requires Inv(s) && e in s.active && Proper(s, Begin(handle))
    ensures var t := UninstallModule(s, [e], handle, installs);
            && Inv(t) && e.target < |t.cells|
            && (t.cells[e.target] == Null <==> s.current != Some(e.handle))
  {
    if s.current == Some(e.handle) {
      OwnModuleStays(s, [e], handle, installs);
    } else {
      hide Inv, UninstallHook, Refers, CommitStep, BeginStep, Abandoned, Kept, Restored;
      var u, begun := Abandoned(s), BeginStep(s, handle);
      StepKeeps(s, Begin(handle));
      BeginAbandons(s, handle);
      AbandonedIs(s);
      BeginsEmpty(u, handle);
      InvNames(u, e);
      OneNulled(begun, e);
      assert [e][1..] == [] && UninstallAll(begun, [e]) == UninstallHook(begun, e);
      var off := UninstallHook(begun, e);
      if begun.current.Some? && Refers(off.active, begun.current.value) {
        var x := Referring(off.active, begun.current.value);
        RefersIn(begun.active, x);
      }
      CommitsEmpty(off, installs);
    }
  }

  /** Uninstalling one hook of a handle that is not open. */
  lemma OneNulled(s: State, e: Hook)
    requires Inv(s) && e in s.active && s.current != Some(e.handle)
    ensures var t := UninstallHook(s, e);
            && Inv(t) && t.current == s.current && e.target < |t.cells| && t.cells[e.target] == Null
            && forall x :: x in t.active ==> x in s.active
  {
    hide Inv, UninstallHook, Off;
    if e.handle in s.uninstalled {
      UninstallOne(s, e);
    } else {
      FirstDetachTakesAllOff(s, e);
      OffIs(s, e.handle);
      UninstallOne(Off(s, e.handle), e);
    }
  }

  lemma OffIs(s: State, g: Handle)
    ensures Off(s, g).active == s.active && Off(s, g).current == s.current && g in Off(s, g).uninstalled
  {
  }

  lemma {:induction false} UninstallAllKeepsCurrent(s: State, hooks: seq<Hook>)
    ensures UninstallAll(s, hooks).current == s.current && UninstallAll(s, hooks).created == s.created
    decreases hooks
  {
    if hooks != [] {
      UninstallAllKeepsCurrent(UninstallHook(s, hooks[0]), hooks[1..]);
    }
  }

  lemma OffElsewhere(s: State, g: Handle, hooks: seq<Hook>)
    requires Inv(s) && Lists(s, g, hooks)
    ensures |Off(s, g).cells| == |s.cells|
    ensures forall c :: 0 <= c < |s.cells| && !Targeted(hooks, c) ==> Off(s, g).cells[c] == s.cells[c]
  {
    CellsInRange(s);
    RestoredIs(s.cells, s.active, g);
    forall c | 0 <= c < |s.cells| && !Targeted(hooks, c) ensures Off(s, g).cells[c] == s.cells[c] {
      forall i | 0 <= i < |s.active| && s.active[i].handle == g ensures s.active[i].target != c {
        assert s.active[i] in hooks;
      }
    }
  }

  // ---- what the protocol does not free, and why the premises are needed ----

  /** A transaction committed without any hook -- every UNHOOK_BEGIN and UNHOOK_END opens and
      commits one -- leaves a handle that no later run destroys. */
  lemma {:induction false} EmptyCommitIsNeverFreed(s: State, es: seq<Event>, h: Handle)
    requires Inv(s) && h in s.live && s.current != Some(h) && !Refers(s.active, h) && ProperRun(s, es)
    ensures h in Run(s, es).live && Run(s, es).live[h] == s.live[h]
    decreases es
  {
    hide Inv, Refers, Run;
    assert ProperRun(s, es);
    if es != [] {
      StepKeeps(s, es[0]);
      UnreferredStays(s, es[0], h);
      EmptyCommitIsNeverFreed(Step(s, es[0]), es[1..], h);
      RunUnfolds(s, es);
    } else {
      RunEmpty(s);
    }
  }

  /** Uninstalling hooks leaves the handle of the open transaction alone as long as it has no
      entry, whatever the hooks are. */
  lemma {:induction false} OpenHandleStays(s: State, hooks: seq<Hook>, h: Handle)
    requires Inv(s) && s.current == Some(h) && !Refers(s.active, h)
    ensures var t := UninstallAll(s, hooks); Inv(t) && t.current == Some(h) && !Refers(t.active, h)
    decreases hooks
  {
    hide Inv, UninstallHook, Refers;
    if hooks != [] {
      AnyUninstall(s, hooks[0], h);
      OpenHandleStays(UninstallHook(s, hooks[0]), hooks[1..], h);
    }
  }

  lemma AnyUninstall(s: State, e: Hook, h: Handle)
    requires Inv(s) && s.current == Some(h) && !Refers(s.active, h)
    ensures var t := UninstallHook(s, e); Inv(t) && t.current == Some(h) && !Refers(t.active, h)
  {
    var i := Find(s.active, Some(e.target), e.detour);
    if e.target < |s.cells| && s.cells[e.target] != Null && i < |s.active| {
      var x := s.active[i];
      assert x in s.active;
      RefersIn(s.active, x);
      hide Inv, Refers;
      OneNulled(s, x);
      assert UninstallHook(s, x) == UninstallHook(s, e) by { FindAgain(s, e); }
      StillUnreferred(s.active, UninstallHook(s, e).active, h);
    }
  }

  lemma FindAgain(s: State, e: Hook)
    requires Find(s.active, Some(e.target), e.detour) < |s.active|
    ensures UninstallHook(s, s.active[Find(s.active, Some(e.target), e.detour)]) == UninstallHook(s, e)
  {
  }

  /** So each module that is uninstalled leaks the handle of the transaction around it, whatever
      hooks it has and whatever was open before. */
  lemma UninstallLeavesHandle(s: State, hooks: seq<Hook>, handle: Handle, es: seq<Event>)
    requires Inv(s) && Proper(s, Begin(Some(handle))) && ProperRun(UninstallModule(s, hooks, Some(handle), true), es)
    ensures handle in Run(UninstallModule(s, hooks, Some(handle), true), es).live
  {
    hide Inv, Refers, ProperRun, Run, UninstallAll, BeginStep, CommitStep, Abandoned;
    var begun := BeginStep(s, Some(handle));
    BeginAbandons(s, Some(handle));
    StepKeeps(s, Begin(Some(handle)));
    BeginsEmpty(Abandoned(s), Some(handle));
    OpenHandleStays(begun, hooks, handle);
    var off := UninstallAll(begun, hooks);
    CurrentIsLive(off);
    CommitsEmpty(off, true);
    EmptyCommitIsNeverFreed(UninstallModule(s, hooks, Some(handle), true), es, handle);
  }

  lemma RunUnfolds(s: State, es: seq<Event>)
    requires es != [] && ProperRun(s, es)
    ensures Run(s, es) == Run(Step(s, es[0]), es[1..])
  {
  }

  lemma RunEmpty(s: State)
    ensures Run(s, []) == s
  {
  }

  lemma UnreferredStays(s: State, e: Event, h: Handle)
    requires Inv(s) && h in s.live && s.current != Some(h) && !Refers(s.active, h) && Proper(s, e)
    ensures var t := Step(s, e);
            h in t.live && t.live[h] == s.live[h] && t.current != Some(h) && !Refers(t.active, h)
  {
    hide Owned, Serials, EntryOk, Restored, Proper;
    var t := Step(s, e);
    match e
    case Begin(handle) =>
      assert handle != Some(h) by { FreshIsNot(s, e, h); }
      if s.current.Some? {
        KeptIs(s.active, s.current.value);
      }
      StillUnreferred(s.active, t.active, h);
    case Commit(_) =>
      if s.current.Some? {
        KeptIs(s.active, s.current.value);
      }
      StillUnreferred(s.active, t.active, h);
    case Attach(target, detour, handle, ok) =>
      assert handle != Some(h) by { FreshIsNot(s, e, h); }
      var c := if s.current.Some? then s.current.value else if handle.Some? then handle.value else h + 1;
      forall i | 0 <= i < |t.active| ensures t.active[i].handle != h {
        if i < |s.active| {
          assert t.active[i] == s.active[i];
        }
      }
    case Detach(target, detour) =>
      var i := Find(s.active, target, detour);
      if i < |s.active| {
        RemoveIs(s.active, i);
      }
      StillUnreferred(s.active, t.active, h);
    case Store(_, _) =>
  }

  lemma FreshIsNot(s: State, e: Event, h: Handle)
    requires h in s.live && s.current != Some(h) && Proper(s, e)
    ensures e.Begin? || e.Attach? ==> e.handle != Some(h)
  {
  }

  lemma StillUnreferred(before: seq<Hook>, after: seq<Hook>, h: Handle)
    requires !Refers(before, h) && forall e :: e in after ==> e in before
    ensures !Refers(after, h)
  {
    if Refers(after, h) {
      var e := Referring(after, h);
      RefersIn(before, e);
    }
  }

  const UNUSED := State(None, [], {}, [Code(1)], map[], {}, [], 0, false)

  const HOOK := Hook(0, 0, Code(10), Code(1))

  /** One hook, committed. */
  const HOOKED := State(None, [HOOK], {}, [Trampoline(0)], map[0 := 0], {0}, [], 1, false)

  /** One hook, attached outside a transaction. */
  const LATE := State(Some(0), [HOOK], {}, [Trampoline(0)], map[0 := 0], {}, [], 1, false)

  lemma HookedByRun()
    ensures Run(UNUSED, [Begin(Some(0)), Attach(Some(0), Code(10), None, true), Commit(true)]) == HOOKED
  {
    var es := [Begin(Some(0)), Attach(Some(0), Code(10), None, true), Commit(true)];
    assert es[1..] == [es[1], es[2]] && es[1..][1..] == [es[2]] && [es[2]][1..] == [];
    var s1 := Step(UNUSED, es[0]);
    assert Step(s1, es[1]) == HOOKED.(current := Some(0), installed := {});
  }

  /** The leak at work: a hook installed and uninstalled leaves nothing but the handle of the
      second transaction. */
  lemma LeakHappens()
    ensures Initial(UNUSED)
    ensures var s := Run(UNUSED, [Begin(Some(0)), Attach(Some(0), Code(10), None, true), Commit(true)]);
            var t := UninstallModule(s, s.active, Some(1), true);
            |s.active| == 1 && t.active == [] && t.cells == [Null] && t.live == map[1 := 1]
  {
    HookedByRun();
    var begun := BeginStep(HOOKED, Some(1));
    LastHookOff(begun);
    assert [HOOK][1..] == [];
    hide UninstallHook, Run;
    assert UninstallAll(begun, [HOOK]) == UninstallHook(begun, HOOK);
  }

  lemma LastHookOff(s: State)
    requires s == State(Some(1), [HOOK], {}, [Trampoline(0)], map[0 := 0, 1 := 1], {0}, [], 2, false)
    ensures UninstallHook(s, HOOK) == State(Some(1), [], {}, [Null], map[1 := 1], {}, [0], 2, false)
  {
    hide Restored;
    var t := DetachLast(s, HOOK);
  }

  /** A late hook whose module is uninstalled while it waits: the entry is gone, but the pointer
      keeps the original instead of becoming null. */
  lemma LateHookStays()
    ensures var s := Step(UNUSED, Attach(Some(0), Code(10), Some(0), true));
            var t := UninstallModule(s, s.active, Some(1), true);
            |s.active| == 1 && s.cells == [Trampoline(0)] && t.active == [] && t.cells == [Code(1)]
  {
    hide Inv, UninstallModule, Abandoned, Step, Initial;
    LateIsReached();
    LateAbandoned();
    OwnModuleStays(LATE, [HOOK], Some(1), true);
  }

  lemma LateIsReached()
    ensures Step(UNUSED, Attach(Some(0), Code(10), Some(0), true)) == LATE && Inv(LATE)
  {
    assert LATE.active[0] == HOOK && EntryOk(LATE, HOOK);
  }

  lemma LateAbandoned()
    ensures Abandoned(LATE).active == [] && |Abandoned(LATE).cells| == 1
  {
    assert LATE.active[1..] == [] && Kept(LATE.active, 0) == Kept([], 0);
  }

  /** Without the first premise: a target hooked twice and then unhooked in the order it was
      hooked ends up pointing into a trampoline that is gone. */
  lemma HookingTwiceDangles()
    ensures Initial(UNUSED)
    ensures var t := Run(UNUSED, [Begin(Some(0)), Attach(Some(0), Code(10), None, true), Commit(true),
                                  Begin(Some(1)), Attach(Some(0), Code(11), None, true), Commit(true),
                                  Detach(Some(0), Code(10)), Detach(Some(0), Code(11))]);
            t.cells == [Trampoline(0)] && 0 in t.destroyed
  {
    var s1 := Step(UNUSED, Begin(Some(0)));
    var s2 := Step(s1, Attach(Some(0), Code(10), None, true));
    var h1 := Hook(0, 0, Code(10), Code(1));
    assert s2.active == [h1] && s2.cells == [Trampoline(0)];
    var s3 := Step(s2, Commit(true));
    var s4 := Step(s3, Begin(Some(1)));
    var s5 := Step(s4, Attach(Some(0), Code(11), None, true));
    var h2 := Hook(1, 0, Code(11), Trampoline(0));
    assert s5.active == [h1, h2];
    var s6 := Step(s5, Commit(true));
    var s7 := DetachFirst(s6, h1, h2);
    assert s7.cells == [Code(1)] && s7.active == [h2] && s7.destroyed == [0];
    var s8 := DetachLast(s7, h2);
    RunEight(UNUSED, [Begin(Some(0)), Attach(Some(0), Code(10), None, true), Commit(true),
                      Begin(Some(1)), Attach(Some(0), Code(11), None, true), Commit(true),
                      Detach(Some(0), Code(10)), Detach(Some(0), Code(11))]);
  }

  lemma RunEight(s: State, es: seq<Event>)
    requires |es| == 8
    ensures Run(s, es) ==
            Step(Step(Step(Step(Step(Step(Step(Step(s, es[0]), es[1]), es[2]), es[3]), es[4]), es[5]), es[6]), es[7])
  {
    var s2 := Step(Step(s, es[0]), es[1]);
    var s4 := Step(Step(s2, es[2]), es[3]);
    var s6 := Step(Step(s4, es[4]), es[5]);
    RunTwo(s, es);
    RunTwo(s2, es[2..]);
    assert es[2..][2..] == es[4..];
    RunTwo(s4, es[4..]);
    assert es[4..][2..] == es[6..];
    RunTwo(s6, es[6..]);
    assert es[6..][2..] == [];
  }

  lemma RunTwo(s: State, es: seq<Event>)
    requires |es| >= 2
    ensures Run(s, es) == Run(Step(Step(s, es[0]), es[1]), es[2..])
  {
    assert es[1..][1..] == es[2..];
  }

  /** Detaching the first of two hooks of different handles. */
  lemma DetachFirst(s: State, a: Hook, b: Hook) returns (t: State)
    requires s.active == [a, b] && a.handle != b.handle && a.handle !in s.uninstalled && a.handle in s.live
    requires a.target < |s.cells| && (a.target, a.detour) != (b.target, b.detour)
    ensures t == Step(s, Detach(Some(a.target), a.detour))
    ensures t.active == [b] && t.cells == s.cells[a.target := a.original] && t.uninstalled == s.uninstalled
    ensures t.live == s.live - {a.handle} && t.destroyed == s.destroyed + [s.live[a.handle]] && t.created == s.created
  {
    t := Step(s, Detach(Some(a.target), a.detour));
    assert s.active[1..] == [b] && [b][1..] == [];
    assert Restored(s.cells, [b], a.handle) == s.cells;
    assert Restored(s.cells, s.active, a.handle) == Restored(s.cells[a.target := a.original], [b], a.handle);
    assert Restored(s.cells[a.target := a.original], [b], a.handle) ==
           Restored(s.cells[a.target := a.original], [], a.handle);
    assert Remove(s.active, 0) == [b];
  }

  lemma DetachLast(s: State, a: Hook) returns (t: State)
    requires s.active == [a] && a.handle !in s.uninstalled && a.handle in s.live && a.target < |s.cells|
    ensures t == Step(s, Detach(Some(a.target), a.detour))
    ensures t.active == [] && t.cells == s.cells[a.target := a.original]
    ensures t.live == s.live - {a.handle} && t.destroyed == s.destroyed + [s.live[a.handle]]
    ensures t.current == s.current && t.fault == s.fault
  {
    t := Step(s, Detach(Some(a.target), a.detour));
    assert s.active[1..] == [];
    assert Restored(s.cells, s.active, a.handle) == Restored(s.cells[a.target := a.original], [], a.handle);
    assert Remove(s.active, 0) == [];
  }

  /** Without the second premise: detaching the only hook of the open transaction destroys its
      handle, and the commit that follows uses it. */
  lemma DetachingOpenHookUsesDeadHandle()
    ensures var s := Run(UNUSED, [Begin(Some(0)), Attach(Some(0), Code(10), None, true)]);
            var t := Step(s, Detach(Some(0), Code(10)));
            t.current == Some(0) && 0 !in t.live && !t.fault && Step(t, Commit(true)).fault
  {
    var s1 := Step(UNUSED, Begin(Some(0)));
    var s2 := Step(s1, Attach(Some(0), Code(10), None, true));
    assert s2.active == [Hook(0, 0, Code(10), Code(1))];
    var es := [Begin(Some(0)), Attach(Some(0), Code(10), None, true)];
    assert es[1..] == [es[1]] && es[1..][1..] == [];
    assert Run(UNUSED, es) == Run(s1, es[1..]) == Run(s2, []);
    var t := DetachLast(s2, Hook(0, 0, Code(10), Code(1)));
  }
}
