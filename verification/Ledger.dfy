/** The detour ledger as the program keeps it: three global variables, changed in place by
    four operations that also write through the callers' pointers. */
module Ledger {
  import opened Outcomes
  import opened Detours
  import HookGroups

  /** Funchook as the ledger uses it; what it answers is handed to the operations. */
  class Funchook {
    var live: map<Handle, nat>
    var installed: set<Handle>
    var destroyed: seq<nat>
    var created: nat
    var fault: bool

    constructor ()
      ensures live == map[] && installed == {} && destroyed == [] && created == 0 && !fault
    {
      live, installed, destroyed, created, fault := map[], {}, [], 0, false;
    }

    method Create(h: Handle)
      modifies this
      ensures live == old(live)[h := old(created)] && created == old(created) + 1
      ensures installed == old(installed) && destroyed == old(destroyed) && fault == old(fault)
    {
      live := live[h := created];
      created := created + 1;
    }

    method Destroy(h: Handle)
      modifies this
      ensures created == old(created)
      ensures if h in old(live) then live == old(live) - {h} && installed == old(installed) - {h}
                                     && destroyed == old(destroyed) + [old(live)[h]] && fault == old(fault)
              else live == old(live) && installed == old(installed) && destroyed == old(destroyed) && fault
    {
      if h in live {
        destroyed := destroyed + [live[h]];
        live := live - {h};
        installed := installed - {h};
      } else {
        fault := true;
      }
    }

    method Install(h: Handle)
      modifies this
      ensures installed == old(installed) + {h} && fault == (old(fault) || h !in live)
      ensures live == old(live) && destroyed == old(destroyed) && created == old(created)
    {
      installed := installed + {h};
      fault := fault || h !in live;
    }

    method Uninstall(h: Handle)
      modifies this
      ensures installed == old(installed) - {h} && fault == (old(fault) || h !in live)
      ensures live == old(live) && destroyed == old(destroyed) && created == old(created)
    {
      installed := installed - {h};
      fault := fault || h !in live;
    }

    /** Try to redirect the pointer in cell t into h's trampolines. */
    method Prepare(h: Handle, cells: array<Pointer>, t: Cell, ok: bool) returns (done: bool)
      requires t < cells.Length
      modifies this, cells
      ensures done == (ok && h in live) && fault == (old(fault) || h !in live)
      ensures live == old(live) && installed == old(installed) && destroyed == old(destroyed) && created == old(created)
      ensures cells[..] == if done then old(cells[..])[t := Trampoline(live[h])] else old(cells[..])
    {
      fault := fault || h !in live;
      done := ok && h in live;
      if done {
        cells[t] := Trampoline(live[h]);
      }
    }
  }

  /** One turn of the loops over the entries from i on. */
  lemma UnfoldLoops(cells: seq<Pointer>, hooks: seq<Hook>, i: nat, h: Handle)
    requires i < |hooks|
    ensures Kept(hooks[i..], h) == (if hooks[i].handle == h then [] else [hooks[i]]) + Kept(hooks[i + 1..], h)
    ensures Restored(cells, hooks[i..], h) ==
            Restored(if hooks[i].handle == h then Write(cells, hooks[i].target, hooks[i].original) else cells,
                     hooks[i + 1..], h)
  {
    assert hooks[i..][1..] == hooks[i + 1..];
  }

  lemma EmptyLoops(cells: seq<Pointer>, h: Handle)
    ensures Kept([], h) == [] && Restored(cells, [], h) == cells
  {
  }

  class Detour {
    const cells: array<Pointer>
    const funchook: Funchook
    var current: Option<Handle>
    var activeHooks: seq<Hook>
    var uninstalled: set<Handle>

    ghost function View(): State
      reads this, cells, funchook
    {
      State(current, activeHooks, uninstalled, cells[..],
            funchook.live, funchook.installed, funchook.destroyed, funchook.created, funchook.fault)
    }

    /** Callers' pointers lie in the cells that exist. */
    ghost predicate Valid()
      reads this, cells
    {
      forall i :: 0 <= i < |activeHooks| ==> activeHooks[i].target < cells.Length
    }

    constructor (cells: array<Pointer>)
      requires forall c :: 0 <= c < cells.Length ==> !cells[c].Trampoline?
      ensures Valid() && this.cells == cells && fresh(funchook) && Initial(View()) && cells[..] == old(cells[..])
    {
      this.cells := cells;
      funchook := new Funchook();
      current, activeHooks, uninstalled := None, [], {};
    }

    /** The roll-back loop: restore and erase the entries of h while walking the ledger. */
    method RestoreAndErase(h: Handle)
      requires Valid()
      modifies this`activeHooks, cells
      ensures Valid()
      ensures activeHooks == Kept(old(activeHooks), h)
      ensures cells[..] == Restored(old(cells[..]), old(activeHooks), h)
    {
      hide Kept, Restored;
      var i := 0;
      assert activeHooks[..0] == [] && activeHooks[0..] == activeHooks;
      while i < |activeHooks|
        invariant i <= |activeHooks| && Valid()
        invariant activeHooks[..i] + Kept(activeHooks[i..], h) == Kept(old(activeHooks), h)
        invariant Restored(cells[..], activeHooks[i..], h) == Restored(old(cells[..]), old(activeHooks), h)
        decreases |activeHooks| - i
      {
        var hook := activeHooks[i];
        ghost var before := activeHooks;
        UnfoldLoops(cells[..], activeHooks, i, h);
        if hook.handle == h {
          cells[hook.target] := hook.original;
          activeHooks := activeHooks[..i] + activeHooks[i + 1..];
          assert activeHooks[i..] == before[i + 1..] && activeHooks[..i] == before[..i];
        } else {
          i := i + 1;
          assert activeHooks[..i] == before[..i - 1] + [hook];
        }
      }
      assert activeHooks[i..] == [] && activeHooks[..i] + [] == activeHooks;
      EmptyLoops(cells[..], h);
    }

    method Rollback()
      requires Valid() && current.Some?
      modifies this, cells, funchook
      ensures Valid() && View() == Detours.Rollback(old(View()))
    {
      var h := current.value;
      RestoreAndErase(h);
      uninstalled := uninstalled - {h};
      funchook.Destroy(h);
      current := None;
    }

    method BeginTransaction(handle: Option<Handle>) returns (ok: bool)
      requires Valid()
      modifies this, cells, funchook
      ensures Valid() && View() == Step(old(View()), Begin(handle)) && ok == handle.Some?
    {
      if current.Some? {
        Rollback();
      }
      if handle.None? {
        return false;
      }
      funchook.Create(handle.value);
      current := handle;
      return true;
    }

    method CommitTransaction(installs: bool) returns (ok: bool)
      requires Valid()
      modifies this, cells, funchook
      ensures Valid() && View() == Step(old(View()), Commit(installs)) && ok == (old(current).Some? && installs)
    {
      if current.None? {
        return false;
      }
      if !installs {
        funchook.fault := funchook.fault || current.value !in funchook.live;
        Rollback();
        return false;
      }
      funchook.Install(current.value);
      current := None;
      return true;
    }

    method Attach(target: Option<Cell>, detour: Pointer, handle: Option<Handle>, prepares: bool) returns (ok: bool)
      requires Valid()
      modifies this, cells, funchook
      ensures Valid() && View() == Step(old(View()), Event.Attach(target, detour, handle, prepares))
      ensures ok <==> |activeHooks| > |old(activeHooks)|
    {
      if current.None? {
        if handle.None? {
          return false;
        }
        funchook.Create(handle.value);
        current := handle;
      }
      if target.None? || target.value >= cells.Length || cells[target.value] == Null || detour == Null {
        return false;
      }
      var original := cells[target.value];
      var done := funchook.Prepare(current.value, cells, target.value, prepares);
      if !done {
        return false;
      }
      activeHooks := activeHooks + [Hook(current.value, target.value, detour, original)];
      return true;
    }

    /** Put every hook of h back on the real function. */
    method RestoreAll(h: Handle)
      requires Valid()
      modifies cells
      ensures Valid() && cells[..] == Restored(old(cells[..]), activeHooks, h)
    {
      hide Restored;
      assert activeHooks[0..] == activeHooks;
      for i := 0 to |activeHooks|
        invariant Restored(cells[..], activeHooks[i..], h) == Restored(old(cells[..]), activeHooks, h)
      {
        var hook := activeHooks[i];
        UnfoldLoops(cells[..], activeHooks, i, h);
        if hook.handle == h {
          cells[hook.target] := hook.original;
        }
      }
      assert activeHooks[|activeHooks|..] == [];
      EmptyLoops(cells[..], h);
    }

    /** Uninstall every hook of h and put its pointers back. */
    method TakeOff(h: Handle)
      requires Valid()
      modifies this`uninstalled, cells, funchook
      ensures Valid()
      ensures View() == Uninstall(old(View()), h).(uninstalled := old(uninstalled) + {h},
                                                   cells := Restored(old(cells[..]), activeHooks, h))
    {
      hide Restored;
      funchook.Uninstall(h);
      uninstalled := uninstalled + {h};
      RestoreAll(h);
    }

    /** Destroy h once the last entry for it is gone. */
    method DestroyIfUnreferenced(h: Handle)
      requires Valid()
      modifies this`uninstalled, funchook
      ensures Valid()
      ensures View() == if Refers(activeHooks, h) then old(View())
                        else Destroy(old(View()), h).(uninstalled := old(uninstalled) - {h})
    {
      var stillReferenced := exists k :: 0 <= k < |activeHooks| && activeHooks[k].handle == h;
      if !stillReferenced {
        funchook.Destroy(h);
        uninstalled := uninstalled - {h};
      }
    }

    method Detach(target: Option<Cell>, detour: Pointer) returns (ok: bool)
      requires Valid()
      modifies this, cells, funchook
      ensures Valid() && View() == Step(old(View()), Event.Detach(target, detour))
      ensures ok == (Find(old(activeHooks), target, detour) < |old(activeHooks)|)
    {
      hide Restored, Refers;
      var i := Find(activeHooks, target, detour);
      if i == |activeHooks| {
        return false;
      }
      var h := activeHooks[i].handle;
      if h !in uninstalled {
        TakeOff(h);
      }
      activeHooks := activeHooks[..i] + activeHooks[i + 1..];
      DestroyIfUnreferenced(h);
      return true;
    }
  }

  /** A module of hooks (src/Hook/HookMacros.h): the macros keep a flag for the transaction and
      write the module's original pointers. */
  class HookModule {
    const ledger: Detour
    var transactionOk: bool

    constructor (ledger: Detour)
      ensures this.ledger == ledger
    {
      this.ledger := ledger;
    }

    /** HOOK_BEGIN and UNHOOK_BEGIN. */
    method BeginHooks(handle: Option<Handle>)
      requires ledger.Valid()
      modifies this, ledger, ledger.cells, ledger.funchook
      ensures ledger.Valid() && ledger.View() == Step(old(ledger.View()), Begin(handle))
      ensures transactionOk == handle.Some?
    {
      transactionOk := ledger.BeginTransaction(handle);
    }

    /** HOOK_END and UNHOOK_END. */
    method EndHooks(installs: bool)
      requires ledger.Valid()
      modifies this, ledger, ledger.cells, ledger.funchook
      ensures ledger.Valid() && ledger.View() == Step(old(ledger.View()), Commit(installs))
      ensures transactionOk == (old(transactionOk) && old(ledger.View()).current.Some? && installs)
    {
      var committed := ledger.CommitTransaction(installs);
      transactionOk := committed && transactionOk;
    }

    /** INSTALL_HOOK: a function whose pattern is not found is passed over. */
    method InstallHook(found: Option<Pointer>, target: Cell, detour: Pointer, handle: Option<Handle>, prepares: bool)
      requires ledger.Valid() && target < ledger.cells.Length
      modifies this, ledger, ledger.cells, ledger.funchook
      ensures ledger.Valid()
      ensures ledger.View() ==
              if found.None? then old(ledger.View())
              else Step(Step(old(ledger.View()), Store(target, found.value)),
                        Attach(Some(target), detour, handle, prepares))
      ensures transactionOk == (old(transactionOk) && (found.None? || |ledger.activeHooks| > |old(ledger.activeHooks)|))
    {
      if found.Some? {
        ledger.cells[target] := found.value;
        var attached := ledger.Attach(Some(target), detour, handle, prepares);
        if !attached {
          transactionOk := false;
        }
      }
    }

    /** UNINSTALL_HOOK. */
    method UninstallHook(e: Hook)
      requires ledger.Valid() && e.target < ledger.cells.Length
      modifies this, ledger, ledger.cells, ledger.funchook
      ensures ledger.Valid() && ledger.View() == HookGroups.UninstallHook(old(ledger.View()), e)
      ensures transactionOk == (old(transactionOk) && (old(ledger.cells[e.target]) == Null
                || Find(old(ledger.activeHooks), Some(e.target), e.detour) < |old(ledger.activeHooks)|))
    {
      if ledger.cells[e.target] != Null {
        var detached := ledger.Detach(Some(e.target), e.detour);
        if detached {
          ledger.cells[e.target] := Null;
        } else {
          transactionOk := false;
        }
      }
    }

    /** The Install function of a module. */
    method Install(items: seq<HookGroups.Install>, handle: Option<Handle>, installs: bool)
      requires ledger.Valid() && forall i :: 0 <= i < |items| ==> items[i].target < ledger.cells.Length
      modifies this, ledger, ledger.cells, ledger.funchook
      ensures ledger.Valid() && ledger.View() == HookGroups.InstallModule(old(ledger.View()), items, handle, installs)
    {
      BeginHooks(handle);
      ghost var begun := ledger.View();
      for i := 0 to |items|
        invariant ledger.Valid()
        invariant ledger.View() == HookGroups.InstallAll(begun, items[..i])
      {
        assert items[..i + 1][..i] == items[..i];
        InstallHook(items[i].found, items[i].target, items[i].detour, items[i].handle, items[i].prepares);
      }
      assert items[..|items|] == items;
      EndHooks(installs);
    }

    /** The Uninstall function of a module. */
    method Uninstall(hooks: seq<Hook>, handle: Option<Handle>, installs: bool)
      requires ledger.Valid() && forall i :: 0 <= i < |hooks| ==> hooks[i].target < ledger.cells.Length
      modifies this, ledger, ledger.cells, ledger.funchook
      ensures ledger.Valid() && ledger.View() == HookGroups.UninstallModule(old(ledger.View()), hooks, handle, installs)
    {
      hide HookGroups.UninstallHook;
      BeginHooks(handle);
      ghost var begun := ledger.View();
      assert hooks[0..] == hooks;
      for i := 0 to |hooks|
        invariant ledger.Valid()
        invariant HookGroups.UninstallAll(ledger.View(), hooks[i..]) == HookGroups.UninstallAll(begun, hooks)
      {
        assert hooks[i..][1..] == hooks[i + 1..];
        UninstallHook(hooks[i]);
      }
      EndHooks(installs);
    }
  }
}
