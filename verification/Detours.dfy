/** The detour ledger (src/SFPlatform/Linux/Detour.cpp): hooks are attached in transactions,
    each on a funchook handle, and every hook keeps the value its caller's pointer had.
    Funchook is an abstract heap: preparing redirects a pointer into the trampolines of its
    handle, destroying unmaps them.  Handles are addresses and may be used again; the serial
    number a creation gets tells the trampolines of two lives of one address apart. */
module Detours {
  import opened Outcomes

  type Handle = nat

  type Cell = nat

  datatype Pointer = Null | Code(at: nat) | Trampoline(serial: nat)

  datatype Hook = Hook(handle: Handle, target: Cell, detour: Pointer, original: Pointer)

  /** The ledger, the callers' pointers, and funchook: the live handles with their serial
      numbers, those installed, the serial numbers destroyed in order, and whether funchook
      was ever called with a handle that is not live. */
  datatype State = State(current: Option<Handle>, active: seq<Hook>, uninstalled: set<Handle>,
                         cells: seq<Pointer>,
                         live: map<Handle, nat>, installed: set<Handle>, destroyed: seq<nat>, created: nat, fault: bool)

  /** Calls of the four operations with what funchook answers, and callers writing their own
      pointers. */
  datatype Event =
    | Begin(handle: Option<Handle>)
    | Commit(ok: bool)
    | Attach(target: Option<Cell>, detour: Pointer, handle: Option<Handle>, ok: bool)
    | Detach(target: Option<Cell>, detour: Pointer)
    | Store(cell: Cell, value: Pointer)

  // ---- funchook ----

  function Create(s: State, h: Handle): State {
    s.(live := s.live[h := s.created], created := s.created + 1)
  }

  function Destroy(s: State, h: Handle): State {
    if h in s.live then
      s.(live := s.live - {h}, installed := s.installed - {h}, destroyed := s.destroyed + [s.live[h]])
    else s.(fault := true)
  }

  function Uninstall(s: State, h: Handle): State {
    s.(installed := s.installed - {h}, fault := s.fault || h !in s.live)
  }

  function Install(s: State, h: Handle): State {
    s.(installed := s.installed + {h}, fault := s.fault || h !in s.live)
  }

  // ---- the loops of the ledger ----

  /** The entries of other handles, in order. */
  function Kept(hooks: seq<Hook>, h: Handle): seq<Hook> {
    if hooks == [] then []
    else (if hooks[0].handle == h then [] else [hooks[0]]) + Kept(hooks[1..], h)
  }

  function Write(cells: seq<Pointer>, c: Cell, value: Pointer): seq<Pointer> {
    if c < |cells| then cells[c := value] else cells
  }

  /** The callers' pointers after every entry of h has put its original back, in order. */
  function Restored(cells: seq<Pointer>, hooks: seq<Hook>, h: Handle): (r: seq<Pointer>)
    ensures |r| == |cells|
    decreases hooks
  {
    if hooks == [] then cells
    else
      var next := if hooks[0].handle == h then Write(cells, hooks[0].target, hooks[0].original) else cells;
      Restored(next, hooks[1..], h)
  }

  /** The position of the first entry for this target and detour, or the number of entries. */
  function Find(hooks: seq<Hook>, target: Option<Cell>, detour: Pointer): (i: nat)
    ensures i <= |hooks|
    ensures i < |hooks| ==> Some(hooks[i].target) == target && hooks[i].detour == detour
    ensures forall k :: 0 <= k < i ==> !(Some(hooks[k].target) == target && hooks[k].detour == detour)
  {
    if hooks == [] || (Some(hooks[0].target) == target && hooks[0].detour == detour) then 0
    else 1 + Find(hooks[1..], target, detour)
  }

  predicate Refers(hooks: seq<Hook>, h: Handle) {
    exists i :: 0 <= i < |hooks| && hooks[i].handle == h
  }

  function Remove(hooks: seq<Hook>, i: nat): seq<Hook>
    requires i < |hooks|
  {
    hooks[..i] + hooks[i + 1..]
  }

  // ---- the four operations ----

  /** Take the open transaction back: pointers, entries, handle. */
  function Rollback(s: State): State
    requires s.current.Some?
  {
    var h := s.current.value;
    Destroy(s.(cells := Restored(s.cells, s.active, h), active := Kept(s.active, h),
               uninstalled := s.uninstalled - {h}, current := None), h)
  }

  function BeginStep(s: State, handle: Option<Handle>): State
  {
    var s := if s.current.Some? then Rollback(s) else s;
    if handle.None? then s else Create(s, handle.value).(current := handle)
  }

  function CommitStep(s: State, ok: bool): State
  {
    if s.current.None? then s
    else if !ok then Rollback(s.(fault := s.fault || s.current.value !in s.live))
    else Install(s, s.current.value).(current := None)
  }

  predicate ValidTarget(s: State, target: Option<Cell>, detour: Pointer) {
    target.Some? && target.value < |s.cells| && s.cells[target.value] != Null && detour != Null
  }

  function AttachStep(s: State, target: Option<Cell>, detour: Pointer, handle: Option<Handle>, ok: bool): State {
    if s.current.None? && handle.None? then s
    else
      var s := if s.current.None? then Create(s, handle.value).(current := handle) else s;
      if !ValidTarget(s, target, detour) then s
      else if !ok || s.current.value !in s.live then s.(fault := s.fault || s.current.value !in s.live)
      else
        var h, t := s.current.value, target.value;
        s.(cells := s.cells[t := Trampoline(s.live[h])], active := s.active + [Hook(h, t, detour, s.cells[t])])
  }

  function DetachStep(s: State, target: Option<Cell>, detour: Pointer): State
  {
    var i := Find(s.active, target, detour);
    if i == |s.active| then s
    else
      var h := s.active[i].handle;
      var s1 := if h in s.uninstalled then s
                else Uninstall(s, h).(uninstalled := s.uninstalled + {h}, cells := Restored(s.cells, s.active, h));
      var s2 := s1.(active := Remove(s.active, i));
      if Refers(s2.active, h) then s2
      else Destroy(s2, h).(uninstalled := s2.uninstalled - {h})
  }

  function Step(s: State, e: Event): (r: State)
    ensures |r.cells| == |s.cells|
  {
    match e
    case Begin(handle) => BeginStep(s, handle)
    case Commit(ok) => CommitStep(s, ok)
    case Attach(target, detour, handle, ok) => AttachStep(s, target, detour, handle, ok)
    case Detach(target, detour) => DetachStep(s, target, detour)
    case Store(cell, value) => s.(cells := Write(s.cells, cell, value))
  }

  // ---- premises ----

  predicate Hooked(s: State, c: Cell) {
    exists i :: 0 <= i < |s.active| && s.active[i].target == c
  }

  /** What the environment and the callers keep to: a new handle has an address of its own, which
      may be the one that abandoning the open transaction has just freed; a target has at most
      one active entry; Detach never names an entry of the open handle; a caller does not write
      a pointer that is hooked, and does not make up trampolines. */
  predicate Proper(s: State, e: Event) {
    match e
    case Begin(handle) => handle.Some? ==> handle.value !in s.live || s.current == handle
    case Commit(_) => true
    case Attach(target, _, handle, _) =>
      (handle.Some? ==> handle.value !in s.live) && (target.Some? ==> !Hooked(s, target.value))
    case Detach(target, detour) =>
      var i := Find(s.active, target, detour);
      i < |s.active| ==> s.current != Some(s.active[i].handle)
    case Store(cell, value) => !Hooked(s, cell) && !value.Trampoline?
  }

  // ---- what every run keeps ----

  /** An entry's handle is live; while its hooks are on, the pointer leads into the handle's
      trampolines, and once they are off it is back at its original, which is real code. */
  predicate EntryOk(s: State, e: Hook) {
    && e.target < |s.cells|
    && e.handle in s.live
    && e.original.Code?
    && s.cells[e.target] == (if e.handle in s.uninstalled then e.original else Trampoline(s.live[e.handle]))
    && (e.handle in s.installed <==> e.handle !in s.uninstalled && s.current != Some(e.handle))
  }

  predicate Owned(s: State, c: nat)
    requires c < |s.cells|
  {
    s.cells[c].Trampoline? ==>
      exists i :: 0 <= i < |s.active| && s.active[i].target == c && s.active[i].handle in s.live
                  && s.live[s.active[i].handle] == s.cells[c].serial
  }

  predicate Serials(s: State) {
    && (forall h :: h in s.live ==> s.live[h] < s.created && s.live[h] !in s.destroyed)
    && (forall g, h :: g in s.live && h in s.live && s.live[g] == s.live[h] ==> g == h)
    && (forall n :: n in s.destroyed ==> n < s.created)
    && (forall i, j :: 0 <= i < j < |s.destroyed| ==> s.destroyed[i] != s.destroyed[j])
  }

  predicate Targets(hooks: seq<Hook>) {
    forall i, j :: 0 <= i < j < |hooks| ==> hooks[i].target != hooks[j].target
  }

  predicate Inv(s: State) {
    && !s.fault
    && Serials(s)
    && Targets(s.active)
    && (forall i :: 0 <= i < |s.active| ==> EntryOk(s, s.active[i]))
    && (forall c :: 0 <= c < |s.cells| ==> Owned(s, c))
    && (forall h :: h in s.uninstalled ==> Refers(s.active, h))
    && (s.current.Some? ==>
       s.current.value in s.live && s.current.value !in s.uninstalled && s.current.value !in s.installed)
    && (forall h :: h in s.installed ==> h in s.live)
  }

  // ---- the loops, pointwise ----

  lemma {:induction false} KeptIs(hooks: seq<Hook>, h: Handle)
    ensures forall e :: e in Kept(hooks, h) <==> e in hooks && e.handle != h
    ensures Targets(hooks) ==> Targets(Kept(hooks, h))
  {
    if hooks != [] {
      KeptIs(hooks[1..], h);
      assert hooks == [hooks[0]] + hooks[1..];
      if Targets(hooks) {
        assert forall e :: e in hooks[1..] ==> e.target != hooks[0].target;
      }
    }
  }

  /** With distinct targets the pointers of h's entries are back at their originals and no
      other pointer has changed. */
  lemma {:induction false} RestoredIs(cells: seq<Pointer>, hooks: seq<Hook>, h: Handle)
    requires Targets(hooks) && forall i :: 0 <= i < |hooks| ==> hooks[i].target < |cells|
    ensures forall i :: 0 <= i < |hooks| ==>
              Restored(cells, hooks, h)[hooks[i].target] ==
              if hooks[i].handle == h then hooks[i].original else cells[hooks[i].target]
    ensures forall c ::
              0 <= c < |cells| && (forall i :: 0 <= i < |hooks| && hooks[i].handle == h ==> hooks[i].target != c) ==>
              Restored(cells, hooks, h)[c] == cells[c]
    decreases hooks
  {
    if hooks != [] {
      var next := if hooks[0].handle == h then cells[hooks[0].target := hooks[0].original] else cells;
      RestoredIs(next, hooks[1..], h);
      assert forall i :: 0 < i < |hooks| ==> hooks[i] == hooks[1..][i - 1];
      assert Restored(cells, hooks, h)[hooks[0].target] == next[hooks[0].target];
    }
  }

  // ---- every operation keeps the invariant ----

  lemma OwnedIn(s: State, c: nat, e: Hook)
    requires c < |s.cells| && e in s.active && e.target == c && e.handle in s.live
    requires s.cells[c].Trampoline? ==> s.live[e.handle] == s.cells[c].serial
    ensures Owned(s, c)
  {
    var i :| 0 <= i < |s.active| && s.active[i] == e;
  }

  lemma RefersIn(hooks: seq<Hook>, e: Hook)
    requires e in hooks
    ensures Refers(hooks, e.handle)
  {
    var i :| 0 <= i < |hooks| && hooks[i] == e;
  }

  lemma RollbackKeeps(s: State)
    requires Inv(s) && s.current.Some?
    ensures Inv(Rollback(s)) && Rollback(s).current.None? && s.current.value !in Rollback(s).live
  {
    hide Owned, Refers, Serials;
    var h := s.current.value;
    var t := Rollback(s);
    KeptIs(s.active, h);
    RestoredIs(s.cells, s.active, h);
    DestroyedSerials(s, h, t);
    forall i | 0 <= i < |t.active| ensures EntryOk(t, t.active[i]) {
      assert t.active[i] in Kept(s.active, h);
    }
    forall c | 0 <= c < |t.cells| ensures Owned(t, c) {
      RollbackOwned(s, t, h, c);
    }
    forall g | g in t.uninstalled ensures Refers(t.active, g) {
      var e := Referring(s.active, g);
      assert e in Kept(s.active, h);
      RefersIn(t.active, e);
    }
  }

  lemma Referring(hooks: seq<Hook>, h: Handle) returns (e: Hook)
    requires Refers(hooks, h)
    ensures e in hooks && e.handle == h
  {
    var i :| 0 <= i < |hooks| && hooks[i].handle == h;
    e := hooks[i];
  }

  lemma Owner(s: State, c: nat) returns (e: Hook)
    requires c < |s.cells| && s.cells[c].Trampoline? && Owned(s, c)
    ensures e in s.active && e.target == c && e.handle in s.live && s.live[e.handle] == s.cells[c].serial
  {
    var i :| 0 <= i < |s.active| && s.active[i].target == c && s.active[i].handle in s.live
             && s.live[s.active[i].handle] == s.cells[c].serial;
    e := s.active[i];
  }

  lemma RollbackOwned(s: State, t: State, h: Handle, c: nat)
    requires Inv(s) && c < |s.cells| && |t.cells| == |s.cells|
    requires t.cells == Restored(s.cells, s.active, h) && t.active == Kept(s.active, h)
    requires forall g :: g in s.live && g != h ==> g in t.live && t.live[g] == s.live[g]
    ensures Owned(t, c)
  {
    KeptIs(s.active, h);
    RestoredIs(s.cells, s.active, h);
    if t.cells[c].Trampoline? {
      assert s.cells[c].Trampoline?;
      var e := Owner(s, c);
      assert e.handle != h;
      OwnedIn(t, c, e);
    }
  }

  lemma DestroyedSerials(s: State, h: Handle, t: State)
    requires Serials(s) && h in s.live
    requires t.live == s.live - {h} && t.destroyed == s.destroyed + [s.live[h]] && t.created == s.created
    ensures Serials(t)
  {
  }

  lemma CreateKeeps(s: State, h: Handle)
    requires Inv(s) && s.current.None? && h !in s.live
    ensures Inv(Create(s, h).(current := Some(h)))
  {
    hide Refers;
    var t := Create(s, h).(current := Some(h));
    forall i | 0 <= i < |t.active| ensures EntryOk(t, t.active[i]) {
      assert EntryOk(s, s.active[i]);
    }
    forall c | 0 <= c < |t.cells| ensures Owned(t, c) {
      if t.cells[c].Trampoline? {
        assert Owned(s, c);
        var e := Owner(s, c);
        OwnedIn(t, c, e);
      }
    }
    assert h !in s.uninstalled by {
      if h in s.uninstalled {
        var e := Referring(s.active, h);
      }
    }
  }

  lemma InstallKeeps(s: State)
    requires Inv(s) && s.current.Some?
    ensures Inv(Install(s, s.current.value).(current := None))
  {
    hide Refers, Owned, Serials;
    var t := Install(s, s.current.value).(current := None);
    forall i | 0 <= i < |t.active| ensures EntryOk(t, t.active[i]) {
      assert EntryOk(s, s.active[i]);
    }
    forall c | 0 <= c < |t.cells| ensures Owned(t, c) {
      SameOwned(s, t, c);
    }
    assert Serials(t) by { SameSerials(s, t); }
  }

  lemma SameOwned(s: State, t: State, c: nat)
    requires c < |s.cells| && |t.cells| == |s.cells| && t.cells[c] == s.cells[c]
    requires t.active == s.active && t.live == s.live && Owned(s, c)
    ensures Owned(t, c)
  {
  }

  lemma SameSerials(s: State, t: State)
    requires Serials(s) && t.live == s.live && t.destroyed == s.destroyed && t.created == s.created
    ensures Serials(t)
  {
  }

  /** A pointer that no entry is for does not lead into a trampoline. */
  lemma UnhookedIsReal(s: State, c: nat)
    requires Inv(s) && c < |s.cells| && !Hooked(s, c)
    ensures !s.cells[c].Trampoline?
  {
    assert Owned(s, c);
    if s.cells[c].Trampoline? {
      var e := Owner(s, c);
    }
  }

  lemma PrepareKeeps(s: State, c: Cell, detour: Pointer)
    requires Inv(s) && s.current.Some? && c < |s.cells| && !Hooked(s, c) && s.cells[c] != Null && detour != Null
    ensures var h := s.current.value;
            Inv(s.(cells := s.cells[c := Trampoline(s.live[h])], active := s.active + [Hook(h, c, detour, s.cells[c])]))
  {
    hide Refers, Owned, Serials;
    UnhookedIsReal(s, c);
    var h := s.current.value;
    var e := Hook(h, c, detour, s.cells[c]);
    var t := s.(cells := s.cells[c := Trampoline(s.live[h])], active := s.active + [e]);
    assert forall i :: 0 <= i < |s.active| ==> s.active[i].target != c;
    forall i | 0 <= i < |t.active| ensures EntryOk(t, t.active[i]) {
      if i < |s.active| {
        assert EntryOk(s, s.active[i]);
      }
    }
    forall x | 0 <= x < |t.cells| ensures Owned(t, x) {
      if x == c {
        OwnedIn(t, c, e);
      } else {
        GrownOwned(s, t, x, e);
      }
    }
    forall g | g in t.uninstalled ensures Refers(t.active, g) {
      var e' := Referring(s.active, g);
      RefersIn(t.active, e');
    }
    SameSerials(s, t);
  }

  lemma GrownOwned(s: State, t: State, c: nat, e: Hook)
    requires c < |s.cells| && |t.cells| == |s.cells| && t.cells[c] == s.cells[c]
    requires t.active == s.active + [e] && t.live == s.live && Owned(s, c)
    ensures Owned(t, c)
  {
    if t.cells[c].Trampoline? {
      var o := Owner(s, c);
      OwnedIn(t, c, o);
    }
  }

  lemma StoreKeeps(s: State, c: Cell, value: Pointer)
    requires Inv(s) && c < |s.cells| && !Hooked(s, c) && !value.Trampoline?
    ensures Inv(s.(cells := s.cells[c := value]))
  {
    hide Refers, Serials;
    var t := s.(cells := s.cells[c := value]);
    forall i | 0 <= i < |t.active| ensures EntryOk(t, t.active[i]) {
      assert EntryOk(s, s.active[i]);
    }
    forall x | 0 <= x < |t.cells| ensures Owned(t, x) {
      assert Owned(s, x);
    }
    SameSerials(s, t);
  }

  /** The state between uninstalling h and dropping the entry that asked for it: all of h's
      pointers are restored and its entries are still there. */
  lemma UninstallKeeps(s: State, h: Handle)
    requires Inv(s) && Refers(s.active, h) && s.current != Some(h) && h !in s.uninstalled
    ensures Inv(Uninstall(s, h).(uninstalled := s.uninstalled + {h}, cells := Restored(s.cells, s.active, h)))
  {
    hide Refers, Serials;
    var t := Uninstall(s, h).(uninstalled := s.uninstalled + {h}, cells := Restored(s.cells, s.active, h));
    RestoredIs(s.cells, s.active, h);
    var e := Referring(s.active, h);
    assert EntryOk(s, e);
    forall i | 0 <= i < |t.active| ensures EntryOk(t, t.active[i]) {
      assert EntryOk(s, s.active[i]);
    }
    forall c | 0 <= c < |t.cells| ensures Owned(t, c) {
      if t.cells[c].Trampoline? {
        assert s.cells[c].Trampoline? && Owned(s, c);
        var o := Owner(s, c);
        OwnedIn(t, c, o);
      }
    }
    SameSerials(s, t);
  }

  lemma RemoveIs(hooks: seq<Hook>, i: nat)
    requires i < |hooks| && Targets(hooks)
    ensures Targets(Remove(hooks, i)) && forall e :: e in Remove(hooks, i) <==> e in hooks && e != hooks[i]
  {
    forall e | e in hooks && e != hooks[i] ensures e in Remove(hooks, i) {
      var k :| 0 <= k < |hooks| && hooks[k] == e;
      assert Remove(hooks, i)[if k < i then k else k - 1] == e;
    }
  }

  /** Dropping an entry of an uninstalled handle, and the handle with its last entry. */
  lemma DropKeeps(s: State, i: nat)
    requires Inv(s) && i < |s.active| && s.active[i].handle in s.uninstalled && s.current != Some(s.active[i].handle)
    ensures var h, t := s.active[i].handle, s.(active := Remove(s.active, i));
            Inv(if Refers(t.active, h) then t else Destroy(t, h).(uninstalled := t.uninstalled - {h}))
  {
    hide Refers, Serials, Remove;
    var e, h, t := s.active[i], s.active[i].handle, s.(active := Remove(s.active, i));
    var u := if Refers(t.active, h) then t else Destroy(t, h).(uninstalled := t.uninstalled - {h});
    RemoveIs(s.active, i);
    assert EntryOk(s, e);
    assert Serials(u) by {
      if Refers(t.active, h) {
        SameSerials(s, u);
      } else {
        DestroyedSerials(s, h, u);
      }
    }
    forall k | 0 <= k < |u.active| ensures EntryOk(u, u.active[k]) {
      var o := u.active[k];
      assert o in s.active && EntryOk(s, o);
      RefersIn(t.active, o);
    }
    forall c | 0 <= c < |u.cells| ensures Owned(u, c) {
      if u.cells[c].Trampoline? {
        assert Owned(s, c);
        var o := Owner(s, c);
        assert o != e;
        RefersIn(t.active, o);
        OwnedIn(u, c, o);
      }
    }
    forall g | g in u.uninstalled ensures Refers(u.active, g) {
      if g != h {
        var o := Referring(s.active, g);
        RefersIn(t.active, o);
      }
    }
  }

  lemma DetachKeeps(s: State, target: Option<Cell>, detour: Pointer)
    requires Inv(s) && Proper(s, Detach(target, detour))
    ensures Inv(DetachStep(s, target, detour))
  {
    hide Inv, EntryOk, Refers;
    var i := Find(s.active, target, detour);
    if i < |s.active| {
      var h := s.active[i].handle;
      RefersIn(s.active, s.active[i]);
      if h !in s.uninstalled {
        UninstallKeeps(s, h);
        DropKeeps(Uninstall(s, h).(uninstalled := s.uninstalled + {h}, cells := Restored(s.cells, s.active, h)), i);
      } else {
        DropKeeps(s, i);
      }
    }
  }

  /** One event. */
  lemma StepKeeps(s: State, e: Event)
    requires Inv(s) && Proper(s, e)
    ensures Inv(Step(s, e))
  {
    hide Inv, Hooked;
    CurrentIsLive(s);
    match e
    case Begin(handle) =>
      if s.current.Some? {
        RollbackKeeps(s);
      }
      var t := if s.current.Some? then Rollback(s) else s;
      if handle.Some? {
        CreateKeeps(t, handle.value);
      }
    case Commit(ok) =>
      if s.current.Some? {
        if ok {
          InstallKeeps(s);
        } else {
          RollbackKeeps(s);
        }
      }
    case Attach(target, detour, handle, ok) =>
      AttachKeeps(s, target, detour, handle, ok);
    case Detach(target, detour) =>
      DetachKeeps(s, target, detour);
    case Store(cell, value) =>
      if cell < |s.cells| {
        StoreKeeps(s, cell, value);
      }
  }

  lemma CurrentIsLive(s: State)
    requires Inv(s)
    ensures !s.fault && (s.current.Some? ==> s.current.value in s.live)
  {
  }

  lemma AttachKeeps(s: State, target: Option<Cell>, detour: Pointer, handle: Option<Handle>, ok: bool)
    requires Inv(s) && Proper(s, Attach(target, detour, handle, ok))
    ensures Inv(AttachStep(s, target, detour, handle, ok))
  {
    hide Inv, EntryOk;
    if s.current.Some? || handle.Some? {
      if s.current.None? {
        CreateKeeps(s, handle.value);
      }
      var t := if s.current.None? then Create(s, handle.value).(current := handle) else s;
      CurrentIsLive(t);
      if ValidTarget(t, target, detour) {
        assert !Hooked(t, target.value);
        if ok {
          PrepareKeeps(t, target.value, detour);
        }
      }
    }
  }

  // ---- runs ----

  /** A run every step of which keeps to the premises. */
  predicate ProperRun(s: State, es: seq<Event>)
    decreases es
  {
    es == [] || (Proper(s, es[0]) && ProperRun(Step(s, es[0]), es[1..]))
  }

  function Run(s: State, es: seq<Event>): State
    decreases es
  {
    if es == [] then s else Run(Step(s, es[0]), es[1..])
  }

  predicate Initial(s: State) {
    && s.current.None? && s.active == [] && s.uninstalled == {} && s.live == map[] && s.installed == {}
    && s.destroyed == [] && !s.fault && forall c :: 0 <= c < |s.cells| ==> !s.cells[c].Trampoline?
  }

  lemma {:induction false} RunKeeps(s: State, es: seq<Event>)
    requires Inv(s) && ProperRun(s, es)
    ensures Inv(Run(s, es))
    decreases es
  {
    hide Inv;
    if es != [] {
      StepKeeps(s, es[0]);
      RunKeeps(Step(s, es[0]), es[1..]);
    }
  }

  /** Safety of every proper run: no pointer leads into a trampoline that was unmapped, every
      entry's handle is live, every uninstalled handle still has an entry, no handle is
      destroyed twice, and funchook is never called with a dead one. */
  lemma Safety(s: State, es: seq<Event>, c: nat)
    requires Initial(s) && ProperRun(s, es)
    ensures var t := Run(s, es);
            && |t.cells| == |s.cells|
            && (c < |t.cells| && t.cells[c].Trampoline? ==>
               t.cells[c].serial in t.live.Values && t.cells[c].serial !in t.destroyed)
            && (forall i :: 0 <= i < |t.active| ==> t.active[i].handle in t.live)
            && (forall h :: h in t.uninstalled ==> Refers(t.active, h))
            && (forall i, j :: 0 <= i < j < |t.destroyed| ==> t.destroyed[i] != t.destroyed[j])
            && !t.fault
  {
    assert Inv(s);
    RunKeeps(s, es);
    RunSize(s, es);
    var t := Run(s, es);
    if c < |t.cells| && t.cells[c].Trampoline? {
      assert Owned(t, c);
      var e := Owner(t, c);
      assert t.live[e.handle] in t.live.Values;
    }
    forall i | 0 <= i < |t.active| ensures t.active[i].handle in t.live {
      assert EntryOk(t, t.active[i]);
    }
  }

  lemma {:induction false} RunSize(s: State, es: seq<Event>)
    requires ProperRun(s, es)
    ensures |Run(s, es).cells| == |s.cells|
    decreases es
  {
    if es != [] {
      RunSize(Step(s, es[0]), es[1..]);
    }
  }
}
