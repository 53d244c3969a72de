/** What a detour transaction means to its callers: one that fails or is abandoned might as
    well have attached nothing, and uninstalling the hooks of one handle one after another
    takes all of them off at once and the handle down with the last. */
module Transactions {
  import opened Outcomes
  import opened Detours

  // ---- atomicity ----

  /** The state as if the open transaction had attached nothing. */
  function Shadow(s: State): State
    requires s.current.Some?
  {
    s.(cells := Restored(s.cells, s.active, s.current.value), active := Kept(s.active, s.current.value))
  }

  predicate WithinTransaction(es: seq<Event>) {
    forall i :: 0 <= i < |es| ==> !es[i].Begin? && !es[i].Commit?
  }

  /** The same events without the attachments. */
  function WithoutAttach(es: seq<Event>): seq<Event> {
    if es == [] then [] else (if es[0].Attach? then [] else [es[0]]) + WithoutAttach(es[1..])
  }

  lemma {:induction false} KeptAppend(hooks: seq<Hook>, e: Hook, h: Handle)
    ensures Kept(hooks + [e], h) == Kept(hooks, h) + if e.handle == h then [] else [e]
  {
    if hooks != [] {
      KeptAppend(hooks[1..], e, h);
      assert (hooks + [e])[1..] == hooks[1..] + [e];
    } else {
      assert (hooks + [e])[1..] == [];
    }
  }

  lemma KeptCons(e: Hook, rest: seq<Hook>, h: Handle)
    ensures Kept([e] + rest, h) == (if e.handle == h then [] else [e]) + Kept(rest, h)
  {
    assert ([e] + rest)[1..] == rest;
  }

  lemma RemoveFirst(hooks: seq<Hook>)
    requires hooks != []
    ensures Remove(hooks, 0) == hooks[1..]
  {
  }

  lemma RemoveBehind(hooks: seq<Hook>, i: nat)
    requires 0 < i < |hooks|
    ensures Remove(hooks, i) == [hooks[0]] + Remove(hooks[1..], i - 1)
  {
  }

  lemma RemovePrepended(lead: seq<Hook>, rest: seq<Hook>, k: nat)
    requires k < |rest|
    ensures Remove(lead + rest, k + |lead|) == lead + Remove(rest, k)
  {
  }

  lemma {:induction false} KeptRemove(hooks: seq<Hook>, i: nat, h: Handle) returns (j: nat)
    requires i < |hooks| && hooks[i].handle != h
    ensures j < |Kept(hooks, h)| && Kept(hooks, h)[j] == hooks[i]
    ensures Kept(Remove(hooks, i), h) == Remove(Kept(hooks, h), j)
  {
    hide Remove;
    var lead := if hooks[0].handle == h then [] else [hooks[0]];
    if i == 0 {
      j := 0;
      RemoveFirst(hooks);
      RemoveFirst([hooks[0]] + Kept(hooks[1..], h));
    } else {
      var k := KeptRemove(hooks[1..], i - 1, h);
      j := k + |lead|;
      var rest := Kept(hooks[1..], h);
      RemoveBehind(hooks, i);
      KeptCons(hooks[0], Remove(hooks[1..], i - 1), h);
      RemovePrepended(lead, rest, k);
    }
  }

  lemma FindIs(hooks: seq<Hook>, j: nat)
    requires Targets(hooks) && j < |hooks|
    ensures Find(hooks, Some(hooks[j].target), hooks[j].detour) == j
  {
  }

  lemma FindNone(hooks: seq<Hook>, target: Option<Cell>, detour: Pointer)
    requires forall e :: e in hooks ==> !(Some(e.target) == target && e.detour == detour)
    ensures Find(hooks, target, detour) == |hooks|
  {
  }

  lemma CellsInRange(s: State)
    requires Inv(s)
    ensures Targets(s.active) && forall i :: 0 <= i < |s.active| ==> s.active[i].target < |s.cells|
  {
    forall i | 0 <= i < |s.active| ensures s.active[i].target < |s.cells| {
      assert EntryOk(s, s.active[i]);
    }
  }

  /** Redirecting an unhooked pointer and restoring it is restoring alone. */
  lemma RestoreAttached(cells: seq<Pointer>, hooks: seq<Hook>, e: Hook, value: Pointer)
    requires Targets(hooks + [e]) && (forall i :: 0 <= i < |hooks| ==> hooks[i].target < |cells|)
    requires e.target < |cells| && e.original == cells[e.target]
    ensures Restored(cells[e.target := value], hooks + [e], e.handle) == Restored(cells, hooks, e.handle)
  {
    var all, to := hooks + [e], cells[e.target := value];
    assert forall i :: 0 <= i < |hooks| ==> all[i] == hooks[i];
    assert all[|hooks|] == e;
    assert Targets(hooks);
    RestoredIs(to, all, e.handle);
    RestoredIs(cells, hooks, e.handle);
    forall c | 0 <= c < |cells| ensures Restored(to, all, e.handle)[c] == Restored(cells, hooks, e.handle)[c] {
      if i :| 0 <= i < |hooks| && hooks[i].target == c {
        assert all[i].target == c;
      }
    }
  }

  /** Restoring the entries of two handles commutes, whatever entries of others are dropped. */
  lemma RestoreCommutes(cells: seq<Pointer>, hooks: seq<Hook>, g: Handle, h: Handle, rest: seq<Hook>, kept: seq<Hook>)
    requires g != h && Targets(hooks) && Targets(rest) && Targets(kept)
    requires forall i :: 0 <= i < |hooks| ==> hooks[i].target < |cells|
    requires forall e :: e in rest ==> e in hooks
    requires forall e :: e in hooks && e.handle == h ==> e in rest
    requires forall e :: e in kept <==> e in hooks && e.handle != h
    ensures Restored(Restored(cells, hooks, g), rest, h) == Restored(Restored(cells, hooks, h), kept, g)
  {
    var a, b := Restored(cells, hooks, g), Restored(cells, hooks, h);
    forall i | 0 <= i < |rest| ensures rest[i].target < |cells| {
      assert rest[i] in hooks;
    }
    forall i | 0 <= i < |kept| ensures kept[i].target < |cells| {
      assert kept[i] in hooks;
    }
    forall c | 0 <= c < |cells| ensures Restored(a, rest, h)[c] == Restored(b, kept, g)[c] {
      if e :| e in hooks && e.target == c {
        AtTarget(hooks, rest, e);
        AtTarget(hooks, kept, e);
        AtTarget(hooks, hooks, e);
        RestoredAt(cells, hooks, g, e, c);
        RestoredAt(cells, hooks, h, e, c);
        RestoredAt(a, rest, h, e, c);
        RestoredAt(b, kept, g, e, c);
      } else {
        RestoredNot(cells, hooks, g, c);
        RestoredNot(cells, hooks, h, c);
        RestoredNot(a, rest, h, c);
        RestoredNot(b, kept, g, c);
      }
    }
  }

  /** What restoring does at the target of an entry that is the only one for it. */
  lemma RestoredAt(cells: seq<Pointer>, hooks: seq<Hook>, h: Handle, e: Hook, c: nat)
    requires Targets(hooks) && (forall i :: 0 <= i < |hooks| ==> hooks[i].target < |cells|)
    requires e.target == c < |cells| && forall i :: 0 <= i < |hooks| && hooks[i].target == c ==> hooks[i] == e
    ensures Restored(cells, hooks, h)[c] == if e in hooks && e.handle == h then e.original else cells[c]
  {
    RestoredIs(cells, hooks, h);
    if e in hooks {
      var i :| 0 <= i < |hooks| && hooks[i] == e;
    }
  }

  lemma RestoredNot(cells: seq<Pointer>, hooks: seq<Hook>, h: Handle, c: nat)
    requires Targets(hooks) && (forall i :: 0 <= i < |hooks| ==> hooks[i].target < |cells|)
    requires c < |cells| && forall e :: e in hooks ==> e.target != c
    ensures Restored(cells, hooks, h)[c] == cells[c]
  {
    RestoredIs(cells, hooks, h);
  }

  lemma AtTarget(hooks: seq<Hook>, some: seq<Hook>, e: Hook)
    requires Targets(hooks) && e in hooks && forall x :: x in some ==> x in hooks
    ensures forall i :: 0 <= i < |some| && some[i].target == e.target ==> some[i] == e
  {
    forall i | 0 <= i < |some| && some[i].target == e.target ensures some[i] == e {
      assert some[i] in hooks;
    }
  }

  lemma ShadowAttach(s: State, target: Option<Cell>, detour: Pointer, handle: Option<Handle>, ok: bool)
    requires Inv(s) && s.current.Some? && Proper(s, Attach(target, detour, handle, ok))
    ensures var t := AttachStep(s, target, detour, handle, ok);
            t.current == s.current && Shadow(t) == Shadow(s)
  {
    CellsInRange(s);
    if ValidTarget(s, target, detour) && ok {
      var e := Hook(s.current.value, target.value, detour, s.cells[target.value]);
      assert forall i :: 0 <= i < |s.active| ==> s.active[i].target != target.value;
      RestoreAttached(s.cells, s.active, e, Trampoline(s.live[e.handle]));
      KeptAppend(s.active, e, e.handle);
    }
  }

  lemma ShadowDetach(s: State, target: Option<Cell>, detour: Pointer)
    requires Inv(s) && s.current.Some? && Proper(s, Detach(target, detour))
    ensures Proper(Shadow(s), Detach(target, detour))
    ensures var t := DetachStep(s, target, detour);
            t.current == s.current && Shadow(t) == DetachStep(Shadow(s), target, detour)
  {
    hide Inv, Refers, Remove, Restored, Kept;
    CellsInRange(s);
    var h, i := s.current.value, Find(s.active, target, detour);
    var kept := Kept(s.active, h);
    KeptIs(s.active, h);
    if i == |s.active| {
      FindNone(kept, target, detour);
    } else {
      var g := s.active[i].handle;
      var j := KeptRemove(s.active, i, h);
      FindIs(kept, j);
      RemoveIs(s.active, i);
      RemoveIs(kept, j);
      RestoreCommutes(s.cells, s.active, g, h, Remove(s.active, i), kept);
      UnhookedByRemove(s, i);
      SameReferences(Remove(s.active, i), Remove(kept, j), g, h);
    }
  }

  /** Restoring h does not depend on an entry of another handle being there. */
  lemma UnhookedByRemove(s: State, i: nat)
    requires i < |s.active| && s.current.Some? && s.active[i].handle != s.current.value
    requires Targets(s.active) && forall k :: 0 <= k < |s.active| ==> s.active[k].target < |s.cells|
    ensures Restored(s.cells, Remove(s.active, i), s.current.value) == Restored(s.cells, s.active, s.current.value)
  {
    var h, rest := s.current.value, Remove(s.active, i);
    RemoveIs(s.active, i);
    forall k | 0 <= k < |rest| ensures rest[k].target < |s.cells| {
      assert rest[k] in s.active;
    }
    RestoredIs(s.cells, s.active, h);
    RestoredIs(s.cells, rest, h);
    forall c | 0 <= c < |s.cells| ensures Restored(s.cells, rest, h)[c] == Restored(s.cells, s.active, h)[c] {
      if k :| 0 <= k < |s.active| && s.active[k].target == c && s.active[k].handle == h {
        assert s.active[k] in rest;
      } else {
        assert forall k :: 0 <= k < |rest| && rest[k].handle == h ==> rest[k] in s.active && rest[k].target != c;
      }
    }
  }

  lemma SameReferences(rest: seq<Hook>, kept: seq<Hook>, g: Handle, h: Handle)
    requires g != h && forall e :: e in kept <==> e in rest && e.handle != h
    ensures Refers(rest, g) <==> Refers(kept, g)
  {
    if Refers(rest, g) {
      var e := Referring(rest, g);
      RefersIn(kept, e);
    }
    if Refers(kept, g) {
      var e := Referring(kept, g);
      RefersIn(rest, e);
    }
  }

  lemma ShadowStore(s: State, c: Cell, value: Pointer)
    requires Inv(s) && s.current.Some? && Proper(s, Store(c, value))
    ensures Proper(Shadow(s), Store(c, value))
    ensures Shadow(s.(cells := Write(s.cells, c, value))) == Shadow(s).(cells := Write(Shadow(s).cells, c, value))
  {
    CellsInRange(s);
    var h := s.current.value;
    KeptIs(s.active, h);
    forall i | 0 <= i < |Kept(s.active, h)| ensures Kept(s.active, h)[i].target != c {
      assert Kept(s.active, h)[i] in s.active;
    }
    if c < |s.cells| {
      RestoredIs(s.cells, s.active, h);
      RestoredIs(s.cells[c := value], s.active, h);
      var a, b := Restored(s.cells[c := value], s.active, h), Restored(s.cells, s.active, h)[c := value];
      forall x | 0 <= x < |a| ensures a[x] == b[x] {
        if k :| 0 <= k < |s.active| && s.active[k].target == x {
          assert x != c;
        }
      }
      assert a == b;
    }
  }

  /** Inside a transaction, attaching leaves the shadow alone and all else acts on it as on
      the state. */
  lemma {:induction false} ShadowRun(s: State, es: seq<Event>)
    requires Inv(s) && s.current.Some? && ProperRun(s, es) && WithinTransaction(es)
    ensures ProperRun(Shadow(s), WithoutAttach(es))
    ensures Run(s, es).current == s.current
    ensures Shadow(Run(s, es)) == Run(Shadow(s), WithoutAttach(es))
    decreases es
  {
    hide Inv, Shadow, Proper;
    if es != [] {
      var e, t := es[0], Step(s, es[0]);
      StepKeeps(s, e);
      match e {
        case Attach(target, detour, handle, ok) => ShadowAttach(s, target, detour, handle, ok);
        case Detach(target, detour) => ShadowDetach(s, target, detour);
        case Store(cell, value) => ShadowStore(s, cell, value);
      }
      ShadowRun(t, es[1..]);
      var rest := WithoutAttach(es[1..]);
      if !e.Attach? {
        ShadowConsShape(s, e);
        RunCons(Shadow(s), e, rest);
        assert WithoutAttach(es) == [e] + rest;
      } else {
        assert WithoutAttach(es) == rest;
      }
    }
  }

  lemma ShadowConsShape(s: State, e: Event)
    requires s.current.Some? && (e.Detach? || e.Store?)
    ensures e.Detach? ==> Step(Shadow(s), e) == DetachStep(Shadow(s), e.target, e.detour)
    ensures e.Store? ==> Step(Shadow(s), e) == Shadow(s).(cells := Write(Shadow(s).cells, e.cell, e.value))
  {
  }

  lemma RunCons(s: State, e: Event, es: seq<Event>)
    requires Proper(s, e) && ProperRun(Step(s, e), es)
    ensures ProperRun(s, [e] + es) && Run(s, [e] + es) == Run(Step(s, e), es)
  {
    assert ([e] + es)[1..] == es;
  }

  /** A transaction that has attached nothing yet is its own shadow. */
  lemma {:induction false} NothingAttached(cells: seq<Pointer>, hooks: seq<Hook>, h: Handle)
    requires !Refers(hooks, h)
    ensures Kept(hooks, h) == hooks && Restored(cells, hooks, h) == cells
    decreases hooks
  {
    if hooks != [] {
      assert hooks[0].handle != h;
      assert forall i :: 0 <= i < |hooks[1..]| ==> hooks[1..][i] == hooks[i + 1];
      NothingAttached(cells, hooks[1..], h);
    }
  }

  /** Atomicity: a transaction that fails to commit, or is abandoned by the next Begin, leaves
      exactly the state it would have left had it attached nothing. */
  lemma FailedTransactionIsEmpty(s: State, es: seq<Event>, handle: Option<Handle>)
    requires Inv(s) && s.current.Some? && !Refers(s.active, s.current.value)
    requires ProperRun(s, es) && WithinTransaction(es)
    ensures ProperRun(s, WithoutAttach(es))
    ensures var t, u := Run(s, es), Run(s, WithoutAttach(es));
            && Step(t, Commit(false)) == Step(u, Commit(false))
            && Step(t, Begin(handle)) == Step(u, Begin(handle))
            && Step(t, Commit(false)).cells == u.cells && Step(t, Commit(false)).active == u.active
  {
    ShadowRun(s, es);
    NothingAttached(s.cells, s.active, s.current.value);
    assert Shadow(s) == s;
    var t, u := Run(s, es), Run(s, WithoutAttach(es));
    RunKeeps(s, es);
    assert u.active == Kept(t.active, s.current.value);
    KeptIs(t.active, s.current.value);
    NotKept(t.active, s.current.value);
    NothingAttached(u.cells, u.active, s.current.value);
  }

  lemma NotKept(hooks: seq<Hook>, h: Handle)
    ensures !Refers(Kept(hooks, h), h)
  {
    KeptIs(hooks, h);
    if Refers(Kept(hooks, h), h) {
      var e := Referring(Kept(hooks, h), h);
    }
  }

  /** In particular every target is back at the value it had before its Attach, and the other
      handles' entries and pointers are unchanged. */
  lemma FailedTransactionRestores(s: State, es: seq<Event>)
    requires Inv(s) && s.current.Some? && !Refers(s.active, s.current.value)
    requires ProperRun(s, es) && forall i :: 0 <= i < |es| ==> es[i].Attach?
    ensures var t := Step(Run(s, es), Commit(false)); t.cells == s.cells && t.active == s.active
  {
    FailedTransactionIsEmpty(s, es, None);
    OnlyAttach(es);
  }

  lemma OnlyAttach(es: seq<Event>)
    requires forall i :: 0 <= i < |es| ==> es[i].Attach?
    ensures WithoutAttach(es) == []
  {
  }

  // ---- a transaction that an Attach opens ----

  /** An Attach outside a transaction opens one of its own: it does what it would have done
      behind a Begin with the same handle. */
  lemma LateAttachBegins(s: State, target: Option<Cell>, detour: Pointer, h: Handle, ok: bool)
    requires s.current.None?
    ensures AttachStep(s, target, detour, Some(h), ok) == AttachStep(BeginStep(s, Some(h)), target, detour, None, ok)
  {
  }

  /** So its transaction is as atomic as any: a later commit that fails, and the next Begin, leave
      the state as if nothing had been attached since. */
  lemma LateTransactionIsEmpty(s: State, target: Option<Cell>, detour: Pointer, h: Handle, ok: bool,
                               es: seq<Event>, handle: Option<Handle>)
    requires Inv(s) && s.current.None?
    requires ProperRun(s, [Attach(target, detour, Some(h), ok)] + es) && WithinTransaction(es)
    ensures ProperRun(BeginStep(s, Some(h)), WithoutAttach(es))
    ensures var t, u := Run(s, [Attach(target, detour, Some(h), ok)] + es),
            Run(BeginStep(s, Some(h)), WithoutAttach(es));
            && Step(t, Commit(false)) == Step(u, Commit(false))
            && Step(t, Begin(handle)) == Step(u, Begin(handle))
            && Step(t, Commit(false)).cells == u.cells && Step(t, Commit(false)).active == u.active
  {
    var first, begun := Attach(target, detour, None, ok), BeginStep(s, Some(h));
    LateRun(s, target, detour, h, ok, es);
    hide Inv, Run, ProperRun, BeginStep, Refers;
    var all := [first] + es;
    assert all[0] == first && all[1..] == es;
    FailedTransactionIsEmpty(begun, all, handle);
    assert WithoutAttach(all) == WithoutAttach(es);
  }

  lemma LateRun(s: State, target: Option<Cell>, detour: Pointer, h: Handle, ok: bool, es: seq<Event>)
    requires Inv(s) && s.current.None? && ProperRun(s, [Attach(target, detour, Some(h), ok)] + es)
    ensures var begun, first := BeginStep(s, Some(h)), Attach(target, detour, None, ok);
            && Inv(begun) && begun.current == Some(h) && !Refers(begun.active, h)
            && begun.cells == s.cells && begun.active == s.active
            && ProperRun(begun, [first] + es)
            && Run(begun, [first] + es) == Run(s, [Attach(target, detour, Some(h), ok)] + es)
  {
    var late, first := Attach(target, detour, Some(h), ok), Attach(target, detour, None, ok);
    var begun := BeginStep(s, Some(h));
    assert ([late] + es)[1..] == es && ([first] + es)[1..] == es;
    assert Proper(s, late);
    StepKeeps(s, Begin(Some(h)));
    BeginsEmpty(s, Some(h));
    LateAttachBegins(s, target, detour, h, ok);
    assert Proper(begun, first);
    assert Step(begun, first) == Step(s, late);
  }

  /** In particular, if only attaches follow, all pointers and entries are those from before. */
  lemma LateTransactionRestores(s: State, target: Option<Cell>, detour: Pointer, h: Handle, ok: bool,
                                es: seq<Event>, handle: Option<Handle>)
    requires Inv(s) && s.current.None? && forall i :: 0 <= i < |es| ==> es[i].Attach?
    requires ProperRun(s, [Attach(target, detour, Some(h), ok)] + es)
    ensures var t := Run(s, [Attach(target, detour, Some(h), ok)] + es);
            && Step(t, Commit(false)).cells == s.cells && Step(t, Commit(false)).active == s.active
            && Step(t, Begin(handle)).cells == s.cells && Step(t, Begin(handle)).active == s.active
  {
    LateTransactionIsEmpty(s, target, detour, h, ok, es, handle);
    OnlyAttach(es);
    LateRun(s, target, detour, h, ok, es);
    var u := BeginStep(s, Some(h));
    assert Run(u, WithoutAttach(es)) == u;
    NothingAttached(u.cells, u.active, h);
  }

  // ---- a transaction that is committed ----

  /** The entries of one handle, in order. */
  function Own(hooks: seq<Hook>, h: Handle): seq<Hook> {
    if hooks == [] then [] else (if hooks[0].handle == h then [hooks[0]] else []) + Own(hooks[1..], h)
  }

  lemma {:induction false} OwnAppend(hooks: seq<Hook>, e: Hook, h: Handle)
    ensures Own(hooks + [e], h) == Own(hooks, h) + if e.handle == h then [e] else []
  {
    if hooks == [] {
      assert hooks + [e] == [e] + [];
      OwnCons(e, [], h);
    } else {
      OwnAppend(hooks[1..], e, h);
      assert hooks + [e] == [hooks[0]] + (hooks[1..] + [e]);
      OwnCons(hooks[0], hooks[1..] + [e], h);
    }
  }

  lemma {:induction false} OwnRemove(hooks: seq<Hook>, i: nat, h: Handle)
    requires i < |hooks| && hooks[i].handle != h
    ensures Own(Remove(hooks, i), h) == Own(hooks, h)
  {
    if i == 0 {
      RemoveFirst(hooks);
    } else {
      OwnRemove(hooks[1..], i - 1, h);
      RemoveBehind(hooks, i);
      OwnCons(hooks[0], Remove(hooks[1..], i - 1), h);
    }
  }

  lemma OwnCons(e: Hook, rest: seq<Hook>, h: Handle)
    ensures Own([e] + rest, h) == (if e.handle == h then [e] else []) + Own(rest, h)
  {
    assert ([e] + rest)[1..] == rest;
  }

  lemma {:induction false} OwnIs(hooks: seq<Hook>, h: Handle)
    ensures forall e :: e in Own(hooks, h) <==> e in hooks && e.handle == h
  {
    if hooks != [] {
      OwnIs(hooks[1..], h);
      assert hooks == [hooks[0]] + hooks[1..];
    }
  }

  /** Does this attach work? */
  predicate Works(s: State, e: Event) {
    e.Attach? && e.ok && ValidTarget(s, e.target, e.detour)
  }

  /** The entries that a run adds to the open handle: one for each attach that works, with the
      value its pointer has just then. */
  function Prepared(s: State, h: Handle, es: seq<Event>): seq<Hook>
    decreases es
  {
    if es == [] then []
    else
      (if Works(s, es[0]) then [Hook(h, es[0].target.value, es[0].detour, s.cells[es[0].target.value])] else [])
      + Prepared(Step(s, es[0]), h, es[1..])
  }

  /** One event inside a transaction. */
  lemma OneEvent(s: State, e: Event)
    requires Inv(s) && s.current.Some? && Proper(s, e) && !e.Begin? && !e.Commit?
    ensures var t, h := Step(s, e), s.current.value;
            && t.current == s.current && h in s.live && h in t.live && t.live[h] == s.live[h]
            && Own(t.active, h) == Own(s.active, h) + Prepared(s, h, [e])
  {
    OpenStays(s, e);
    OwnGrows(s, e);
  }

  lemma OpenStays(s: State, e: Event)
    requires Inv(s) && s.current.Some? && Proper(s, e) && !e.Begin? && !e.Commit?
    ensures var t, h := Step(s, e), s.current.value;
            t.current == s.current && h in s.live && h in t.live && t.live[h] == s.live[h]
  {
    CurrentIsLive(s);
    hide Inv, Restored, Refers, Remove, Hooked;
  }

  lemma OwnGrows(s: State, e: Event)
    requires Inv(s) && s.current.Some? && Proper(s, e) && !e.Begin? && !e.Commit?
    ensures var h := s.current.value; Own(Step(s, e).active, h) == Own(s.active, h) + Prepared(s, h, [e])
  {
    CurrentIsLive(s);
    var h := s.current.value;
    assert [e][1..] == [] && Prepared(Step(s, e), h, []) == [];
    hide Inv, Restored, Refers, Own, Remove, Hooked, Find, DetachStep;
    if e.Attach? && Works(s, e) {
      OwnAppend(s.active, Hook(h, e.target.value, e.detour, s.cells[e.target.value]), h);
    } else if e.Detach? {
      OwnDetached(s, e.target, e.detour);
    }
  }

  lemma OwnDetached(s: State, target: Option<Cell>, detour: Pointer)
    requires s.current.Some? && Proper(s, Detach(target, detour))
    ensures Own(DetachStep(s, target, detour).active, s.current.value) == Own(s.active, s.current.value)
  {
    hide Restored, Refers, Own, Remove;
    var i := Find(s.active, target, detour);
    if i < |s.active| {
      OwnRemove(s.active, i, s.current.value);
    }
  }

  lemma PreparedCons(s: State, h: Handle, es: seq<Event>)
    requires es != []
    ensures Prepared(s, h, es) == Prepared(s, h, [es[0]]) + Prepared(Step(s, es[0]), h, es[1..])
  {
    hide Step, Works;
    assert [es[0]][1..] == [] && Prepared(Step(s, es[0]), h, []) == [];
  }

  lemma {:induction false} TransactionPrepares(s: State, es: seq<Event>)
    requires Inv(s) && s.current.Some? && ProperRun(s, es) && WithinTransaction(es)
    ensures var t, h := Run(s, es), s.current.value;
            && t.current == s.current && h in s.live && h in t.live && t.live[h] == s.live[h]
            && Own(t.active, h) == Own(s.active, h) + Prepared(s, h, es)
    decreases es
  {
    hide Inv, Step, Proper, Prepared, Own, Works;
    if es == [] {
      CurrentIsLive(s);
      NonePrepared(s, s.current.value);
    } else {
      var e, t, h := es[0], Step(s, es[0]), s.current.value;
      PreparedCons(s, h, es);
      StepKeeps(s, e);
      OneEvent(s, e);
      TransactionPrepares(t, es[1..]);
      Regroup(Own(s.active, h), Prepared(s, h, [e]), Prepared(t, h, es[1..]));
    }
  }

  lemma NonePrepared(s: State, h: Handle)
    ensures Prepared(s, h, []) == [] && Own(s.active, h) + [] == Own(s.active, h)
  {
  }

  lemma Regroup(a: seq<Hook>, b: seq<Hook>, c: seq<Hook>)
    ensures a + (b + c) == a + b + c
  {
  }

  predicate Targeted(hooks: seq<Hook>, c: Cell) {
    exists i :: 0 <= i < |hooks| && hooks[i].target == c
  }

  lemma TargetedAppend(hooks: seq<Hook>, hook: Hook)
    ensures forall c :: Targeted(hooks + [hook], c) <==> Targeted(hooks, c) || hook.target == c
  {
    var all := hooks + [hook];
    forall c ensures Targeted(all, c) <==> Targeted(hooks, c) || hook.target == c {
      if i :| 0 <= i < |hooks| && hooks[i].target == c {
        assert all[i].target == c;
      }
      assert all[|hooks|] == hook;
    }
  }

  /** A transaction that commits, however it was opened and whatever else went on inside: its
      handle is installed, with the entries it had and one for each attach that worked, in
      order; exactly their targets lead into it; and everything else is as if nothing had been
      attached. */
  lemma CommitKeepsPrepared(s: State, es: seq<Event>)
    requires Inv(s) && s.current.Some? && ProperRun(s, es) && WithinTransaction(es)
    ensures var t, u, h := Step(Run(s, es), Commit(true)), Run(Shadow(s), WithoutAttach(es)), s.current.value;
            && Inv(t) && t.current.None? && h in t.installed
            && h in s.live && h in t.live && t.live[h] == s.live[h]
            && Own(t.active, h) == Own(s.active, h) + Prepared(s, h, es)
            && Kept(t.active, h) == u.active && |t.cells| == |u.cells|
            && forall c :: 0 <= c < |t.cells| ==>
                 t.cells[c] == if Targeted(Own(t.active, h), c) then Trampoline(t.live[h]) else u.cells[c]
  {
    hide WithoutAttach, Prepared, ProperRun, Kept, Own;
    var r, h := Run(s, es), s.current.value;
    RunKeeps(s, es);
    ShadowRun(s, es);
    TransactionPrepares(s, es);
    StepKeeps(r, Commit(true));
    OwnTargets(r);
  }

  /** What the pointers are while a handle is open. */
  lemma OwnTargets(s: State)
    requires Inv(s) && s.current.Some?
    ensures var h := s.current.value;
            h in s.live && forall c :: 0 <= c < |s.cells| ==>
              s.cells[c] == if Targeted(Own(s.active, h), c) then Trampoline(s.live[h]) else Shadow(s).cells[c]
  {
    var h := s.current.value;
    OwnIs(s.active, h);
    CellsInRange(s);
    RestoredIs(s.cells, s.active, h);
    hide Own;
    forall c | 0 <= c < |s.cells|
      ensures s.cells[c] == if Targeted(Own(s.active, h), c) then Trampoline(s.live[h]) else Shadow(s).cells[c]
    {
      var own := Own(s.active, h);
      if i :| 0 <= i < |own| && own[i].target == c {
        assert own[i] in s.active;
        assert EntryOk(s, own[i]);
      } else {
        forall k | 0 <= k < |s.active| && s.active[k].handle == h ensures s.active[k].target != c {
          assert s.active[k] in own;
        }
      }
    }
  }

  // ---- when a late hook is installed ----

  /** After an Attach outside a transaction that worked, and anything inside the one it opens:
      its handle is installed with an entry exactly if what closes it is a commit that succeeds. */
  lemma LateHookWaits(s: State, target: Option<Cell>, detour: Pointer, h: Handle, es: seq<Event>, close: Event)
    requires Inv(s) && s.current.None? && ValidTarget(s, target, detour)
    requires ProperRun(s, [Attach(target, detour, Some(h), true)] + es) && WithinTransaction(es)
    requires close.Begin? || close.Commit?
    ensures var r := Run(s, [Attach(target, detour, Some(h), true)] + es);
            var t := Step(r, close);
            Refers(t.active, h) && h in t.installed <==> close == Commit(true)
  {
    var first, begun := Attach(target, detour, None, true), BeginStep(s, Some(h));
    var all := [first] + es;
    LateRun(s, target, detour, h, true, es);
    assert all[0] == first && all[1..] == es;
    assert Works(begun, first);
    LatePrepares(begun, all);
    hide Run, ProperRun, BeginStep, Refers, Works, Inv;
    RunKeeps(begun, all);
    Closing(Run(begun, all), h, close);
  }

  lemma LatePrepares(s: State, es: seq<Event>)
    requires Inv(s) && s.current.Some? && ProperRun(s, es) && WithinTransaction(es) && es != [] && Works(s, es[0])
    ensures Refers(Run(s, es).active, s.current.value) && Run(s, es).current == s.current
  {
    var h := s.current.value;
    assert Prepared(s, h, es)[0].handle == h;
    TransactionPrepares(s, es);
    hide Prepared, Own, Run, Refers;
    var r, e := Run(s, es), Prepared(s, h, es)[0];
    assert e in Own(r.active, h);
    OwnIs(r.active, h);
    RefersIn(r.active, e);
  }

  /** What closes a transaction installs its entries or takes them back. */
  lemma Closing(s: State, h: Handle, close: Event)
    requires Inv(s) && s.current == Some(h) && Refers(s.active, h) && (close.Begin? || close.Commit?)
    ensures var t := Step(s, close); Refers(t.active, h) && h in t.installed <==> close == Commit(true)
  {
    hide Refers, Kept, Restored, EntryOk, Owned, Serials;
    if close != Commit(true) {
      OnlyCommitInstalls(s, close);
    }
  }

  lemma OnlyCommitInstalls(s: State, e: Event)
    requires e != Commit(true)
    ensures Step(s, e).installed <= s.installed
  {
    hide Kept, Restored, Refers, Find, Remove;
  }

  /** Is every commit behind some begin, as the macros have it? */
  predicate BeginsFirst(es: seq<Event>) {
    es == [] || es[0].Begin? || (!es[0].Commit? && BeginsFirst(es[1..]))
  }

  lemma DestroyedStays(s: State, e: Event)
    ensures s.destroyed <= Step(s, e).destroyed
  {
    hide Kept, Restored, Refers, Find, Remove;
  }

  lemma {:induction false} DestroyedForEver(s: State, es: seq<Event>)
    ensures s.destroyed <= Run(s, es).destroyed
    decreases es
  {
    hide Step;
    if es != [] {
      DestroyedStays(s, es[0]);
      DestroyedForEver(Step(s, es[0]), es[1..]);
    }
  }

  predicate IsInstalled(s: State, serial: nat) {
    exists h :: h in s.installed && h in s.live && s.live[h] == serial
  }

  /** An open handle that is not begun anew is either still open or destroyed. */
  lemma {:induction false} OpenIsNotInstalled(s: State, es: seq<Event>)
    requires Inv(s) && s.current.Some? && ProperRun(s, es) && BeginsFirst(es) && s.current.value in s.live
    ensures !IsInstalled(Run(s, es), s.live[s.current.value])
    decreases es
  {
    hide Proper, Step;
    var h, n := s.current.value, s.live[s.current.value];
    if es != [] {
      var e, t := es[0], Step(s, es[0]);
      StepKeeps(s, e);
      if e.Begin? {
        BeginDestroys(s, e.handle);
        DestroyedForEver(t, es[1..]);
        RunKeeps(t, es[1..]);
        assert n in Run(t, es[1..]).destroyed;
      } else {
        OneEvent(s, e);
        OpenIsNotInstalled(t, es[1..]);
      }
    }
  }

  lemma BeginDestroys(s: State, handle: Option<Handle>)
    requires s.current.Some? && s.current.value in s.live
    ensures s.live[s.current.value] in Step(s, Begin(handle)).destroyed
  {
    hide Kept, Restored;
  }

  /** So under the macros, each of whose commits is behind a begin of its own, a hook attached
      outside a transaction is never installed: its handle, told apart by its serial number, is
      not among the installed ones at any later time. */
  lemma LateHookIsNeverInstalled(s: State, target: Option<Cell>, detour: Pointer, h: Handle, ok: bool, es: seq<Event>)
    requires Inv(s) && s.current.None? && ProperRun(s, [Attach(target, detour, Some(h), ok)] + es) && BeginsFirst(es)
    ensures !IsInstalled(Run(s, [Attach(target, detour, Some(h), ok)] + es), s.created)
  {
    var late := Attach(target, detour, Some(h), ok);
    assert ([late] + es)[1..] == es && Proper(s, late);
    StepKeeps(s, late);
    var t := Step(s, late);
    CurrentIsLive(t);
    assert t.current == Some(h) && t.live[h] == s.created;
    OpenIsNotInstalled(t, es);
  }

  lemma BeginsEmpty(s: State, handle: Option<Handle>)
    requires Inv(s) && s.current.None? && Proper(s, Begin(handle))
    ensures var t := BeginStep(s, handle);
            && t.current == handle && t.active == s.active && t.uninstalled == s.uninstalled && t.cells == s.cells
            && t.destroyed == s.destroyed
            && t.live == (if handle.Some? then s.live[handle.value := s.created] else s.live)
            && (handle.Some? ==>
               t.created == s.created + 1 && !Refers(s.active, handle.value) && handle.value !in s.live)
  {
    if handle.Some? && Refers(s.active, handle.value) {
      var e := Referring(s.active, handle.value);
      InvNames(s, e);
    }
  }

  lemma InvNames(s: State, e: Hook)
    requires Inv(s) && e in s.active
    ensures e.handle in s.live && e.target < |s.cells|
  {
  }
}
