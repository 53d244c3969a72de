/** Steam's vector as the hooks edit it in place (src/Steam/Structs.h), the loop that grows its
    allocation (src/Hook/EnsureRoom.h) and the batch edit made of both
    (src/Hook/Hooks_Package.cpp).  Steam's own Grow is unknown: it is a parameter. */
module VectorEdit {

  type uint32 = n: int | 0 <= n < 0x1_0000_0000

  type AppId = uint32

  /** What one call of Grow does: its verdict and the allocation count it leaves behind. */
  datatype Growth = Growth(ok: bool, capacity: uint32)

  /** Grow may depend on how often it was called before, on the allocation and on the request. */
  type GrowPolicy = (nat, uint32, int) -> Growth

  /** The premise about Grow: it keeps the entries there are. */
  ghost predicate Keeps(policy: GrowPolicy) {
    forall call: nat, have: uint32, asked: int :: policy(call, have, asked).capacity >= have
  }

  /** static_cast<int> of an unsigned 32-bit number. */
  function Int32(n: uint32): int {
    if n < 0x8000_0000 then n else n - 0x1_0000_0000
  }

  // ---- EnsureRoom on the capacity alone ----

  datatype Verdict = Verdict(ok: bool, capacity: uint32, calls: nat)

  /** Asking for room until there is enough, a call is refused or brings nothing, or the
      attempts are used up. */
  function Asking(policy: GrowPolicy, calls: nat, have: uint32, need: uint32, attempts: nat): Verdict
    decreases attempts
  {
    if have >= need then Verdict(true, have, calls)
    else if attempts == 0 then Verdict(false, have, calls)
    else
      var g := policy(calls, have, Int32(need - have));
      if !g.ok || g.capacity <= have then Verdict(false, g.capacity, calls + 1)
      else Asking(policy, calls + 1, g.capacity, need, attempts - 1)
  }

  lemma AskOnce(policy: GrowPolicy, calls: nat, have: uint32, need: uint32, attempts: nat)
    ensures Asking(policy, calls, have, need, attempts) ==
            if have >= need then Verdict(true, have, calls)
            else if attempts == 0 then Verdict(false, have, calls)
            else
              var g := policy(calls, have, Int32(need - have));
              if !g.ok || g.capacity <= have then Verdict(false, g.capacity, calls + 1)
              else Asking(policy, calls + 1, g.capacity, need, attempts - 1)
  {
  }

  /** What Grow is asked for is what is missing; from 2^31 on that does not fit the int it is handed
      over as, and arrives as a negative number. */
  lemma AskedForWhatIsMissing(policy: GrowPolicy, calls: nat, have: uint32, need: uint32, attempts: nat)
    requires have < need && attempts > 0
    ensures var missing := need - have;
            var g := policy(calls, have, if missing < 0x8000_0000 then missing else missing - 0x1_0000_0000);
            Asking(policy, calls, have, need, attempts) ==
            if !g.ok || g.capacity <= have then Verdict(false, g.capacity, calls + 1)
            else if g.capacity >= need then Verdict(true, g.capacity, calls + 1)
            else Asking(policy, calls + 1, g.capacity, need, attempts - 1)
  {
  }

  /** True always means room, whatever Grow does; Grow is called at most once per attempt and
      never when there was room to begin with; a kept allocation does not shrink. */
  lemma {:induction false} TrueMeansRoom(policy: GrowPolicy, calls: nat, have: uint32, need: uint32, attempts: nat)
    ensures var v := Asking(policy, calls, have, need, attempts);
            && (v.ok ==> v.capacity >= need)
            && calls <= v.calls <= calls + attempts
            && (have >= need ==> v == Verdict(true, have, calls))
            && (Keeps(policy) ==> v.capacity >= have)
    decreases attempts
  {
    if have < need && attempts > 0 {
      var g := policy(calls, have, Int32(need - have));
      TrueMeansRoom(policy, calls + 1, g.capacity, need, attempts - 1);
    }
  }

  /** Every call succeeds and brings something. */
  ghost predicate Progresses(policy: GrowPolicy) {
    forall call: nat, have: uint32, asked: int :: have < 0xFFFF_FFFF ==>
      policy(call, have, asked).ok && policy(call, have, asked).capacity > have
  }

  /** With a Grow that always progresses the only way to fail is to use up the attempts, each of
      which brought at least one entry. */
  lemma {:induction false} OnlyAttemptsRunOut(policy: GrowPolicy, calls: nat, have: uint32, need: uint32, attempts: nat)
    requires Progresses(policy)
    ensures var v := Asking(policy, calls, have, need, attempts);
            !v.ok ==> v.calls == calls + attempts && have + attempts <= v.capacity < need
    decreases attempts
  {
    if have < need && attempts > 0 {
      var g := policy(calls, have, Int32(need - have));
      OnlyAttemptsRunOut(policy, calls + 1, g.capacity, need, attempts - 1);
    }
  }

  /** At least one entry from empty, and at least twice what was there. */
  ghost predicate Doubles(policy: GrowPolicy) {
    forall call: nat, have: uint32, asked: int :: have < 0x8000_0000 ==>
      && policy(call, have, asked).ok
      && policy(call, have, asked).capacity >= (if have == 0 then 1 else 2 * have)
  }

  /** What exact doubling reaches. */
  function Reach(have: nat, attempts: nat): nat
    decreases attempts
  {
    if attempts == 0 then have else Reach(if have == 0 then 1 else 2 * have, attempts - 1)
  }

  lemma {:induction false} ReachGrows(a: nat, b: nat, attempts: nat)
    requires a <= b
    ensures a <= Reach(a, attempts) <= Reach(b, attempts)
    decreases attempts
  {
    if attempts > 0 {
      ReachGrows(if a == 0 then 1 else 2 * a, if b == 0 then 1 else 2 * b, attempts - 1);
    }
  }

  lemma {:induction false} DoublingSuffices(policy: GrowPolicy, calls: nat, have: uint32, need: uint32, attempts: nat)
    requires Doubles(policy) && need <= 0x8000_0000 && need <= Reach(have, attempts)
    ensures Asking(policy, calls, have, need, attempts).ok
    decreases attempts
  {
    if have < need && attempts > 0 {
      var g := policy(calls, have, Int32(need - have));
      ReachGrows(if have == 0 then 1 else 2 * have, g.capacity, attempts - 1);
      DoublingSuffices(policy, calls + 1, g.capacity, need, attempts - 1);
    }
  }

  lemma {:induction false} ReachScales(have: nat, attempts: nat)
    requires have > 0
    ensures Reach(have, attempts) == have * Reach(1, attempts)
    decreases attempts
  {
    if attempts > 0 {
      ReachScales(2 * have, attempts - 1);
      ReachScales(2, attempts - 1);
      assert have * (2 * Reach(1, attempts - 1)) == 2 * have * Reach(1, attempts - 1);
    }
  }

  lemma ReachFromEmpty()
    ensures Reach(0, 32) == 0x8000_0000
  {
    assert Reach(1, 31) == Reach(0x100, 23);
    assert Reach(0x100, 23) == Reach(0x1_0000, 15);
    ReachScales(0x1_0000, 15);
    assert Reach(1, 15) == Reach(0x100, 7) == 0x8000;
  }

  /** Thirty-two attempts at a Grow that doubles make room for every need up to 2^31, from
      every allocation there may be. */
  lemma ThirtyTwoSuffice(policy: GrowPolicy, calls: nat, have: uint32, need: uint32)
    requires Doubles(policy) && need <= 0x8000_0000
    ensures Asking(policy, calls, have, need, 32).ok
    ensures Asking(policy, calls, have, need, 32).capacity >= need
  {
    ReachFromEmpty();
    ReachGrows(0, have, 32);
    DoublingSuffices(policy, calls, have, need, 32);
    TrueMeansRoom(policy, calls, have, need, 32);
  }

  /** The slowest Grow that doubles. */
  function Doubling(call: nat, have: uint32, asked: int): Growth {
    Growth(true, if have == 0 then 1 else if have < 0x8000_0000 then 2 * have else 0xFFFF_FFFF)
  }

  lemma {:induction false} SlowDoubling(calls: nat, have: uint32, need: uint32, attempts: nat)
    requires Reach(have, attempts) < 0x1_0000_0000
    ensures Asking(Doubling, calls, have, need, attempts).ok <==> need <= Reach(have, attempts)
    decreases attempts
  {
    ReachGrows(have, have, attempts);
    if have < need && attempts > 0 {
      var next := if have == 0 then 1 else 2 * have;
      ReachGrows(next, next, attempts - 1);
      assert Doubling(calls, have, Int32(need - have)) == Growth(true, next);
      SlowDoubling(calls + 1, next, need, attempts - 1);
    }
  }

  /** The bound is tight: from an empty allocation the slowest doubling makes room exactly for
      the needs up to 2^31. */
  lemma ThirtyTwoIsTight(calls: nat, need: uint32)
    ensures Doubles(Doubling)
    ensures Asking(Doubling, calls, 0, need, 32).ok <==> need <= 0x8000_0000
  {
    ReachFromEmpty();
    SlowDoubling(calls, 0, need, 32);
  }

  // ---- the vector ----

  function IndexOf(s: seq<AppId>, x: AppId): (i: nat)
    ensures i <= |s|
    ensures x !in s[..i] && (i < |s| ==> s[i] == x)
  {
    if s == [] || s[0] == x then 0 else
      var i := 1 + IndexOf(s[1..], x);
      assert s[..i] == [s[0]] + s[1..][..i - 1];
      i
  }

  /** A sequence without the entry at i: the last one takes its place. */
  function Removed(s: seq<AppId>, i: nat): seq<AppId> {
    if i < |s| then s[i := s[|s| - 1]][..|s| - 1] else s
  }

  /** A sequence after one removal per id, each of the first occurrence. */
  function Without(s: seq<AppId>, ids: seq<AppId>): seq<AppId>
    decreases ids
  {
    if ids == [] then s else
      var shorter := Without(s, ids[..|ids| - 1]);
      Removed(shorter, IndexOf(shorter, ids[|ids| - 1]))
  }

  /** The last entry takes the place; all others stay where they are. */
  lemma RemovedIs(s: seq<AppId>, i: nat)
    requires i < |s|
    ensures |Removed(s, i)| == |s| - 1
    ensures forall k :: 0 <= k < |s| - 1 ==> Removed(s, i)[k] == if k == i then s[|s| - 1] else s[k]
  {
  }

  lemma RemovedLosesOne(s: seq<AppId>, i: nat)
    requires i < |s|
    ensures multiset(Removed(s, i)) == multiset(s) - multiset{s[i]}
  {
    var n := |s| - 1;
    assert s == s[..n] + [s[n]];
    if i < n {
      assert s[..n] == s[..i] + [s[i]] + s[i + 1..n];
      assert Removed(s, i) == s[..i] + [s[n]] + s[i + 1..n];
    } else {
      assert Removed(s, i) == s[..n];
    }
  }

  /** Removal as a multiset: one occurrence less per id that is found, and nothing else. */
  lemma {:induction false} WithoutIsDifference(s: seq<AppId>, ids: seq<AppId>)
    ensures multiset(Without(s, ids)) == multiset(s) - multiset(ids)
    ensures |Without(s, ids)| <= |s|
    decreases ids
  {
    if ids != [] {
      var front, id := ids[..|ids| - 1], ids[|ids| - 1];
      WithoutIsDifference(s, front);
      assert ids == front + [id];
      assert multiset(ids) == multiset(front) + multiset{id};
      RemovalIsDifference(Without(s, front), id);
    }
  }

  lemma RemovalIsDifference(s: seq<AppId>, id: AppId)
    ensures multiset(Removed(s, IndexOf(s, id))) == multiset(s) - multiset{id}
  {
    var i := IndexOf(s, id);
    if i < |s| {
      RemovedLosesOne(s, i);
    } else {
      assert s == s[..i];
      assert id !in multiset(s);
    }
  }

  class Vector {
    var memory: array<AppId>      // m_pMemory with its m_nAllocationCount entries
    var size: uint32
    var calls: nat                // how often Grow was called
    const policy: GrowPolicy

    ghost predicate Valid()
      reads this
    {
      size <= memory.Length < 0x1_0000_0000 && Keeps(policy)
    }

    function Contents(): seq<AppId>
      requires size <= memory.Length
      reads this, memory
    {
      memory[..size]
    }

    /** Only the entry at elem and the count change, and only if elem is in use. */
    method FastRemove(elem: uint32)
      requires Valid()
      modifies `size, memory
      ensures Valid()
      ensures Contents() == Removed(old(Contents()), elem)
    {
      if elem < size {
        if elem != size - 1 {
          memory[elem] := memory[size - 1];
        }
        size := size - 1;
      }
    }

    method FindAndFastRemove(src: AppId) returns (found: bool)
      requires Valid()
      modifies `size, memory
      ensures Valid()
      ensures found <==> src in old(Contents())
      ensures Contents() == Removed(old(Contents()), IndexOf(old(Contents()), src))
    {
      ghost var s := Contents();
      var i: int := 0;
      while i < size
        invariant 0 <= i <= size && Contents() == s && size == old(size)
        invariant src !in s[..i]
      {
        if memory[i] == src {
          assert s[i] == src;
          FirstIs(s, src, i);
          FastRemove(i);
          return true;
        }
        assert s[..i + 1] == s[..i] + [s[i]];
        i := i + 1;
      }
      assert s[..i] == s;
      return false;
    }

    lemma FirstIs(s: seq<AppId>, x: AppId, i: nat)
      requires i < |s| && s[i] == x && x !in s[..i]
      ensures IndexOf(s, x) == i
    {
      if i > 0 {
        assert s[..i][0] == s[0] && s[..i][1..] == s[1..][..i - 1];
        FirstIs(s[1..], x, i - 1);
      }
    }

    /** Steam's Grow, which may move the allocation. */
    method Grow(asked: int) returns (ok: bool)
      requires Valid()
      modifies this`memory, this`calls
      ensures Valid() && Contents() == old(Contents())
      ensures Growth(ok, memory.Length) == policy(old(calls), old(memory.Length), asked)
      ensures calls == old(calls) + 1
      ensures memory == old(memory) || fresh(memory)
    {
      var g := policy(calls, memory.Length, asked);
      calls := calls + 1;
      if g.capacity != memory.Length {
        var moved := new AppId[g.capacity];
        forall i | 0 <= i < memory.Length {
          moved[i] := memory[i];
        }
        memory := moved;
      }
      return g.ok;
    }
  }

  /** The growth loop on a vector. */
  method EnsureRoom(v: Vector, need: uint32) returns (ok: bool)
    requires v.Valid()
    modifies v`memory, v`calls
    ensures v.Valid() && v.Contents() == old(v.Contents())
    ensures Verdict(ok, v.memory.Length, v.calls) == Asking(v.policy, old(v.calls), old(v.memory.Length), need, 32)
    ensures ok ==> v.memory.Length >= need
    ensures v.memory == old(v.memory) || fresh(v.memory)
  {
    hide Asking;
    for attempt := 0 to 32
      invariant v.Valid() && v.Contents() == old(v.Contents())
      invariant v.memory == old(v.memory) || fresh(v.memory)
      invariant Asking(v.policy, v.calls, v.memory.Length, need, 32 - attempt)
             == Asking(v.policy, old(v.calls), old(v.memory.Length), need, 32)
    {
      var have := v.memory.Length;
      AskOnce(v.policy, v.calls, have, need, 32 - attempt);
      if have >= need {
        return true;
      }
      var grown := v.Grow(Int32(need - have));
      if !grown || v.memory.Length <= have {
        return false;
      }
    }
    AskOnce(v.policy, v.calls, v.memory.Length, need, 0);
    return v.memory.Length >= need;
  }

  // ---- the batch edit ----

  method RemoveAll(v: Vector, removals: seq<AppId>) returns (removed: nat)
    requires v.Valid()
    modifies v`size, v.memory
    ensures v.Valid() && v.memory == old(v.memory)
    ensures v.Contents() == Without(old(v.Contents()), removals)
    ensures removed == old(v.size) - v.size
  {
    removed := 0;
    for n := 0 to |removals|
      invariant v.Valid() && v.memory == old(v.memory)
      invariant v.Contents() == Without(old(v.Contents()), removals[..n])
      invariant removed == old(v.size) - v.size
    {
      assert removals[..n + 1][..n] == removals[..n];
      var found := v.FindAndFastRemove(removals[n]);
      if found {
        removed := removed + 1;
      }
    }
    assert removals[..|removals|] == removals;
  }

  method Append(v: Vector, additions: seq<AppId>) returns (added: set<AppId>)
    requires v.Valid() && v.size + |additions| <= v.memory.Length
    modifies v`size, v.memory
    ensures v.Valid() && v.memory == old(v.memory)
    ensures v.Contents() == old(v.Contents()) + additions
    ensures added == set a | a in additions
  {
    added := {};
    var oldSize := v.size;
    for i := 0 to |additions|
      invariant v.size == oldSize && v.memory == old(v.memory)
      invariant v.memory[..oldSize + i] == old(v.Contents()) + additions[..i]
      invariant added == set a | a in additions[..i]
    {
      v.memory[oldSize + i] := additions[i];
      added := added + {additions[i]};
      assert additions[..i + 1] == additions[..i] + [additions[i]];
    }
    assert additions[..|additions|] == additions;
    v.size := oldSize + |additions|;
  }

  /** The batch edit: every removal that is found takes one entry out, the additions go to the end
      all together or not at all -- they enter if there are any, if the allocation could be made
      large enough, and if the new count, which the guard computes in 64 bits, is a 32-bit
      number -- and no write is outside the allocation.  stopped is the late size guard. */
  method Edit(v: Vector, removals: seq<AppId>, additions: seq<AppId>)
    returns (removed: nat, added: set<AppId>, stopped: bool, refresh: bool)
    requires v.Valid()
    modifies v`memory, v`size, v`calls, v.memory
    ensures v.Valid()
    ensures var kept := Without(old(v.Contents()), removals);
            && removed == |old(v.Contents())| - |kept|
            && var need: uint32 := (|kept| + |additions|) % 0x1_0000_0000;
            && var room := Asking(v.policy, old(v.calls), old(v.memory.Length), need, 32);
            && var enter := additions != [] && room.ok && |kept| + |additions| < 0x1_0000_0000;
            && v.Contents() == (if enter then kept + additions else kept)
            && added == (if enter then set a | a in additions else {})
            && (stopped <==> additions != [] && room.ok && |kept| + |additions| >= 0x1_0000_0000)
            && (refresh <==> !stopped && (removed > 0 || added != {}))
  {
    hide Asking, Without;
    removed := RemoveAll(v, removals);
    added, stopped := {}, false;
    if additions != [] {
      var oldSize := v.size;
      var room := EnsureRoom(v, (oldSize + |additions|) % 0x1_0000_0000);
      if room {
        if v.memory.Length < oldSize + |additions| {
          return removed, added, true, false;
        }
        added := Append(v, additions);
        assert additions[0] in added;
      }
    }
    refresh := !(added == {} && removed == 0);
  }

  /** What the edit does to the ids as a multiset. */
  lemma EditBalance(start: seq<AppId>, removals: seq<AppId>, additions: seq<AppId>)
    ensures multiset(Without(start, removals) + additions) == multiset(start) - multiset(removals) + multiset(additions)
  {
    WithoutIsDifference(start, removals);
  }

  /** With a Grow that doubles, an edit whose result has at most 2^31 entries always goes
      through: there is room for it and the late guard does not fire. */
  lemma DoublingEditFits(policy: GrowPolicy, calls: nat, have: uint32, kept: nat, additions: nat)
    requires Doubles(policy) && additions > 0 && kept + additions <= 0x8000_0000
    ensures Asking(policy, calls, have, kept + additions, 32).ok && kept + additions < 0x1_0000_0000
  {
    ThirtyTwoSuffice(policy, calls, have, kept + additions);
  }
}
