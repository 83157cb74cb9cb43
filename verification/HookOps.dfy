/**
  The registry of emulation hooks: many hooks share one engine handle for each event
  type, intercepted instruction or address.
*/
module HookOps {
  import opened Results

  /** Event types in the order registration and removal go through them. */
  datatype EventType =
    | Intr | Insn | Code | Block
    | MemReadUnmapped | MemWriteUnmapped | MemFetchUnmapped
    | MemReadProt | MemWriteProt | MemFetchProt
    | MemRead | MemWrite | MemFetch | MemReadAfter
    | InsnInvalid

  const TYPES: seq<EventType> := [
    Intr, Insn, Code, Block, MemReadUnmapped, MemWriteUnmapped, MemFetchUnmapped, MemReadProt, MemWriteProt,
    MemFetchProt, MemRead, MemWrite, MemFetch, MemReadAfter, InsnInvalid]

  /** The engine's number for instruction hooks. */
  const UC_HOOK_INSN := 2

  /** Keys of the three pairs of dictionaries. */
  datatype Key = Event(t: EventType) | Instruction(insn: int) | Address(addr: int)

  /** A hook object; two hooks are the same only if they are the same object. */
  datatype Hook = Hook(id: nat, begin: int, end: int, addr: Option<int>)

  /** Hook lists and engine handles by key, and the engine's live handles with what each is for. */
  datatype Registry = Registry(hooks: map<Key, seq<Hook>>, handles: map<Key, nat>, live: map<nat, Key>, next: nat)

  const EMPTY := Registry(map[], map[], map[], 0)

  function ListAt(r: Registry, key: Key): seq<Hook> {
    if key in r.hooks then r.hooks[key] else []
  }

  // ----- steps -----

  /** Takes an engine handle if the key has none, and appends to the key's list. */
  function AddAt(r: Registry, key: Key, h: Hook): Registry {
    var r1 := if key in r.handles then r
              else r.(handles := r.handles[key := r.next], live := r.live[r.next := key], next := r.next + 1);
    r1.(hooks := r1.hooks[key := ListAt(r, key) + [h]])
  }

  /** The list without the first occurrence of h. */
  function Without(list: seq<Hook>, h: Hook): seq<Hook> {
    if list == [] then [] else if list[0] == h then list[1..] else [list[0]] + Without(list[1..], h)
  }

  /** Removes from the key's list; the last hook to go gives the engine handle back. */
  function RemoveAt(r: Registry, key: Key, h: Hook): Registry {
    if h !in ListAt(r, key) then r
    else
      var rest := Without(r.hooks[key], h);
      var r1 := r.(hooks := r.hooks[key := rest]);
      if rest != [] || key !in r1.handles then r1
      else r1.(handles := r1.handles - {key}, live := r1.live - {r1.handles[key]})
  }

  function AddKey(t: EventType, insn: int): Key {
    if t == Insn then Instruction(insn) else Event(t)
  }

  /** Removal looks instruction hooks up under the event type's own number. */
  function RemoveKey(t: EventType): Key {
    if t == Insn then Instruction(UC_HOOK_INSN) else Event(t)
  }

  function AddTypes(r: Registry, mask: set<EventType>, insn: int, h: Hook, n: nat): Registry
    requires n <= |TYPES|
  {
    if n == 0 then r
    else
      var r1 := AddTypes(r, mask, insn, h, n - 1);
      if TYPES[n - 1] in mask then AddAt(r1, AddKey(TYPES[n - 1], insn), h) else r1
  }

  function RemoveTypes(r: Registry, mask: set<EventType>, h: Hook, n: nat): Registry
    requires n <= |TYPES|
  {
    if n == 0 then r
    else
      var r1 := RemoveTypes(r, mask, h, n - 1);
      if TYPES[n - 1] in mask then RemoveAt(r1, RemoveKey(TYPES[n - 1]), h) else r1
  }

  /** What a caller gets back from a registration. */
  datatype HookRet = HookRet(mask: set<EventType>, obj: Hook)

  function HookDel(r: Registry, hret: HookRet): Registry {
    if hret.obj.addr.Some? then RemoveAt(r, Address(hret.obj.addr.value), hret.obj)
    else RemoveTypes(r, hret.mask, hret.obj, |TYPES|)
  }

  /** All engine handles are given back and all lists emptied. */
  function ClearHooks(r: Registry): Registry {
    Registry(map[], map[], map x | x in r.live && x !in r.handles.Values :: r.live[x], r.next)
  }

  // ----- handles -----

  /**
    Every key with hooks has exactly one live engine handle, a key without hooks has none,
    and the engine has no other live handle.
  */
  ghost predicate HandlesExact(r: Registry) {
    && (forall k :: k in r.handles <==> ListAt(r, k) != [])
    && (forall k :: k in r.handles ==> r.handles[k] in r.live && r.live[r.handles[k]] == k)
    && (forall x :: x in r.live ==> x < r.next && r.live[x] in r.handles && r.handles[r.live[x]] == x)
  }

  lemma AddKeepsHandles(r: Registry, key: Key, h: Hook)
    requires HandlesExact(r)
    ensures HandlesExact(AddAt(r, key, h))
  {
    var r' := AddAt(r, key, h);
    forall k ensures k in r'.handles <==> ListAt(r', k) != [] {
      assert k in r.handles <==> ListAt(r, k) != [];
    }
  }

  lemma RemoveKeepsHandles(r: Registry, key: Key, h: Hook)
    requires HandlesExact(r)
    ensures HandlesExact(RemoveAt(r, key, h))
  {
    var r' := RemoveAt(r, key, h);
    forall k ensures k in r'.handles <==> ListAt(r', k) != [] {
      assert k in r.handles <==> ListAt(r, k) != [];
    }
  }

  /** Clearing leaves no handle behind. */
  lemma ClearKeepsHandles(r: Registry)
    requires HandlesExact(r)
    ensures HandlesExact(ClearHooks(r)) && ClearHooks(r).live == map[]
  {
    forall x | x in r.live ensures x in r.handles.Values {
      assert r.handles[r.live[x]] == x;
    }
    assert ClearHooks(r).live == map[];
  }

  lemma {:induction false} AddTypesKeepsHandles(r: Registry, mask: set<EventType>, insn: int, h: Hook, n: nat)
    requires HandlesExact(r) && n <= |TYPES|
    ensures HandlesExact(AddTypes(r, mask, insn, h, n))
  {
    if n > 0 {
      AddTypesKeepsHandles(r, mask, insn, h, n - 1);
      AddKeepsHandles(AddTypes(r, mask, insn, h, n - 1), AddKey(TYPES[n - 1], insn), h);
    }
  }

  lemma {:induction false} RemoveTypesKeepsHandles(r: Registry, mask: set<EventType>, h: Hook, n: nat)
    requires HandlesExact(r) && n <= |TYPES|
    ensures HandlesExact(RemoveTypes(r, mask, h, n))
  {
    if n > 0 {
      RemoveTypesKeepsHandles(r, mask, h, n - 1);
      RemoveKeepsHandles(RemoveTypes(r, mask, h, n - 1), RemoveKey(TYPES[n - 1]), h);
    }
  }

  /** A removal that gives a handle back finds it, and finds it live. */
  lemma ReleasesLiveHandle(r: Registry, key: Key, h: Hook)
    requires HandlesExact(r) && h in ListAt(r, key) && Without(r.hooks[key], h) == []
    ensures key in r.handles && r.handles[key] in r.live
    ensures r.handles[key] !in RemoveAt(r, key, h).live && key !in RemoveAt(r, key, h).handles
  {
    assert ListAt(r, key) != [];
  }

  // ----- registrations -----

  /** A hook and the keys it is to be called for. */
  datatype Registration = Registration(hook: Hook, keys: set<Key>)

  /** The hooks for a key among the first n registrations, in registration order. */
  function HooksFor(regs: seq<Registration>, key: Key, n: nat): seq<Hook>
    requires n <= |regs|
  {
    if n == 0 then []
    else if key in regs[n - 1].keys then HooksFor(regs, key, n - 1) + [regs[n - 1].hook]
    else HooksFor(regs, key, n - 1)
  }

  ghost predicate DistinctHooks(regs: seq<Registration>) {
    forall i, j :: 0 <= i < j < |regs| ==> regs[i].hook != regs[j].hook
  }

  /** Each list holds the hooks registered for its key, each once, in order. */
  ghost predicate Lists(r: Registry, regs: seq<Registration>) {
    DistinctHooks(regs) && forall k :: ListAt(r, k) == HooksFor(regs, k, |regs|)
  }

  /** The registrations once a hook is no longer called for some keys. */
  function Dropped(regs: seq<Registration>, h: Hook, keys: set<Key>): (r: seq<Registration>)
    ensures |r| == |regs|
  {
    seq(|regs|, i requires 0 <= i < |regs| =>
      if regs[i].hook == h then regs[i].(keys := regs[i].keys - keys) else regs[i])
  }

  lemma {:induction false} HooksForPrefix(regs: seq<Registration>, regs': seq<Registration>, key: Key, n: nat)
    requires n <= |regs| && n <= |regs'|
    requires forall i :: 0 <= i < n ==>
               regs[i].hook == regs'[i].hook && (key in regs[i].keys <==> key in regs'[i].keys)
    ensures HooksFor(regs, key, n) == HooksFor(regs', key, n)
  {
    if n > 0 {
      HooksForPrefix(regs, regs', key, n - 1);
    }
  }

  lemma {:induction false} WithoutAbsent(list: seq<Hook>, h: Hook)
    requires h !in list
    ensures Without(list, h) == list
  {
    if list != [] {
      WithoutAbsent(list[1..], h);
    }
  }

  lemma {:induction false} WithoutLast(list: seq<Hook>, x: Hook, h: Hook)
    requires h !in list
    ensures Without(list + [x], h) == if x == h then list else list + [x]
  {
    if list != [] {
      assert (list + [x])[1..] == list[1..] + [x];
      WithoutLast(list[1..], x, h);
    }
  }

  lemma {:induction false} WithoutAppend(list: seq<Hook>, x: Hook, h: Hook)
    requires h in list
    ensures Without(list + [x], h) == Without(list, h) + [x]
  {
    if list[0] != h {
      assert (list + [x])[1..] == list[1..] + [x];
      WithoutAppend(list[1..], x, h);
    } else {
      assert (list + [x])[1..] == list[1..] + [x];
    }
  }

  lemma {:induction false} InHooksFor(regs: seq<Registration>, key: Key, n: nat, h: Hook)
    requires n <= |regs|
    ensures h in HooksFor(regs, key, n) <==> exists i :: 0 <= i < n && regs[i].hook == h && key in regs[i].keys
  {
    if n > 0 {
      InHooksFor(regs, key, n - 1, h);
      if key in regs[n - 1].keys && regs[n - 1].hook == h {
        assert h == HooksFor(regs, key, n)[|HooksFor(regs, key, n)| - 1];
      }
    }
  }

  /** Taking a hook out of a list is dropping that key from its registration. */
  lemma {:induction false} WithoutIsDropped(regs: seq<Registration>, key: Key, h: Hook, n: nat)
    requires DistinctHooks(regs) && n <= |regs|
    ensures Without(HooksFor(regs, key, n), h) == HooksFor(Dropped(regs, h, {key}), key, n)
  {
    if n > 0 {
      WithoutIsDropped(regs, key, h, n - 1);
      InHooksFor(regs, key, n - 1, h);
      var list := HooksFor(regs, key, n - 1);
      if key in regs[n - 1].keys {
        if h in list {
          WithoutAppend(list, regs[n - 1].hook, h);
        } else {
          WithoutLast(list, regs[n - 1].hook, h);
          WithoutAbsent(list, h);
        }
      }
    }
  }

  lemma RemoveDrops(r: Registry, regs: seq<Registration>, key: Key, h: Hook)
    requires Lists(r, regs)
    ensures Lists(RemoveAt(r, key, h), Dropped(regs, h, {key}))
  {
    var r', regs' := RemoveAt(r, key, h), Dropped(regs, h, {key});
    forall k ensures ListAt(r', k) == HooksFor(regs', k, |regs'|) {
      if k == key {
        WithoutIsDropped(regs, key, h, |regs|);
        if h !in ListAt(r, key) {
          WithoutAbsent(ListAt(r, key), h);
        }
      } else {
        HooksForPrefix(regs, regs', k, |regs|);
      }
    }
  }

  lemma DroppedTwice(regs: seq<Registration>, h: Hook, x: set<Key>, y: set<Key>)
    ensures Dropped(Dropped(regs, h, x), h, y) == Dropped(regs, h, x + y)
  {
    var a, b := Dropped(Dropped(regs, h, x), h, y), Dropped(regs, h, x + y);
    forall i | 0 <= i < |regs| ensures a[i] == b[i] {
      assert regs[i].keys - x - y == regs[i].keys - (x + y);
    }
  }

  function RemoveKeys(mask: set<EventType>, n: nat): set<Key>
    requires n <= |TYPES|
  {
    if n == 0 then {}
    else if TYPES[n - 1] in mask then RemoveKeys(mask, n - 1) + {RemoveKey(TYPES[n - 1])}
    else RemoveKeys(mask, n - 1)
  }

  function AddKeys(mask: set<EventType>, insn: int, n: nat): set<Key>
    requires n <= |TYPES|
  {
    if n == 0 then {}
    else if TYPES[n - 1] in mask then AddKeys(mask, insn, n - 1) + {AddKey(TYPES[n - 1], insn)}
    else AddKeys(mask, insn, n - 1)
  }

  lemma DroppedNothing(regs: seq<Registration>, h: Hook)
    ensures Dropped(regs, h, {}) == regs
  {
    var same := Dropped(regs, h, {});
    forall i | 0 <= i < |regs| ensures same[i] == regs[i] {
      assert regs[i].keys - {} == regs[i].keys;
    }
  }

  lemma {:induction false} RemoveTypesDrops(
    r: Registry, regs: seq<Registration>, mask: set<EventType>, h: Hook, n: nat)
    requires Lists(r, regs) && n <= |TYPES|
    ensures Lists(RemoveTypes(r, mask, h, n), Dropped(regs, h, RemoveKeys(mask, n)))
  {
    if n == 0 {
      DroppedNothing(regs, h);
    } else {
      RemoveTypesDrops(r, regs, mask, h, n - 1);
      if TYPES[n - 1] in mask {
        var key, keys := RemoveKey(TYPES[n - 1]), RemoveKeys(mask, n - 1);
        RemoveDrops(RemoveTypes(r, mask, h, n - 1), Dropped(regs, h, keys), key, h);
        DroppedTwice(regs, h, keys, {key});
      }
    }
  }

  // ----- registering -----

  ghost predicate New(regs: seq<Registration>, h: Hook) {
    forall i :: 0 <= i < |regs| ==> regs[i].hook != h
  }

  lemma AddRegisters(r: Registry, regs: seq<Registration>, h: Hook, keys: set<Key>, key: Key)
    requires Lists(r, regs + [Registration(h, keys)]) && key !in keys
    ensures Lists(AddAt(r, key, h), regs + [Registration(h, keys + {key})])
  {
    var before, after := regs + [Registration(h, keys)], regs + [Registration(h, keys + {key})];
    var r' := AddAt(r, key, h);
    forall k ensures ListAt(r', k) == HooksFor(after, k, |after|) {
      HooksForPrefix(before, after, k, |regs|);
      assert ListAt(r, k) == HooksFor(before, k, |before|);
    }
    forall i, j | 0 <= i < j < |after| ensures after[i].hook != after[j].hook {
      assert after[i].hook == before[i].hook && after[j].hook == before[j].hook;
    }
  }

  lemma RegisterNothing(r: Registry, regs: seq<Registration>, h: Hook)
    requires Lists(r, regs) && New(regs, h)
    ensures Lists(r, regs + [Registration(h, {})])
  {
    var after := regs + [Registration(h, {})];
    forall k ensures ListAt(r, k) == HooksFor(after, k, |after|) {
      HooksForPrefix(regs, after, k, |regs|);
    }
  }

  /** Position of a type in the order of processing. */
  function IndexOf(t: EventType): (i: nat)
    ensures i < |TYPES| && TYPES[i] == t
  {
    match t
    case Intr => 0 case Insn => 1 case Code => 2 case Block => 3
    case MemReadUnmapped => 4 case MemWriteUnmapped => 5 case MemFetchUnmapped => 6
    case MemReadProt => 7 case MemWriteProt => 8 case MemFetchProt => 9
    case MemRead => 10 case MemWrite => 11 case MemFetch => 12 case MemReadAfter => 13
    case InsnInvalid => 14
  }

  lemma TypesDistinct(i: nat, j: nat)
    requires i < j < |TYPES|
    ensures TYPES[i] != TYPES[j]
  {
    assert IndexOf(TYPES[i]) == i && IndexOf(TYPES[j]) == j;
  }

  lemma {:induction false} InAddKeys(mask: set<EventType>, insn: int, n: nat, k: Key)
    requires n <= |TYPES|
    ensures k in AddKeys(mask, insn, n) <==> exists i :: 0 <= i < n && TYPES[i] in mask && k == AddKey(TYPES[i], insn)
  {
    if n > 0 {
      InAddKeys(mask, insn, n - 1, k);
    }
  }

  lemma {:induction false} InRemoveKeys(mask: set<EventType>, n: nat, k: Key)
    requires n <= |TYPES|
    ensures k in RemoveKeys(mask, n) <==> exists i :: 0 <= i < n && TYPES[i] in mask && k == RemoveKey(TYPES[i])
  {
    if n > 0 {
      InRemoveKeys(mask, n - 1, k);
    }
  }

  lemma {:induction false} AddTypesRegisters(
    r: Registry, regs: seq<Registration>, mask: set<EventType>, insn: int, h: Hook, n: nat)
    requires Lists(r, regs) && New(regs, h) && n <= |TYPES|
    ensures Lists(AddTypes(r, mask, insn, h, n), regs + [Registration(h, AddKeys(mask, insn, n))])
  {
    if n == 0 {
      RegisterNothing(r, regs, h);
    } else {
      AddTypesRegisters(r, regs, mask, insn, h, n - 1);
      if TYPES[n - 1] in mask {
        KeyIsNew(mask, insn, n);
        AddRegisters(AddTypes(r, mask, insn, h, n - 1), regs, h, AddKeys(mask, insn, n - 1),
                     AddKey(TYPES[n - 1], insn));
      }
    }
  }

  lemma KeyIsNew(mask: set<EventType>, insn: int, n: nat)
    requires 0 < n <= |TYPES|
    ensures AddKey(TYPES[n - 1], insn) !in AddKeys(mask, insn, n - 1)
  {
    InAddKeys(mask, insn, n - 1, AddKey(TYPES[n - 1], insn));
    forall i | 0 <= i < n - 1 ensures AddKey(TYPES[i], insn) != AddKey(TYPES[n - 1], insn) {
      TypesDistinct(i, n - 1);
    }
  }

  // ----- what a removal leaves behind -----

  /** The keys of a whole mask. */
  lemma MaskKeys(mask: set<EventType>, insn: int, k: Key)
    ensures k in AddKeys(mask, insn, |TYPES|) <==>
            (k.Event? && k.t != Insn && k.t in mask) || (k == Instruction(insn) && Insn in mask)
    ensures k in RemoveKeys(mask, |TYPES|) <==>
            (k.Event? && k.t != Insn && k.t in mask) || (k == Instruction(UC_HOOK_INSN) && Insn in mask)
  {
    InAddKeys(mask, insn, |TYPES|, k);
    InRemoveKeys(mask, |TYPES|, k);
    if k.Event? {
      assert TYPES[IndexOf(k.t)] == k.t;
    }
    assert TYPES[IndexOf(Insn)] == Insn;
  }

  /**
    Removing a hook takes it out of every list, unless it is an instruction hook for another
    instruction type than the one the lookup happens to name; that one stays in its list.
  */
  lemma RemovedEverywhereIff(r: Registry, regs: seq<Registration>, mask: set<EventType>, insn: int, i: nat)
    requires Lists(r, regs) && i < |regs| && regs[i].hook.addr.None?
    requires regs[i].keys == AddKeys(mask, insn, |TYPES|)
    ensures var r' := HookDel(r, HookRet(mask, regs[i].hook));
            && (forall k :: regs[i].hook in ListAt(r', k) <==>
                  k == Instruction(insn) && Insn in mask && insn != UC_HOOK_INSN)
  {
    var h, gone := regs[i].hook, RemoveKeys(mask, |TYPES|);
    RemoveTypesDrops(r, regs, mask, h, |TYPES|);
    var regs' := Dropped(regs, h, gone);
    forall k ensures h in ListAt(HookDel(r, HookRet(mask, h)), k) <==>
                     k == Instruction(insn) && Insn in mask && insn != UC_HOOK_INSN
    {
      InHooksFor(regs', k, |regs'|, h);
      MaskKeys(mask, insn, k);
      assert regs'[i].hook == h && regs'[i].keys == regs[i].keys - gone;
    }
  }

  /** A hook on the system call instruction, number 699, is still there after its removal. */
  lemma SyscallHookStays(h: Hook)
    requires h.addr.None?
    ensures var r := AddTypes(EMPTY, {Insn}, 699, h, |TYPES|);
            h in ListAt(HookDel(r, HookRet({Insn}, h)), Instruction(699))
  {
    var none: seq<Registration> := [];
    AddTypesRegisters(EMPTY, none, {Insn}, 699, h, |TYPES|);
    var regs := [Registration(h, AddKeys({Insn}, 699, |TYPES|))];
    assert none + regs == regs;
    RemovedEverywhereIff(AddTypes(EMPTY, {Insn}, 699, h, |TYPES|), regs, {Insn}, 699, 0);
  }

  /** Occurrences of a hook in a list. */
  function Count(list: seq<Hook>, h: Hook): nat {
    if list == [] then 0 else Count(list[..|list| - 1], h) + if list[|list| - 1] == h then 1 else 0
  }

  lemma CountLast(list: seq<Hook>, x: Hook, h: Hook)
    ensures Count(list + [x], h) == Count(list, h) + if x == h then 1 else 0
  {
    assert (list + [x])[..|list|] == list;
  }

  /** A list holds the hooks registered for its key and no others, in registration order. */
  lemma {:induction false} HooksForInOrder(regs: seq<Registration>, key: Key, n: nat) returns (at: seq<nat>)
    requires n <= |regs|
    ensures |at| == |HooksFor(regs, key, n)|
    ensures forall k :: 0 <= k < |at| ==> at[k] < n && HooksFor(regs, key, n)[k] == regs[at[k]].hook
    ensures forall k, l :: 0 <= k < l < |at| ==> at[k] < at[l]
    ensures forall i :: 0 <= i < n ==> (i in at <==> key in regs[i].keys)
  {
    if n == 0 {
      at := [];
    } else {
      at := HooksForInOrder(regs, key, n - 1);
      if key in regs[n - 1].keys {
        at := at + [n - 1];
      }
    }
  }

  /** A registered hook is exactly once in the list of each of its keys. */
  lemma {:induction false} OnceInEachList(regs: seq<Registration>, k: Key, n: nat, i: nat)
    requires DistinctHooks(regs) && n <= |regs| && i < |regs|
    ensures Count(HooksFor(regs, k, n), regs[i].hook) == if i < n && k in regs[i].keys then 1 else 0
  {
    if n > 0 {
      OnceInEachList(regs, k, n - 1, i);
      assert regs[n - 1].hook == regs[i].hook <==> n - 1 == i;
      if k in regs[n - 1].keys {
        CountLast(HooksFor(regs, k, n - 1), regs[n - 1].hook, regs[i].hook);
      }
    }
  }

  // ----- runs -----

  datatype Op =
    | Register(mask: set<EventType>, begin: int, end: int, insn: int)
    | RegisterAddress(addr: int)
    | Remove(hret: HookRet)
    | Clear

  function KeysRemoved(hret: HookRet): set<Key> {
    if hret.obj.addr.Some? then {Address(hret.obj.addr.value)} else RemoveKeys(hret.mask, |TYPES|)
  }

  /** The hook object a registration creates; each has its own identity. */
  function NewHook(op: Op, id: nat): Hook
    requires op.Register? || op.RegisterAddress?
  {
    if op.Register? then Hook(id, op.begin, op.end, None) else Hook(id, op.addr, op.addr, Some(op.addr))
  }

  function Step(r: Registry, op: Op, id: nat): Registry {
    match op
    case Register(mask, _, _, insn) => AddTypes(r, mask, insn, NewHook(op, id), |TYPES|)
    case RegisterAddress(addr) => AddAt(r, Address(addr), NewHook(op, id))
    case Remove(hret) => HookDel(r, hret)
    case Clear => ClearHooks(r)
  }

  function StepRegs(regs: seq<Registration>, op: Op, id: nat): seq<Registration> {
    match op
    case Register(mask, _, _, insn) => regs + [Registration(NewHook(op, id), AddKeys(mask, insn, |TYPES|))]
    case RegisterAddress(addr) => regs + [Registration(NewHook(op, id), {Address(addr)})]
    case Remove(hret) => Dropped(regs, hret.obj, KeysRemoved(hret))
    case Clear => []
  }

  function Run(ops: seq<Op>, n: nat): Registry
    requires n <= |ops|
  {
    if n == 0 then EMPTY else Step(Run(ops, n - 1), ops[n - 1], n)
  }

  function RunRegs(ops: seq<Op>, n: nat): seq<Registration>
    requires n <= |ops|
  {
    if n == 0 then [] else StepRegs(RunRegs(ops, n - 1), ops[n - 1], n)
  }

  lemma StepKeepsHandles(r: Registry, op: Op, id: nat)
    requires HandlesExact(r)
    ensures HandlesExact(Step(r, op, id))
  {
    match op
    case Register(mask, _, _, insn) => AddTypesKeepsHandles(r, mask, insn, NewHook(op, id), |TYPES|);
    case RegisterAddress(addr) => AddKeepsHandles(r, Address(addr), NewHook(op, id));
    case Remove(hret) =>
      if hret.obj.addr.Some? {
        RemoveKeepsHandles(r, Address(hret.obj.addr.value), hret.obj);
      } else {
        RemoveTypesKeepsHandles(r, hret.mask, hret.obj, |TYPES|);
      }
    case Clear => ClearKeepsHandles(r);
  }

  lemma StepKeepsLists(r: Registry, regs: seq<Registration>, op: Op, id: nat)
    requires Lists(r, regs) && (op.Register? || op.RegisterAddress? ==> New(regs, NewHook(op, id)))
    ensures Lists(Step(r, op, id), StepRegs(regs, op, id))
  {
    match op
    case Register(mask, _, _, insn) => AddTypesRegisters(r, regs, mask, insn, NewHook(op, id), |TYPES|);
    case RegisterAddress(addr) =>
      RegisterNothing(r, regs, NewHook(op, id));
      AddRegisters(r, regs, NewHook(op, id), {}, Address(addr));
      assert {} + {Address(addr)} == {Address(addr)};
    case Remove(hret) =>
      if hret.obj.addr.Some? {
        RemoveDrops(r, regs, Address(hret.obj.addr.value), hret.obj);
      } else {
        RemoveTypesDrops(r, regs, hret.mask, hret.obj, |TYPES|);
      }
    case Clear =>
  }

  lemma {:induction false} HookIds(ops: seq<Op>, n: nat)
    requires n <= |ops|
    ensures forall i :: 0 <= i < |RunRegs(ops, n)| ==> RunRegs(ops, n)[i].hook.id <= n
  {
    if n > 0 {
      HookIds(ops, n - 1);
    }
  }

  lemma {:induction false} RunKeepsHandles(ops: seq<Op>, n: nat)
    requires n <= |ops|
    ensures HandlesExact(Run(ops, n))
  {
    if n > 0 {
      RunKeepsHandles(ops, n - 1);
      StepKeepsHandles(Run(ops, n - 1), ops[n - 1], n);
    }
  }

  lemma NextHookIsNew(ops: seq<Op>, n: nat)
    requires n < |ops| && (ops[n].Register? || ops[n].RegisterAddress?)
    ensures New(RunRegs(ops, n), NewHook(ops[n], n + 1))
  {
    HookIds(ops, n);
  }

  lemma {:induction false} RunKeepsLists(ops: seq<Op>, n: nat)
    requires n <= |ops|
    ensures Lists(Run(ops, n), RunRegs(ops, n))
  {
    if n > 0 {
      RunKeepsLists(ops, n - 1);
      if ops[n - 1].Register? || ops[n - 1].RegisterAddress? {
        NextHookIsNew(ops, n - 1);
      }
      StepKeepsLists(Run(ops, n - 1), RunRegs(ops, n - 1), ops[n - 1], n);
    }
  }

  /** In every run: handles exactly where there are hooks, and each list as registered. */
  lemma RunExact(ops: seq<Op>, n: nat)
    requires n <= |ops|
    ensures HandlesExact(Run(ops, n))
    ensures Lists(Run(ops, n), RunRegs(ops, n))
  {
    RunKeepsHandles(ops, n);
    RunKeepsLists(ops, n);
  }
}
