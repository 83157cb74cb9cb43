/** Registering, removing and dispatching hooks. */
module Hooks {
  import opened HookOps
  import opened Results

  // ----- dispatch -----

  /** The hook's range is unbounded, or holds the first or the last byte of the access. */
  predicate BoundCheck(h: Hook, pc: int, size: int) {
    h.end < h.begin || h.begin <= pc <= h.end || h.begin <= pc + size - 1 <= h.end
  }

  /**
    No bounds at all, or a common address and an access that does not reach beyond both ends of the
    range.  Of an access of no bytes the two ends count.
  */
  predicate Reached(h: Hook, pc: int, size: int) {
    || h.end < h.begin
    || (if size > 0 then h.begin < pc + size && pc <= h.end && !(pc < h.begin && h.end < pc + size - 1)
        else Within(h.begin, pc, h.end) || Within(h.begin, pc + size - 1, h.end))
  }

  predicate Within(lo: int, a: int, hi: int) {
    lo <= a <= hi
  }

  /** The test means no bounds, or overlap, except that an access reaching beyond both ends of the range is missed. */
  lemma BoundCheckMeaning(h: Hook, pc: int, size: int)
    ensures BoundCheck(h, pc, size) <==> Reached(h, pc, size)
    ensures size > 0 ==>
            (BoundCheck(h, pc, size) <==>
            || h.end < h.begin
            || ((exists a :: Within(h.begin, a, h.end) && Within(pc, a, pc + size - 1)) &&
                !(pc < h.begin && h.end < pc + size - 1)))
  {
    assert size > 0 ==> Within(pc, pc, pc + size - 1) && Within(pc, pc + size - 1, pc + size - 1);
    if h.begin <= pc <= h.end {
      assert Within(h.begin, pc, h.end);
    }
    if h.begin <= pc + size - 1 <= h.end {
      assert Within(h.begin, pc + size - 1, h.end);
    }
  }

  /** What the callbacks return: whether the remaining hooks are to be skipped. */
  type Blocks = Hook -> bool

  /** The hooks at strictly ascending positions. */
  predicate Picks(hooks: seq<Hook>, at: seq<nat>, called: seq<Hook>) {
    && |called| == |at|
    && (forall k :: 0 <= k < |at| ==> at[k] < |hooks| && called[k] == hooks[at[k]])
    && (forall k, l :: 0 <= k < l < |at| ==> at[k] < at[l])
  }

  /** Of the first n hooks just those an access reaches. */
  ghost predicate AllReached(hooks: seq<Hook>, at: seq<nat>, pc: int, size: int, n: nat)
    requires n <= |hooks|
  {
    forall i :: 0 <= i < n ==> (i in at <==> Reached(hooks[i], pc, size))
  }

  lemma PicksSnoc(hooks: seq<Hook>, at: seq<nat>, called: seq<Hook>, i: nat)
    requires Picks(hooks, at, called) && i < |hooks| && forall k :: 0 <= k < |at| ==> at[k] < i
    ensures Picks(hooks, at + [i], called + [hooks[i]])
  {
  }

  lemma ReachedSnoc(hooks: seq<Hook>, at: seq<nat>, pc: int, size: int, i: nat)
    requires i < |hooks| && AllReached(hooks, at, pc, size, i) && forall k :: 0 <= k < |at| ==> at[k] < i
    ensures AllReached(hooks, if Reached(hooks[i], pc, size) then at + [i] else at, pc, size, i + 1)
  {
  }

  /**
    Calls the hooks of a list that the access reaches, in order, up to and including the first
    that blocks the rest.
  */
  method Dispatch(hooks: seq<Hook>, pc: int, size: int, blocks: Blocks)
    returns (called: seq<Hook>, n: nat, ghost at: seq<nat>)
    ensures n <= |hooks| && Picks(hooks, at, called) && AllReached(hooks, at, pc, size, n)
    ensures forall k :: 0 <= k < |at| ==> at[k] < n
    ensures n < |hooks| ==> n > 0 && Reached(hooks[n - 1], pc, size) && blocks(hooks[n - 1])
    ensures forall i :: 0 <= i < n - 1 && Reached(hooks[i], pc, size) ==> !blocks(hooks[i])
  {
    called, at := [], [];
    for i := 0 to |hooks|
      invariant Picks(hooks, at, called) && AllReached(hooks, at, pc, size, i)
      invariant forall k :: 0 <= k < |at| ==> at[k] < i
      invariant forall j :: 0 <= j < i && Reached(hooks[j], pc, size) ==> !blocks(hooks[j])
    {
      BoundCheckMeaning(hooks[i], pc, size);
      PicksSnoc(hooks, at, called, i);
      ReachedSnoc(hooks, at, pc, size, i);
      if BoundCheck(hooks[i], pc, size) {
        called, at := called + [hooks[i]], at + [i];
        if blocks(hooks[i]) {
          return called, i + 1, at;
        }
      }
    }
    return called, |hooks|, at;
  }

  /** The hooks called are those reached among the first n. */
  lemma CalledAreReached(hooks: seq<Hook>, at: seq<nat>, called: seq<Hook>, pc: int, size: int, n: nat)
    requires n <= |hooks| && Picks(hooks, at, called) && AllReached(hooks, at, pc, size, n)
    requires forall k :: 0 <= k < |at| ==> at[k] < n
    ensures forall h :: h in called <==> h in hooks[..n] && Reached(h, pc, size)
  {
    forall h ensures h in called <==> h in hooks[..n] && Reached(h, pc, size) {
      if h in called {
        var k :| 0 <= k < |called| && called[k] == h;
        assert at[k] in at && hooks[..n][at[k]] == h;
      }
      if h in hooks[..n] && Reached(h, pc, size) {
        var i :| 0 <= i < n && hooks[i] == h;
        var k :| 0 <= k < |at| && at[k] == i;
        assert called[k] == h;
      }
    }
  }

  /** A hook without bounds is called on every access, unless an earlier one blocks. */
  lemma UnboundedIsCalled(hooks: seq<Hook>, at: seq<nat>, called: seq<Hook>, pc: int, size: int, n: nat, i: nat)
    requires i < n <= |hooks| && Picks(hooks, at, called) && AllReached(hooks, at, pc, size, n)
    requires hooks[i].begin == 1 && hooks[i].end == 0
    ensures hooks[i] in called
  {
    assert Reached(hooks[i], pc, size);
    var k :| 0 <= k < |at| && at[k] == i;
    assert called[k] == hooks[i];
  }

  predicate MustBeHandled(t: EventType) {
    t in {MemReadUnmapped, MemWriteUnmapped, MemFetchUnmapped, MemReadProt, MemWriteProt, MemFetchProt}
  }

  /** An access that faults, and that no hook is reached by, is an error; any other access needs no hook. */
  method DispatchMemory(hooks: seq<Hook>, t: EventType, addr: int, size: int, blocks: Blocks)
    returns (called: seq<Hook>, err: Option<Error>, n: nat, ghost at: seq<nat>)
    ensures n <= |hooks| && Picks(hooks, at, called) && AllReached(hooks, at, addr, size, n)
    ensures forall k :: 0 <= k < |at| ==> at[k] < n
    ensures n < |hooks| ==> n > 0 && Reached(hooks[n - 1], addr, size) && blocks(hooks[n - 1])
    ensures forall i :: 0 <= i < n - 1 && Reached(hooks[i], addr, size) ==> !blocks(hooks[i])
    ensures err == None || (err == Some(HookError) && called == [])
    ensures err.Some? <==>
              && (t.MemReadUnmapped? || t.MemWriteUnmapped? || t.MemFetchUnmapped? ||
                  t.MemReadProt? || t.MemWriteProt? || t.MemFetchProt?)
              && forall i :: 0 <= i < |hooks| ==> !Reached(hooks[i], addr, size)
  {
    called, n, at := Dispatch(hooks, addr, size, blocks);
    if at != [] {
      assert at[0] in at && Reached(hooks[at[0]], addr, size);
    }
    err := if called == [] && MustBeHandled(t) then Some(HookError) else None;
  }

  // ----- the registry -----

  class QlCoreHooks {
    var hooks: map<Key, seq<Hook>>
    var handles: map<Key, nat>
    var live: map<nat, Key>     // the engine's handles
    var next: nat
    var created: nat

    function Abs(): Registry
      reads this
    {
      Registry(hooks, handles, live, next)
    }

    constructor ()
      ensures Abs() == EMPTY && created == 0
    {
      hooks, handles, live, next, created := map[], map[], map[], 0, 0;
    }

    method EngineHookAdd(key: Key) returns (handle: nat)
      modifies this`live, this`next
      ensures handle == old(next) && live == old(live)[handle := key] && next == old(next) + 1
    {
      handle := next;
      live := live[handle := key];
      next := next + 1;
    }

    method EngineHookDel(handle: nat)
      modifies this`live
      ensures live == old(live) - {handle}
    {
      live := live - {handle};
    }

    method Handle(key: Key, h: Hook)
      modifies this`hooks, this`handles, this`live, this`next
      ensures Abs() == AddAt(old(Abs()), key, h)
    {
      if key !in handles {
        var handle := EngineHookAdd(key);
        handles := handles[key := handle];
      }
      if key !in hooks {
        hooks := hooks[key := []];
      }
      hooks := hooks[key := hooks[key] + [h]];
    }

    method QlHook(mask: set<EventType>, begin: int, end: int, insn: int) returns (hret: HookRet)
      modifies this
      ensures created == old(created) + 1 && hret == HookRet(mask, Hook(created, begin, end, None))
      ensures Abs() == AddTypes(old(Abs()), mask, insn, hret.obj, |TYPES|)
    {
      created := created + 1;
      var h := Hook(created, begin, end, None);
      for i := 0 to |TYPES|
        invariant created == old(created) + 1
        invariant Abs() == AddTypes(old(Abs()), mask, insn, h, i)
      {
        if TYPES[i] in mask {
          Handle(AddKey(TYPES[i], insn), h);
        }
      }
      return HookRet(mask, h);
    }

    /** Gives back every engine handle, then empties the lists. */
    method ClearHooks()
      modifies this
      ensures Abs() == HookOps.ClearHooks(old(Abs())) && created == old(created)
    {
      var ptrs := handles.Values;
      while ptrs != {}
        invariant ptrs <= handles.Values && handles == old(handles) && next == old(next) && created == old(created)
        invariant live == map x | x in old(live) && (x !in handles.Values || x in ptrs) :: old(live)[x]
        decreases |ptrs|
      {
        var ptr :| ptr in ptrs;
        EngineHookDel(ptr);
        ptrs := ptrs - {ptr};
      }
      hooks, handles := map[], map[];
    }

    /** What the engine calls for a code or block event: the hooks of that type. */
    method HookTraceCb(t: EventType, addr: int, size: int, blocks: Blocks)
      returns (called: seq<Hook>, n: nat, ghost at: seq<nat>)
      ensures var list := ListAt(Abs(), Event(t));
              && n <= |list| && (forall h :: h in called <==> h in list[..n] && Reached(h, addr, size))
              && (n < |list| ==> n > 0 && Reached(list[n - 1], addr, size) && blocks(list[n - 1]))
              && (forall i :: 0 <= i < n - 1 && Reached(list[i], addr, size) ==> !blocks(list[i]))
      ensures var list := ListAt(Abs(), Event(t));
              n <= |list| && Picks(list, at, called) && AllReached(list, at, addr, size, n)
    {
      called, n, at := [], 0, [];
      if Event(t) in hooks {
        called, n, at := Dispatch(hooks[Event(t)], addr, size, blocks);
      }
      CalledAreReached(ListAt(Abs(), Event(t)), at, called, addr, size, n);
    }

    /** ... and for a memory event, where a fault without a hook raises. */
    method HookMemCb(t: EventType, addr: int, size: int, blocks: Blocks)
      returns (called: seq<Hook>, err: Option<Error>, n: nat, ghost at: seq<nat>)
      ensures var list := ListAt(Abs(), Event(t));
              && n <= |list| && (forall h :: h in called <==> h in list[..n] && Reached(h, addr, size))
              && (n < |list| ==> n > 0 && Reached(list[n - 1], addr, size) && blocks(list[n - 1]))
              && (forall i :: 0 <= i < n - 1 && Reached(list[i], addr, size) ==> !blocks(list[i]))
      ensures var list := ListAt(Abs(), Event(t));
              n <= |list| && Picks(list, at, called) && AllReached(list, at, addr, size, n)
      ensures err.Some? <==>
                && (t.MemReadUnmapped? || t.MemWriteUnmapped? || t.MemFetchUnmapped? ||
                    t.MemReadProt? || t.MemWriteProt? || t.MemFetchProt?)
                && forall h :: h in ListAt(Abs(), Event(t)) ==> !Reached(h, addr, size)
    {
      var list := if Event(t) in hooks then hooks[Event(t)] else [];
      called, err, n, at := DispatchMemory(list, t, addr, size, blocks);
      CalledAreReached(list, at, called, addr, size, n);
    }

    method HookAddress(address: int) returns (hret: HookRet)
      modifies this
      ensures created == old(created) + 1 && hret == HookRet({}, Hook(created, address, address, Some(address)))
      ensures Abs() == AddAt(old(Abs()), Address(address), hret.obj)
    {
      created := created + 1;
      var h := Hook(created, address, address, Some(address));
      Handle(Address(address), h);
      return HookRet({}, h);
    }

    method Remove(key: Key, h: Hook)
      requires HandlesExact(Abs())
      modifies this`hooks, this`handles, this`live
      ensures Abs() == RemoveAt(old(Abs()), key, h) && HandlesExact(Abs())
    {
      RemoveKeepsHandles(Abs(), key, h);
      if key in hooks && h in hooks[key] {
        assert ListAt(Abs(), key) != [];
        hooks := hooks[key := Without(hooks[key], h)];
        if hooks[key] == [] {
          var handle := handles[key];
          handles := handles - {key};
          EngineHookDel(handle);
        }
      }
    }

    method HookDel(hret: HookRet)
      requires HandlesExact(Abs())
      modifies this`hooks, this`handles, this`live
      ensures Abs() == HookOps.HookDel(old(Abs()), hret) && HandlesExact(Abs())
    {
      if hret.obj.addr.Some? {
        Remove(Address(hret.obj.addr.value), hret.obj);
        return;
      }
      for i := 0 to |TYPES|
        invariant HandlesExact(Abs()) && Abs() == RemoveTypes(old(Abs()), hret.mask, hret.obj, i)
      {
        if TYPES[i] in hret.mask {
          Remove(RemoveKey(TYPES[i]), hret.obj);
        }
      }
    }
  }
}
