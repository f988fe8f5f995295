/**
 * The handlers behind the closure slots (interceptor_routing.c): each is a step of the routing machine. A handler
 * that runs user code is two steps, before and after it, since the code may itself call wrapped functions.
 */
module InterceptorRouting {
  import opened A64Encoding
  import opened ThreadStack
  import opened HookInstaller
  import opened HookBehaviour
  import opened A64Machine
  import R = Routing

  // What routing needs to know of an entry.
  ghost function HookOf(entry: HookEntry): R.Hook
    reads entry
  {
    R.Hook(entry.id, entry.onLeaveTrampoline, NextHop(entry))
  }

  function NextHop(entry: HookEntry): U64
    reads entry`onInvokeTrampoline
  {
    if entry.replaceCall != 0 then entry.replaceCall else entry.onInvokeTrampoline
  }

  // The entry's leave trampoline is known.
  ghost predicate Callable(hooks: R.Hooks, entry: HookEntry)
    reads entry
  {
    entry.onLeaveTrampoline in hooks && hooks[entry.onLeaveTrampoline] == HookOf(entry)
  }

  /**
   * What a wrapped call with return address `ret` does to a thread, whichever way it was made: by a call, or by a jump
   * from a function that was to return to `ret` itself, which may be a leave trampoline.
   */
  ghost predicate Begins(hooks: R.Hooks, hook: R.Hook, ret: U64, native: seq<R.Native>, shadow: seq<CallStack>,
                         store: Store, callStack: CallStack, outcome: R.Outcome) {
    && R.Step(hooks, R.Thread(native + [R.Ret(ret)], shadow), store, R.TailCallHooked(hook, callStack)) == outcome
    && (ret !in hooks ==> R.Step(hooks, R.Thread(native, shadow), store, R.CallHooked(hook, ret, callStack)) == outcome)
  }

  lemma CallStackPushed(hooks: R.Hooks, hook: R.Hook, ret: U64, native: seq<R.Native>, shadow: seq<CallStack>,
                        store: Store, callStack: CallStack)
    requires hook.leave in hooks && hooks[hook.leave] == hook && callStack !in store
    ensures var after := R.Thread(native + [R.InPre(hook, ret, callStack)], shadow + [callStack]);
            Begins(hooks, hook, ret, native, shadow, store, callStack,
                   R.Next(after, store[callStack := CallFrame(0, map[])], R.Silent))
  {
    assert R.Front(native + [R.Ret(ret)]) == native;
  }

  class Interceptor {
    const threads: Threads

    constructor ()
      ensures fresh(threads) && threads.Valid() && threads.live == {} && threads.managers == map[]
    {
      threads := new Threads();
    }

    // interceptor_routing_begin up to pre_call: a new call stack on top of this thread's.
    method RoutingBegin(tid: Tid, entry: HookEntry, ghost ret: U64, ghost hooks: R.Hooks, ghost native: seq<R.Native>)
      returns (callStack: CallStack)
      requires threads.Valid() && Callable(hooks, entry)
      modifies threads, threads.managers.Values
      ensures threads.Valid() && fresh(callStack) && threads.live == old(threads.live) + {callStack}
      ensures forall t :: t != tid ==> threads.Shadow(t) == old(threads.Shadow(t))
      ensures threads.Shadow(tid) == old(threads.Shadow(tid)) + [callStack]
      ensures var after := R.Thread(native + [R.InPre(HookOf(entry), ret, callStack)], threads.Shadow(tid));
              Begins(hooks, HookOf(entry), ret, native, old(threads.Shadow(tid)), old(threads.Store()), callStack,
                     R.Next(after, threads.Store(), R.Silent))
    {
      var manager := threads.SharedInstance(tid);
      callStack := new CallStack();
      manager.PushCallStack(callStack);
      threads.live := threads.live + {callStack};
      assert threads.Store() == old(threads.Store())[callStack := CallFrame(0, map[])];
      CallStackPushed(hooks, HookOf(entry), ret, native, old(threads.Shadow(tid)), old(threads.Store()), callStack);
    }

    // After pre_call: the next hop, and for a swapped return the true address saved and the leave slot in its place.
    method RoutingBeginDone(tid: Tid, entry: HookEntry, callStack: CallStack, retAddr: U64,
                            ghost hooks: R.Hooks, ghost native: seq<R.Native>)
      returns (nextHop: U64, retAddr': U64)
      requires threads.Valid() && callStack in threads.live && Callable(hooks, entry)
      modifies callStack`retAddr
      ensures threads.Valid() && forall t :: threads.Shadow(t) == old(threads.Shadow(t))
      ensures nextHop == if entry.replaceCall != 0 then entry.replaceCall else entry.onInvokeTrampoline
      ensures entry.hookType == PrePost || entry.hookType == Got ==>
                && retAddr' == entry.onLeaveTrampoline && callStack.retAddr == retAddr
                && var before := R.Thread(native + [R.InPre(HookOf(entry), retAddr, callStack)],
                                          old(threads.Shadow(tid)));
                   var after := R.Thread(native + [R.Ret(retAddr')], threads.Shadow(tid));
                   R.Step(hooks, before, old(threads.Store()), R.PreDone)
                   == R.Next(after, threads.Store(), R.Enters(nextHop))
      ensures entry.hookType == Replace || entry.hookType == Dbi ==>
                retAddr' == retAddr && callStack.retAddr == old(callStack.retAddr)
                && threads.Store() == old(threads.Store())
    {
      nextHop := if entry.replaceCall != 0 then entry.replaceCall else entry.onInvokeTrampoline;
      retAddr' := retAddr;
      if entry.hookType.PrePost? || entry.hookType.Got? {
        callStack.retAddr := retAddr;
        retAddr' := entry.onLeaveTrampoline;
      }
    }

    // call_stack_kv_set and call_stack_kv_get, called by a handler of the call: steps of the machine too.
    method KvSet(tid: Tid, callStack: CallStack, key: Key, value: U64,
                 ghost hooks: R.Hooks, ghost native: seq<R.Native>)
      requires threads.Valid() && callStack in threads.live
      requires native != [] && !R.Last(native).Ret? && R.Last(native).call == callStack
      modifies callStack`contextKv
      ensures threads.Valid() && forall t :: threads.Shadow(t) == old(threads.Shadow(t))
      ensures R.Step(hooks, R.Thread(native, old(threads.Shadow(tid))), old(threads.Store()), R.KvSet(key, value))
           == R.Next(R.Thread(native, threads.Shadow(tid)), threads.Store(), R.Silent)
    {
      callStack.KvSet(key, value);
    }

    method KvGet(tid: Tid, callStack: CallStack, key: Key, ghost hooks: R.Hooks, ghost native: seq<R.Native>)
      returns (value: U64)
      requires threads.Valid() && callStack in threads.live
      requires native != [] && !R.Last(native).Ret? && R.Last(native).call == callStack
      ensures R.Step(hooks, R.Thread(native, threads.Shadow(tid)), threads.Store(), R.KvGet(key))
           == R.Next(R.Thread(native, threads.Shadow(tid)), threads.Store(), R.Got(value))
    {
      value := callStack.KvGet(key);
    }

    // interceptor_routing_end up to post_call: the call stack popped.
    method RoutingEnd(tid: Tid, entry: HookEntry, ghost hooks: R.Hooks, ghost native: seq<R.Native>)
      returns (callStack: CallStack)
      requires threads.Valid() && Callable(hooks, entry) && threads.Shadow(tid) != []
      modifies threads, threads.managers.Values
      ensures threads.Valid() && threads.live == old(threads.live)
      ensures forall t :: t != tid ==> threads.Shadow(t) == old(threads.Shadow(t))
      ensures R.Step(hooks, R.Thread(native + [R.Ret(entry.onLeaveTrampoline)], old(threads.Shadow(tid))),
                     old(threads.Store()), R.Return)
           == R.Next(R.Thread(native + [R.InPost(HookOf(entry), callStack)], threads.Shadow(tid)), threads.Store(),
                     R.Post(entry.id))
    {
      var manager := threads.SharedInstance(tid);
      callStack := manager.PopCallStack();
    }

    // After post_call: control goes to the saved return address, and the call stack is freed.
    method RoutingEndDone(tid: Tid, entry: HookEntry, callStack: CallStack,
                          ghost hooks: R.Hooks, ghost native: seq<R.Native>)
      returns (nextHop: U64)
      requires threads.Valid() && callStack in threads.live
      modifies threads`live
      ensures threads.Valid() && threads.live == old(threads.live) - {callStack} && nextHop == callStack.retAddr
      ensures forall t :: threads.Shadow(t) == old(threads.Shadow(t))
      ensures R.Step(hooks, R.Thread(native + [R.InPost(HookOf(entry), callStack)], old(threads.Shadow(tid))),
                     old(threads.Store()), R.PostDone)
           == R.Arrive(hooks, native, threads.Shadow(tid), threads.Store(), nextHop)
    {
      nextHop := callStack.retAddr;
      threads.live := threads.live - {callStack};
    }

    /**
     * interceptor_routing_dynamic_binary_instrumentation after dbi_call. However many hooks were installed, the address
     * it goes on to holds the relocated original of the instrumented code.
     */
    method RoutingDbi(entry: HookEntry, ghost installer: Installer) returns (nextHop: U64)
      ensures nextHop == entry.onInvokeTrampoline
      ensures installer.Sound() && entry in installer.hookEntries ==>
                BytesAt(installer.engine.process.mem, nextHop, installer.InvokeCode(entry))
    {
      hide Installer.Sound, BytesAt, Installer.InvokeCode;
      nextHop := entry.onInvokeTrampoline;
      if installer.Sound() && entry in installer.hookEntries {
        InvokeIsThere(installer, entry);
      }
    }
  }
}
