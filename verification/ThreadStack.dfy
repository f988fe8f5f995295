/**
 * The shadow stacks: one manager per thread, holding the call stacks of the wrapped calls in progress, each with a
 * return address and a key/value context (thread_stack.c). Contexts are maps and the list of call stacks a sequence;
 * HashMap and LinkedList show that the source's structures behave so.
 */
module ThreadStack {
  import opened A64Encoding

  type Tid = nat
  type Key = seq<bv8>
  type Context = map<Key, U64>

  // What a call stack holds. `ret` is 0 until the wrapped function is entered.
  datatype CallFrame = CallFrame(ret: U64, kv: Context)

  type Store = map<CallStack, CallFrame>

  // map_get_value: a null pointer for an absent key.
  function Lookup(kv: Context, key: Key): U64 {
    if key in kv then kv[key] else 0
  }

  // call_stack_t; its address is its call_id.
  class CallStack {
    var retAddr: U64
    var contextKv: Context

    constructor ()
      ensures Frame() == CallFrame(0, map[])
    {
      retAddr, contextKv := 0, map[];
    }

    function Frame(): CallFrame
      reads this
    {
      CallFrame(retAddr, contextKv)
    }

    method KvSet(key: Key, value: U64)
      modifies `contextKv
      ensures Frame() == old(Frame()).(kv := old(Frame()).kv[key := value])
    {
      contextKv := contextKv[key := value];
    }

    method KvGet(key: Key) returns (value: U64)
      ensures key in Frame().kv ==> value == Frame().kv[key]
      ensures key !in Frame().kv ==> value == 0
    {
      value := if key in contextKv then contextKv[key] else 0;
    }
  }

  // thread_stack_manager_t
  class ThreadStackManager {
    var callStacks: seq<CallStack>

    constructor ()
      ensures callStacks == []
    {
      callStacks := [];
    }

    method PushCallStack(callStack: CallStack)
      modifies this
      ensures callStacks == old(callStacks) + [callStack]
    {
      callStacks := callStacks + [callStack];
    }

    // The source takes the last node's value without a test: an empty stack is a null dereference.
    method PopCallStack() returns (callStack: CallStack)
      requires callStacks != []
      modifies this
      ensures old(callStacks) == callStacks + [callStack]
    {
      callStack := callStacks[|callStacks| - 1];
      callStacks := callStacks[..|callStacks| - 1];
    }
  }

  // Thread-local storage together with the call stacks allocated and not yet freed.
  class Threads {
    var managers: map<Tid, ThreadStackManager>
    ghost var live: set<CallStack>

    ghost predicate Valid()
      reads this
    {
      forall s, t :: s in managers && t in managers && managers[s] == managers[t] ==> s == t
    }

    constructor ()
      ensures Valid() && managers == map[] && live == {}
    {
      managers, live := map[], {};
    }

    // The shadow stack of a thread; a thread without a manager has none yet.
    ghost function Shadow(tid: Tid): seq<CallStack>
      reads this, managers.Values
    {
      if tid in managers then managers[tid].callStacks else []
    }

    ghost function Store(): Store
      reads this, live
    {
      map c | c in live :: c.Frame()
    }

    method SharedInstance(tid: Tid) returns (manager: ThreadStackManager)
      requires Valid()
      modifies `managers
      ensures Valid() && tid in managers && managers[tid] == manager
      ensures forall t :: Shadow(t) == old(Shadow(t))
      ensures forall t :: t in old(managers) ==> t in managers && managers[t] == old(managers[t])
      ensures managers.Keys == old(managers.Keys) + {tid}
      ensures manager in old(managers.Values) || fresh(manager)
    {
      if tid in managers {
        manager := managers[tid];
      } else {
        manager := new ThreadStackManager();
        managers := managers[tid := manager];
      }
    }
  }
}
