/**
 * Routing of wrapped calls as a state machine, over any interleaving of threads (interceptor_routing.c,
 * thread_stack.c). The hooked machine swaps return addresses and reaches the true ones through pointers to call
 * stacks; the reference machine never touches them. They are shown to return to the same places.
 */
module Routing {
  import opened A64Encoding
  import opened ThreadStack
  import opened Wrappers

  // ----- the hooked machine -----

  // A wrapped function: its id, the closure slot its callers return to, and where it goes after pre_call.
  datatype Hook = Hook(id: U64, leave: U64, next: U64)

  // The installed hooks, by their leave trampoline.
  type Hooks = h: map<U64, Hook> | forall a :: a in h ==> h[a].leave == a witness map[]

  // What a thread is in the middle of, innermost last: a function that will return to `addr`, the pre_call of a
  // wrapped call made with link register `lr`, or the post_call of a popped call stack.
  datatype Native = Ret(addr: U64) | InPre(hook: Hook, lr: U64, call: CallStack) | InPost(hook: Hook, call: CallStack)

  datatype Thread = Thread(native: seq<Native>, shadow: seq<CallStack>)

  // `call` is the block the allocator returns.
  datatype Event =
    | Call(ret: U64)
    | CallHooked(hook: Hook, ret: U64, call: CallStack)
    | TailCallHooked(hook: Hook, call: CallStack)
    | PreDone
    | Return
    | PostDone
    | KvSet(key: Key, value: U64)
    | KvGet(key: Key)

  // What the outside sees: a wrapped function entered, control arriving at a return address, a post_call starting,
  // a value read back.
  datatype Output = Silent | Enters(addr: U64) | Arrives(addr: U64) | Post(id: U64) | Got(value: U64)

  datatype Outcome = Stuck | Next(thread: Thread, store: Store, output: Output)

  function Last<T>(s: seq<T>): T
    requires s != []
  {
    s[|s| - 1]
  }

  function Front<T>(s: seq<T>): seq<T>
    requires s != []
  {
    s[..|s| - 1]
  }

  // Control goes to `a`: a leave trampoline pops the shadow stack and starts post_call.
  function Arrive(hooks: Hooks, native: seq<Native>, shadow: seq<CallStack>, store: Store, a: U64): Outcome {
    if a !in hooks then Next(Thread(native, shadow), store, Arrives(a))
    else if shadow == [] then Stuck
    else Next(Thread(native + [InPost(hooks[a], Last(shadow))], Front(shadow)), store, Post(hooks[a].id))
  }

  // A step is stuck where the program could not take it, or where the code would touch a call stack that is not
  // allocated.
  function Step(hooks: Hooks, t: Thread, store: Store, e: Event): Outcome {
    match e
    case Call(ret) =>
      if ret in hooks then Stuck else Next(Thread(t.native + [Ret(ret)], t.shadow), store, Silent)
    case CallHooked(h, ret, c) =>
      if ret in hooks || h.leave !in hooks || hooks[h.leave] != h || c in store then Stuck
      else Next(Thread(t.native + [InPre(h, ret, c)], t.shadow + [c]), store[c := CallFrame(0, map[])], Silent)
    case TailCallHooked(h, c) =>
      if t.native == [] || !Last(t.native).Ret? || h.leave !in hooks || hooks[h.leave] != h || c in store then Stuck
      else Next(Thread(Front(t.native) + [InPre(h, Last(t.native).addr, c)], t.shadow + [c]),
                store[c := CallFrame(0, map[])], Silent)
    case PreDone =>
      if t.native == [] || !Last(t.native).InPre? then Stuck
      else
        var InPre(h, lr, c) := Last(t.native);
        if c !in store then Stuck
        else Next(Thread(Front(t.native) + [Ret(h.leave)], t.shadow), store[c := store[c].(ret := lr)], Enters(h.next))
    case Return =>
      if t.native == [] || !Last(t.native).Ret? then Stuck
      else Arrive(hooks, Front(t.native), t.shadow, store, Last(t.native).addr)
    case PostDone =>
      if t.native == [] || !Last(t.native).InPost? || Last(t.native).call !in store then Stuck
      else
        var c := Last(t.native).call;
        Arrive(hooks, Front(t.native), t.shadow, store - {c}, store[c].ret)
    case KvSet(key, value) =>
      if t.native == [] || Last(t.native).Ret? || Last(t.native).call !in store then Stuck
      else
        var c := Last(t.native).call;
        Next(t, store[c := store[c].(kv := store[c].kv[key := value])], Silent)
    case KvGet(key) =>
      if t.native == [] || Last(t.native).Ret? || Last(t.native).call !in store then Stuck
      else Next(t, store, Got(Lookup(store[Last(t.native).call].kv, key)))
  }

  // ----- the reference machine -----

  // A wrapped activation not yet returned from, with its key/value store.
  datatype Activation = Activation(id: U64, kv: Context)

  // A function that returns to `addr`, its wrapped activations, innermost last (several after tail calls);
  // the pre_call of its innermost activation; the post_call of one that has returned.
  datatype RefFrame = RefRet(addr: U64, pending: seq<Activation>) | RefPre(next: U64) | RefPost(act: Activation)

  type RefThread = seq<RefFrame>

  // The function on top returns: its innermost activation's post_call first, then its caller.
  function RefArrive(r: RefThread): Option<(RefThread, Output)> {
    if r == [] || !Last(r).RefRet? then None
    else
      var RefRet(addr, pending) := Last(r);
      if pending == [] then Some((Front(r), Arrives(addr)))
      else Some((Front(r) + [RefRet(addr, Front(pending)), RefPost(Last(pending))], Post(Last(pending).id)))
  }

  function RefStep(hooks: Hooks, r: RefThread, e: Event): Option<(RefThread, Output)> {
    match e
    case Call(ret) => if ret in hooks then None else Some((r + [RefRet(ret, [])], Silent))
    case CallHooked(h, ret, _) =>
      if ret in hooks || h.leave !in hooks || hooks[h.leave] != h then None
      else Some((r + [RefRet(ret, [Activation(h.id, map[])]), RefPre(h.next)], Silent))
    case TailCallHooked(h, _) =>
      if r == [] || !Last(r).RefRet? || h.leave !in hooks || hooks[h.leave] != h then None
      else
        var RefRet(addr, pending) := Last(r);
        Some((Front(r) + [RefRet(addr, pending + [Activation(h.id, map[])]), RefPre(h.next)], Silent))
    case PreDone => if r == [] || !Last(r).RefPre? then None else Some((Front(r), Enters(Last(r).next)))
    case Return => RefArrive(r)
    case PostDone => if r == [] || !Last(r).RefPost? then None else RefArrive(Front(r))
    case KvSet(key, value) =>
      if r == [] then None
      else match Last(r) {
        case RefRet(_, _) => None
        case RefPre(next) =>
          var r' := Front(r);
          if r' == [] || !Last(r').RefRet? || Last(r').pending == [] then None
          else
            var RefRet(addr, pending) := Last(r');
            var act := Last(pending);
            var pending' := Front(pending) + [act.(kv := act.kv[key := value])];
            Some((Front(r') + [RefRet(addr, pending'), RefPre(next)], Silent))
        case RefPost(act) => Some((Front(r) + [RefPost(act.(kv := act.kv[key := value]))], Silent))
      }
    case KvGet(key) =>
      if r == [] then None
      else match Last(r) {
        case RefRet(_, _) => None
        case RefPre(_) =>
          var r' := Front(r);
          if r' == [] || !Last(r').RefRet? || Last(r').pending == [] then None
          else Some((r, Got(Lookup(Last(Last(r').pending).kv, key))))
        case RefPost(act) => Some((r, Got(Lookup(act.kv, key))))
      }
  }

  // ----- how they correspond -----

  // The call stacks whose post_call is in progress.
  function Popped(native: seq<Native>): multiset<CallStack> {
    if native == [] then multiset{}
    else Popped(Front(native)) + if Last(native).InPost? then multiset{Last(native).call} else multiset{}
  }

  // The call stacks a thread holds.
  function Holds(t: Thread): multiset<CallStack> {
    multiset(t.shadow) + Popped(t.native)
  }

  // Every call stack held is allocated and held once.
  ghost predicate Distinct(store: Store, t: Thread) {
    forall c :: c in Holds(t) ==> Holds(t)[c] == 1 && c in store
  }

  // Following `a` through the saved return addresses of `frames` visits exactly the pending activations and
  // ends at the true return address.
  ghost predicate Chain(hooks: Hooks, store: Store, a: U64, frames: seq<CallStack>, addr: U64, pending: seq<Activation>)
    decreases |frames|
  {
    && |frames| == |pending|
    && if frames == [] then a == addr && a !in hooks
       else a in hooks && Last(frames) in store && Last(pending) == Activation(hooks[a].id, store[Last(frames)].kv)
            && Chain(hooks, store, store[Last(frames)].ret, Front(frames), addr, Front(pending))
  }

  ghost predicate Corresponds(hooks: Hooks, store: Store, native: seq<Native>, shadow: seq<CallStack>, r: RefThread)
    decreases |native|, 0
  {
    if native == [] then shadow == [] && r == []
    else
      match Last(native)
      case Ret(a) =>
        r != [] && Last(r).RefRet? && Waiting(hooks, store, a, Front(native), shadow, r)
      case InPre(h, lr, c) =>
        && |r| >= 2 && Last(r) == RefPre(h.next) && Last(Front(r)).RefRet?
        && shadow != [] && Last(shadow) == c && c in store
        && h.leave in hooks && hooks[h.leave] == h
        && var RefRet(addr, pending) := Last(Front(r));
           && pending != [] && Last(pending) == Activation(h.id, store[c].kv)
           && Waiting(hooks, store, lr, Front(native), Front(shadow),
                      Front(Front(r)) + [RefRet(addr, Front(pending))])
      case InPost(h, c) =>
        && c in store && |r| >= 2 && Last(r) == RefPost(Activation(h.id, store[c].kv)) && Last(Front(r)).RefRet?
        && Waiting(hooks, store, store[c].ret, Front(native), shadow, Front(r))
  }

  // Going to `a` is returning from the top function of r.
  ghost predicate Waiting(hooks: Hooks, store: Store, a: U64, native: seq<Native>, shadow: seq<CallStack>, r: RefThread)
    requires r != [] && Last(r).RefRet?
    decreases |native|, 1
  {
    var RefRet(addr, pending) := Last(r);
    var n := |pending|;
    n <= |shadow| && Chain(hooks, store, a, shadow[|shadow| - n..], addr, pending)
    && Corresponds(hooks, store, native, shadow[..|shadow| - n], Front(r))
  }

  ghost predicate Related(hooks: Hooks, t: Thread, store: Store, r: RefThread) {
    Distinct(store, t) && Corresponds(hooks, store, t.native, t.shadow, r)
  }

  // ----- only the call stacks a thread holds matter -----

  ghost predicate SameOn(cs: multiset<CallStack>, store: Store, store': Store) {
    forall c :: c in cs && c in store ==> c in store' && store'[c] == store[c]
  }

  lemma {:induction false} ChainFrame(hooks: Hooks, store: Store, store': Store, a: U64, frames: seq<CallStack>,
                                      addr: U64, pending: seq<Activation>)
    requires Chain(hooks, store, a, frames, addr, pending) && SameOn(multiset(frames), store, store')
    ensures Chain(hooks, store', a, frames, addr, pending)
    decreases |frames|
  {
    if frames != [] {
      ChainFrame(hooks, store, store', store[Last(frames)].ret, Front(frames), addr, Front(pending));
    }
  }

  lemma FewerHeld(native: seq<Native>, shadow: seq<CallStack>, k: nat)
    requires k <= |shadow|
    ensures forall c :: c in Holds(Thread(native, shadow[..k])) ==> c in Holds(Thread(native, shadow))
    ensures forall c :: c in multiset(shadow[k..]) ==> c in Holds(Thread(native, shadow))
  {
    hide Popped;
    assert shadow == shadow[..k] + shadow[k..];
  }

  lemma {:induction false} WaitingFrame(hooks: Hooks, store: Store, store': Store, a: U64, native: seq<Native>,
                                        shadow: seq<CallStack>, r: RefThread)
    requires r != [] && Last(r).RefRet? && Waiting(hooks, store, a, native, shadow, r)
    requires SameOn(Holds(Thread(native, shadow)), store, store')
    ensures Waiting(hooks, store', a, native, shadow, r)
    decreases |native|, 1
  {
    hide Chain, Corresponds, Popped;
    var k := |shadow| - |Last(r).pending|;
    FewerHeld(native, shadow, k);
    ChainFrame(hooks, store, store', a, shadow[k..], Last(r).addr, Last(r).pending);
    CorrespondsFrame(hooks, store, store', native, shadow[..k], Front(r));
  }

  lemma {:induction false} CorrespondsFrame(hooks: Hooks, store: Store, store': Store, native: seq<Native>,
                                            shadow: seq<CallStack>, r: RefThread)
    requires Corresponds(hooks, store, native, shadow, r) && SameOn(Holds(Thread(native, shadow)), store, store')
    ensures Corresponds(hooks, store', native, shadow, r)
    decreases |native|, 0
  {
    hide Chain, Waiting, Holds;
    if native != [] {
      BelowHeld(native, shadow);
      match Last(native) {
        case Ret(a) => WaitingFrame(hooks, store, store', a, Front(native), shadow, r);
        case InPre(h, lr, c) =>
          var RefRet(addr, pending) := Last(Front(r));
          WaitingFrame(hooks, store, store', lr, Front(native), Front(shadow),
                       Front(Front(r)) + [RefRet(addr, Front(pending))]);
        case InPost(h, c) =>
          WaitingFrame(hooks, store, store', store[c].ret, Front(native), shadow, Front(r));
      }
    }
  }

  // What the thread holds without its top function, and what the top one works on.
  lemma BelowHeld(native: seq<Native>, shadow: seq<CallStack>)
    requires native != []
    ensures forall c :: c in Holds(Thread(Front(native), shadow)) ==> c in Holds(Thread(native, shadow))
    ensures shadow != [] ==>
              Last(shadow) in Holds(Thread(native, shadow))
              && forall c :: c in Holds(Thread(Front(native), Front(shadow))) ==> c in Holds(Thread(native, shadow))
    ensures Last(native).InPost? ==> Last(native).call in Holds(Thread(native, shadow))
  {
    if shadow != [] {
      assert shadow == Front(shadow) + [Last(shadow)];
    }
  }

  ghost predicate Allocated(store: Store, t: Thread) {
    forall c :: c in Holds(t) ==> c in store
  }

  // ----- one step -----

  // The allocator never returns a block in use.
  predicate Allocates(e: Event, store: Store) {
    (e.CallHooked? || e.TailCallHooked?) ==> e.call !in store
  }

  // A step of one machine matches a step of the other.
  ghost predicate SameStep(hooks: Hooks, x: Outcome, y: Option<(RefThread, Output)>) {
    match (x, y)
    case (Stuck, None) => true
    case (Next(t, store, o), Some((r, o'))) => o == o' && Corresponds(hooks, store, t.native, t.shadow, r)
    case _ => false
  }

  lemma ArriveMatches(hooks: Hooks, a: U64, native: seq<Native>, shadow: seq<CallStack>, store: Store, r: RefThread)
    requires r != [] && Last(r).RefRet? && Waiting(hooks, store, a, native, shadow, r)
    ensures SameStep(hooks, Arrive(hooks, native, shadow, store, a), RefArrive(r))
  {
    var RefRet(addr, pending) := Last(r);
    var n := |pending|;
    var frames := shadow[|shadow| - n..];
    if n == 0 {
      assert shadow[..|shadow| - n] == shadow;
    } else {
      var c, act := Last(shadow), Last(pending);
      assert Last(frames) == c && Front(frames) == Front(shadow)[|Front(shadow)| - (n - 1)..];
      assert Front(shadow)[..|Front(shadow)| - (n - 1)] == shadow[..|shadow| - n];
      var native' := native + [InPost(hooks[a], c)];
      var r1 := Front(r) + [RefRet(addr, Front(pending))];
      var r' := Front(r) + [RefRet(addr, Front(pending)), RefPost(act)];
      assert Front(native') == native && Front(r') == r1 && Front(r1) == Front(r);
      assert Waiting(hooks, store, store[c].ret, native, Front(shadow), r1);
    }
  }

  lemma FreshFunction(hooks: Hooks, ret: U64, store: Store, t: Thread, r: RefThread)
    requires Corresponds(hooks, store, t.native, t.shadow, r) && ret !in hooks
    ensures Waiting(hooks, store, ret, t.native, t.shadow, r + [RefRet(ret, [])])
  {
    assert Front(r + [RefRet(ret, [])]) == r && t.shadow[..|t.shadow| - 0] == t.shadow;
  }

  // A call: one more function, returning to an address of the program.
  lemma CallMatches(hooks: Hooks, t: Thread, store: Store, r: RefThread, ret: U64)
    requires Corresponds(hooks, store, t.native, t.shadow, r) && ret !in hooks
    ensures Corresponds(hooks, store, t.native + [Ret(ret)], t.shadow, r + [RefRet(ret, [])])
  {
    hide Chain, Waiting;
    var native', r' := t.native + [Ret(ret)], r + [RefRet(ret, [])];
    assert Front(native') == t.native;
    FreshFunction(hooks, ret, store, t, r);
  }

  // A wrapped function entered with link register lr: pre_call runs above it.
  lemma EnterMatches(hooks: Hooks, h: Hook, c: CallStack, lr: U64, store: Store, native: seq<Native>,
                     shadow: seq<CallStack>, r: RefThread, addr: U64, pending: seq<Activation>)
    requires h.leave in hooks && hooks[h.leave] == h && c !in store && Allocated(store, Thread(native, shadow))
    requires Waiting(hooks, store, lr, native, shadow, r + [RefRet(addr, pending)])
    ensures Corresponds(hooks, store[c := CallFrame(0, map[])], native + [InPre(h, lr, c)], shadow + [c],
                        r + [RefRet(addr, pending + [Activation(h.id, map[])]), RefPre(h.next)])
  {
    hide Chain, Waiting;
    var act, store' := Activation(h.id, map[]), store[c := CallFrame(0, map[])];
    var native', shadow', pending' := native + [InPre(h, lr, c)], shadow + [c], pending + [act];
    var r' := r + [RefRet(addr, pending'), RefPre(h.next)];
    assert Front(native') == native && Front(shadow') == shadow && Front(pending') == pending;
    assert Front(r') == r + [RefRet(addr, pending')] && Front(Front(r')) == r;
    WaitingFrame(hooks, store, store', lr, native, shadow, r + [RefRet(addr, pending)]);
  }

  // Returning to a leave trampoline, with the true link register in the frame on top, waits for one more activation.
  lemma WaitsBehindHook(hooks: Hooks, h: Hook, store: Store, native: seq<Native>, shadow: seq<CallStack>, c: CallStack,
                        r: RefThread, addr: U64, pending: seq<Activation>, act: Activation)
    requires h.leave in hooks && hooks[h.leave] == h && c in store && act == Activation(h.id, store[c].kv)
    requires Waiting(hooks, store, store[c].ret, native, shadow, r + [RefRet(addr, pending)])
    ensures Waiting(hooks, store, h.leave, native, shadow + [c], r + [RefRet(addr, pending + [act])])
  {
    var n := |pending|;
    var r0, r1, shadow' := r + [RefRet(addr, pending)], r + [RefRet(addr, pending + [act])], shadow + [c];
    assert Last(r0) == RefRet(addr, pending) && Front(r0) == r && Front(r1) == r;
    var frames, frames' := shadow[|shadow| - n..], shadow'[|shadow'| - (n + 1)..];
    assert Front(frames') == frames && Last(frames') == c && Front(pending + [act]) == pending;
    assert shadow'[..|shadow'| - (n + 1)] == shadow[..|shadow| - n];
  }

  lemma PreDoneMatches(hooks: Hooks, t: Thread, store: Store, r: RefThread)
    requires Related(hooks, t, store, r)
    ensures SameStep(hooks, Step(hooks, t, store, PreDone), RefStep(hooks, r, PreDone))
  {
    hide Chain, Waiting, Holds, Popped;
    if t.native != [] && Last(t.native).InPre? {
      var InPre(h, lr, c) := Last(t.native);
      var store' := store[c := store[c].(ret := lr)];
      var native' := Front(t.native) + [Ret(h.leave)];
      var RefRet(addr, pending) := Last(Front(r));
      PreHeldOnce(store, t);
      WaitingFrame(hooks, store, store', lr, Front(t.native), Front(t.shadow),
                   Front(Front(r)) + [RefRet(addr, Front(pending))]);
      WaitsBehindHook(hooks, h, store', Front(t.native), Front(t.shadow), c, Front(Front(r)), addr,
                      Front(pending), Last(pending));
      assert Front(pending) + [Last(pending)] == pending && Front(Front(r)) + [RefRet(addr, pending)] == Front(r);
      assert Front(native') == Front(t.native) && Last(native') == Ret(h.leave);
      assert Front(t.shadow) + [c] == t.shadow;
    }
  }

  // The call stack a running handler works on is held nowhere else.
  lemma PostHeldOnce(store: Store, t: Thread)
    requires Distinct(store, t) && t.native != [] && Last(t.native).InPost?
    ensures Last(t.native).call !in Holds(Thread(Front(t.native), t.shadow))
    ensures Holds(t) == Holds(Thread(Front(t.native), t.shadow)) + multiset{Last(t.native).call}
    ensures Allocated(store, Thread(Front(t.native), t.shadow))
  {
    var held, c := Holds(Thread(Front(t.native), t.shadow)), Last(t.native).call;
    assert Holds(t) == held + multiset{c};
    assert Holds(t)[c] == held[c] + 1;
    assert c in Holds(t);
    forall x | x in held ensures x in store {
      assert x in Holds(t);
    }
  }

  lemma PreHeldOnce(store: Store, t: Thread)
    requires Distinct(store, t) && t.native != [] && Last(t.native).InPre? && t.shadow != []
    ensures Last(t.shadow) !in Holds(Thread(Front(t.native), Front(t.shadow)))
  {
    var held, c := Holds(Thread(Front(t.native), Front(t.shadow))), Last(t.shadow);
    assert t.shadow == Front(t.shadow) + [c];
    assert Holds(t) == held + multiset{c};
    assert Holds(t)[c] == held[c] + 1;
    assert c in Holds(t);
  }

  lemma PostDoneMatches(hooks: Hooks, t: Thread, store: Store, r: RefThread)
    requires Related(hooks, t, store, r)
    ensures SameStep(hooks, Step(hooks, t, store, PostDone), RefStep(hooks, r, PostDone))
  {
    hide Chain, Waiting, Holds, Popped;
    if t.native != [] && Last(t.native).InPost? {
      var c := Last(t.native).call;
      PostHeldOnce(store, t);
      WaitingFrame(hooks, store, store - {c}, store[c].ret, Front(t.native), t.shadow, Front(r));
      ArriveMatches(hooks, store[c].ret, Front(t.native), t.shadow, store - {c}, Front(r));
    }
  }

  lemma KvMatches(hooks: Hooks, t: Thread, store: Store, r: RefThread, key: Key, value: U64)
    requires Related(hooks, t, store, r)
    ensures SameStep(hooks, Step(hooks, t, store, KvSet(key, value)), RefStep(hooks, r, KvSet(key, value)))
    ensures SameStep(hooks, Step(hooks, t, store, KvGet(key)), RefStep(hooks, r, KvGet(key)))
  {
    hide Chain, Waiting, Holds, Popped;
    if t.native != [] && !Last(t.native).Ret? {
      var c := Last(t.native).call;
      var kv' := store[c].kv[key := value];
      var store' := store[c := store[c].(kv := kv')];
      if Last(t.native).InPre? {
        var InPre(h, lr, _) := Last(t.native);
        var RefRet(addr, pending) := Last(Front(r));
        var pending' := Front(pending) + [Activation(h.id, kv')];
        var r' := Front(Front(r)) + [RefRet(addr, pending'), RefPre(h.next)];
        PreHeldOnce(store, t);
        assert Front(pending') == Front(pending);
        assert Front(r') == Front(Front(r)) + [RefRet(addr, pending')] && Front(Front(r')) == Front(Front(r));
        WaitingFrame(hooks, store, store', lr, Front(t.native), Front(t.shadow),
                     Front(Front(r)) + [RefRet(addr, Front(pending))]);
      } else {
        var r' := Front(r) + [RefPost(Activation(Last(t.native).hook.id, kv'))];
        assert Front(r') == Front(r);
        PostHeldOnce(store, t);
        WaitingFrame(hooks, store, store', store[c].ret, Front(t.native), t.shadow, Front(r));
      }
    }
  }

  lemma CallHookedMatches(hooks: Hooks, t: Thread, store: Store, r: RefThread, e: Event)
    requires Related(hooks, t, store, r) && Allocates(e, store) && e.CallHooked?
    ensures SameStep(hooks, Step(hooks, t, store, e), RefStep(hooks, r, e))
  {
    hide Chain, Waiting, Corresponds, Popped;
    var CallHooked(h, ret, c) := e;
    if ret !in hooks && h.leave in hooks && hooks[h.leave] == h {
      FreshFunction(hooks, ret, store, t, r);
      EnterMatches(hooks, h, c, ret, store, t.native, t.shadow, r, ret, []);
      assert [] + [Activation(h.id, map[])] == [Activation(h.id, map[])];
    }
  }

  lemma TailCallMatches(hooks: Hooks, t: Thread, store: Store, r: RefThread, e: Event)
    requires Related(hooks, t, store, r) && Allocates(e, store) && e.TailCallHooked?
    ensures SameStep(hooks, Step(hooks, t, store, e), RefStep(hooks, r, e))
  {
    hide Chain, Waiting, Popped;
    var TailCallHooked(h, c) := e;
    if t.native != [] && Last(t.native).Ret? && h.leave in hooks && hooks[h.leave] == h {
      var RefRet(addr, pending) := Last(r);
      assert Front(r) + [RefRet(addr, pending)] == r;
      assert Holds(Thread(Front(t.native), t.shadow)) == Holds(t) by {
        assert Front(t.native) + [Last(t.native)] == t.native;
        PoppedNext(Front(t.native), Last(t.native));
      }
      EnterMatches(hooks, h, c, Last(t.native).addr, store, Front(t.native), t.shadow, Front(r), addr, pending);
    }
  }

  /** Each step of the hooked machine is the same step of the reference machine, with the same output. */
  lemma StepMatches(hooks: Hooks, t: Thread, store: Store, r: RefThread, e: Event)
    requires Related(hooks, t, store, r) && Allocates(e, store)
    ensures SameStep(hooks, Step(hooks, t, store, e), RefStep(hooks, r, e))
  {
    hide Chain, Waiting, Popped, Holds;
    match e {
      case Call(ret) =>
        if ret !in hooks {
          CallMatches(hooks, t, store, r, ret);
        }
      case CallHooked(_, _, _) => CallHookedMatches(hooks, t, store, r, e);
      case TailCallHooked(_, _) => TailCallMatches(hooks, t, store, r, e);
      case PreDone => PreDoneMatches(hooks, t, store, r);
      case Return =>
        if t.native != [] && Last(t.native).Ret? {
          ArriveMatches(hooks, Last(t.native).addr, Front(t.native), t.shadow, store, r);
        }
      case PostDone => PostDoneMatches(hooks, t, store, r);
      case KvSet(key, value) => KvMatches(hooks, t, store, r, key, value);
      case KvGet(key) => KvMatches(hooks, t, store, r, key, 0);
    }
  }

  // ----- call stacks are neither shared nor leaked -----

  // A step touches only the call stacks of its thread; the ones it stops holding are freed.
  ghost predicate LocalStep(t: Thread, store: Store, t': Thread, store': Store) {
    && Distinct(store', t')
    && (forall c :: c in store && c !in Holds(t) ==> c in store' && store'[c] == store[c] && c !in Holds(t'))
    && (forall c :: c in store' && c !in Holds(t') ==> c in store && c !in Holds(t))
  }

  lemma PoppedNext(native: seq<Native>, n: Native)
    ensures Popped(native + [n]) == Popped(native) + if n.InPost? then multiset{n.call} else multiset{}
  {
    assert Front(native + [n]) == native;
  }

  lemma ArriveLocal(hooks: Hooks, a: U64, native: seq<Native>, shadow: seq<CallStack>, store: Store)
    ensures var x := Arrive(hooks, native, shadow, store, a);
            x.Next? ==> Holds(x.thread) == Holds(Thread(native, shadow)) && x.store == store
  {
    if a in hooks && shadow != [] {
      PoppedNext(native, InPost(hooks[a], Last(shadow)));
      assert shadow == Front(shadow) + [Last(shadow)];
    }
  }

  lemma SameHeldLocal(t: Thread, store: Store, t': Thread, store': Store)
    requires Distinct(store, t) && Holds(t') == Holds(t) && store'.Keys == store.Keys
    requires forall c :: c in store && c !in Holds(t) ==> store'[c] == store[c]
    ensures LocalStep(t, store, t', store')
  {
  }

  lemma NewHeldLocal(t: Thread, store: Store, t': Thread, c: CallStack, f: CallFrame)
    requires Distinct(store, t) && c !in store && Holds(t') == Holds(t) + multiset{c}
    ensures LocalStep(t, store, t', store[c := f])
  {
    hide Holds;
    assert c !in Holds(t);
  }

  lemma EnterLocal(t: Thread, store: Store, native: seq<Native>, h: Hook, lr: U64, c: CallStack)
    requires Distinct(store, t) && c !in store && Popped(native) == Popped(t.native)
    ensures LocalStep(t, store, Thread(native + [InPre(h, lr, c)], t.shadow + [c]), store[c := CallFrame(0, map[])])
  {
    hide Popped, Distinct, LocalStep;
    var t' := Thread(native + [InPre(h, lr, c)], t.shadow + [c]);
    PoppedNext(native, InPre(h, lr, c));
    assert Holds(t') == Holds(t) + multiset{c};
    NewHeldLocal(t, store, t', c, CallFrame(0, map[]));
  }

  lemma PostDoneLocal(hooks: Hooks, t: Thread, store: Store)
    requires Distinct(store, t)
    ensures var x := Step(hooks, t, store, PostDone); x.Next? ==> LocalStep(t, store, x.thread, x.store)
  {
    var x := Step(hooks, t, store, PostDone);
    if x.Next? {
      var c := Last(t.native).call;
      PostHeldOnce(store, t);
      ArriveLocal(hooks, store[c].ret, Front(t.native), t.shadow, store - {c});
      assert Holds(t) == Holds(x.thread) + multiset{c};
    }
  }

  // While pre_call runs its call stack is on top of the shadow stack; while post_call runs it has been popped.
  lemma HandlerHolds(hooks: Hooks, t: Thread, store: Store, r: RefThread)
    requires Related(hooks, t, store, r) && t.native != [] && !Last(t.native).Ret?
    ensures Last(t.native).call in Holds(t) && Last(t.native).call in store
  {
    hide Chain, Waiting;
  }

  lemma PreDoneLocal(hooks: Hooks, t: Thread, store: Store, r: RefThread)
    requires Related(hooks, t, store, r)
    ensures var x := Step(hooks, t, store, PreDone); x.Next? ==> LocalStep(t, store, x.thread, x.store)
  {
    hide Chain, Waiting, Corresponds, LocalStep, Distinct;
    var x := Step(hooks, t, store, PreDone);
    if x.Next? {
      HandlerHolds(hooks, t, store, r);
      PoppedNext(Front(t.native), Ret(Last(t.native).hook.leave));
      SameHeldLocal(t, store, x.thread, x.store);
    }
  }

  lemma KvLocal(hooks: Hooks, t: Thread, store: Store, r: RefThread, key: Key, value: U64)
    requires Related(hooks, t, store, r)
    ensures var x := Step(hooks, t, store, KvSet(key, value)); x.Next? ==> LocalStep(t, store, x.thread, x.store)
    ensures var x := Step(hooks, t, store, KvGet(key)); x.Next? ==> LocalStep(t, store, x.thread, x.store)
  {
    hide Chain, Waiting, Corresponds, LocalStep, Distinct, Popped, Holds;
    var x := Step(hooks, t, store, KvSet(key, value));
    if x.Next? {
      HandlerHolds(hooks, t, store, r);
      SameHeldLocal(t, store, x.thread, x.store);
      SameHeldLocal(t, store, t, store);
    }
  }

  lemma ReturnLocal(hooks: Hooks, t: Thread, store: Store)
    requires Distinct(store, t)
    ensures var x := Step(hooks, t, store, Return); x.Next? ==> LocalStep(t, store, x.thread, x.store)
  {
    hide LocalStep, Distinct, Arrive;
    var x := Step(hooks, t, store, Return);
    if x.Next? {
      ArriveLocal(hooks, Last(t.native).addr, Front(t.native), t.shadow, store);
      SameHeldLocal(t, store, x.thread, x.store);
    }
  }

  lemma StepLocal(hooks: Hooks, t: Thread, store: Store, r: RefThread, e: Event)
    requires Related(hooks, t, store, r) && Allocates(e, store)
    ensures var x := Step(hooks, t, store, e); x.Next? ==> LocalStep(t, store, x.thread, x.store)
  {
    hide Chain, Waiting, Corresponds, LocalStep, Arrive, Distinct;
    match e {
      case Call(ret) =>
        PoppedNext(t.native, Ret(ret));
        SameHeldLocal(t, store, Thread(t.native + [Ret(ret)], t.shadow), store);
      case CallHooked(h, ret, c) => EnterLocal(t, store, t.native, h, ret, c);
      case TailCallHooked(h, c) =>
        if t.native != [] && Last(t.native).Ret? {
          EnterLocal(t, store, Front(t.native), h, Last(t.native).addr, c);
        }
      case PreDone => PreDoneLocal(hooks, t, store, r);
      case Return => ReturnLocal(hooks, t, store);
      case PostDone => PostDoneLocal(hooks, t, store);
      case KvSet(key, value) => KvLocal(hooks, t, store, r, key, value);
      case KvGet(key) => KvLocal(hooks, t, store, r, key, 0);
    }
  }
}
