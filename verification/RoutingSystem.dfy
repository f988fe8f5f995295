/**
 * Whole runs of hooked threads: any number of threads, any interleaving, any nesting. Every run of the hooked machine
 * has the outputs of the reference machine, whose functions return where they were called from (interceptor_routing.c,
 * thread_stack.c).
 */
module RoutingSystem {
  import opened A64Encoding
  import opened ThreadStack
  import opened Routing
  import opened Wrappers

  // All threads, with the call stacks they share one allocator for.
  datatype System = System(threads: map<Tid, Thread>, store: Store)

  type RefSystem = map<Tid, RefThread>

  // One thread does one thing.
  datatype Act = Act(tid: Tid, event: Event)

  // A thread has nothing on its stacks until it first acts.
  function ThreadOf(s: System, tid: Tid): Thread {
    if tid in s.threads then s.threads[tid] else Thread([], [])
  }

  function RefThreadOf(rs: RefSystem, tid: Tid): RefThread {
    if tid in rs then rs[tid] else []
  }

  function SystemStep(hooks: Hooks, s: System, a: Act): Option<(System, Output)> {
    match Step(hooks, ThreadOf(s, a.tid), s.store, a.event)
    case Stuck => None
    case Next(t, store, o) => Some((System(s.threads[a.tid := t], store), o))
  }

  function RefSystemStep(hooks: Hooks, rs: RefSystem, a: Act): Option<(RefSystem, Output)> {
    match RefStep(hooks, RefThreadOf(rs, a.tid), a.event)
    case None => None
    case Some((r, o)) => Some((rs[a.tid := r], o))
  }

  function Run(hooks: Hooks, s: System, acts: seq<Act>): Option<(System, seq<Output>)>
    decreases |acts|
  {
    if acts == [] then Some((s, []))
    else
      match SystemStep(hooks, s, acts[0])
      case None => None
      case Some((s', o)) =>
        match Run(hooks, s', acts[1..])
        case None => None
        case Some((s'', os)) => Some((s'', [o] + os))
  }

  function RefRun(hooks: Hooks, rs: RefSystem, acts: seq<Act>): Option<(RefSystem, seq<Output>)>
    decreases |acts|
  {
    if acts == [] then Some((rs, []))
    else
      match RefSystemStep(hooks, rs, acts[0])
      case None => None
      case Some((rs', o)) =>
        match RefRun(hooks, rs', acts[1..])
        case None => None
        case Some((rs'', os)) => Some((rs'', [o] + os))
  }

  // The allocator never returns a block in use, at any point of the run.
  ghost predicate AllocatesAlong(hooks: Hooks, s: System, acts: seq<Act>)
    decreases |acts|
  {
    acts != [] ==>
      && Allocates(acts[0].event, s.store)
      && match SystemStep(hooks, s, acts[0])
         case None => true
         case Some((s', _)) => AllocatesAlong(hooks, s', acts[1..])
  }

  ghost predicate Apart(t: Thread, u: Thread) {
    forall c :: c in Holds(t) ==> c !in Holds(u)
  }

  // Threads correspond one by one; no call stack is held by two threads, and every allocated one is held.
  ghost predicate SystemRelated(hooks: Hooks, s: System, rs: RefSystem) {
    && (forall t :: Related(hooks, ThreadOf(s, t), s.store, RefThreadOf(rs, t)))
    && (forall t, u :: t != u ==> Apart(ThreadOf(s, t), ThreadOf(s, u)))
    && (forall c :: c in s.store ==> exists t :: c in Holds(ThreadOf(s, t)))
  }

  lemma OtherThreadKept(hooks: Hooks, t: Thread, store: Store, t': Thread, store': Store, u: Thread, r: RefThread)
    requires LocalStep(t, store, t', store') && Related(hooks, u, store, r) && Apart(t, u)
    ensures Related(hooks, u, store', r) && Apart(t', u) && Apart(u, t')
  {
    hide Corresponds, Holds;
    CorrespondsFrame(hooks, store, store', u.native, u.shadow, r);
  }

  // One step: the same output, the relation kept, every other thread as it was.
  lemma SystemStepMatches(hooks: Hooks, s: System, rs: RefSystem, a: Act)
    requires SystemRelated(hooks, s, rs) && Allocates(a.event, s.store)
    ensures match (SystemStep(hooks, s, a), RefSystemStep(hooks, rs, a))
            case (None, None) => true
            case (Some((s', o)), Some((rs', o'))) => o == o' && SystemRelated(hooks, s', rs')
            case _ => false
  {
    hide Corresponds, Holds, Step, RefStep, Distinct, Apart;
    var t, r := ThreadOf(s, a.tid), RefThreadOf(rs, a.tid);
    StepMatches(hooks, t, s.store, r, a.event);
    StepLocal(hooks, t, s.store, r, a.event);
    if Step(hooks, t, s.store, a.event).Next? {
      var Next(t', store', _) := Step(hooks, t, s.store, a.event);
      var s' := System(s.threads[a.tid := t'], store');
      assert ThreadOf(s', a.tid) == t';
      var rs' := rs[a.tid := RefStep(hooks, r, a.event).value.0];
      assert Related(hooks, t', store', RefThreadOf(rs', a.tid));
      assert forall u :: u != a.tid ==> ThreadOf(s', u) == ThreadOf(s, u) && RefThreadOf(rs', u) == RefThreadOf(rs, u);
      forall u: Tid | u != a.tid
        ensures Related(hooks, ThreadOf(s, u), store', RefThreadOf(rs, u))
        ensures Apart(t', ThreadOf(s, u)) && Apart(ThreadOf(s, u), t')
      {
        OtherThreadKept(hooks, t, s.store, t', store', ThreadOf(s, u), RefThreadOf(rs, u));
      }
      forall c | c in store' ensures exists u :: c in Holds(ThreadOf(s', u)) {
        NothingLeaks(s, t, t', store', s', a.tid, c);
      }
    }
  }

  lemma NothingLeaks(s: System, t: Thread, t': Thread, store': Store, s': System, tid: Tid, c: CallStack)
    requires t == ThreadOf(s, tid) && s' == System(s.threads[tid := t'], store') && LocalStep(t, s.store, t', store')
    requires c in store' && forall c :: c in s.store ==> exists t :: c in Holds(ThreadOf(s, t))
    ensures exists u :: c in Holds(ThreadOf(s', u))
  {
    if c in Holds(t') {
      assert ThreadOf(s', tid) == t';
    } else {
      var u :| c in Holds(ThreadOf(s, u));
      assert ThreadOf(s', u) == ThreadOf(s, u);
    }
  }

  /** Every run of the hooked threads is a run of the reference machine, step for step and with the same outputs. */
  lemma {:induction false} RunMatches(hooks: Hooks, s: System, rs: RefSystem, acts: seq<Act>)
    requires SystemRelated(hooks, s, rs) && AllocatesAlong(hooks, s, acts)
    ensures match (Run(hooks, s, acts), RefRun(hooks, rs, acts))
            case (None, None) => true
            case (Some((s', os)), Some((rs', os'))) => os == os' && SystemRelated(hooks, s', rs')
            case _ => false
    decreases |acts|
  {
    hide SystemRelated;
    if acts != [] {
      SystemStepMatches(hooks, s, rs, acts[0]);
      match SystemStep(hooks, s, acts[0]) {
        case None =>
        case Some((s', _)) =>
          RunMatches(hooks, s', RefSystemStep(hooks, rs, acts[0]).value.0, acts[1..]);
      }
    }
  }

  // No thread has run yet.
  function Start(): System {
    System(map[], map[])
  }

  lemma InitiallyRelated(hooks: Hooks)
    ensures SystemRelated(hooks, Start(), map[])
  {
  }

  // ----- stack depth -----

  function Depth(r: RefThread): nat {
    if r == [] then 0 else Depth(Front(r)) + if Last(r).RefRet? then |Last(r).pending| else 0
  }

  // Functions on the stack of the reference machine.
  function Functions(r: RefThread): nat {
    if r == [] then 0 else Functions(Front(r)) + if Last(r).RefRet? then 1 else 0
  }

  // The shadow stack is as deep as there are wrapped activations not yet popped.
  lemma {:induction false} DepthMatches(hooks: Hooks, store: Store, native: seq<Native>, shadow: seq<CallStack>,
                                        r: RefThread)
    requires Corresponds(hooks, store, native, shadow, r)
    ensures |shadow| == Depth(r) && |native| == Functions(r)
    decreases |native|, 0
  {
    hide Chain, Waiting;
    if native != [] {
      match Last(native) {
        case Ret(a) => WaitingDepth(hooks, store, a, Front(native), shadow, r);
        case InPre(h, lr, c) =>
          var RefRet(addr, pending) := Last(Front(r));
          var r0 := Front(Front(r)) + [RefRet(addr, Front(pending))];
          WaitingDepth(hooks, store, lr, Front(native), Front(shadow), r0);
          assert Front(r0) == Front(Front(r));
        case InPost(h, c) => WaitingDepth(hooks, store, store[c].ret, Front(native), shadow, Front(r));
      }
    }
  }

  lemma {:induction false} WaitingDepth(hooks: Hooks, store: Store, a: U64, native: seq<Native>, shadow: seq<CallStack>,
                                        r: RefThread)
    requires r != [] && Last(r).RefRet? && Waiting(hooks, store, a, native, shadow, r)
    ensures |shadow| == Depth(r) && |native| + 1 == Functions(r)
    decreases |native|, 1
  {
    hide Chain;
    DepthMatches(hooks, store, native, shadow[..|shadow| - |Last(r).pending|], Front(r));
  }

  // ----- returning -----

  // A function that returns to `addr` runs directly above the functions `b`, with everything it calls above it;
  // it still has the activations `pend` to return from, and no pre_call of theirs is running.
  ghost predicate Inside(b: RefThread, addr: U64, pend: seq<Activation>, r: RefThread) {
    && |r| > |b| && r[..|b|] == b
    && r[|b|].RefRet? && r[|b|].addr == addr && pend <= r[|b|].pending
    && (|r| > |b| + 1 && r[|b| + 1].RefPre? ==> |r[|b|].pending| > |pend|)
  }

  // How the function leaves: to the post_call of its innermost activation or, with none left, to its caller.
  ghost predicate Exit(b: RefThread, addr: U64, pend: seq<Activation>, r: RefThread, o: Output) {
    if pend == [] then r == b && o == Arrives(addr)
    else r == b + [RefRet(addr, Front(pend)), RefPost(Last(pend))] && o == Post(Last(pend).id)
  }

  lemma ArriveInside(b: RefThread, addr: U64, pend: seq<Activation>, r: RefThread)
    requires Inside(b, addr, pend, r)
    ensures match RefArrive(r)
            case None => true
            case Some((r', o)) => Inside(b, addr, pend, r') || Exit(b, addr, pend, r', o)
  {
    if |r| == |b| + 1 {
      assert r == b + [Last(r)] && Front(r) == b;
      var pending := Last(r).pending;
      if |pending| > |pend| {
        assert Front(pending)[..|pend|] == pending[..|pend|];
      } else {
        assert pending == pend;
      }
    }
  }

  // Whatever the function and its callees do, it stays, or leaves exactly so.
  lemma StepInside(hooks: Hooks, b: RefThread, addr: U64, pend: seq<Activation>, r: RefThread, e: Event)
    requires Inside(b, addr, pend, r)
    ensures match RefStep(hooks, r, e)
            case None => true
            case Some((r', o)) => Inside(b, addr, pend, r') || Exit(b, addr, pend, r', o)
  {
    if e.Return? {
      ArriveInside(b, addr, pend, r);
    } else if e.PostDone? && Last(r).RefPost? {
      ArriveInside(b, addr, pend, Front(r));
    }
  }

  // The run stays above the first n functions of the thread until control arrives at `ret`, with those n functions
  // left and the shadow stack d deep.
  ghost predicate ReturnsTo(hooks: Hooks, s: System, acts: seq<Act>, tid: Tid, n: nat, d: nat, ret: U64)
    decreases |acts|
  {
    acts == [] ||
    match SystemStep(hooks, s, acts[0])
    case None => true
    case Some((s', o)) =>
      var t := ThreadOf(s', tid);
      if |t.native| > n then ReturnsTo(hooks, s', acts[1..], tid, n, d, ret)
      else acts[0].tid == tid && o == Arrives(ret) && |t.native| == n && |t.shadow| == d
  }

  lemma FunctionsAbove(b: RefThread, r: RefThread)
    requires |r| > |b| && r[..|b|] == b && r[|b|].RefRet?
    ensures Functions(r) > Functions(b)
    decreases |r|
  {
    if |r| == |b| + 1 {
      assert Front(r) == b;
    } else {
      FunctionsAbove(b, Front(r));
    }
  }

  lemma SystemDepth(hooks: Hooks, s: System, rs: RefSystem, tid: Tid)
    requires SystemRelated(hooks, s, rs)
    ensures |ThreadOf(s, tid).shadow| == Depth(RefThreadOf(rs, tid))
    ensures |ThreadOf(s, tid).native| == Functions(RefThreadOf(rs, tid))
  {
    hide Corresponds, Distinct, Depth, Functions;
    assert Related(hooks, ThreadOf(s, tid), s.store, RefThreadOf(rs, tid));
    DepthMatches(hooks, s.store, ThreadOf(s, tid).native, ThreadOf(s, tid).shadow, RefThreadOf(rs, tid));
  }

  // What one step of any thread does to a function thread `tid` is inside of.
  lemma SystemInside(hooks: Hooks, rs: RefSystem, a: Act, tid: Tid, b: RefThread, ret: U64)
    requires Inside(b, ret, [], RefThreadOf(rs, tid)) && RefSystemStep(hooks, rs, a).Some?
    ensures var (rs', o) := RefSystemStep(hooks, rs, a).value;
            var r' := RefThreadOf(rs', tid);
            if Inside(b, ret, [], r') then Functions(r') > Functions(b)
            else a.tid == tid && r' == b && o == Arrives(ret)
  {
    hide RefStep, Functions;
    var r' := RefThreadOf(RefSystemStep(hooks, rs, a).value.0, tid);
    StepInside(hooks, b, ret, [], RefThreadOf(rs, tid), a.event);
    if Inside(b, ret, [], r') {
      FunctionsAbove(b, r');
    }
  }

  lemma {:induction false} InsideReturns(hooks: Hooks, s: System, rs: RefSystem, acts: seq<Act>, tid: Tid,
                                         b: RefThread, ret: U64)
    requires SystemRelated(hooks, s, rs) && Inside(b, ret, [], RefThreadOf(rs, tid))
    ensures ReturnsTo(hooks, s, acts, tid, Functions(b), Depth(b), ret)
    decreases |acts|
  {
    hide SystemRelated, Inside, Functions, Depth, Step, RefStep, ThreadOf, RefThreadOf;
    if acts != [] && SystemStep(hooks, s, acts[0]).Some? {
      var a := acts[0];
      StepAllocates(hooks, s, a);
      SystemStepMatches(hooks, s, rs, a);
      var s', rs' := SystemStep(hooks, s, a).value.0, RefSystemStep(hooks, rs, a).value.0;
      SystemInside(hooks, rs, a, tid, b, ret);
      SystemDepth(hooks, s', rs', tid);
      if Inside(b, ret, [], RefThreadOf(rs', tid)) {
        InsideReturns(hooks, s', rs', acts[1..], tid, b, ret);
      }
    }
  }

  lemma StepAllocates(hooks: Hooks, s: System, a: Act)
    requires SystemStep(hooks, s, a).Some?
    ensures Allocates(a.event, s.store)
  {
  }

  // A wrapped call from b is inside a function that returns to e.ret.
  lemma EntryInside(hooks: Hooks, rs: RefSystem, tid: Tid, e: Event)
    requires e.CallHooked? && RefSystemStep(hooks, rs, Act(tid, e)).Some?
    ensures Inside(RefThreadOf(rs, tid), e.ret, [], RefThreadOf(RefSystemStep(hooks, rs, Act(tid, e)).value.0, tid))
  {
  }

  /**
   * A wrapped call made at any point of any run returns to the address it was called from, whatever its handlers, the
   * function and the other threads do meanwhile, and leaves the shadow stack as deep as it found it.
   */
  lemma WrappedCallReturns(hooks: Hooks, before: seq<Act>, tid: Tid, e: Event, after: seq<Act>)
    requires e.CallHooked?
    requires AllocatesAlong(hooks, Start(), before) && Run(hooks, Start(), before).Some?
    ensures var s := Run(hooks, Start(), before).value.0;
            var x := SystemStep(hooks, s, Act(tid, e));
            x.Some? ==>
              ReturnsTo(hooks, x.value.0, after, tid, |ThreadOf(s, tid).native|, |ThreadOf(s, tid).shadow|, e.ret)
  {
    hide SystemRelated, Inside, Functions, Depth, Step, RefStep, ThreadOf, RefThreadOf, Run, RefRun;
    InitiallyRelated(hooks);
    RunMatches(hooks, Start(), map[], before);
    var s, rs := Run(hooks, Start(), before).value.0, RefRun(hooks, map[], before).value.0;
    var a := Act(tid, e);
    if SystemStep(hooks, s, a).Some? {
      StepAllocates(hooks, s, a);
      SystemStepMatches(hooks, s, rs, a);
      SystemDepth(hooks, s, rs, tid);
      EntryInside(hooks, rs, tid, e);
      InsideReturns(hooks, SystemStep(hooks, s, a).value.0, RefSystemStep(hooks, rs, a).value.0, after, tid,
                    RefThreadOf(rs, tid), e.ret);
    }
  }

  // ----- contexts -----

  // Every pre_call running works on a call stack of the shadow stack, each on its own.
  ghost predicate PreCallsApart(native: seq<Native>, shadow: seq<CallStack>) {
    && (forall i :: 0 <= i < |native| && native[i].InPre? ==> native[i].call in shadow)
    && (forall i, j :: 0 <= i < j < |native| && native[i].InPre? && native[j].InPre? ==>
      native[i].call != native[j].call)
  }

  lemma PreCallAdded(native: seq<Native>, n: Native, below: seq<CallStack>, shadow: seq<CallStack>)
    requires PreCallsApart(native, below) && below <= shadow
    requires n.InPre? ==> n.call in shadow && n.call !in below
    ensures PreCallsApart(native + [n], shadow)
  {
  }

  lemma TopOnce(shadow: seq<CallStack>, n: nat)
    requires n < |shadow| && forall c :: c in multiset(shadow) ==> multiset(shadow)[c] == 1
    ensures Last(shadow) !in shadow[..n]
  {
    var c := Last(shadow);
    var middle := shadow[n..|shadow| - 1];
    assert shadow == shadow[..n] + middle + [c];
    assert multiset(shadow)[c] == multiset(shadow[..n])[c] + multiset(middle)[c] + 1;
    assert c in multiset(shadow);
  }

  lemma BelowOnce(shadow: seq<CallStack>, n: nat)
    requires n <= |shadow| && forall c :: c in multiset(shadow) ==> multiset(shadow)[c] == 1
    ensures forall c :: c in multiset(shadow[..n]) ==> multiset(shadow[..n])[c] == 1
  {
    assert shadow == shadow[..n] + shadow[n..];
    forall c | c in multiset(shadow[..n]) ensures multiset(shadow[..n])[c] == 1 {
      assert multiset(shadow)[c] == multiset(shadow[..n])[c] + multiset(shadow[n..])[c];
      assert c in multiset(shadow);
    }
  }

  lemma {:induction false} PreCallsSeparate(hooks: Hooks, store: Store, native: seq<Native>, shadow: seq<CallStack>,
                                            r: RefThread)
    requires Corresponds(hooks, store, native, shadow, r)
    requires forall c :: c in multiset(shadow) ==> multiset(shadow)[c] == 1
    ensures PreCallsApart(native, shadow)
    decreases |native|
  {
    hide Chain, PreCallsApart;
    if native == [] {
      NoPreCalls(shadow);
    } else {
      var n := Last(native);
      var r0 := if n.Ret? then r else Front(r);
      var k := |Last(r0).pending|;
      var below := shadow[..|shadow| - k];
      BelowOnce(shadow, |shadow| - k);
      if n.InPre? {
        var r1 := Front(r0) + [RefRet(Last(r0).addr, Front(Last(r0).pending))];
        assert Front(r1) == Front(r0) && Front(shadow)[..|Front(shadow)| - (k - 1)] == below;
        TopOnce(shadow, |shadow| - k);
      }
      PreCallsSeparate(hooks, store, Front(native), below, Front(r0));
      PreCallAdded(Front(native), n, below, shadow);
      assert Front(native) + [n] == native;
    }
  }

  lemma NoPreCalls(shadow: seq<CallStack>)
    ensures PreCallsApart([], shadow)
  {
  }

  // A call stack waiting for its wrapped function to return: on the shadow stack, no handler working on it.
  ghost predicate Parked(t: Thread, c: CallStack) {
    c in t.shadow && forall i :: 0 <= i < |t.native| && t.native[i].InPre? ==> t.native[i].call != c
  }

  // No step of its thread changes a parked call stack until its post_call begins.
  lemma ParkedStep(hooks: Hooks, t: Thread, store: Store, e: Event, c: CallStack)
    requires Distinct(store, t) && Parked(t, c)
    ensures match Step(hooks, t, store, e)
            case Stuck => true
            case Next(t', store', _) =>
              && c in store' && store'[c] == store[c]
              && (Parked(t', c) || (t'.native != [] && Last(t'.native).InPost? && Last(t'.native).call == c))
  {
    hide Popped;
    assert c in Holds(t);
    if t.native != [] && Last(t.native).InPost? {
      PostHeldOnce(store, t);
    }
  }

  // What a thread steps over is not held by another one.
  lemma ElsewhereKept(hooks: Hooks, t: Thread, store: Store, t': Thread, store': Store, u: Thread, r: RefThread,
                      c: CallStack)
    requires LocalStep(t, store, t', store') && Related(hooks, u, store, r) && Apart(t, u) && c in u.shadow
    ensures c in store && c in store' && store'[c] == store[c]
  {
    hide Corresponds, Popped;
    assert c in Holds(u);
  }

  // A step of another thread leaves it alone too.
  lemma ParkedElsewhere(hooks: Hooks, s: System, rs: RefSystem, a: Act, tid: Tid, c: CallStack)
    requires SystemRelated(hooks, s, rs) && SystemStep(hooks, s, a).Some?
    requires a.tid != tid && c in ThreadOf(s, tid).shadow
    ensures var s' := SystemStep(hooks, s, a).value.0;
            ThreadOf(s', tid) == ThreadOf(s, tid) && c in s.store && c in s'.store && s'.store[c] == s.store[c]
  {
    hide Related, LocalStep, Apart, Step, Holds;
    var t, u := ThreadOf(s, a.tid), ThreadOf(s, tid);
    var x := Step(hooks, t, s.store, a.event);
    StepAllocates(hooks, s, a);
    StepLocal(hooks, t, s.store, RefThreadOf(rs, a.tid), a.event);
    ElsewhereKept(hooks, t, s.store, x.thread, x.store, u, RefThreadOf(rs, tid), c);
  }

  // The run leaves the call stack exactly `f` until, if ever, its post_call begins.
  ghost predicate KeptUntilPost(hooks: Hooks, s: System, acts: seq<Act>, tid: Tid, c: CallStack, f: CallFrame)
    decreases |acts|
  {
    acts == [] ||
    match SystemStep(hooks, s, acts[0])
    case None => true
    case Some((s', _)) =>
      && c in s'.store && s'.store[c] == f
      && (InPostOf(ThreadOf(s', tid), c) || KeptUntilPost(hooks, s', acts[1..], tid, c, f))
  }

  predicate InPostOf(t: Thread, c: CallStack) {
    t.native != [] && Last(t.native).InPost? && Last(t.native).call == c
  }

  lemma ParkedSystemStep(hooks: Hooks, s: System, rs: RefSystem, a: Act, tid: Tid, c: CallStack)
    requires SystemRelated(hooks, s, rs) && SystemStep(hooks, s, a).Some?
    requires Parked(ThreadOf(s, tid), c) && c in s.store
    ensures var s' := SystemStep(hooks, s, a).value.0;
            && c in s'.store && s'.store[c] == s.store[c]
            && (Parked(ThreadOf(s', tid), c) || InPostOf(ThreadOf(s', tid), c))
  {
    hide Corresponds, Step, Popped, Distinct;
    if a.tid == tid {
      assert Related(hooks, ThreadOf(s, tid), s.store, RefThreadOf(rs, tid));
      ParkedStep(hooks, ThreadOf(s, tid), s.store, a.event, c);
    } else {
      ParkedElsewhere(hooks, s, rs, a, tid, c);
    }
  }

  lemma {:induction false} ParkedKept(hooks: Hooks, s: System, rs: RefSystem, acts: seq<Act>, tid: Tid, c: CallStack)
    requires SystemRelated(hooks, s, rs) && Parked(ThreadOf(s, tid), c) && c in s.store
    ensures KeptUntilPost(hooks, s, acts, tid, c, s.store[c])
    decreases |acts|
  {
    hide SystemRelated, SystemStep, Parked, InPostOf;
    if acts != [] && SystemStep(hooks, s, acts[0]).Some? {
      ParkedSystemStep(hooks, s, rs, acts[0], tid, c);
      StepAllocates(hooks, s, acts[0]);
      SystemStepMatches(hooks, s, rs, acts[0]);
      var s' := SystemStep(hooks, s, acts[0]).value.0;
      if !InPostOf(ThreadOf(s', tid), c) {
        ParkedKept(hooks, s', RefSystemStep(hooks, rs, acts[0]).value.0, acts[1..], tid, c);
      }
    }
  }

  // When pre_call is done its call stack is parked.
  lemma PreDoneParks(hooks: Hooks, t: Thread, store: Store, r: RefThread)
    requires Related(hooks, t, store, r) && t.native != [] && Last(t.native).InPre?
    ensures var c := Last(t.native).call;
            && c in store
            && var x := Step(hooks, t, store, PreDone);
               x.Next? && Parked(x.thread, c) && x.store == store[c := store[c].(ret := Last(t.native).lr)]
  {
    hide Chain, Waiting;
    ShadowOnce(store, t);
    PreCallsSeparate(hooks, store, t.native, t.shadow, r);
  }

  lemma ShadowOnce(store: Store, t: Thread)
    requires Distinct(store, t)
    ensures forall c :: c in multiset(t.shadow) ==> multiset(t.shadow)[c] == 1
  {
    forall c | c in multiset(t.shadow) ensures multiset(t.shadow)[c] == 1 {
      assert c in Holds(t) && Holds(t)[c] == multiset(t.shadow)[c] + Popped(t.native)[c];
    }
  }

  /**
   * What a pre_call leaves in its context is what the post_call of the same call finds there, and the return address
   * saved is the one returned to, at any point of any run and whatever this thread and the others do in between.
   */
  lemma ContextSurvives(hooks: Hooks, before: seq<Act>, tid: Tid, after: seq<Act>)
    requires AllocatesAlong(hooks, Start(), before) && Run(hooks, Start(), before).Some?
    requires var t := ThreadOf(Run(hooks, Start(), before).value.0, tid); t.native != [] && Last(t.native).InPre?
    ensures var s := Run(hooks, Start(), before).value.0;
            var InPre(_, lr, c) := Last(ThreadOf(s, tid).native);
            var x := SystemStep(hooks, s, Act(tid, PreDone));
            c in s.store && x.Some? && KeptUntilPost(hooks, x.value.0, after, tid, c, CallFrame(lr, s.store[c].kv))
  {
    hide Corresponds, Distinct, Step, RefStep, Run, RefRun, Parked, KeptUntilPost;
    InitiallyRelated(hooks);
    RunMatches(hooks, Start(), map[], before);
    var s, rs := Run(hooks, Start(), before).value.0, RefRun(hooks, map[], before).value.0;
    assert Related(hooks, ThreadOf(s, tid), s.store, RefThreadOf(rs, tid));
    PreDoneParks(hooks, ThreadOf(s, tid), s.store, RefThreadOf(rs, tid));
    StepAllocates(hooks, s, Act(tid, PreDone));
    SystemStepMatches(hooks, s, rs, Act(tid, PreDone));
    ParkedKept(hooks, SystemStep(hooks, s, Act(tid, PreDone)).value.0,
               RefSystemStep(hooks, rs, Act(tid, PreDone)).value.0, after, tid, Last(ThreadOf(s, tid).native).call);
  }

  /** After any run, when every function has returned every call stack has been freed. */
  lemma NothingLeft(hooks: Hooks, acts: seq<Act>)
    requires AllocatesAlong(hooks, Start(), acts) && Run(hooks, Start(), acts).Some?
    ensures var s := Run(hooks, Start(), acts).value.0;
            (forall t :: ThreadOf(s, t).native == []) ==> s.store.Keys == {}
  {
    hide Run, RefRun, Distinct, Chain, Waiting;
    InitiallyRelated(hooks);
    RunMatches(hooks, Start(), map[], acts);
    var s, rs := Run(hooks, Start(), acts).value.0, RefRun(hooks, map[], acts).value.0;
    if forall t :: ThreadOf(s, t).native == [] {
      forall t: Tid ensures Holds(ThreadOf(s, t)) == multiset{} {
        assert Related(hooks, ThreadOf(s, t), s.store, RefThreadOf(rs, t));
      }
    }
  }
}
