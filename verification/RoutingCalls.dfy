/**
 * What the routing machine does in the terms of its callers: a whole call from event to event, and what a handler reads
 * back from the context of its call (interceptor_routing.c, thread_stack.c).
 */
module RoutingCalls {
  import opened A64Encoding
  import opened ThreadStack
  import opened Routing
  import opened RoutingSystem
  import opened Wrappers

  // ----- whole calls -----

  // Thread tid goes from s to s' by the event, with the output.
  ghost predicate Goes(hooks: Hooks, s: System, tid: Tid, e: Event, o: Output, s': System) {
    SystemStep(hooks, s, Act(tid, e)) == Some((s', o))
  }

  predicate Installed(hooks: Hooks, h: Hook) {
    h.leave in hooks && hooks[h.leave] == h
  }

  // The thread is where it was, and nothing is left allocated.
  predicate Back(s: System, s': System, tid: Tid) {
    ThreadOf(s', tid) == ThreadOf(s, tid) && s'.store == s.store && s'.threads == s.threads[tid := ThreadOf(s', tid)]
  }

  // s with the thread at x and the store n.
  function With(s: System, tid: Tid, x: Thread, n: Store): System {
    System(s.threads[tid := x], n)
  }

  lemma GoesWith(hooks: Hooks, s: System, tid: Tid, x: Thread, n: Store, e: Event, o: Output, x': Thread, n': Store)
    requires Step(hooks, x, n, e) == Next(x', n', o)
    ensures Goes(hooks, With(s, tid, x, n), tid, e, o, With(s, tid, x', n'))
    ensures x == ThreadOf(s, tid) && n == s.store ==> Goes(hooks, s, tid, e, o, With(s, tid, x', n'))
  {
    hide Step;
    assert s.threads[tid := x][tid := x'] == s.threads[tid := x'];
  }

  /** A plain call returns to where it was made. */
  lemma PlainCall(hooks: Hooks, s: System, tid: Tid, ret: U64) returns (s1: System, s2: System)
    requires ret !in hooks
    ensures Goes(hooks, s, tid, Call(ret), Silent, s1) && Goes(hooks, s1, tid, Return, Arrives(ret), s2)
    ensures Back(s, s2, tid)
  {
    var t, m := ThreadOf(s, tid), s.store;
    var t1 := Thread(t.native + [Ret(ret)], t.shadow);
    assert Front(t1.native) == t.native;
    s1, s2 := With(s, tid, t1, m), With(s, tid, t, m);
    GoesWith(hooks, s, tid, t, m, Call(ret), Silent, t1, m);
    GoesWith(hooks, s, tid, t1, m, Return, Arrives(ret), t, m);
  }

  // The stages of a wrapped call above the thread t.
  function InPreCall(t: Thread, h: Hook, lr: U64, c: CallStack): Thread {
    Thread(t.native + [InPre(h, lr, c)], t.shadow + [c])
  }

  function InFunction(t: Thread, h: Hook, c: CallStack): Thread {
    Thread(t.native + [Ret(h.leave)], t.shadow + [c])
  }

  function InPostCall(t: Thread, h: Hook, c: CallStack): Thread {
    Thread(t.native + [InPost(h, c)], t.shadow)
  }

  lemma PreCallSteps(hooks: Hooks, t: Thread, m: Store, h: Hook, lr: U64, c: CallStack, key: Key, value: U64)
    requires c in m
    ensures var x := InPreCall(t, h, lr, c);
            && Step(hooks, x, m, KvSet(key, value))
               == Next(x, m[c := CallFrame(m[c].ret, m[c].kv[key := value])], Silent)
            && Step(hooks, x, m, PreDone) == Next(InFunction(t, h, c), m[c := CallFrame(lr, m[c].kv)], Enters(h.next))
  {
    assert Front(t.native + [InPre(h, lr, c)]) == t.native;
  }

  lemma FunctionReturns(hooks: Hooks, t: Thread, m: Store, h: Hook, c: CallStack)
    requires Installed(hooks, h)
    ensures Step(hooks, InFunction(t, h, c), m, Return) == Next(InPostCall(t, h, c), m, Post(h.id))
  {
    assert Front(t.native + [Ret(h.leave)]) == t.native && Front(t.shadow + [c]) == t.shadow;
  }

  lemma PostCallSteps(hooks: Hooks, t: Thread, m: Store, h: Hook, c: CallStack, key: Key)
    requires c in m
    ensures var x := InPostCall(t, h, c);
            && (key in m[c].kv ==> Step(hooks, x, m, KvGet(key)) == Next(x, m, Got(m[c].kv[key])))
            && (m[c].ret !in hooks ==> Step(hooks, x, m, PostDone) == Next(t, m - {c}, Arrives(m[c].ret)))
  {
    assert Front(t.native + [InPost(h, c)]) == t.native;
  }

  /**
   * A whole wrapped call: pre_call, in which a value is put into the context, the function, and post_call, in which the
   * value is read back. Control then arrives where the call was made, and everything is as it was before.
   */
  lemma WholeCall(hooks: Hooks, s: System, tid: Tid, h: Hook, ret: U64, c: CallStack, key: Key, value: U64)
      returns (s1: System, s2: System, s3: System, s4: System, s5: System)
    requires ret !in hooks && Installed(hooks, h) && c !in s.store
    ensures Goes(hooks, s, tid, CallHooked(h, ret, c), Silent, s1)
    ensures Goes(hooks, s1, tid, KvSet(key, value), Silent, s2)
    ensures Goes(hooks, s2, tid, PreDone, Enters(h.next), s3)
    ensures Goes(hooks, s3, tid, Return, Post(h.id), s4)
    ensures Goes(hooks, s4, tid, KvGet(key), Got(value), s4)
    ensures Goes(hooks, s4, tid, PostDone, Arrives(ret), s5)
    ensures Back(s, s5, tid)
  {
    var t, m := ThreadOf(s, tid), s.store;
    var pre, fun, post := InPreCall(t, h, ret, c), InFunction(t, h, c), InPostCall(t, h, c);
    var m1, m2 := m[c := CallFrame(0, map[])], m[c := CallFrame(0, map[key := value])];
    var m3 := m[c := CallFrame(ret, map[key := value])];
    assert m1[c := CallFrame(0, map[key := value])] == m2 && m2[c := CallFrame(ret, map[key := value])] == m3;
    assert m3 - {c} == m;
    PreCallSteps(hooks, t, m1, h, ret, c, key, value);
    PreCallSteps(hooks, t, m2, h, ret, c, key, value);
    FunctionReturns(hooks, t, m3, h, c);
    PostCallSteps(hooks, t, m3, h, c, key);
    s1, s2, s3 := With(s, tid, pre, m1), With(s, tid, pre, m2), With(s, tid, fun, m3);
    s4, s5 := With(s, tid, post, m3), With(s, tid, t, m);
    GoesWith(hooks, s, tid, t, m, CallHooked(h, ret, c), Silent, pre, m1);
    GoesWith(hooks, s, tid, pre, m1, KvSet(key, value), Silent, pre, m2);
    GoesWith(hooks, s, tid, pre, m2, PreDone, Enters(h.next), fun, m3);
    GoesWith(hooks, s, tid, fun, m3, Return, Post(h.id), post, m3);
    GoesWith(hooks, s, tid, post, m3, KvGet(key), Got(value), post, m3);
    GoesWith(hooks, s, tid, post, m3, PostDone, Arrives(ret), t, m);
  }

  /**
   * A wrapped function reached by a jump from a function that was to return to `a`: its post_call runs first, and then
   * happens what that return would have done, whether `a` is a caller's address or a leave trampoline.
   */
  lemma TailCall(hooks: Hooks, s: System, tid: Tid, h: Hook, c: CallStack) returns (s1: System, s2: System, s3: System)
    requires var native := ThreadOf(s, tid).native; native != [] && Last(native).Ret?
    requires Installed(hooks, h) && c !in s.store
    ensures Goes(hooks, s, tid, TailCallHooked(h, c), Silent, s1)
    ensures Goes(hooks, s1, tid, PreDone, Enters(h.next), s2)
    ensures Goes(hooks, s2, tid, Return, Post(h.id), s3)
    ensures SystemStep(hooks, s3, Act(tid, PostDone)) == SystemStep(hooks, s, Act(tid, Return))
  {
    var t, m, a := ThreadOf(s, tid), s.store, Last(ThreadOf(s, tid).native).addr;
    var t0 := Thread(Front(t.native), t.shadow);
    var pre, fun, post := InPreCall(t0, h, a, c), InFunction(t0, h, c), InPostCall(t0, h, c);
    var m1, m2 := m[c := CallFrame(0, map[])], m[c := CallFrame(a, map[])];
    assert m1[c := CallFrame(a, map[])] == m2 && m2 - {c} == m && Front(post.native) == t0.native;
    PreCallSteps(hooks, t0, m1, h, a, c, [], 0);
    FunctionReturns(hooks, t0, m2, h, c);
    s1, s2, s3 := With(s, tid, pre, m1), With(s, tid, fun, m2), With(s, tid, post, m2);
    GoesWith(hooks, s, tid, t, m, TailCallHooked(h, c), Silent, pre, m1);
    GoesWith(hooks, s, tid, pre, m1, PreDone, Enters(h.next), fun, m2);
    GoesWith(hooks, s, tid, fun, m2, Return, Post(h.id), post, m2);
    assert Step(hooks, post, m2, PostDone) == Step(hooks, t, m, Return);
    var x := Step(hooks, t, m, Return);
    assert x.Next? ==> s.threads[tid := post][tid := x.thread] == s.threads[tid := x.thread];
  }

  // ----- reading from a context -----

  // The step works on the context of call stack c: a handler of that call is on top of the thread.
  ghost predicate Handles(s: System, tid: Tid, c: CallStack) {
    var native := ThreadOf(s, tid).native;
    native != [] && !Last(native).Ret? && Last(native).call == c
  }

  // The run neither ends the call of c nor sets the key in its context.
  ghost predicate LeavesKey(hooks: Hooks, s: System, acts: seq<Act>, c: CallStack, key: Key)
    decreases |acts|
  {
    acts == [] ||
    (&& (Handles(s, acts[0].tid, c) ==>
           !acts[0].event.PostDone? && !(acts[0].event.KvSet? && acts[0].event.key == key))
     && match SystemStep(hooks, s, acts[0])
        case None => true
        case Some((s', _)) => LeavesKey(hooks, s', acts[1..], c, key))
  }

  // The call of c is in progress, and its context has the value for the key, or none.
  predicate Keeps(store: Store, c: CallStack, key: Key, value: Option<U64>) {
    && c in store
    && match value
       case None => key !in store[c].kv
       case Some(v) => key in store[c].kv && store[c].kv[key] == v
  }

  lemma KeyStays(hooks: Hooks, s: System, a: Act, c: CallStack, key: Key, value: Option<U64>)
    requires Keeps(s.store, c, key, value) && SystemStep(hooks, s, a).Some?
    requires Handles(s, a.tid, c) ==> !a.event.PostDone? && !(a.event.KvSet? && a.event.key == key)
    ensures Keeps(SystemStep(hooks, s, a).value.0.store, c, key, value)
  {
  }

  lemma {:induction false} KeyStaysAlong(hooks: Hooks, s: System, acts: seq<Act>, c: CallStack, key: Key,
                                         value: Option<U64>)
    requires Keeps(s.store, c, key, value) && LeavesKey(hooks, s, acts, c, key) && Run(hooks, s, acts).Some?
    ensures Keeps(Run(hooks, s, acts).value.0.store, c, key, value)
    decreases |acts|
  {
    hide SystemStep, Handles, Keeps;
    if acts != [] {
      KeyStays(hooks, s, acts[0], c, key, value);
      KeyStaysAlong(hooks, SystemStep(hooks, s, acts[0]).value.0, acts[1..], c, key, value);
    }
  }

  // A read by a handler of the call of c.
  lemma Reads(hooks: Hooks, s: System, tid: Tid, c: CallStack, key: Key, value: Option<U64>)
    requires Keeps(s.store, c, key, value) && Handles(s, tid, c)
    ensures Goes(hooks, s, tid, KvGet(key), Got(if value.Some? then value.value else 0),
                 With(s, tid, ThreadOf(s, tid), s.store))
  {
  }

  /**
   * What a handler puts into the context of its call is what a later handler of the same call, the post_call above all,
   * reads there, whatever this thread and the others do in between but set it again.
   */
  lemma SetThenGet(hooks: Hooks, s: System, tid: Tid, key: Key, value: U64, s1: System, between: seq<Act>)
    requires Goes(hooks, s, tid, KvSet(key, value), Silent, s1) && Run(hooks, s1, between).Some?
    requires var c, s2 := Last(ThreadOf(s, tid).native).call, Run(hooks, s1, between).value.0;
             LeavesKey(hooks, s1, between, c, key) && Handles(s2, tid, c)
    ensures var s2 := Run(hooks, s1, between).value.0;
            Goes(hooks, s2, tid, KvGet(key), Got(value), With(s2, tid, ThreadOf(s2, tid), s2.store))
  {
    var c := Last(ThreadOf(s, tid).native).call;
    KeyStaysAlong(hooks, s1, between, c, key, Some(value));
    Reads(hooks, Run(hooks, s1, between).value.0, tid, c, key, Some(value));
  }

  /** What no handler of a call has put there reads as 0. */
  lemma NeverSet(hooks: Hooks, s: System, tid: Tid, e: Event, s1: System, between: seq<Act>, key: Key)
    requires (e.CallHooked? || e.TailCallHooked?) && Goes(hooks, s, tid, e, Silent, s1)
    requires LeavesKey(hooks, s1, between, e.call, key) && Run(hooks, s1, between).Some?
    requires Handles(Run(hooks, s1, between).value.0, tid, e.call)
    ensures var s2 := Run(hooks, s1, between).value.0;
            Goes(hooks, s2, tid, KvGet(key), Got(0), With(s2, tid, ThreadOf(s2, tid), s2.store))
  {
    KeyStaysAlong(hooks, s1, between, e.call, key, None);
    Reads(hooks, Run(hooks, s1, between).value.0, tid, e.call, key, None);
  }
}
