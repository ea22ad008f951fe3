/** `SpecificMethodInjector`: calls a fixed, ordered list of methods, either
    on a component instance (instance mode) or once per static target for
    the lifetime of a shared registry (static mode). */
module Injectors {
  import opened Types
  import opened Statics
  import opened Runtime
  import opened Descriptor

  /** What a static pass reads and writes: the registry's marks and history
      (empty when no registry is installed) and the runtime's event log. */
  datatype State = State(marks: set<MethodRef>, history: seq<Attempt>, log: seq<Event>)

  /** `invokeMethod` as a step on the state. With a registry (`gated`), a
      marked target is skipped and yields null; an unmarked one is invoked,
      the attempt is recorded, and it is marked only if it returned. Without
      a registry the call is always delegated. */
  function GuardedInvoke(st: State, gated: bool, m: MethodRef, instance: Value,
                         replies: (MethodRef, nat) -> Reply): (State, Result<Value>)
  {
    if gated && m in st.marks then (st, Ok(Null))
    else
      var reply := replies(m, |st.log|);
      var log := st.log + [Invoked(m, instance, reply)];
      var history := if gated then st.history + [Attempt(m, reply.Returned?)] else st.history;
      var marks := if gated && reply.Returned? then st.marks + {m} else st.marks;
      (State(marks, history, log), if reply.Returned? then Ok(reply.value) else Err(InvocationFailed(m)))
  }

  /** The body of the guard's `run`: resolve each method's arguments and
      invoke it, in list order, stopping at the first exception. */
  function InjectAll(st: State, gated: bool, ms: seq<MethodRef>, c: Container, into: TypeRef,
                     resolves: (Container, MethodRef, TypeRef) -> bool,
                     replies: (MethodRef, nat) -> Reply): (State, Result<()>)
    decreases |ms|
  {
    if ms == [] then (st, Ok(()))
    else if !resolves(c, ms[0], into) then (st, Err(UnresolvedArguments(ms[0])))
    else
      var (st1, r) := GuardedInvoke(st, gated, ms[0], Null, replies);
      if r.Err? then (st1, Err(r.failure))
      else InjectAll(st1, gated, ms[1..], c, into, resolves, replies)
  }

  /** Independent reference for a successful gated pass: the methods of `ms`
      not yet marked, each taken once, in list order. */
  function Pending(ms: seq<MethodRef>, marks: set<MethodRef>): seq<MethodRef>
  {
    if ms == [] then []
    else if ms[0] in marks then Pending(ms[1..], marks)
    else [ms[0]] + Pending(ms[1..], marks + {ms[0]})
  }

  /** `a` can be obtained from `b` by deleting elements. */
  predicate IsSubsequence(a: seq<MethodRef>, b: seq<MethodRef>)
    decreases |b|
  {
    if b == [] then a == []
    else (a != [] && a[0] == b[0] && IsSubsequence(a[1..], b[1..])) || IsSubsequence(a, b[1..])
  }

  lemma {:induction false} EmptyIsSubsequence(b: seq<MethodRef>)
    ensures IsSubsequence([], b)
  {
    if b != [] {
      EmptyIsSubsequence(b[1..]);
    }
  }

  /** Check-then-invoke-then-mark keeps a registry coherent. */
  lemma GuardedInvokeKeepsCoherent(st: State, gated: bool, m: MethodRef, instance: Value,
                                   replies: (MethodRef, nat) -> Reply)
    requires Coherent(st.marks, st.history)
    ensures var st' := GuardedInvoke(st, gated, m, instance, replies).0;
            Coherent(st'.marks, st'.history)
  {
    if gated && m !in st.marks {
      CoherentExtend(st.marks, st.history, m, replies(m, |st.log|).Returned?);
    }
  }

  /** A whole static pass keeps a registry coherent, whatever fails. */
  lemma {:induction false} InjectAllKeepsCoherent(st: State, gated: bool, ms: seq<MethodRef>, c: Container, into: TypeRef,
                                                  resolves: (Container, MethodRef, TypeRef) -> bool,
                                                  replies: (MethodRef, nat) -> Reply)
    requires Coherent(st.marks, st.history)
    ensures var st' := InjectAll(st, gated, ms, c, into, resolves, replies).0;
            Coherent(st'.marks, st'.history)
    decreases |ms|
  {
    if ms != [] && resolves(c, ms[0], into) {
      GuardedInvokeKeepsCoherent(st, gated, ms[0], Null, replies);
      var (st1, r) := GuardedInvoke(st, gated, ms[0], Null, replies);
      if r.Ok? {
        InjectAllKeepsCoherent(st1, gated, ms[1..], c, into, resolves, replies);
      }
    }
  }

  /** A static pass only appends to the log and the history and only adds
      marks: targets invoked before a failure stay invoked. Without a
      registry, marks and history are untouched. */
  lemma {:induction false} InjectAllOnlyGrows(st: State, gated: bool, ms: seq<MethodRef>, c: Container, into: TypeRef,
                                              resolves: (Container, MethodRef, TypeRef) -> bool,
                                              replies: (MethodRef, nat) -> Reply)
    ensures var st' := InjectAll(st, gated, ms, c, into, resolves, replies).0;
            st.log <= st'.log && st.history <= st'.history && st.marks <= st'.marks &&
            (!gated ==> st'.marks == st.marks && st'.history == st.history)
    decreases |ms|
  {
    if ms != [] && resolves(c, ms[0], into) {
      var (st1, r) := GuardedInvoke(st, gated, ms[0], Null, replies);
      if r.Ok? {
        InjectAllOnlyGrows(st1, gated, ms[1..], c, into, resolves, replies);
      }
    }
  }

  /** One step of a pass: the log after the whole pass is the log after the
      first invocation followed by what the rest of the pass appends. */
  lemma LogSplit(log0: seq<Event>, log1: seq<Event>, log2: seq<Event>, e: Event)
    requires log1 == log0 + [e] && log1 <= log2
    ensures log2[|log0|..] == [e] + log2[|log1|..]
    ensures Invocations(log2[|log0|..]) == Invocations([e]) + Invocations(log2[|log1|..])
  {
    InvocationsAppend([e], log2[|log1|..]);
  }

  /** The methods a static pass invokes come from `ms` in list order. When
      the pass succeeds they are exactly the pending methods (with a
      registry) or all of `ms` (without one). */
  lemma {:induction false} InjectAllOrder(st: State, gated: bool, ms: seq<MethodRef>, c: Container, into: TypeRef,
                                          resolves: (Container, MethodRef, TypeRef) -> bool,
                                          replies: (MethodRef, nat) -> Reply)
    ensures var out := InjectAll(st, gated, ms, c, into, resolves, replies);
            |st.log| <= |out.0.log| &&
            IsSubsequence(Invocations(out.0.log[|st.log|..]), ms) &&
            (out.1.Ok? ==> Invocations(out.0.log[|st.log|..]) == if gated then Pending(ms, st.marks) else ms)
    decreases |ms|
  {
    InjectAllOnlyGrows(st, gated, ms, c, into, resolves, replies);
    var out := InjectAll(st, gated, ms, c, into, resolves, replies);
    if ms == [] || !resolves(c, ms[0], into) {
      assert out.0 == st;
      assert out.0.log[|st.log|..] == [];
      EmptyIsSubsequence(ms);
    } else {
      var step := GuardedInvoke(st, gated, ms[0], Null, replies);
      var st1 := step.0;
      if gated && ms[0] in st.marks {
        assert st1 == st;
        InjectAllOrder(st1, gated, ms[1..], c, into, resolves, replies);
      } else {
        var e := Invoked(ms[0], Null, replies(ms[0], |st.log|));
        assert st1.log == st.log + [e];
        assert Invocations([e]) == [ms[0]];
        if step.1.Err? {
          assert out.0 == st1;
          assert out.0.log[|st.log|..] == [e];
          EmptyIsSubsequence(ms[1..]);
        } else {
          assert out == InjectAll(st1, gated, ms[1..], c, into, resolves, replies);
          InjectAllOrder(st1, gated, ms[1..], c, into, resolves, replies);
          InjectAllOnlyGrows(st1, gated, ms[1..], c, into, resolves, replies);
          LogSplit(st.log, st1.log, out.0.log, e);
        }
      }
    }
  }

  /** A successful pass with a registry leaves every method of `ms` marked,
      and marks nothing else. */
  lemma {:induction false} InjectAllMarks(st: State, ms: seq<MethodRef>, c: Container, into: TypeRef,
                                          resolves: (Container, MethodRef, TypeRef) -> bool,
                                          replies: (MethodRef, nat) -> Reply)
    ensures var out := InjectAll(st, true, ms, c, into, resolves, replies);
            out.0.marks <= st.marks + set m | m in ms
    ensures var out := InjectAll(st, true, ms, c, into, resolves, replies);
            out.1.Ok? ==> forall k :: 0 <= k < |ms| ==> ms[k] in out.0.marks
    decreases |ms|
  {
    if ms != [] && resolves(c, ms[0], into) {
      var step := GuardedInvoke(st, true, ms[0], Null, replies);
      if step.1.Ok? {
        InjectAllMarks(step.0, ms[1..], c, into, resolves, replies);
        InjectAllOnlyGrows(step.0, true, ms[1..], c, into, resolves, replies);
        assert step.0.marks <= st.marks + {ms[0]};
        assert forall m :: m in ms[1..] ==> m in ms;
        assert ms[0] in step.0.marks;
      }
    }
  }

  /** With every resolution and every invocation succeeding, a static pass succeeds. */
  lemma {:induction false} InjectAllSucceeds(st: State, gated: bool, ms: seq<MethodRef>, c: Container, into: TypeRef,
                                             resolves: (Container, MethodRef, TypeRef) -> bool,
                                             replies: (MethodRef, nat) -> Reply)
    requires forall k :: 0 <= k < |ms| ==> resolves(c, ms[k], into)
    requires forall m, n :: replies(m, n).Returned?
    ensures InjectAll(st, gated, ms, c, into, resolves, replies).1 == Ok(())
    decreases |ms|
  {
    if ms != [] {
      var (st1, r1) := GuardedInvoke(st, gated, ms[0], Null, replies);
      assert resolves(c, ms[0], into);
      InjectAllSucceeds(st1, gated, ms[1..], c, into, resolves, replies);
    }
  }

  /** A pass over methods that are all marked invokes nothing and changes
      nothing: a registry makes later passes no-ops. */
  lemma {:induction false} InjectAllWhenAllMarked(st: State, ms: seq<MethodRef>, c: Container, into: TypeRef,
                                                  resolves: (Container, MethodRef, TypeRef) -> bool,
                                                  replies: (MethodRef, nat) -> Reply)
    requires forall k :: 0 <= k < |ms| ==> ms[k] in st.marks
    ensures InjectAll(st, true, ms, c, into, resolves, replies).0 == st
    decreases |ms|
  {
    if ms != [] && resolves(c, ms[0], into) {
      assert ms[0] in st.marks;
      InjectAllWhenAllMarked(st, ms[1..], c, into, resolves, replies);
    }
  }

  /** Two static passes sharing a registry: whatever the first pass did, a
      repeat after it succeeded invokes nothing further. */
  lemma RepeatedPassInvokesNothing(st: State, ms: seq<MethodRef>, c: Container, into: TypeRef,
                                   resolves: (Container, MethodRef, TypeRef) -> bool,
                                   replies: (MethodRef, nat) -> Reply,
                                   c2: Container, into2: TypeRef)
    requires InjectAll(st, true, ms, c, into, resolves, replies).1.Ok?
    ensures var st1 := InjectAll(st, true, ms, c, into, resolves, replies).0;
            InjectAll(st1, true, ms, c2, into2, resolves, replies).0 == st1
  {
    InjectAllMarks(st, ms, c, into, resolves, replies);
    var st1 := InjectAll(st, true, ms, c, into, resolves, replies).0;
    InjectAllWhenAllMarked(st1, ms, c2, into2, resolves, replies);
  }

  /** The attempts an event log records: for each invocation, its target and
      whether it returned normally, in log order. */
  function Outcomes(es: seq<Event>): seq<Attempt>
  {
    if es == [] then []
    else (if es[0].Invoked? then [Attempt(es[0].target, es[0].reply.Returned?)] else []) + Outcomes(es[1..])
  }

  lemma {:induction false} OutcomesAppend(a: seq<Event>, b: seq<Event>)
    ensures Outcomes(a + b) == Outcomes(a) + Outcomes(b)
  {
    if a == [] {
      assert a + b == b;
    } else {
      var ab := a + b;
      assert ab[0] == a[0] && ab[1..] == a[1..] + b;
      OutcomesAppend(a[1..], b);
      assert Outcomes(ab) == (if a[0].Invoked? then [Attempt(a[0].target, a[0].reply.Returned?)] else []) + Outcomes(a[1..] + b);
    }
  }

  /** With a registry, what a pass adds to the registry's history is exactly
      what it adds to the log: the same targets in the same order, each
      attempt successful exactly when the logged invocation returned. */
  lemma {:induction false} InjectAllHistoryMatchesLog(st: State, ms: seq<MethodRef>, c: Container, into: TypeRef,
                                                      resolves: (Container, MethodRef, TypeRef) -> bool,
                                                      replies: (MethodRef, nat) -> Reply)
    ensures var st' := InjectAll(st, true, ms, c, into, resolves, replies).0;
            |st.history| <= |st'.history| && |st.log| <= |st'.log| &&
            st'.history[|st.history|..] == Outcomes(st'.log[|st.log|..]) &&
            Targets(st'.history[|st.history|..]) == Invocations(st'.log[|st.log|..])
    decreases |ms|
  {
    InjectAllOnlyGrows(st, true, ms, c, into, resolves, replies);
    var out := InjectAll(st, true, ms, c, into, resolves, replies);
    if ms == [] || !resolves(c, ms[0], into) {
      assert out.0.log[|st.log|..] == [] && out.0.history[|st.history|..] == [];
    } else {
      var step := GuardedInvoke(st, true, ms[0], Null, replies);
      var st1 := step.0;
      if ms[0] in st.marks {
        assert st1 == st;
        InjectAllHistoryMatchesLog(st1, ms[1..], c, into, resolves, replies);
      } else {
        var reply := replies(ms[0], |st.log|);
        var e := Invoked(ms[0], Null, reply);
        var a := Attempt(ms[0], reply.Returned?);
        assert st1.log == st.log + [e] && st1.history == st.history + [a];
        assert Invocations([e]) == [ms[0]] && Targets([a]) == [ms[0]] && Outcomes([e]) == [a];
        if step.1.Err? {
          assert out.0 == st1;
          assert out.0.log[|st.log|..] == [e] && out.0.history[|st.history|..] == [a];
        } else {
          assert out == InjectAll(st1, true, ms[1..], c, into, resolves, replies);
          InjectAllHistoryMatchesLog(st1, ms[1..], c, into, resolves, replies);
          InjectAllOnlyGrows(st1, true, ms[1..], c, into, resolves, replies);
          LogSplit(st.log, st1.log, out.0.log, e);
          OutcomesAppend([e], out.0.log[|st1.log|..]);
          assert out.0.history[|st.history|..] == [a] + out.0.history[|st1.history|..];
          TargetsAppend([a], out.0.history[|st1.history|..]);
        }
      }
    }
  }

  /** One `injectStatics` call as seen by a shared registry: the methods of
      some injector, the container and the target type of the call. */
  datatype Pass = Pass(methods: seq<MethodRef>, container: Container, into: TypeRef)

  /** A sequence of static passes over one registry, each starting from the
      state the previous one left, whether it succeeded or failed. */
  function InjectMany(st: State, passes: seq<Pass>,
                      resolves: (Container, MethodRef, TypeRef) -> bool,
                      replies: (MethodRef, nat) -> Reply): State
    decreases |passes|
  {
    if passes == [] then st
    else
      var p := passes[0];
      InjectMany(InjectAll(st, true, p.methods, p.container, p.into, resolves, replies).0, passes[1..], resolves, replies)
  }

  /** At most once for any sequence of calls sharing one registry: from a
      coherent registry, after any sequence of static passes the registry is
      still coherent, every method has run to completion at most once in its
      history (exactly once if marked), what the passes added to the history
      is exactly what they added to the log, and so in the log they added
      each method returned at most once: once if the passes marked it, never
      otherwise. */
  lemma {:induction false} SharedRegistryAtMostOnce(st: State, passes: seq<Pass>,
                                                    resolves: (Container, MethodRef, TypeRef) -> bool,
                                                    replies: (MethodRef, nat) -> Reply)
    requires Coherent(st.marks, st.history)
    ensures var st' := InjectMany(st, passes, resolves, replies);
            Coherent(st'.marks, st'.history) &&
            (forall m :: SuccessCount(st'.history, m) == if m in st'.marks then 1 else 0) &&
            st.history <= st'.history && st.log <= st'.log &&
            st'.history[|st.history|..] == Outcomes(st'.log[|st.log|..]) &&
            Targets(st'.history[|st.history|..]) == Invocations(st'.log[|st.log|..]) &&
            st.marks <= st'.marks &&
            (forall m :: SuccessCount(Outcomes(st'.log[|st.log|..]), m) == if m in st'.marks - st.marks then 1 else 0)
    decreases |passes|
  {
    var st' := InjectMany(st, passes, resolves, replies);
    if passes == [] {
      assert st'.history[|st.history|..] == [] && st'.log[|st.log|..] == [];
    } else {
      var p := passes[0];
      var st1 := InjectAll(st, true, p.methods, p.container, p.into, resolves, replies).0;
      InjectAllKeepsCoherent(st, true, p.methods, p.container, p.into, resolves, replies);
      InjectAllHistoryMatchesLog(st, p.methods, p.container, p.into, resolves, replies);
      InjectAllOnlyGrows(st, true, p.methods, p.container, p.into, resolves, replies);
      SharedRegistryAtMostOnce(st1, passes[1..], resolves, replies);
      assert st' == InjectMany(st1, passes[1..], resolves, replies);
      var h1, h2 := st1.history[|st.history|..], st'.history[|st1.history|..];
      var l1, l2 := st1.log[|st.log|..], st'.log[|st1.log|..];
      assert st'.history[|st.history|..] == h1 + h2;
      assert st'.log[|st.log|..] == l1 + l2;
      TargetsAppend(h1, h2);
      InvocationsAppend(l1, l2);
      OutcomesAppend(l1, l2);
    }
    AddedCounts(st, st');
  }

  /** Between two coherent registry states, the second extending the first,
      each method ran to completion once in the added history if it was
      newly marked, and never otherwise. */
  lemma AddedCounts(st: State, st': State)
    requires Coherent(st.marks, st.history) && Coherent(st'.marks, st'.history)
    requires st.history <= st'.history && st.log <= st'.log && st.marks <= st'.marks
    requires st'.history[|st.history|..] == Outcomes(st'.log[|st.log|..])
    ensures forall m :: SuccessCount(st'.history, m) == if m in st'.marks then 1 else 0
    ensures forall m :: SuccessCount(Outcomes(st'.log[|st.log|..]), m) == if m in st'.marks - st.marks then 1 else 0
  {
    var added := st'.history[|st.history|..];
    assert st'.history == st.history + added;
    forall m ensures SuccessCount(st'.history, m) == if m in st'.marks then 1 else 0
      ensures SuccessCount(added, m) == if m in st'.marks - st.marks then 1 else 0
    {
      ExactlyOnceIfMarked(st'.marks, st'.history, m);
      ExactlyOnceIfMarked(st.marks, st.history, m);
      SuccessCountAppend(st.history, added, m);
    }
  }

  /** The state a static pass sees: the registry's marks and history, if one is installed, and the log. */
  ghost function Snapshot(refs: StaticsInitializedReferenceSet?, rt: Runtime): State
    reads refs, rt
  {
    if refs == null then State({}, [], rt.log) else State(refs.initialized, refs.history, rt.log)
  }

  /** The guard created by `injectStatics` (an anonymous subclass of
      `ThreadLocalCyclicDependencyGuard`): it captures the target type of the
      call that created it, and holds the container last installed. */
  class CyclicDependencyGuard {
    const into: TypeRef
    var guardedContainer: Option<Container>

    constructor (into: TypeRef)
      ensures this.into == into && guardedContainer == None
    {
      this.into := into;
      guardedContainer := None;
    }

    method SetGuardedContainer(c: Container)
      modifies this`guardedContainer
      ensures guardedContainer == Some(c)
    {
      guardedContainer := Some(c);
    }
  }

  class SpecificMethodInjector {
    const componentKey: Value
    const componentImplementation: TypeRef
    const useNames: bool
    const useAllParameters: bool
    const injectionMethods: seq<MethodRef>
    const isStaticInjection: bool
    /** reflection, argument resolution and the superclass's construction */
    const rt: Runtime
    var instantiationGuard: CyclicDependencyGuard?
    var initializedReferenceSet: StaticsInitializedReferenceSet?

    /** The deployment constructor. The mode is computed by the superclass
        from the methods; here it is an input. */
    constructor (key: Value, impl: TypeRef, useNames: bool, useAllParameters: bool,
                 isStatic: bool, methods: seq<MethodRef>, rt: Runtime)
      ensures componentKey == key && componentImplementation == impl
      ensures this.useNames == useNames && this.useAllParameters == useAllParameters
      ensures injectionMethods == methods && isStaticInjection == isStatic && this.rt == rt
      ensures instantiationGuard == null && initializedReferenceSet == null
    {
      componentKey := key;
      componentImplementation := impl;
      this.useNames := useNames;
      this.useAllParameters := useAllParameters;
      injectionMethods := methods;
      isStaticInjection := isStatic;
      this.rt := rt;
      instantiationGuard := null;
      initializedReferenceSet := null;
    }

    /** The simple constructor: name and all-parameter matching switched on. */
    constructor Simple(key: Value, impl: TypeRef, isStatic: bool, methods: seq<MethodRef>, rt: Runtime)
      ensures componentKey == key && componentImplementation == impl
      ensures useNames && useAllParameters
      ensures injectionMethods == methods && isStaticInjection == isStatic && this.rt == rt
      ensures instantiationGuard == null && initializedReferenceSet == null
    {
      componentKey := key;
      componentImplementation := impl;
      useNames := true;
      useAllParameters := true;
      injectionMethods := methods;
      isStaticInjection := isStatic;
      this.rt := rt;
      instantiationGuard := null;
      initializedReferenceSet := null;
    }

    method GetInjectorMethods() returns (ms: seq<MethodRef>)
      ensures ms == injectionMethods
    {
      ms := injectionMethods;
    }

    /** Builds `,Class.name` for each method, drops the first character and
        wraps the result; with no methods the drop fails. */
    method GetDescriptor() returns (r: Result<string>)
      ensures r == Describe(isStaticInjection, injectionMethods)
    {
      var mthds := "";
      for i := 0 to |injectionMethods|
        invariant mthds == Commas(injectionMethods[..i])
      {
        var m := injectionMethods[i];
        assert injectionMethods[..i + 1][..i] == injectionMethods[..i];
        mthds := mthds + "," + m.declaringClass + "." + m.name;
      }
      assert injectionMethods[..|injectionMethods|] == injectionMethods;
      if |mthds| < 1 {
        return Err(IndexOutOfBounds);
      }
      CommasIsCommaJoin(injectionMethods);
      r := Ok(Prefix + (if isStaticInjection then StaticMarker else "") + "[" + mthds[1..] + "]-");
    }

    /** `invokeMethod`: with a registry installed, the locked block checks the
        mark, invokes, then marks, as one atomic step. */
    method InvokeMethod(m: MethodRef, instance: Value) returns (r: Result<Value>)
      modifies rt, initializedReferenceSet
      ensures (Snapshot(initializedReferenceSet, rt), r) ==
              GuardedInvoke(old(Snapshot(initializedReferenceSet, rt)), initializedReferenceSet != null, m, instance, rt.replies)
      ensures initializedReferenceSet != null && old(initializedReferenceSet.Valid()) ==> initializedReferenceSet.Valid()
      ensures initializedReferenceSet != null && m in old(initializedReferenceSet.initialized) ==>
                r == Ok(Null) && rt.log == old(rt.log) && unchanged(initializedReferenceSet)
      ensures initializedReferenceSet == null || m !in old(initializedReferenceSet.initialized) ==>
                var reply := rt.replies(m, |old(rt.log)|);
                rt.log == old(rt.log) + [Invoked(m, instance, reply)] &&
                r == (if reply.Returned? then Ok(reply.value) else Err(InvocationFailed(m))) &&
                (initializedReferenceSet != null ==>
                   initializedReferenceSet.initialized ==
                   old(initializedReferenceSet.initialized) + (if reply.Returned? then {m} else {}))
    {
      var refs := initializedReferenceSet;
      ghost var before := Snapshot(refs, rt);
      if refs != null {
        var done := refs.IsMemberAlreadyInitialized(m);
        if !done {
          var reply := rt.Invoke(m, instance);
          refs.RecordAttempt(m, reply.Returned?);
          if reply.Threw? {
            r := Err(InvocationFailed(m));
          } else {
            refs.MarkMemberInitialized(m);
            r := Ok(reply.value);
          }
        } else {
          r := Ok(Null);
        }
      } else {
        var reply := rt.Invoke(m, instance);
        r := if reply.Threw? then Err(InvocationFailed(m)) else Ok(reply.value);
      }
      if Coherent(before.marks, before.history) {
        GuardedInvokeKeepsCoherent(before, refs != null, m, instance, rt.replies);
      }
    }

    /** The guard's `run`: for each method in order, resolve its arguments
        against the guarded container and invoke it. */
    method Run(guard: CyclicDependencyGuard) returns (r: Result<()>)
      requires guard.guardedContainer.Some?
      modifies rt, initializedReferenceSet
      ensures (Snapshot(initializedReferenceSet, rt), r) ==
              InjectAll(old(Snapshot(initializedReferenceSet, rt)), initializedReferenceSet != null, injectionMethods,
                        guard.guardedContainer.value, guard.into, rt.resolves, rt.replies)
    {
      var methods := GetInjectorMethods();
      var c := guard.guardedContainer.value;
      ghost var gated := initializedReferenceSet != null;
      for i := 0 to |methods|
        invariant InjectAll(Snapshot(initializedReferenceSet, rt), gated, methods[i..], c, guard.into, rt.resolves, rt.replies) ==
                  InjectAll(old(Snapshot(initializedReferenceSet, rt)), gated, methods, c, guard.into, rt.resolves, rt.replies)
      {
        assert methods[i..][1..] == methods[i + 1..];
        var ok := rt.ResolveArguments(c, methods[i], guard.into);
        if !ok {
          return Err(UnresolvedArguments(methods[i]));
        }
        var res := InvokeMethod(methods[i], Null);
        if res.Err? {
          return Err(res.failure);
        }
      }
      r := Ok(());
    }

    /** `injectStatics`: install the registry, reject instance mode, create a
        guard only if none exists, run the methods, and clear the guard on
        every exit path only if this call created it. */
    method InjectStatics(container: Container, into: TypeRef, refs: StaticsInitializedReferenceSet?) returns (r: Result<()>)
      modifies this, rt, refs, instantiationGuard
      ensures initializedReferenceSet == refs
      ensures !isStaticInjection ==>
                r == Err(NonStaticMethods(injectionMethods)) &&
                Snapshot(refs, rt) == old(Snapshot(refs, rt)) &&
                instantiationGuard == old(instantiationGuard) &&
                (instantiationGuard != null ==> unchanged(instantiationGuard))
      ensures isStaticInjection ==>
                (Snapshot(refs, rt), r) ==
                InjectAll(old(Snapshot(refs, rt)), refs != null, injectionMethods, container,
                          if old(instantiationGuard) == null then into else old(instantiationGuard).into,
                          rt.resolves, rt.replies)
      ensures isStaticInjection && old(instantiationGuard) == null ==> instantiationGuard == null
      ensures isStaticInjection && old(instantiationGuard) != null ==>
                instantiationGuard == old(instantiationGuard) && instantiationGuard.guardedContainer == Some(container)
      ensures refs != null && old(refs.Valid()) ==> refs.Valid()
    {
      ghost var before := Snapshot(refs, rt);
      initializedReferenceSet := refs;
      if !isStaticInjection {
        return Err(NonStaticMethods(injectionMethods));
      }
      var created := false;
      if instantiationGuard == null {
        created := true;
        instantiationGuard := new CyclicDependencyGuard(into);
      }
      var guard := instantiationGuard;
      guard.SetGuardedContainer(container);
      r := Run(guard);
      if created {
        instantiationGuard := null;
      }
      if refs != null && Coherent(before.marks, before.history) {
        InjectAllKeepsCoherent(before, true, injectionMethods, container, guard.into, rt.resolves, rt.replies);
      }
    }

    /** `getComponentInstance`: rejected in static mode before anything is
        built; otherwise the superclass builds the instance. */
    method GetComponentInstance(container: Container, into: TypeRef) returns (r: Result<Value>)
      modifies rt
      ensures isStaticInjection ==> r == Err(StaticMethods(injectionMethods)) && rt.log == old(rt.log)
      ensures !isStaticInjection ==>
                var built := rt.builds(container, into, |old(rt.log)|);
                rt.log == old(rt.log) + [Constructed(container, into)] &&
                r == if built.Returned? then Ok(built.value) else Err(ConstructionFailed)
    {
      if isStaticInjection {
        return Err(StaticMethods(injectionMethods));
      }
      var built := rt.Construct(container, into);
      r := if built.Returned? then Ok(built.value) else Err(ConstructionFailed);
    }
  }
}
