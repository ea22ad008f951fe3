/** The scenario of two static targets on one owning class, `A.init` and
    `A.setup`, and three static passes over one initially empty registry in
    which every resolution and invocation succeeds. */
module Scenario {
  import opened Types
  import opened Statics
  import opened Runtime
  import opened Injectors
  import opened Descriptor

  const AInit: MethodRef := MethodRef("A", "init", [], "void")
  const ASetup: MethodRef := MethodRef("A", "setup", [], "void")

  /** Two static overloads, `A.init(B)` and `A.init(C)`. */
  const AInitB: MethodRef := MethodRef("A", "init", ["B"], "void")
  const AInitC: MethodRef := MethodRef("A", "init", ["C"], "void")

  /** Overloads are separate registry entries: one pass over an empty
      registry invokes and marks both, although the descriptor names them
      alike. */
  lemma OverloadsAreSeparateEntries(c: Container, into: TypeRef,
                                    resolves: (Container, MethodRef, TypeRef) -> bool,
                                    replies: (MethodRef, nat) -> Reply)
    requires forall c', m, t :: resolves(c', m, t)
    requires forall m, n :: replies(m, n).Returned?
    ensures var out := InjectAll(State({}, [], []), true, [AInitB, AInitC], c, into, resolves, replies);
            out.1 == Ok(()) &&
            Invocations(out.0.log) == [AInitB, AInitC] &&
            out.0.marks == {AInitB, AInitC} &&
            QualifiedName(AInitB) == QualifiedName(AInitC)
  {
    var ms := [AInitB, AInitC];
    var st0 := State({}, [], []);
    var out := InjectAll(st0, true, ms, c, into, resolves, replies);
    InjectAllSucceeds(st0, true, ms, c, into, resolves, replies);
    InjectAllOrder(st0, true, ms, c, into, resolves, replies);
    InjectAllMarks(st0, ms, c, into, resolves, replies);
    assert out.0.log[0..] == out.0.log;
    var none: set<MethodRef> := {};
    assert AInitB.paramTypes[0][0] != AInitC.paramTypes[0][0];
    assert ms[1..] == [AInitC] && [AInitC][1..] == [];
    assert none + {AInitB} == {AInitB};
    assert Pending([AInitC], {AInitB}) == [AInitC];
    assert Pending(ms, none) == [AInitB, AInitC];
  }

  /** Each target is invoked exactly once across the three passes, all three
      passes succeed, and the registry ends with both marked. */
  lemma ThreePassesInvokeEachOnce(c: Container, into: TypeRef,
                                  resolves: (Container, MethodRef, TypeRef) -> bool,
                                  replies: (MethodRef, nat) -> Reply)
    requires forall c', m, t :: resolves(c', m, t)
    requires forall m, n :: replies(m, n).Returned?
    ensures var ms := [AInit, ASetup];
            var p1 := InjectAll(State({}, [], []), true, ms, c, into, resolves, replies);
            var p2 := InjectAll(p1.0, true, ms, c, into, resolves, replies);
            var p3 := InjectAll(p2.0, true, ms, c, into, resolves, replies);
            p1.1 == p2.1 == p3.1 == Ok(()) &&
            Invocations(p3.0.log) == [AInit, ASetup] &&
            p3.0.marks == {AInit, ASetup} &&
            SuccessCount(p3.0.history, AInit) == 1 && SuccessCount(p3.0.history, ASetup) == 1
  {
    var ms := [AInit, ASetup];
    var st0 := State({}, [], []);
    var p1 := InjectAll(st0, true, ms, c, into, resolves, replies);
    InjectAllSucceeds(st0, true, ms, c, into, resolves, replies);
    InjectAllOrder(st0, true, ms, c, into, resolves, replies);
    InjectAllMarks(st0, ms, c, into, resolves, replies);
    InjectAllKeepsCoherent(st0, true, ms, c, into, resolves, replies);
    assert p1.0.log[0..] == p1.0.log;
    var none: set<MethodRef> := {};
    assert AInit.name[0] != ASetup.name[0];
    assert ms[1..] == [ASetup] && [ASetup][1..] == [];
    assert none + {AInit} == {AInit};
    assert Pending([ASetup], {AInit}) == [ASetup];
    assert Pending(ms, none) == [AInit, ASetup];
    RepeatedPassInvokesNothing(st0, ms, c, into, resolves, replies, c, into);
    InjectAllSucceeds(p1.0, true, ms, c, into, resolves, replies);
    var p2 := InjectAll(p1.0, true, ms, c, into, resolves, replies);
    assert p2.0 == p1.0;
    var p3 := InjectAll(p2.0, true, ms, c, into, resolves, replies);
    assert p3 == p2;
    ExactlyOnceIfMarked(p1.0.marks, p1.0.history, AInit);
    ExactlyOnceIfMarked(p1.0.marks, p1.0.history, ASetup);
  }

  /** The same scenario driven through the injector's own methods, with two
      injectors over the same methods sharing one registry. */
  method SharedRegistry(c: Container, into: TypeRef)
    returns (r1: Result<()>, r2: Result<()>, r3: Result<()>, log: seq<Event>, marks: set<MethodRef>)
    ensures r1 == Ok(()) && r2 == Ok(()) && r3 == Ok(())
    ensures Invocations(log) == [AInit, ASetup]
    ensures marks == {AInit, ASetup}
  {
    var rt := new Runtime((m: MethodRef, n: nat) => Returned(Null),
                          (c': Container, m: MethodRef, t: TypeRef) => true,
                          (c': Container, t: TypeRef, n: nat) => Returned(Null));
    var refs := new StaticsInitializedReferenceSet();
    var first := new SpecificMethodInjector.Simple(Null, into, true, [AInit, ASetup], rt);
    var second := new SpecificMethodInjector.Simple(Null, into, true, [AInit, ASetup], rt);
    ThreePassesInvokeEachOnce(c, into, rt.resolves, rt.replies);
    r1 := first.InjectStatics(c, into, refs);
    r2 := second.InjectStatics(c, into, refs);
    r3 := first.InjectStatics(c, into, refs);
    log, marks := rt.log, refs.initialized;
  }
}
