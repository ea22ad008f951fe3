# SpecificMethodInjector, modelled in Dafny

This project models PicoContainer's `SpecificMethodInjector`. It is a component adapter that calls a fixed,
ordered list of pre-selected methods. It works in one of two modes:

- **Instance mode.** `getComponentInstance` hands construction to the superclass.
- **Static mode.** `injectStatics` calls every method of the list in order. Each call passes through
  a shared `StaticsInitializedReferenceSet` (the *registry*). Inside the block locked on the
  method's declaring class, the registry is checked, the method is invoked, and the method is then
  marked as done. So each static method runs to completion at most once for the lifetime of that
  registry.

Files:

- `types.dfy` (module `Types`). Method handles `(declaringClass, name, paramTypes, returnType)`, equal
  exactly when `Method.equals` holds, so overloads are distinct registry entries; opaque values, containers
  and types, the event log of the runtime, and the exceptions as a `Failure` datatype inside `Result`.
- `statics.dfy` (module `Statics`). The registry class. It has a set of marks and a ghost history of
  the invocations it let through. Its invariant `Coherent` says two things: the marks are exactly
  the targets with a successful attempt, and nothing is attempted again after it succeeded. From
  this the module proves the "exactly once if marked, never otherwise" property.
- `runtime.dfy` (module `Runtime`). The collaborators the injector calls but does not implement:
  reflective invocation, argument resolution and the superclass's construction. They are one class
  whose behaviour is fixed by oracle functions, and each invocation and construction is appended to
  an event log. An oracle may make an invocation throw, so failures are modelled.
- `descriptor.dfy` (module `Descriptor`). The reference definition of the descriptor string and
  lemmas about its shape.
- `injector.dfy` (module `Injectors`). The guard class and the injector class, with one method per
  operation, and the pure functions they are proved against. `GuardedInvoke` is one call of
  `invokeMethod`, `InjectAll` is one run of the guard's loop, and `InjectMany` is a sequence of such
  runs over one registry. `Pending` (the not-yet-marked methods, once each, in order) and
  `IsSubsequence` are independent references for what a run invokes, `Outcomes` reads the attempts
  off the event log, and the ghost `Snapshot` is the state a method sees. Lemmas about these give
  order, monotonicity, coherence, idempotence and the at-most-once count over the log.
- `scenario.dfy` (module `Scenario`). Two static targets on one class. Three passes share one
  registry, as pure functions and as calls on two real injectors, and each target is invoked
  exactly once. A further lemma shows that two overloads of one name, `A.init(B)` and `A.init(C)`,
  are separate registry entries: one pass invokes and marks both.

Behaviour of the code that is easy to miss:

- `injectStatics` installs the registry (line 84) *before* rejecting an instance-mode injector
  (line 85). So even a rejected call leaves the registry in place, and from then on every
  `invokeMethod` of that injector goes through the registry. `InjectStatics` states this
  (`initializedReferenceSet == refs` on every path).
- `getDescriptor` is not defined for an empty method list, because `substring(1)` throws on the
  empty builder. The model returns `Err(IndexOutOfBounds)` for that case.
- A failed invocation is not marked, so a later pass retries it.
- Nothing in this file rejects a mixed list of static and instance methods. The superclass
  computes the mode, and here it is a constructor input.

## Model

| member | source | states |
|---|---|---|
| `Injectors.SpecificMethodInjector.constructor` | pico/container/src/java/org/picocontainer/injectors/SpecificMethodInjector.java:58-65 | the methods are kept in the given order, the mode is the given flag, and no guard or registry is installed; both fields are `const`, so neither changes after construction |
| `Injectors.SpecificMethodInjector.Simple` | pico/container/src/java/org/picocontainer/injectors/SpecificMethodInjector.java:43-45 | like the deployment constructor, with name matching and all-parameter matching switched on |
| `Injectors.SpecificMethodInjector.GetInjectorMethods` | pico/container/src/java/org/picocontainer/injectors/SpecificMethodInjector.java:67-70 | returns exactly the constructor's methods in the given order |
| `Injectors.SpecificMethodInjector.GetDescriptor` | pico/container/src/java/org/picocontainer/injectors/SpecificMethodInjector.java:72-79 | the builder loop yields `Describe(mode, methods)`: the prefix, `_static_` iff static, `[`, the comma-joined `Class.name` list in list order, `]-`; with no methods it fails with the index exception; equal lists and modes give equal descriptors |
| `Descriptor.CommasIsCommaJoin` | pico/container/src/java/org/picocontainer/injectors/SpecificMethodInjector.java:74-78 | the builder holds a comma and then the joined names, so `substring(1)` leaves the join with no leading comma |
| `Descriptor.JoinConcat` | pico/container/src/java/org/picocontainer/injectors/SpecificMethodInjector.java:75-77 | joining two non-empty lists puts exactly one comma between their joins, keeping list order |
| `Descriptor.DescriptorShape` | pico/container/src/java/org/picocontainer/injectors/SpecificMethodInjector.java:78 | the descriptor starts with the prefix and marker and `[`, then the first method's qualified name, and ends with `]-` |
| `Descriptor.ModeIsVisible` | pico/container/src/java/org/picocontainer/injectors/SpecificMethodInjector.java:78 | the character right after the prefix is `_` in static mode and `[` in instance mode |
| `Descriptor.StaticAndInstanceDiffer` | pico/container/src/java/org/picocontainer/injectors/SpecificMethodInjector.java:78 | a static descriptor never equals an instance descriptor, whatever the two method lists, unless both lists are empty |
| `Injectors.SpecificMethodInjector.InjectStatics` | pico/container/src/java/org/picocontainer/injectors/SpecificMethodInjector.java:83-116 | the registry is installed on every path; in instance mode the call fails and changes neither the log, the registry nor the guard; in static mode the new registry and log are those of `InjectAll` over the methods; a guard that was null on entry is null on every exit, a pre-existing guard stays in place holding the new container, and a valid registry stays valid |
| `Injectors.SpecificMethodInjector.Run` | pico/container/src/java/org/picocontainer/injectors/SpecificMethodInjector.java:96-104 | the guard's loop resolves and invokes each method in list order against the guarded container and the guard's captured type, and stops at the first exception, exactly as `InjectAll` |
| `Injectors.CyclicDependencyGuard.constructor` | pico/container/src/java/org/picocontainer/injectors/SpecificMethodInjector.java:93-105 | a new guard captures the creating call's target type and holds no container yet |
| `Injectors.CyclicDependencyGuard.SetGuardedContainer` | pico/container/src/java/org/picocontainer/injectors/SpecificMethodInjector.java:107 | installs the call's container in the guard |
| `Injectors.SpecificMethodInjector.GetComponentInstance` | pico/container/src/java/org/picocontainer/injectors/SpecificMethodInjector.java:118-125 | in static mode it fails before any construction (the log is unchanged); in instance mode exactly one superclass construction is logged and its outcome returned |
| `Injectors.SpecificMethodInjector.InvokeMethod` | pico/container/src/java/org/picocontainer/injectors/SpecificMethodInjector.java:127-146 | with a registry and a marked method: no invocation, null result, registry unchanged; with a registry and an unmarked method: one invocation, marked only if it returned; without a registry: always one invocation; a valid registry stays valid |
| `Statics.StaticsInitializedReferenceSet.IsMemberAlreadyInitialized` | pico/container/src/java/org/picocontainer/injectors/SpecificMethodInjector.java:134 | true exactly when the method is marked |
| `Statics.StaticsInitializedReferenceSet.MarkMemberInitialized` | pico/container/src/java/org/picocontainer/injectors/SpecificMethodInjector.java:136 | adds the method to the marks and changes nothing else |
| `Statics.CoherentExtend` | pico/container/src/java/org/picocontainer/injectors/SpecificMethodInjector.java:133-139 | attempting an unmarked method and marking it only on success keeps the registry coherent |
| `Statics.AtMostOneSuccess` | pico/container/src/java/org/picocontainer/injectors/SpecificMethodInjector.java:133-137 | if nothing is retried after it succeeded, each method succeeds at most once |
| `Statics.ExactlyOnceIfMarked` | pico/container/src/java/org/picocontainer/injectors/SpecificMethodInjector.java:130-141 | under a coherent registry a method has run to completion exactly once if marked and never if unmarked |
| `Injectors.GuardedInvokeKeepsCoherent` | pico/container/src/java/org/picocontainer/injectors/SpecificMethodInjector.java:130-144 | one `invokeMethod` step, gated or not, keeps a coherent registry coherent |
| `Injectors.InjectAllKeepsCoherent` | pico/container/src/java/org/picocontainer/injectors/SpecificMethodInjector.java:97-102 | a whole static pass keeps a coherent registry coherent, including when it stops at an exception |
| `Injectors.InjectAllOnlyGrows` | pico/container/src/java/org/picocontainer/injectors/SpecificMethodInjector.java:97-102 | a pass only appends to the log and history and only adds marks, so methods invoked before a failure stay invoked; without a registry the marks are untouched |
| `Injectors.InjectAllOrder` | pico/container/src/java/org/picocontainer/injectors/SpecificMethodInjector.java:97-102 | the methods a pass invokes are a subsequence of the list, in list order; on success they are exactly the not-yet-marked methods, each once (with a registry), or the whole list (without one) |
| `Injectors.InjectAllMarks` | pico/container/src/java/org/picocontainer/injectors/SpecificMethodInjector.java:99-102 | a pass with a registry marks only methods of the list; when it succeeds, every method of the list is marked |
| `Injectors.InjectAllSucceeds` | pico/container/src/java/org/picocontainer/injectors/SpecificMethodInjector.java:99-103 | when every resolution and invocation succeeds, the pass succeeds |
| `Injectors.InjectAllWhenAllMarked` | pico/container/src/java/org/picocontainer/injectors/SpecificMethodInjector.java:130-141 | a pass over methods that are all marked invokes nothing and changes nothing |
| `Injectors.RepeatedPassInvokesNothing` | pico/container/src/java/org/picocontainer/injectors/SpecificMethodInjector.java:83-114 | after a successful static pass, a later pass over the same methods and registry, with any container and type, invokes nothing |
| `Injectors.InjectAllHistoryMatchesLog` | pico/container/src/java/org/picocontainer/injectors/SpecificMethodInjector.java:133-137 | with a registry, what a pass adds to the registry's history is exactly what it adds to the log: the same targets in order, each attempt successful exactly when the logged invocation returned |
| `Injectors.SharedRegistryAtMostOnce` | pico/container/src/java/org/picocontainer/injectors/SpecificMethodInjector.java:83-141 | for any sequence of static passes over one coherent registry, with any methods, containers and types, and whatever succeeds or fails: the registry stays coherent, each method has run to completion exactly once if marked and never otherwise, the history added equals the outcomes of the invocations added to the log, the marks only grow, and in the added log each method returned exactly once if the passes marked it and never otherwise |
| `Scenario.OverloadsAreSeparateEntries` | pico/container/src/java/org/picocontainer/injectors/SpecificMethodInjector.java:130-141 | two static overloads `A.init(B)` and `A.init(C)` are separate registry entries: one pass over an empty registry invokes both in order and marks both, although their qualified names in the descriptor coincide |
| `Scenario.ThreePassesInvokeEachOnce` | pico/container/src/java/org/picocontainer/injectors/SpecificMethodInjector.java:83-141 | with `A.init` and `A.setup`, three passes over an empty registry all succeed, invoke each method exactly once in list order, and leave both marked |
| `Scenario.SharedRegistry` | pico/container/src/java/org/picocontainer/injectors/SpecificMethodInjector.java:83-141 | the same scenario through the injector's methods: two injectors sharing one registry, three `InjectStatics` calls that all return `Ok`, a log showing `A.init` and `A.setup` once each, and both marked |

## Left out

- Reflection: `AnnotationInjectionUtils.setMemberAccessible` and `Method.invoke` are not modelled.
  An invocation is an oracle-decided reply appended to the runtime log.
- `synchronized(method.getDeclaringClass())`: there is no concurrency, and the locked block is one
  atomic sequential step. Interleavings of threads are not modelled.
- Cycle detection and thread-local storage in `ThreadLocalCyclicDependencyGuard.observe` and
  `remove`: they are not part of this model. `observe` runs the guard's body, and `remove` has no
  effect beyond the field being cleared. So this model does not capture a re-entrant call raising a
  cyclic-dependency error.
- Argument resolution (`getMemberArguments`) and the superclass's `isStaticInjection(Method[])`:
  they are not part of this model. Resolution is an oracle that succeeds or throws, and the mode is
  a constructor input.
- `super.getComponentInstance`: the construction is external. It is one logged step with an
  oracle-decided outcome, and any `invokeMethod` calls the superclass makes from there are not
  modelled.
- `interceptParametersToUse` and `constructDefaultComponentParameter`: they are one-line
  delegations to `AnnotationInjectionUtils` and `JSR330ComponentParameter`, which are not part of
  this model.
- `ComponentMonitor` / `NullComponentMonitor`: diagnostics hooks only, so they are not modelled.
  The parameter overrides (`MethodParameters[]`) are passed to the superclass unread here, so they
  are not modelled either.
- Exception messages: the text built with `Arrays.deepToString` is not modelled. The failure carries
  the method list instead.
- `Arrays.asList` returns a view of the caller's array, and the model keeps a copy. Later mutation
  of that array by the caller is not captured.
- The container that the guard's `run` passes to `invokeMethod` (line 101) is not modelled. That is
  the container captured when the guard was created, which can differ from the one line 107
  installs for argument resolution. Only the superclass's `invokeMethod` reads it, and that is not
  part of this model, so an invocation's outcome here does not depend on a container.
- The superclass constructor's validation of `impl`, and the `NotConcreteRegistrationException`
  it raises (lines 58-59), are not modelled: the superclass is not part of this model, so
  construction here always succeeds.
- The registry's ghost `history` is a proof device. The Java registry records only the marks.
