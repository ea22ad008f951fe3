/** The collaborators the injector calls but does not implement: reflective
    invocation (`super.invokeMethod`), argument resolution
    (`getMemberArguments`) and the superclass's instance construction
    (`super.getComponentInstance`). Their behaviour is fixed by oracle
    functions given at creation; every reflective call and every
    construction is appended to `log`. */
module Runtime {
  import opened Types

  class Runtime {
    var log: seq<Event>
    /** What invoking a method does when it is the n-th event of the log. */
    const replies: (MethodRef, nat) -> Reply
    /** Whether a method's arguments can be resolved from a container for a target type. */
    const resolves: (Container, MethodRef, TypeRef) -> bool
    /** What building a component instance does when it is the n-th event of the log. */
    const builds: (Container, TypeRef, nat) -> Reply

    constructor (replies: (MethodRef, nat) -> Reply,
                 resolves: (Container, MethodRef, TypeRef) -> bool,
                 builds: (Container, TypeRef, nat) -> Reply)
      ensures log == []
      ensures this.replies == replies && this.resolves == resolves && this.builds == builds
    {
      log := [];
      this.replies := replies;
      this.resolves := resolves;
      this.builds := builds;
    }

    method Invoke(m: MethodRef, instance: Value) returns (reply: Reply)
      modifies this`log
      ensures reply == replies(m, |old(log)|)
      ensures log == old(log) + [Invoked(m, instance, reply)]
    {
      reply := replies(m, |log|);
      log := log + [Invoked(m, instance, reply)];
    }

    method ResolveArguments(c: Container, m: MethodRef, into: TypeRef) returns (ok: bool)
      ensures ok == resolves(c, m, into)
    {
      ok := resolves(c, m, into);
    }

    method Construct(c: Container, into: TypeRef) returns (reply: Reply)
      modifies this`log
      ensures reply == builds(c, into, |old(log)|)
      ensures log == old(log) + [Constructed(c, into)]
    {
      reply := builds(c, into, |log|);
      log := log + [Constructed(c, into)];
    }
  }
}
