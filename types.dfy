/** Values shared by every part of the model: reflective method handles,
    opaque Java values, the runtime's event log and the injector's failures. */
module Types {

  datatype Option<+T> = None | Some(value: T)

  /** A reflective method handle. Two handles are equal exactly when
      `Method.equals` holds: same declaring class, simple name, parameter
      types and return type. So overloads of one name are distinct handles
      and distinct registry entries; the descriptor shows only the class and
      the simple name. */
  datatype MethodRef = MethodRef(declaringClass: string, name: string, paramTypes: seq<string>, returnType: string)

  /** An opaque Java value; `Null` is the null reference. */
  datatype Value = Null | Ref(id: nat)

  /** An opaque dependency container, known only by its identity. */
  datatype Container = Container(id: nat)

  /** An opaque `java.lang.reflect.Type`. */
  datatype TypeRef = TypeRef(id: nat)

  /** What a reflective call does: return a value, or throw. */
  datatype Reply = Returned(value: Value) | Threw

  /** One step the external runtime took on the injector's behalf. */
  datatype Event =
    | Invoked(target: MethodRef, instance: Value, reply: Reply)
    | Constructed(container: Container, into: TypeRef)

  /** The exceptions the injector raises or lets through. */
  datatype Failure =
      /** `injectStatics` on an injector whose methods are not static */
    | NonStaticMethods(methods: seq<MethodRef>)
      /** `getComponentInstance` on an injector whose methods are static */
    | StaticMethods(methods: seq<MethodRef>)
      /** `substring(1)` on an empty builder in `getDescriptor` */
    | IndexOutOfBounds
      /** argument resolution could not satisfy a parameter of `target` */
    | UnresolvedArguments(target: MethodRef)
      /** the reflective call of `target` threw */
    | InvocationFailed(target: MethodRef)
      /** the superclass could not build the component instance */
    | ConstructionFailed

  datatype Result<+T> = Ok(value: T) | Err(failure: Failure)

  /** The targets of the invocations in an event log, in log order. */
  function Invocations(es: seq<Event>): seq<MethodRef>
  {
    if es == [] then []
    else (if es[0].Invoked? then [es[0].target] else []) + Invocations(es[1..])
  }

  lemma {:induction false} InvocationsAppend(a: seq<Event>, b: seq<Event>)
    ensures Invocations(a + b) == Invocations(a) + Invocations(b)
  {
    if a == [] {
      assert a + b == b;
    } else {
      var ab := a + b;
      assert ab[0] == a[0] && ab[1..] == a[1..] + b;
      InvocationsAppend(a[1..], b);
      assert Invocations(ab) == (if a[0].Invoked? then [a[0].target] else []) + Invocations(a[1..] + b);
    }
  }
}
