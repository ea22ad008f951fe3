/** The injector's diagnostic identity string, `getDescriptor`, as a reference
    definition: a fixed prefix, a marker in static mode, and the methods'
    qualified names joined by commas in list order, between brackets. */
module Descriptor {
  import opened Types

  const Prefix: string := "SpecificReflectionMethodInjector"
  const StaticMarker: string := "_static_"

  /** `DeclaringClass.methodName` */
  function QualifiedName(m: MethodRef): string
  {
    m.declaringClass + "." + m.name
  }

  /** The qualified names of `ms`, separated by commas, in list order. */
  function Join(ms: seq<MethodRef>): string
  {
    if ms == [] then ""
    else if |ms| == 1 then QualifiedName(ms[0])
    else QualifiedName(ms[0]) + "," + Join(ms[1..])
  }

  /** What the descriptor of an injector over `ms` is, or the exception that
      `substring(1)` raises when there are no methods. */
  function Describe(isStatic: bool, ms: seq<MethodRef>): Result<string>
  {
    if ms == [] then Err(IndexOutOfBounds)
    else Ok(Prefix + (if isStatic then StaticMarker else "") + "[" + Join(ms) + "]-")
  }

  /** What the descriptor loop's builder holds: `,Name` for every method, left to right. */
  function Commas(ms: seq<MethodRef>): string
  {
    if ms == [] then "" else Commas(ms[..|ms| - 1]) + "," + QualifiedName(ms[|ms| - 1])
  }

  /** Joining two non-empty lists puts one comma between their joins. */
  lemma {:induction false} JoinConcat(a: seq<MethodRef>, b: seq<MethodRef>)
    requires a != [] && b != []
    ensures Join(a + b) == Join(a) + "," + Join(b)
  {
    if |a| == 1 {
      assert (a + b)[1..] == b;
    } else {
      assert (a + b)[1..] == a[1..] + b;
      JoinConcat(a[1..], b);
    }
  }

  /** The builder holds a comma followed by the joined names, so dropping its
      first character leaves no leading comma. */
  lemma {:induction false} CommasIsCommaJoin(ms: seq<MethodRef>)
    requires ms != []
    ensures Commas(ms) == "," + Join(ms)
  {
    var init := ms[..|ms| - 1];
    var last := ms[|ms| - 1];
    if init == [] {
      assert ms == [last];
    } else {
      CommasIsCommaJoin(init);
      assert ms == init + [last];
      JoinConcat(init, [last]);
    }
  }

  /** The descriptor begins with the qualified name of the first method and ends with the bracket. */
  lemma DescriptorShape(isStatic: bool, ms: seq<MethodRef>)
    requires ms != []
    ensures var d := Describe(isStatic, ms).value;
            var head := Prefix + (if isStatic then StaticMarker else "") + "[";
            d[..|head|] == head &&
            d[|head|..|head| + |QualifiedName(ms[0])|] == QualifiedName(ms[0]) &&
            d[|d| - 2..] == "]-"
  {
  }

  /** The mode can be read off the descriptor: character 32, right after the
      prefix, is '_' in static mode and '[' in instance mode. So a static and
      an instance descriptor never coincide, whatever their method lists. */
  lemma ModeIsVisible(isStatic: bool, ms: seq<MethodRef>)
    requires ms != []
    ensures Describe(isStatic, ms).value[|Prefix|] == if isStatic then '_' else '['
  {
  }

  lemma StaticAndInstanceDiffer(ms1: seq<MethodRef>, ms2: seq<MethodRef>)
    requires ms1 != [] || ms2 != []
    ensures Describe(true, ms1) != Describe(false, ms2)
  {
    if ms1 != [] && ms2 != [] {
      ModeIsVisible(true, ms1);
      ModeIsVisible(false, ms2);
      var d1, d2 := Describe(true, ms1).value, Describe(false, ms2).value;
      assert d1[|Prefix|] != d2[|Prefix|];
    }
  }
}
