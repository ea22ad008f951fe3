/** The registry of static injection targets that have completed
    (`StaticsInitializedReferenceSet`), and the "at most once" property it
    supports when every invocation is routed through it. */
module Statics {
  import opened Types

  /** One invocation the registry let through, and whether it returned normally. */
  datatype Attempt = Attempt(target: MethodRef, ok: bool)

  /** No target is attempted again once an attempt on it has succeeded. */
  ghost predicate NoRetryAfterSuccess(history: seq<Attempt>)
  {
    forall i, j :: 0 <= i < j < |history| && history[i].target == history[j].target ==> !history[i].ok
  }

  /** The marked targets are exactly those with a successful attempt, and a
      successful target is never attempted again. */
  ghost predicate Coherent(marks: set<MethodRef>, history: seq<Attempt>)
  {
    (forall m :: m in marks <==> Attempt(m, true) in history) &&
    NoRetryAfterSuccess(history)
  }

  /** The targets of the attempts in `history`, in order. */
  function Targets(history: seq<Attempt>): seq<MethodRef>
  {
    if history == [] then [] else [history[0].target] + Targets(history[1..])
  }

  lemma {:induction false} TargetsAppend(a: seq<Attempt>, b: seq<Attempt>)
    ensures Targets(a + b) == Targets(a) + Targets(b)
  {
    if a == [] {
      assert a + b == b;
    } else {
      assert (a + b)[0] == a[0] && (a + b)[1..] == a[1..] + b;
      TargetsAppend(a[1..], b);
    }
  }

  /** How many times `m` ran to completion in `history`. */
  function SuccessCount(history: seq<Attempt>, m: MethodRef): nat
  {
    if history == [] then 0
    else (if history[0] == Attempt(m, true) then 1 else 0) + SuccessCount(history[1..], m)
  }

  lemma {:induction false} SuccessCountAppend(a: seq<Attempt>, b: seq<Attempt>, m: MethodRef)
    ensures SuccessCount(a + b, m) == SuccessCount(a, m) + SuccessCount(b, m)
  {
    if a == [] {
      assert a + b == b;
    } else {
      assert (a + b)[0] == a[0] && (a + b)[1..] == a[1..] + b;
      SuccessCountAppend(a[1..], b, m);
    }
  }

  lemma {:induction false} SuccessCountPositive(history: seq<Attempt>, m: MethodRef)
    ensures SuccessCount(history, m) > 0 <==> Attempt(m, true) in history
  {
    if history != [] {
      SuccessCountPositive(history[1..], m);
      assert history == [history[0]] + history[1..];
    }
  }

  lemma {:induction false} SuccessCountZero(history: seq<Attempt>, m: MethodRef)
    requires forall k :: 0 <= k < |history| ==> history[k].target != m
    ensures SuccessCount(history, m) == 0
  {
    if history != [] {
      SuccessCountZero(history[1..], m);
    }
  }

  /** Without retries after success, a target succeeds at most once. */
  lemma {:induction false} AtMostOneSuccess(history: seq<Attempt>, m: MethodRef)
    requires NoRetryAfterSuccess(history)
    ensures SuccessCount(history, m) <= 1
  {
    if history != [] {
      var rest := history[1..];
      if history[0] == Attempt(m, true) {
        forall k | 0 <= k < |rest| ensures rest[k].target != m {
          assert history[k + 1] == rest[k];
        }
        SuccessCountZero(rest, m);
      } else {
        forall i, j | 0 <= i < j < |rest| && rest[i].target == rest[j].target
          ensures !rest[i].ok
        {
          assert history[i + 1] == rest[i] && history[j + 1] == rest[j];
        }
        AtMostOneSuccess(rest, m);
      }
    }
  }

  /** The key property: under a coherent registry each target has run to
      completion exactly once if it is marked, and never if it is not. */
  lemma ExactlyOnceIfMarked(marks: set<MethodRef>, history: seq<Attempt>, m: MethodRef)
    requires Coherent(marks, history)
    ensures SuccessCount(history, m) == if m in marks then 1 else 0
  {
    SuccessCountPositive(history, m);
    AtMostOneSuccess(history, m);
  }

  /** Check-then-invoke-then-mark keeps the registry coherent: an unmarked
      target is attempted once and marked only if the attempt succeeded. */
  lemma CoherentExtend(marks: set<MethodRef>, history: seq<Attempt>, m: MethodRef, ok: bool)
    requires Coherent(marks, history)
    requires m !in marks
    ensures Coherent(if ok then marks + {m} else marks, history + [Attempt(m, ok)])
  {
  }

  /** `StaticsInitializedReferenceSet`: the shared set of static targets that
      have completed. `history` is a proof device: every invocation the
      registry let through, in order, with its outcome. `Valid()` holds
      between complete check-invoke-mark steps; inside one step the attempt
      is recorded before the mark is added. */
  class StaticsInitializedReferenceSet {
    var initialized: set<MethodRef>
    ghost var history: seq<Attempt>

    ghost predicate Valid()
      reads this
    {
      Coherent(initialized, history)
    }

    constructor ()
      ensures Valid()
      ensures initialized == {} && history == []
    {
      initialized := {};
      history := [];
    }

    method IsMemberAlreadyInitialized(m: MethodRef) returns (b: bool)
      ensures b <==> m in initialized
    {
      b := m in initialized;
    }

    method MarkMemberInitialized(m: MethodRef)
      modifies this`initialized
      ensures initialized == old(initialized) + {m}
    {
      initialized := initialized + {m};
    }

    /** Records one invocation the registry let through and its outcome. */
    ghost method RecordAttempt(m: MethodRef, ok: bool)
      modifies this`history
      ensures history == old(history) + [Attempt(m, ok)]
    {
      history := history + [Attempt(m, ok)];
    }
  }
}
