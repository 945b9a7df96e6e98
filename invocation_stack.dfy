/**
  The invocation log a test double owns: an append-only sequence of
  `MethodInvocation` records, updated in place by `Invoke` and queried by
  method name with `ForMethod`.
*/
module InvocationStacks {
  import opened Invocations

  class InvocationStack<A> {
    /** Every recorded call, oldest first. */
    var methodInvocations: seq<MethodInvocation<A>>

    /** A fresh log is empty: no query finds anything in it. */
    constructor ()
      ensures methodInvocations == []
      ensures forall m :: ForMethod(m) == []
    {
      methodInvocations := [];
    }

    /** Records one call by appending it; nothing else in the log changes. */
    method Invoke(methodName: string, args: seq<A>)
      modifies this
      ensures methodInvocations == old(methodInvocations) + [MethodInvocation(methodName, args)]
      ensures ForMethod(methodName) == old(ForMethod(methodName)) + [MethodInvocation(methodName, args)]
      ensures forall m :: m != methodName ==> ForMethod(m) == old(ForMethod(m))
    {
      ghost var before := methodInvocations;
      methodInvocations := methodInvocations + [MethodInvocation(methodName, args)];
      forall m
        ensures Named(methodInvocations, m) ==
                if m == methodName then Named(before, m) + [MethodInvocation(methodName, args)]
                else Named(before, m)
      {
        NamedAppend(before, MethodInvocation(methodName, args), m);
      }
    }

    /**
      The recorded calls named exactly `methodName`, in recording order:
      one per occurrence of the name, each the very record the log holds at
      the matching position, and none at all when the name was never recorded.
    */
    function ForMethod(methodName: string): (r: seq<MethodInvocation<A>>)
      reads this
      ensures forall k :: 0 <= k < |r| ==> r[k].name == methodName
      ensures |r| == Occurrences(methodInvocations, methodName)
      ensures |r| == |Positions(methodInvocations, methodName)|
      ensures forall k :: 0 <= k < |r| ==> r[k] == methodInvocations[Positions(methodInvocations, methodName)[k]]
      ensures r == [] <==> forall i :: 0 <= i < |methodInvocations| ==> methodInvocations[i].name != methodName
    {
      NamedCount(methodInvocations, methodName);
      NamedSelects(methodInvocations, methodName);
      NamedEmptyIffMiss(methodInvocations, methodName);
      Named(methodInvocations, methodName)
    }
  }
}
