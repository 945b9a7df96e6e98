/**
  Invocation records and the name filter over a log of them.

  A `MethodInvocation` is the immutable record of one observed call: the
  method's name and the arguments it was given, in order. The argument type
  `A` is a type parameter: the log never inspects an argument, it only stores
  it, so any type of values may be recorded.

  `Named` is the reference definition of the query "every record whose name
  is exactly this one, in recording order". The lemmas below characterise it
  independently of its recursive definition: by the positions of the matching
  records in the log, and by the number of occurrences of the name.
*/
module Invocations {

  /** One observed call: the method name and its arguments, stored verbatim. */
  datatype MethodInvocation<A> = MethodInvocation(name: string, args: seq<A>)

  /** The records of `log` whose name equals `methodName`, in their original order. */
  function Named<A>(log: seq<MethodInvocation<A>>, methodName: string): (r: seq<MethodInvocation<A>>)
    ensures |r| <= |log|
    ensures forall k :: 0 <= k < |r| ==> r[k].name == methodName
  {
    if log == [] then []
    else if log[0].name == methodName then [log[0]] + Named(log[1..], methodName)
    else Named(log[1..], methodName)
  }

  /** The increasing indices `j >= from` of `log` at which a record named `methodName` stands. */
  ghost function PositionsFrom<A>(log: seq<MethodInvocation<A>>, methodName: string, from: nat): (p: seq<nat>)
    requires from <= |log|
    ensures forall k :: 0 <= k < |p| ==> from <= p[k] < |log| && log[p[k]].name == methodName
    ensures forall k, l :: 0 <= k < l < |p| ==> p[k] < p[l]
    decreases |log| - from
  {
    if from == |log| then []
    else if log[from].name == methodName then [from] + PositionsFrom(log, methodName, from + 1)
    else PositionsFrom(log, methodName, from + 1)
  }

  /** The increasing indices of `log` at which a record named `methodName` stands. */
  ghost function Positions<A>(log: seq<MethodInvocation<A>>, methodName: string): seq<nat>
  {
    PositionsFrom(log, methodName, 0)
  }

  /** The names of the records of `log`, in order. */
  function Names<A>(log: seq<MethodInvocation<A>>): seq<string>
  {
    seq(|log|, i requires 0 <= i < |log| => log[i].name)
  }

  /** How many records of `log` were recorded under `methodName`. */
  function Occurrences<A>(log: seq<MethodInvocation<A>>, methodName: string): nat
  {
    multiset(Names(log))[methodName]
  }

  /** `PositionsFrom` misses no matching index. */
  lemma {:induction false} PositionsFromComplete<A>(log: seq<MethodInvocation<A>>, methodName: string, from: nat, j: nat)
    requires from <= j < |log| && log[j].name == methodName
    ensures j in PositionsFrom(log, methodName, from)
    decreases |log| - from
  {
    if from < j {
      PositionsFromComplete(log, methodName, from + 1, j);
    }
  }

  /** An index is among the positions exactly when a record named `methodName` stands there. */
  lemma PositionsExact<A>(log: seq<MethodInvocation<A>>, methodName: string, j: nat)
    ensures j in Positions(log, methodName) <==> j < |log| && log[j].name == methodName
  {
    var p := Positions(log, methodName);
    if j in p {
      var k :| 0 <= k < |p| && p[k] == j;
    }
    if j < |log| && log[j].name == methodName {
      PositionsFromComplete(log, methodName, 0, j);
    }
  }

  /** Filtering the suffix from `from` picks exactly the records at `PositionsFrom(..., from)`, in order. */
  lemma {:induction false} NamedFromSelects<A>(log: seq<MethodInvocation<A>>, methodName: string, from: nat)
    requires from <= |log|
    ensures |Named(log[from..], methodName)| == |PositionsFrom(log, methodName, from)|
    ensures forall k :: 0 <= k < |PositionsFrom(log, methodName, from)| ==>
              Named(log[from..], methodName)[k] == log[PositionsFrom(log, methodName, from)[k]]
    decreases |log| - from
  {
    if from < |log| {
      NamedFromSelects(log, methodName, from + 1);
      assert log[from..][0] == log[from];
      assert log[from..][1..] == log[from + 1..];
    }
  }

  /**
    Order preservation and argument fidelity: the query result is the
    subsequence of the log at the matching positions, record for record.
  */
  lemma NamedSelects<A>(log: seq<MethodInvocation<A>>, methodName: string)
    ensures |Named(log, methodName)| == |Positions(log, methodName)|
    ensures forall k :: 0 <= k < |Named(log, methodName)| ==>
              Named(log, methodName)[k] == log[Positions(log, methodName)[k]]
  {
    NamedFromSelects(log, methodName, 0);
    assert log[0..] == log;
  }

  /** The result holds one record per occurrence of the name in the log. */
  lemma {:induction false} NamedCount<A>(log: seq<MethodInvocation<A>>, methodName: string)
    ensures |Named(log, methodName)| == Occurrences(log, methodName)
  {
    if log != [] {
      NamedCount(log[1..], methodName);
      assert Names(log) == [log[0].name] + Names(log[1..]);
    }
  }

  /** Empty on a miss, and only then. */
  lemma {:induction false} NamedEmptyIffMiss<A>(log: seq<MethodInvocation<A>>, methodName: string)
    ensures Named(log, methodName) == [] <==> forall i :: 0 <= i < |log| ==> log[i].name != methodName
  {
    if log != [] {
      NamedEmptyIffMiss(log[1..], methodName);
      if log[0].name != methodName {
        forall i | 0 <= i < |log| && Named(log, methodName) == []
          ensures log[i].name != methodName
        {
          if i > 0 {
            assert log[i] == log[1..][i - 1];
          }
        }
      }
    }
  }

  /** The filter distributes over concatenation of logs. */
  lemma {:induction false} NamedConcat<A>(a: seq<MethodInvocation<A>>, b: seq<MethodInvocation<A>>, methodName: string)
    ensures Named(a + b, methodName) == Named(a, methodName) + Named(b, methodName)
  {
    if a == [] {
      assert a + b == b;
    } else {
      var ab := a + b;
      assert ab[0] == a[0];
      assert ab[1..] == a[1..] + b;
      NamedConcat(a[1..], b, methodName);
      var head := if a[0].name == methodName then [a[0]] else [];
      assert Named(ab, methodName) == head + Named(a[1..] + b, methodName);
      assert Named(a, methodName) == head + Named(a[1..], methodName);
    }
  }

  /** Appending one record changes the result of a query for its own name only, at the end. */
  lemma NamedAppend<A>(log: seq<MethodInvocation<A>>, x: MethodInvocation<A>, methodName: string)
    ensures Named(log + [x], methodName) ==
            if x.name == methodName then Named(log, methodName) + [x] else Named(log, methodName)
  {
    NamedConcat(log, [x], methodName);
    assert [x][1..] == [];
  }

  /** A log recorded entirely under `methodName` is returned whole. */
  lemma {:induction false} NamedKeepsAll<A>(log: seq<MethodInvocation<A>>, methodName: string)
    requires forall i :: 0 <= i < |log| ==> log[i].name == methodName
    ensures Named(log, methodName) == log
  {
    if log != [] {
      NamedKeepsAll(log[1..], methodName);
    }
  }

  /**
    Filtering a query result again by the same name changes nothing: an
    algebraic property of the filter. That two queries on the same log agree
    needs no lemma, since `ForMethod` is a function that only reads the log.
  */
  lemma {:induction false} NamedIdempotent<A>(log: seq<MethodInvocation<A>>, methodName: string)
    ensures Named(Named(log, methodName), methodName) == Named(log, methodName)
  {
    NamedKeepsAll(Named(log, methodName), methodName);
  }

  /** Exact filtering: a query for one name never yields a record of another name. */
  lemma {:induction false} NamedExclusive<A>(log: seq<MethodInvocation<A>>, m1: string, m2: string)
    requires m1 != m2
    ensures Named(Named(log, m1), m2) == []
  {
    NamedEmptyIffMiss(Named(log, m1), m2);
  }
}
