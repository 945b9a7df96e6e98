/**
  The recorded-call scenarios of the example test case, replayed against a
  fresh `InvocationStack` as the fake `Foo` would drive it: each fake method
  records its own name and its one argument before returning.

  `Arg` is the universe of argument values these scenarios record: a string,
  or a string-to-string completion handler.
*/
module ExampleTests {
  import opened Invocations
  import opened InvocationStacks

  datatype Arg = Text(value: string) | Callback(handler: string -> string)

  const ReplyPrefix: string := "Foo eventually returned "

  /** The completion handler `Bar.pokeRemoteFoo` passes to `asyncPoke`: the prefix, then the response. */
  function EventualReply(response: string): string
  {
    ReplyPrefix + response
  }

  /**
    `Bar.pokeFooTwiceAndBopItOnce` against a fresh fake: poke "first",
    bop "second", poke "third". The two pokes come back in order, the bop
    alone, and a name never called gives nothing.
  */
  method PokeFooTwiceAndBopItOnce()
    returns (pokes: seq<MethodInvocation<Arg>>, bops: seq<MethodInvocation<Arg>>, neverCalled: seq<MethodInvocation<Arg>>)
    ensures |pokes| == 2 && pokes[0].args == [Text("first")] && pokes[1].args == [Text("third")]
    ensures |bops| == 1 && bops[0].args == [Text("second")]
    ensures neverCalled == []
  {
    var calls := new InvocationStack<Arg>();
    calls.Invoke("poke", [Text("first")]);
    calls.Invoke("bop", [Text("second")]);
    calls.Invoke("poke", [Text("third")]);
    pokes := calls.ForMethod("poke");
    bops := calls.ForMethod("bop");
    neverCalled := calls.ForMethod("neverCalled");
  }

  /**
    `Bar.pokeRemoteFoo` against a fresh fake: one `asyncPoke` is recorded,
    its single argument is the handler that was passed, and calling that
    stored handler with "FAKE RESULT" gives the expected reply.
  */
  method PokeRemoteFoo() returns (invocations: seq<MethodInvocation<Arg>>)
    ensures |invocations| == 1 && invocations[0].name == "asyncPoke"
    ensures invocations[0].args == [Callback(EventualReply)]
    ensures invocations[0].args[0].handler("FAKE RESULT") == "Foo eventually returned FAKE RESULT"
  {
    var calls := new InvocationStack<Arg>();
    calls.Invoke("asyncPoke", [Callback(EventualReply)]);
    invocations := calls.ForMethod("asyncPoke");
  }

  /**
    Two logs, one call each under the same name: each query sees only its
    own log's record.
  */
  method SeparateLogs() returns (fromFirst: seq<MethodInvocation<Arg>>, fromSecond: seq<MethodInvocation<Arg>>)
    ensures fromFirst == [MethodInvocation("poke", [Text("first")])]
    ensures fromSecond == [MethodInvocation("poke", [Text("second")])]
  {
    var first := new InvocationStack<Arg>();
    var second := new InvocationStack<Arg>();
    first.Invoke("poke", [Text("first")]);
    second.Invoke("poke", [Text("second")]);
    fromFirst := first.ForMethod("poke");
    fromSecond := second.ForMethod("poke");
  }
}
