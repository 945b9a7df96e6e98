# SwiftFakes invocation log, modelled in Dafny

SwiftFakes shows a hand-rolled fake object for unit tests. A fake records every
call made on it in an `InvocationStack`. Each entry is a `MethodInvocation`: the
method name plus the ordered list of arguments, stored as opaque `Any` values.
A test then asks the stack for every call recorded under one name, with
`forMethod`, and checks how many there were and what arguments they carried.

The model has three modules:

- `Invocations` (`invocations.dfy`): the record `MethodInvocation<A>`. The arguments
  have a type parameter `A` that stands for Swift's `Any`. The module also holds
  the reference filter `Named` and its two independent descriptions: the
  `Positions` of matching records in the log, and the `Occurrences` count of a
  name. The lemmas about order, completeness, exactness, the empty result,
  appending and idempotence live here.
- `InvocationStacks` (`invocation_stack.dfy`): the class `InvocationStack<A>`. Its
  field `methodInvocations` is a `seq` that `Invoke` updates in place. Its query
  `ForMethod` is a function that reads the object.
- `ExampleTests` (`example_tests.dfy`): the example test case's scenarios, replayed
  on fresh stacks. Each fake method records its name and its one argument. The
  argument universe is `Arg`: a string, or a string-to-string completion handler.

The source does not check that a method name is non-empty. The model follows the
code and accepts any name, the empty string included.

## Model

| member | source | states |
|---|---|---|
| `Invocations.Named` | SwiftFakesTests/ExampleTests.swift:25-30 | the query result is no longer than the log, and every record in it has a name code-point equal to the queried one |
| `Invocations.PositionsFrom` | SwiftFakesTests/ExampleTests.swift:26-29 | the matching indices from a start point are in range, strictly increasing, and each marks a record with the queried name |
| `Invocations.PositionsFromComplete` | SwiftFakesTests/ExampleTests.swift:26-29 | every matching index at or after the start point is among the positions |
| `Invocations.PositionsExact` | SwiftFakesTests/ExampleTests.swift:26-29 | an index is a position exactly when a record with the queried name stands there (both directions) |
| `Invocations.NamedFromSelects` | SwiftFakesTests/ExampleTests.swift:26-29 | filtering a suffix of the log yields, in order, exactly the records at that suffix's matching positions |
| `Invocations.NamedSelects` | SwiftFakesTests/ExampleTests.swift:26-29 | the result is the subsequence of the log at the matching positions, in recording order, record for record, so names and arguments are unchanged |
| `Invocations.NamedCount` | SwiftFakesTests/ExampleTests.swift:26-29 | the result's length equals the number of occurrences of the name in the log |
| `Invocations.NamedEmptyIffMiss` | SwiftFakesTests/ExampleTests.swift:25-29 | the result is empty if and only if no record in the log has the queried name |
| `Invocations.NamedConcat` | SwiftFakesTests/ExampleTests.swift:26-29 | the filter of two concatenated logs is the concatenation of their filters |
| `Invocations.NamedAppend` | SwiftFakesTests/ExampleTests.swift:21-29 | appending one record adds it at the end of its own name's query, and leaves every other name's result unchanged |
| `Invocations.NamedKeepsAll` | SwiftFakesTests/ExampleTests.swift:26-29 | a log recorded entirely under one name is returned whole by that name's query |
| `Invocations.NamedIdempotent` | SwiftFakesTests/ExampleTests.swift:26-29 | the filter is idempotent: filtering a query result again by the same name gives the same result (that two queries on one log agree follows from `ForMethod` being a function that only reads the log) |
| `Invocations.NamedExclusive` | SwiftFakesTests/ExampleTests.swift:28 | for two names that differ as code-point sequences, a query for one never contains a record named by the other |
| `InvocationStacks.InvocationStack.constructor` | SwiftFakesTests/ExampleTests.swift:19 | a fresh stack holds no records, and every query on it is empty |
| `InvocationStacks.InvocationStack.Invoke` | SwiftFakesTests/ExampleTests.swift:21-23 | the log becomes the old log plus exactly one record (name, args) at the end; that name's query gains the record at its end, and every other name's query is unchanged |
| `InvocationStacks.InvocationStack.ForMethod` | SwiftFakesTests/ExampleTests.swift:25-30 | the result holds only records with the queried name and one per occurrence; it is the log's records at the matching positions, in order; it is empty exactly when the name was never recorded; it reads the log and never changes it |
| `ExampleTests.PokeFooTwiceAndBopItOnce` | SwiftFakesTests/ExampleTests.swift:92-107 | after poke "first", bop "second", poke "third": two pokes, with arguments ["first"] then ["third"]; one bop, with ["second"]; nothing under a name that was never called |
| `ExampleTests.PokeRemoteFoo` | SwiftFakesTests/ExampleTests.swift:110-120 | after asyncPoke with the handler: one record, whose argument list is exactly the passed handler, stored verbatim; calling it on "FAKE RESULT" gives "Foo eventually returned FAKE RESULT" |
| `ExampleTests.SeparateLogs` | SwiftFakesTests/ExampleTests.swift:84-90 | two stacks that each record one call under the same name each return only their own record |

## Left out

- UIKit and XCTest (the imports, the `XCTestCase` subclass, `setUp`, `XCTAssert`): these are test-framework plumbing. The assertions of the two tests are stated as `ensures` clauses of the scenario methods.
- The `Bar`, `Foo` and `Fake_Foo` classes and the subclass-override dispatch: these are example application code. The calls they make into `InvocationStack` are replayed directly by the scenario methods.
- Swift's `Any` and its down-casts (`as String`, `as (String) -> String`): the core is generic over the argument type. The scenarios use the `Arg` datatype, whose constructors take the place of the dynamic type checks.
- `MethodInvocation` is a Swift class with constant fields. The model treats it as an immutable value, so reference identity between records is not modelled. Nothing in the source compares records by identity.
- The `InvocationStack` type alias for `[MethodInvocation]`: the model uses `seq<MethodInvocation<A>>` directly.
- Invocations.Named: method names are compared code point by code point, while Swift's `String ==` treats canonically equivalent strings (such as a precomposed and a decomposed accented letter) as equal. The model agrees with Swift only when all names are in one normalization form. The fake's names (`poke`, `bop`, `asyncPoke`) are plain ASCII, so they are covered. Likewise, `NamedExclusive`'s `m1 != m2` means "not canonically equivalent" only under that assumption.
- InvocationStacks.InvocationStack.ForMethod: it inherits the code-point name comparison of `Invocations.Named`, so it matches Swift's query only for names in one normalization form.
- The completion handler closure of `pokeRemoteFoo` is represented by the function `ExampleTests.EventualReply`, which has no contract of its own. Only the `asyncPoke` scenario calls it, to state what that test asserts about the stored handler.
- Concurrency: `asyncPoke` is an ordinary synchronous call, and there is no locking.
