# openapi-request-security, modelled in Dafny

`openapiRequestSecurity({ definition, securities })` returns a function that
decides whether a request satisfies the security requirements of the OpenAPI
operation it targets. It looks up the operation under `paths[path]` and the
lower-cased request method. It then tries the operation's security
requirement objects in declared order (alternatives, combined by OR, as in
the Security Requirement Object of the OpenAPI 3.0.3 specification, section
4.8.30). Within one object it calls the caller-supplied checking function of
every scheme, in key order, passing `{ definition, request, path, scopes }`.
An object holds when all of its checks pass (AND). The first object that holds
returns the request itself. A scheme with no checking function aborts with
`SecuringFunctionNotFound`. When every object has failed, the evaluation
raises `RequestNotSecured` carrying one `{ name, error }` record per failed
check.

The project has four modules:

- `SecurityModel` (`security_model.dfy`): the data model (definition,
  operation, requirement object, registry of checking functions, the three
  error kinds as one datatype) and the reference semantics as pure recursive
  functions. `Evaluate` gives the result of an evaluation together with the
  sequence of checking calls it makes.
- `Evaluator` (`evaluator.dfy`): the evaluator as the source runs it. Two
  nested `while` loops, a counter of passed checks, one failure list shared by
  all alternatives, and early exits. It is proved to return exactly what
  `Evaluate` prescribes, call trace included.
- `SecurityProperties` (`properties.dfy`): independent definitions (an object
  holds when every scheme passes; one call per scheme in declared order; one
  failure record per failed call) and the lemmas that tie `Evaluate` to them.
- `Scenarios` (`scenarios.dfy`): the five scenarios of `tests.js`, evaluated on
  the model.

Checking functions are a deterministic oracle: a registry maps a scheme name
to `Some(check)` or to `None` (missing, or not a function), and `check` maps
its argument to `Pass` or `Fail(error)`. The evaluator's own calls are
sequential: index.js:39 awaits each check inside the loop. So the model is a
sequential method that also returns, as ghost, the trace of calls it made.

Three points of the code's behaviour shape the model:

- The checks of one alternative do not run concurrently: the code awaits
  each check in turn, in key order (index.js:36-39).
- A scheme with no checking function aborts the evaluation only when the walk
  reaches it: the schemes before it in the same object have already been
  called (index.js:37). `AlternativeAbortsAt` and `MissingFunctionAborts`
  state what happens.
- An empty object `{}` holds at once, since 0 passes equal 0 keys
  (index.js:45). So once alternatives exist and all have failed, the failure
  list is never empty, and the final `return request` (index.js:52) is
  reached only when there is no alternative at all. The `RunAlternatives`
  contract and `SucceedsIff` state this.

## Model

| member | source | states |
|---|---|---|
| `SecurityModel.ToLower` | index.js:30 | the method key has the request method's length, each ASCII capital replaced by its small letter, and no capital letter left |
| `SecurityModel.RunAlternative` | index.js:36-44 | walking one requirement object makes one call per passed or failed check, never more calls than keys; every key is called when no function is missing; the scheme it stops at has no checking function; every called scheme has one |
| `SecurityModel.RunAlternatives` | index.js:34-48 | an abort names a scheme with no checking function; every called scheme has one; when alternatives exist and all fail, at least one failure is recorded, so the post-loop success (index.js:52) needs an empty list of alternatives |
| `SecurityModel.Evaluate` | index.js:29-53 | every success returns the very request it was given |
| `Evaluator.OpenapiRequestSecurity` | index.js:29-53 | the loop-based evaluator returns exactly the result and makes exactly the calls, in order, that `Evaluate` prescribes |
| `Evaluator.CheckRequirement` | index.js:35-44 | the inner loop returns the missing scheme (if any) and the count of passed checks, and extends the shared failure list and the call trace exactly as `RunAlternative` prescribes |
| `SecurityProperties.AlternativeIsConjunction` | index.js:45 | an alternative passes (no missing function and successes equal to the number of keys) if and only if every scheme in it passes |
| `SecurityProperties.AlternativeCompletes` | index.js:36-37 | the walk over an object runs to its end if and only if every scheme in it has a checking function |
| `SecurityProperties.AlternativeCallsInOrder` | index.js:36-39 | the calls for one object are a prefix of one call per key in key order with that key's scopes, and all of them when no function is missing |
| `SecurityProperties.AlternativeFailures` | index.js:38-43 | the failures pushed for one object are one `{name, error}` record per failed call, in call order, with the error as thrown |
| `SecurityProperties.AlternativeAbortsAt` | index.js:37 | the walk stops at the first key with no checking function, names it, and has called exactly the keys before it |
| `SecurityProperties.EachSchemeOnce` | index.js:36 | with distinct keys, when no checking function is missing, the walk over one object calls every scheme exactly once, at its own key position |
| `SecurityProperties.CallsFollowDeclaredOrder` | index.js:34-44 | the calls of the whole walk are a prefix of one call per scheme of every alternative, alternative by alternative, key by key |
| `SecurityProperties.FirstSatisfiedWins` | index.js:45-47 | when alternative k is the first that holds, the walk succeeds there after calling every scheme of alternatives 0..k and no later one |
| `SecurityProperties.SatisfiedIffSomeAlternativeHolds` | index.js:34-47 | the walk succeeds if and only if some alternative is the first to hold |
| `SecurityProperties.ExhaustedIffNoneHolds` | index.js:34-48 | the loop runs out of alternatives if and only if every alternative is checked to the end and none holds |
| `SecurityProperties.ExhaustedRecordsEveryFailure` | index.js:41-49 | after running out, every scheme of every alternative was called once in declared order (total = sum of object sizes), and the failure list has one record per failed call, in call order |
| `SecurityProperties.AbortsAtFirstMissing` | index.js:37 | a scheme with no function, reached in alternative k, aborts the walk naming it, after calling the earlier alternatives and the keys before it |
| `SecurityProperties.MethodCaseIgnored` | index.js:30 | the operation lookup gives the same answer for a method and its lower-cased form |
| `SecurityProperties.OperationNotFoundIff` | index.js:30-31 | `OperationNotFound` is raised if and only if no operation exists under the path and lower-cased method, and then no check is called |
| `SecurityProperties.NoSecurityPassesThrough` | index.js:34 | an operation with no `security` field or an empty list returns the request unchanged with no call |
| `SecurityProperties.EmptyRequirementPasses` | index.js:45-46 | an empty requirement object as first alternative holds at once: the request is returned with no call |
| `SecurityProperties.FirstSatisfiedAlternativeReturnsRequest` | index.js:45-47 | when alternative k is the first that holds, the request itself is returned after exactly the calls of alternatives 0..k, their number the sum of those sizes |
| `SecurityProperties.SucceedsIff` | index.js:29-53 | the evaluation succeeds if and only if the operation exists and it declares no alternative or some alternative is the first to hold; a success returns the request itself |
| `SecurityProperties.MissingFunctionIsNeverCalled` | index.js:37 | `SecuringFunctionNotFound` carries the method and path and names a scheme that has no checking function and was never called |
| `SecurityProperties.MissingFunctionAborts` | index.js:37 | a missing checking function in a reached alternative gives `SecuringFunctionNotFound` naming it, whatever the other outcomes, after exactly the calls before it |
| `SecurityProperties.NotSecuredCarriesEveryFailure` | index.js:41-50 | `RequestNotSecured` is raised if and only if alternatives exist and every one is checked to the end without holding; its non-empty list has one record per failed call, in call order, after one call per scheme of every alternative |
| `SecurityProperties.EveryCheckSeesTheRequest` | index.js:39 | every checking function receives the evaluation's own definition, request and path, and the scopes declared for its key |
| `Scenarios.NoRequirementsPass` | tests.js:7-22 | an operation without `security` returns the request with no call |
| `Scenarios.UnknownMethodNotFound` | tests.js:24-39 | a PATCH where only GET is defined gives `OperationNotFound` |
| `Scenarios.MissingFunctionNamed` | tests.js:41-58 | a required scheme `thing` with no function gives `SecuringFunctionNotFound` naming `thing` |
| `Scenarios.FirstAlternativePasses` | tests.js:87-102 | when `thing1` passes, the request is returned after exactly one call, to `thing1`, with the request, the path and `thing1`'s scopes |
| `Scenarios.AllAlternativesFail` | tests.js:104-130 | when all three checks throw, `RequestNotSecured` carries the three errors in call order after exactly three calls |

## Left out

- Promises and `await`: a checking function is a deterministic function of its argument. A checking function whose outcome depends on its own earlier calls or on outside state is not modelled. A checking function that never settles would hang the evaluation; `Checker` is total, so this is not modelled.
- The real effects of checking functions (network calls, counters); only the trace of calls is recorded.
- Message texts built by `logRoute` and the error constructors (index.js:1-27). Each error keeps the request method and path, and the scheme name where there is one.
- `toLowerCase` beyond ASCII letters: other characters are kept as they are.
- Other JavaScript quirks: the `TypeError` at index.js:30 when `request.method` is not a string (`httpMethod` is always a string); the `TypeError` when `definition` exists but has no `paths`; operation entries that are falsy (`null`) instead of objects; a truthy `security` value that is not an array; registry values that are not functions (they are `None` in the registry); inherited object properties.
- Object key order: a requirement object is the sequence of its keys in the order `Object.keys` returns them. The engine's ordering rule (integer-like keys first) is not modelled.
- Identity of the returned request: the model proves that the value returned is the request given, not that it is the same object.
- tests.js as a harness (its uvu runner, `process.exit`, `console.error`); only its scenarios are modelled.
