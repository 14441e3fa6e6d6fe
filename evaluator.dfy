/** The evaluator as the source runs it: one loop over the alternatives, one
    over the scheme names of each, a counter of passed checks, one failure
    list shared by all alternatives, and early exits from inside the loops. */
module Evaluator {
  import opened SecurityModel

  /** The function returned by `openapiRequestSecurity({ definition, securities })`,
      applied to `{ request, path }`. Besides its result it returns, as ghost,
      the calls it made to checking functions, in order; both are exactly what
      the reference semantics `Evaluate` prescribes. */
  method OpenapiRequestSecurity(definition: Option<Definition>, securities: Registry, request: Request, path: string)
    returns (result: Result, ghost calls: seq<Invocation>)
    ensures result == Evaluate(definition, securities, request, path).result
    ensures calls == Evaluate(definition, securities, request, path).calls
  {
    var operation := Resolve(definition, path, request.httpMethod);
    if operation.None? {
      return Err(OperationNotFound(request.httpMethod, path)), [];
    }
    var env := Env(definition, request, path);
    var alternatives := Alternatives(operation.value);
    var errors: seq<SchemeFailure> := [];
    calls := [];
    var i := 0;
    assert alternatives[0..] == alternatives;
    ResumeAssociates([], [], [], [], RunAlternatives(alternatives, securities, env));
    while i < |alternatives|
      invariant 0 <= i <= |alternatives|
      invariant Resume(errors, calls, RunAlternatives(alternatives[i..], securities, env))
             == RunAlternatives(alternatives, securities, env)
    {
      var requirement := alternatives[i];
      AlternativeStep(alternatives, i, securities, env);
      ghost var a := RunAlternative(requirement, securities, env);
      ResumeAssociates(errors, calls, a.failures, a.calls, RunAlternatives(alternatives[i + 1..], securities, env));
      var missing, successfulSectionCount;
      missing, successfulSectionCount, errors, calls := CheckRequirement(requirement, securities, env, errors, calls);
      if missing.Some? {
        return Err(SecuringFunctionNotFound(request.httpMethod, path, missing.value)), calls;
      }
      if successfulSectionCount == |requirement| {
        return Ok(request), calls;
      }
      i := i + 1;
    }
    assert alternatives[i..] == [];
    assert errors + [] == errors && calls + [] == calls;
    if |errors| > 0 {
      return Err(RequestNotSecured(request.httpMethod, path, errors)), calls;
    }
    return Ok(request), calls;
  }

  /** The inner loop of `openapiRequestSecurity`: checks the schemes of one
      requirement object in key order, counting the passed checks and pushing
      one failure per failed check onto the shared `errors` list; stops at the
      first scheme with no checking function and reports it in `missing`. */
  method CheckRequirement(requirement: Requirement, securities: Registry, env: Env,
                          errors: seq<SchemeFailure>, ghost calls: seq<Invocation>)
    returns (missing: Option<string>, successfulSectionCount: nat,
             errors': seq<SchemeFailure>, ghost calls': seq<Invocation>)
    ensures missing == RunAlternative(requirement, securities, env).missing
    ensures successfulSectionCount == RunAlternative(requirement, securities, env).passed
    ensures errors' == errors + RunAlternative(requirement, securities, env).failures
    ensures calls' == calls + RunAlternative(requirement, securities, env).calls
  {
    successfulSectionCount, errors', calls' := 0, errors, calls;
    ghost var failed: seq<SchemeFailure>, made: seq<Invocation> := [], [];
    var j := 0;
    assert requirement[0..] == requirement;
    JoinAssociates(0, [], [], 0, [], [], RunAlternative(requirement, securities, env));
    while j < |requirement|
      invariant 0 <= j <= |requirement|
      invariant errors' == errors + failed && calls' == calls + made
      invariant Join(successfulSectionCount, failed, made, RunAlternative(requirement[j..], securities, env))
             == RunAlternative(requirement, securities, env)
    {
      var name := requirement[j].name;
      var securing := Lookup(securities, name);
      if securing.None? {
        assert requirement[j..][0] == requirement[j];
        assert failed + [] == failed && made + [] == made;
        return Some(name), successfulSectionCount, errors', calls';
      }
      var context := env.With(requirement[j].scopes);
      var outcome := securing.value(context);
      SchemeStep(requirement, j, securities, env);
      match outcome {
        case Pass =>
          JoinAssociates(successfulSectionCount, failed, made, 1, [], [Invocation(name, context)],
            RunAlternative(requirement[j + 1..], securities, env));
          assert failed + [] == failed;
          successfulSectionCount := successfulSectionCount + 1;
        case Fail(error) =>
          JoinAssociates(successfulSectionCount, failed, made, 0, [SchemeFailure(name, error)], [Invocation(name, context)],
            RunAlternative(requirement[j + 1..], securities, env));
          errors', failed := errors' + [SchemeFailure(name, error)], failed + [SchemeFailure(name, error)];
      }
      calls', made := calls' + [Invocation(name, context)], made + [Invocation(name, context)];
      j := j + 1;
    }
    assert requirement[j..] == [];
    assert failed + [] == failed && made + [] == made;
    missing := None;
  }

  lemma JoinAssociates(p1: nat, f1: seq<SchemeFailure>, c1: seq<Invocation>,
                       p2: nat, f2: seq<SchemeFailure>, c2: seq<Invocation>, rest: AltRun)
    ensures Join(p1, f1, c1, Join(p2, f2, c2, rest)) == Join(p1 + p2, f1 + f2, c1 + c2, rest)
  {
    assert (f1 + f2) + rest.failures == f1 + (f2 + rest.failures);
    assert (c1 + c2) + rest.calls == c1 + (c2 + rest.calls);
  }

  lemma ResumeAssociates(f1: seq<SchemeFailure>, c1: seq<Invocation>,
                         f2: seq<SchemeFailure>, c2: seq<Invocation>, t: Tally)
    ensures Resume(f1, c1, Resume(f2, c2, t)) == Resume(f1 + f2, c1 + c2, t)
  {
    assert (c1 + c2) + t.calls == c1 + (c2 + t.calls);
    if t.Exhausted? {
      assert (f1 + f2) + t.failures == f1 + (f2 + t.failures);
    }
  }

  lemma SchemeStep(requirement: Requirement, j: nat, securities: Registry, env: Env)
    requires j < |requirement| && Lookup(securities, requirement[j].name).Some?
    ensures var scheme := requirement[j];
            var context := env.With(scheme.scopes);
            var rest := RunAlternative(requirement[j + 1..], securities, env);
            RunAlternative(requirement[j..], securities, env)
              == match Lookup(securities, scheme.name).value(context)
                 case Pass => Join(1, [], [Invocation(scheme.name, context)], rest)
                 case Fail(e) => Join(0, [SchemeFailure(scheme.name, e)], [Invocation(scheme.name, context)], rest)
  {
    assert requirement[j..][0] == requirement[j] && requirement[j..][1..] == requirement[j + 1..];
  }

  lemma AlternativeStep(alternatives: seq<Requirement>, i: nat, securities: Registry, env: Env)
    requires i < |alternatives|
    ensures var a := RunAlternative(alternatives[i], securities, env);
            RunAlternatives(alternatives[i..], securities, env)
              == if a.missing.Some? then Aborted(a.missing.value, a.calls)
                 else if a.passed == |alternatives[i]| then Satisfied(a.calls)
                 else Resume(a.failures, a.calls, RunAlternatives(alternatives[i + 1..], securities, env))
  {
    assert alternatives[i..][0] == alternatives[i] && alternatives[i..][1..] == alternatives[i + 1..];
  }
}
