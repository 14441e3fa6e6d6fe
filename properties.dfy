/** What the evaluator promises, stated against independent definitions:
    an alternative is satisfied when every one of its schemes passes (AND),
    the first satisfied alternative wins (OR), checks happen in declared
    order, failures are reported one per failed check, and every success
    hands back the request itself. */
module SecurityProperties {
  import opened SecurityModel

  /** A checking function is registered under the scheme's name. */
  predicate Registered(securities: Registry, scheme: Scheme) {
    Lookup(securities, scheme.name).Some?
  }

  /** The scheme's checking function passes when given the scheme's scopes. */
  predicate SchemePasses(securities: Registry, env: Env, scheme: Scheme) {
    match Lookup(securities, scheme.name)
    case None => false
    case Some(check) => check(env.With(scheme.scopes)).Pass?
  }

  predicate AllRegistered(requirement: Requirement, securities: Registry) {
    forall i | 0 <= i < |requirement| :: Registered(securities, requirement[i])
  }

  /** The requirement object holds: every scheme in it passes. */
  predicate Satisfies(requirement: Requirement, securities: Registry, env: Env) {
    forall i | 0 <= i < |requirement| :: SchemePasses(securities, env, requirement[i])
  }

  /** The keys of an object are distinct. */
  predicate DistinctNames(requirement: Requirement) {
    forall i, j | 0 <= i < j < |requirement| :: requirement[i].name != requirement[j].name
  }

  /** Alternative `k` is the first one that holds, and every alternative
      before it can be checked to the end. */
  predicate WinsAt(alternatives: seq<Requirement>, securities: Registry, env: Env, k: nat) {
    && k < |alternatives|
    && Satisfies(alternatives[k], securities, env)
    && forall j | 0 <= j < k :: AllRegistered(alternatives[j], securities) && !Satisfies(alternatives[j], securities, env)
  }

  /** One call per scheme, in key order, each with the scheme's own scopes. */
  function Invocations(requirement: Requirement, env: Env): seq<Invocation> {
    seq(|requirement|, i requires 0 <= i < |requirement| => Invocation(requirement[i].name, env.With(requirement[i].scopes)))
  }

  /** The calls of every scheme of every alternative, in declared order. */
  function AllInvocations(alternatives: seq<Requirement>, env: Env): seq<Invocation> {
    if alternatives == [] then [] else Invocations(alternatives[0], env) + AllInvocations(alternatives[1..], env)
  }

  /** The number of schemes summed over the alternatives. */
  function TotalSchemes(alternatives: seq<Requirement>): nat {
    if alternatives == [] then 0 else |alternatives[0]| + TotalSchemes(alternatives[1..])
  }

  /** The failure record a call leaves, if its checking function fails. */
  function FailureOf(call: Invocation, securities: Registry): seq<SchemeFailure> {
    match Lookup(securities, call.name)
    case None => []
    case Some(check) =>
      match check(call.context)
      case Pass => []
      case Fail(e) => [SchemeFailure(call.name, e)]
  }

  /** One failure record per failing call, in call order. */
  function FailedCalls(calls: seq<Invocation>, securities: Registry): seq<SchemeFailure> {
    if calls == [] then [] else FailureOf(calls[0], securities) + FailedCalls(calls[1..], securities)
  }

  // ---------------------------------------------------------------------
  // Helpers about the reference definitions

  lemma InvocationsCons(requirement: Requirement, env: Env)
    requires requirement != []
    ensures Invocations(requirement, env)
         == [Invocation(requirement[0].name, env.With(requirement[0].scopes))] + Invocations(requirement[1..], env)
  {
    assert Invocations(requirement, env)[1..] == Invocations(requirement[1..], env);
  }

  lemma {:induction false} FailedCallsAppend(a: seq<Invocation>, b: seq<Invocation>, securities: Registry)
    ensures FailedCalls(a + b, securities) == FailedCalls(a, securities) + FailedCalls(b, securities)
  {
    if a == [] {
      assert a + b == b;
    } else {
      assert (a + b)[0] == a[0] && (a + b)[1..] == a[1..] + b;
      FailedCallsAppend(a[1..], b, securities);
    }
  }

  lemma {:induction false} AllInvocationsLength(alternatives: seq<Requirement>, env: Env)
    ensures |AllInvocations(alternatives, env)| == TotalSchemes(alternatives)
  {
    if alternatives != [] {
      AllInvocationsLength(alternatives[1..], env);
    }
  }

  lemma PrefixExtends<T>(a: seq<T>, b: seq<T>, c: seq<T>)
    requires b <= c
    ensures a + b <= a + c
  {
    assert (a + c)[..|a + b|] == a + b;
  }

  lemma PrefixOfAppend<T>(a: seq<T>, b: seq<T>, c: seq<T>)
    requires a <= b
    ensures a <= b + c
  {
    assert (b + c)[..|a|] == b[..|a|];
  }

  /** Drops the first alternative from the hypotheses of the lemmas below. */
  lemma ShiftEarlier(alternatives: seq<Requirement>, securities: Registry, env: Env, k: nat)
    requires 0 < k <= |alternatives|
    requires forall j | 0 <= j < k :: AllRegistered(alternatives[j], securities) && !Satisfies(alternatives[j], securities, env)
    ensures forall j | 0 <= j < k - 1 :: AllRegistered(alternatives[1..][j], securities) && !Satisfies(alternatives[1..][j], securities, env)
  {
    forall j | 0 <= j < k - 1
      ensures AllRegistered(alternatives[1..][j], securities) && !Satisfies(alternatives[1..][j], securities, env)
    {
      assert alternatives[1..][j] == alternatives[j + 1];
    }
  }

  // ---------------------------------------------------------------------
  // One alternative: AND over its schemes

  /** An alternative passes (no scheme missing, as many passes as schemes)
      exactly when every scheme in it passes. */
  lemma {:induction false} AlternativeIsConjunction(requirement: Requirement, securities: Registry, env: Env)
    ensures var a := RunAlternative(requirement, securities, env);
            (a.missing.None? && a.passed == |requirement|) <==> Satisfies(requirement, securities, env)
  {
    if requirement != [] {
      AlternativeIsConjunction(requirement[1..], securities, env);
      assert forall i | 0 <= i < |requirement| - 1 :: requirement[1..][i] == requirement[i + 1];
      if Satisfies(requirement[1..], securities, env) && SchemePasses(securities, env, requirement[0]) {
        assert forall i | 0 <= i < |requirement| :: SchemePasses(securities, env, requirement[i]) by {
          forall i | 0 <= i < |requirement| ensures SchemePasses(securities, env, requirement[i]) {
            if i > 0 { assert requirement[i] == requirement[1..][i - 1]; }
          }
        }
      }
    }
  }

  /** The walk over an alternative runs to its end exactly when every scheme
      in it has a checking function. */
  lemma {:induction false} AlternativeCompletes(requirement: Requirement, securities: Registry, env: Env)
    ensures RunAlternative(requirement, securities, env).missing.None? <==> AllRegistered(requirement, securities)
  {
    if requirement != [] {
      AlternativeCompletes(requirement[1..], securities, env);
      assert forall i | 0 <= i < |requirement| - 1 :: requirement[1..][i] == requirement[i + 1];
      if AllRegistered(requirement[1..], securities) && Registered(securities, requirement[0]) {
        forall i | 0 <= i < |requirement| ensures Registered(securities, requirement[i]) {
          if i > 0 { assert requirement[i] == requirement[1..][i - 1]; }
        }
      }
    }
  }

  /** The calls made for an alternative are a prefix of one call per scheme in
      key order, each with that scheme's scopes; all of them when the walk
      runs to the end. */
  lemma {:induction false} AlternativeCallsInOrder(requirement: Requirement, securities: Registry, env: Env)
    ensures var a := RunAlternative(requirement, securities, env);
            && a.calls <= Invocations(requirement, env)
            && (a.missing.None? ==> a.calls == Invocations(requirement, env))
  {
    if requirement != [] {
      AlternativeCallsInOrder(requirement[1..], securities, env);
      InvocationsCons(requirement, env);
      var a := RunAlternative(requirement, securities, env);
      if Lookup(securities, requirement[0].name).Some? {
        var rest := RunAlternative(requirement[1..], securities, env);
        PrefixExtends([Invocation(requirement[0].name, env.With(requirement[0].scopes))], rest.calls, Invocations(requirement[1..], env));
      }
    }
  }

  /** The failures of an alternative are one record per failed call, in call
      order, each with the error its checking function produced. */
  lemma {:induction false} AlternativeFailures(requirement: Requirement, securities: Registry, env: Env)
    ensures var a := RunAlternative(requirement, securities, env);
            a.failures == FailedCalls(a.calls, securities)
  {
    if requirement != [] && Lookup(securities, requirement[0].name).Some? {
      AlternativeFailures(requirement[1..], securities, env);
      var a := RunAlternative(requirement, securities, env);
      var rest := RunAlternative(requirement[1..], securities, env);
      assert a.calls[0] == Invocation(requirement[0].name, env.With(requirement[0].scopes));
      assert a.calls[1..] == rest.calls;
    }
  }

  /** The walk over an alternative stops at its first scheme with no checking
      function: it reports that scheme, and only the schemes before it were
      called. */
  lemma {:induction false} AlternativeAbortsAt(requirement: Requirement, securities: Registry, env: Env, m: nat)
    requires m < |requirement| && !Registered(securities, requirement[m])
    requires AllRegistered(requirement[..m], securities)
    ensures RunAlternative(requirement, securities, env).missing == Some(requirement[m].name)
    ensures RunAlternative(requirement, securities, env).calls == Invocations(requirement[..m], env)
  {
    if m > 0 {
      assert requirement[..m][0] == requirement[0];
      var tail := requirement[1..][..m - 1];
      assert tail == requirement[..m][1..];
      forall i | 0 <= i < m - 1 ensures Registered(securities, tail[i]) {
        assert tail[i] == requirement[..m][i + 1];
      }
      AlternativeAbortsAt(requirement[1..], securities, env, m - 1);
      InvocationsCons(requirement[..m], env);
    }
  }

  /** With distinct keys, every scheme of an alternative run to its end is
      called exactly once, at its own position. */
  lemma EachSchemeOnce(requirement: Requirement, securities: Registry, env: Env, i: nat, k: nat)
    requires DistinctNames(requirement) && RunAlternative(requirement, securities, env).missing.None?
    requires i < |requirement| && k < |RunAlternative(requirement, securities, env).calls|
    ensures RunAlternative(requirement, securities, env).calls[k].name == requirement[i].name <==> k == i
  {
    AlternativeCallsInOrder(requirement, securities, env);
  }

  // ---------------------------------------------------------------------
  // The alternatives: OR, in declared order

  /** The checks of the whole walk are made in declared order: the calls are a
      prefix of one call per scheme of every alternative, alternative by
      alternative and key by key. No scheme is skipped and none repeated. */
  lemma {:induction false} CallsFollowDeclaredOrder(alternatives: seq<Requirement>, securities: Registry, env: Env)
    ensures RunAlternatives(alternatives, securities, env).calls <= AllInvocations(alternatives, env)
  {
    if alternatives != [] {
      var a := RunAlternative(alternatives[0], securities, env);
      AlternativeCallsInOrder(alternatives[0], securities, env);
      if a.missing.Some? || a.passed == |alternatives[0]| {
        PrefixOfAppend(a.calls, Invocations(alternatives[0], env), AllInvocations(alternatives[1..], env));
      } else {
        CallsFollowDeclaredOrder(alternatives[1..], securities, env);
        PrefixExtends(a.calls, RunAlternatives(alternatives[1..], securities, env).calls, AllInvocations(alternatives[1..], env));
      }
    }
  }

  /** When alternative `k` is the first that holds, the walk succeeds there,
      having called every scheme of alternatives 0 to k and nothing after. */
  lemma {:induction false} FirstSatisfiedWins(alternatives: seq<Requirement>, securities: Registry, env: Env, k: nat)
    requires WinsAt(alternatives, securities, env, k)
    ensures RunAlternatives(alternatives, securities, env) == Satisfied(AllInvocations(alternatives[..k + 1], env))
  {
    AlternativeIsConjunction(alternatives[0], securities, env);
    AlternativeCompletes(alternatives[0], securities, env);
    AlternativeCallsInOrder(alternatives[0], securities, env);
    if k == 0 {
      assert alternatives[..1][0] == alternatives[0] && alternatives[..1][1..] == [];
    } else {
      ShiftEarlier(alternatives, securities, env, k);
      assert alternatives[1..][k - 1] == alternatives[k];
      FirstSatisfiedWins(alternatives[1..], securities, env, k - 1);
      assert alternatives[..k + 1][0] == alternatives[0] && alternatives[..k + 1][1..] == alternatives[1..][..k];
    }
  }

  /** The walk succeeds exactly when some alternative is the first to hold. */
  lemma {:induction false} SatisfiedIffSomeAlternativeHolds(alternatives: seq<Requirement>, securities: Registry, env: Env)
    ensures RunAlternatives(alternatives, securities, env).Satisfied?
        <==> exists k: nat :: WinsAt(alternatives, securities, env, k)
  {
    if exists k: nat :: WinsAt(alternatives, securities, env, k) {
      var k: nat :| WinsAt(alternatives, securities, env, k);
      FirstSatisfiedWins(alternatives, securities, env, k);
    }
    if alternatives != [] && RunAlternatives(alternatives, securities, env).Satisfied? {
      var a := RunAlternative(alternatives[0], securities, env);
      AlternativeIsConjunction(alternatives[0], securities, env);
      AlternativeCompletes(alternatives[0], securities, env);
      if a.passed == |alternatives[0]| {
        assert WinsAt(alternatives, securities, env, 0);
      } else {
        SatisfiedIffSomeAlternativeHolds(alternatives[1..], securities, env);
        var k: nat :| WinsAt(alternatives[1..], securities, env, k);
        forall j | 0 <= j < k + 1
          ensures AllRegistered(alternatives[j], securities) && !Satisfies(alternatives[j], securities, env)
        {
          if j > 0 { assert alternatives[j] == alternatives[1..][j - 1]; }
        }
        assert WinsAt(alternatives, securities, env, k + 1);
      }
    }
  }

  /** The walk runs out of alternatives exactly when every alternative can be
      checked to the end and none holds. */
  lemma {:induction false} ExhaustedIffNoneHolds(alternatives: seq<Requirement>, securities: Registry, env: Env)
    ensures RunAlternatives(alternatives, securities, env).Exhausted?
        <==> forall j | 0 <= j < |alternatives| :: AllRegistered(alternatives[j], securities) && !Satisfies(alternatives[j], securities, env)
  {
    if alternatives != [] {
      AlternativeIsConjunction(alternatives[0], securities, env);
      AlternativeCompletes(alternatives[0], securities, env);
      ExhaustedIffNoneHolds(alternatives[1..], securities, env);
      assert forall j | 0 <= j < |alternatives| - 1 :: alternatives[1..][j] == alternatives[j + 1];
      if RunAlternatives(alternatives, securities, env).Exhausted? {
        forall j | 0 <= j < |alternatives|
          ensures AllRegistered(alternatives[j], securities) && !Satisfies(alternatives[j], securities, env)
        {
          if j > 0 { assert alternatives[j] == alternatives[1..][j - 1]; }
        }
      }
    }
  }

  /** When the walk runs out of alternatives, every scheme of every
      alternative was called once, in declared order, and the failure list
      holds one record per failed call, in call order, with its error as
      thrown. */
  lemma {:induction false} ExhaustedRecordsEveryFailure(alternatives: seq<Requirement>, securities: Registry, env: Env)
    ensures var t := RunAlternatives(alternatives, securities, env);
            t.Exhausted? ==>
              && t.calls == AllInvocations(alternatives, env)
              && |t.calls| == TotalSchemes(alternatives)
              && t.failures == FailedCalls(t.calls, securities)
  {
    AllInvocationsLength(alternatives, env);
    var t := RunAlternatives(alternatives, securities, env);
    if alternatives != [] && t.Exhausted? {
      var a := RunAlternative(alternatives[0], securities, env);
      var rest := RunAlternatives(alternatives[1..], securities, env);
      AlternativeCallsInOrder(alternatives[0], securities, env);
      AlternativeFailures(alternatives[0], securities, env);
      ExhaustedRecordsEveryFailure(alternatives[1..], securities, env);
      FailedCallsAppend(a.calls, rest.calls, securities);
    }
  }

  /** When alternative `k` is reached and its scheme `m` is the first with no
      checking function, the walk aborts naming that scheme, after calling the
      schemes of the earlier alternatives and those before `m`. */
  lemma {:induction false} AbortsAtFirstMissing(alternatives: seq<Requirement>, securities: Registry, env: Env, k: nat, m: nat)
    requires k < |alternatives| && m < |alternatives[k]|
    requires !Registered(securities, alternatives[k][m]) && AllRegistered(alternatives[k][..m], securities)
    requires forall j | 0 <= j < k :: AllRegistered(alternatives[j], securities) && !Satisfies(alternatives[j], securities, env)
    ensures RunAlternatives(alternatives, securities, env)
         == Aborted(alternatives[k][m].name, AllInvocations(alternatives[..k], env) + Invocations(alternatives[k][..m], env))
  {
    if k == 0 {
      AlternativeAbortsAt(alternatives[0], securities, env, m);
    } else {
      AlternativeIsConjunction(alternatives[0], securities, env);
      AlternativeCompletes(alternatives[0], securities, env);
      AlternativeCallsInOrder(alternatives[0], securities, env);
      ShiftEarlier(alternatives, securities, env, k);
      assert alternatives[1..][k - 1] == alternatives[k];
      AbortsAtFirstMissing(alternatives[1..], securities, env, k - 1, m);
      assert alternatives[..k][0] == alternatives[0] && alternatives[..k][1..] == alternatives[1..][..k - 1];
    }
  }

  // ---------------------------------------------------------------------
  // The whole evaluation

  /** The operation is looked up under the lower-cased method, so the case of
      the request method does not matter. */
  lemma MethodCaseIgnored(definition: Option<Definition>, path: string, httpMethod: string)
    ensures Resolve(definition, path, httpMethod) == Resolve(definition, path, ToLower(httpMethod))
  {
    assert ToLower(ToLower(httpMethod)) == ToLower(httpMethod);
  }

  /** OperationNotFound is raised exactly when no operation is found, and then
      no checking function is called. */
  lemma OperationNotFoundIff(definition: Option<Definition>, securities: Registry, request: Request, path: string)
    ensures var e := Evaluate(definition, securities, request, path);
            && (e.result.Err? && e.result.error.OperationNotFound? <==> Resolve(definition, path, request.httpMethod).None?)
            && (Resolve(definition, path, request.httpMethod).None? ==>
                  e.result == Err(OperationNotFound(request.httpMethod, path)) && e.calls == [])
  {
  }

  /** An operation with no `security` field or an empty list lets the request
      through unchanged without calling any checking function. */
  lemma NoSecurityPassesThrough(definition: Option<Definition>, securities: Registry, request: Request, path: string)
    requires Resolve(definition, path, request.httpMethod).Some?
    requires Alternatives(Resolve(definition, path, request.httpMethod).value) == []
    ensures Evaluate(definition, securities, request, path) == Evaluation(Ok(request), [])
  {
  }

  /** An empty requirement object `{}` holds at once: when it is the first
      alternative the request passes without any call. */
  lemma EmptyRequirementPasses(definition: Option<Definition>, securities: Registry, request: Request, path: string)
    requires Resolve(definition, path, request.httpMethod).Some?
    requires var alternatives := Alternatives(Resolve(definition, path, request.httpMethod).value);
             alternatives != [] && alternatives[0] == []
    ensures Evaluate(definition, securities, request, path) == Evaluation(Ok(request), [])
  {
  }

  /** The first alternative that holds decides: the request itself is
      returned, and the calls are exactly one per scheme of that alternative
      and the ones before it, in declared order; no later scheme is called. */
  lemma FirstSatisfiedAlternativeReturnsRequest(definition: Option<Definition>, securities: Registry,
                                               request: Request, path: string, k: nat)
    requires Resolve(definition, path, request.httpMethod).Some?
    requires WinsAt(Alternatives(Resolve(definition, path, request.httpMethod).value), securities, Env(definition, request, path), k)
    ensures var alternatives := Alternatives(Resolve(definition, path, request.httpMethod).value);
            var e := Evaluate(definition, securities, request, path);
            && e == Evaluation(Ok(request), AllInvocations(alternatives[..k + 1], Env(definition, request, path)))
            && |e.calls| == TotalSchemes(alternatives[..k + 1])
  {
    var alternatives := Alternatives(Resolve(definition, path, request.httpMethod).value);
    var env := Env(definition, request, path);
    FirstSatisfiedWins(alternatives, securities, env, k);
    AllInvocationsLength(alternatives[..k + 1], env);
  }

  /** The evaluation succeeds exactly when an operation is found and either it
      declares no alternative or some alternative is the first to hold; a
      success always hands back the request itself. */
  lemma SucceedsIff(definition: Option<Definition>, securities: Registry, request: Request, path: string)
    ensures var e := Evaluate(definition, securities, request, path);
            && (e.result.Ok? ==> e.result.request == request)
            && (e.result.Ok? <==>
                  && Resolve(definition, path, request.httpMethod).Some?
                  && var alternatives := Alternatives(Resolve(definition, path, request.httpMethod).value);
                     (alternatives == [] || exists k: nat :: WinsAt(alternatives, securities, Env(definition, request, path), k)))
  {
    if Resolve(definition, path, request.httpMethod).Some? {
      var alternatives := Alternatives(Resolve(definition, path, request.httpMethod).value);
      SatisfiedIffSomeAlternativeHolds(alternatives, securities, Env(definition, request, path));
    }
  }

  /** SecuringFunctionNotFound names a scheme that has no checking function
      and was never called. */
  lemma MissingFunctionIsNeverCalled(definition: Option<Definition>, securities: Registry, request: Request, path: string)
    ensures var e := Evaluate(definition, securities, request, path);
            e.result.Err? && e.result.error.SecuringFunctionNotFound? ==>
              && e.result.error.httpMethod == request.httpMethod && e.result.error.path == path
              && Lookup(securities, e.result.error.name).None?
              && forall i | 0 <= i < |e.calls| :: e.calls[i].name != e.result.error.name
  {
  }

  /** A scheme with no checking function in a reached alternative aborts the
      evaluation with SecuringFunctionNotFound naming it, whatever the
      outcomes of the other checks; the schemes before it have been called. */
  lemma MissingFunctionAborts(definition: Option<Definition>, securities: Registry, request: Request, path: string,
                              k: nat, m: nat)
    requires Resolve(definition, path, request.httpMethod).Some?
    requires var alternatives := Alternatives(Resolve(definition, path, request.httpMethod).value);
             && k < |alternatives| && m < |alternatives[k]|
             && !Registered(securities, alternatives[k][m]) && AllRegistered(alternatives[k][..m], securities)
             && forall j | 0 <= j < k :: AllRegistered(alternatives[j], securities)
                                      && !Satisfies(alternatives[j], securities, Env(definition, request, path))
    ensures var alternatives := Alternatives(Resolve(definition, path, request.httpMethod).value);
            var env := Env(definition, request, path);
            Evaluate(definition, securities, request, path)
              == Evaluation(Err(SecuringFunctionNotFound(request.httpMethod, path, alternatives[k][m].name)),
                            AllInvocations(alternatives[..k], env) + Invocations(alternatives[k][..m], env))
  {
    var alternatives := Alternatives(Resolve(definition, path, request.httpMethod).value);
    AbortsAtFirstMissing(alternatives, securities, Env(definition, request, path), k, m);
  }

  /** RequestNotSecured is raised exactly when alternatives exist, each can be
      checked to the end and none holds; it then carries one record per failed
      call, in call order, with each error as thrown, after one call per
      scheme of every alternative. */
  lemma NotSecuredCarriesEveryFailure(definition: Option<Definition>, securities: Registry, request: Request, path: string)
    ensures var e := Evaluate(definition, securities, request, path);
            var op := Resolve(definition, path, request.httpMethod);
            var env := Env(definition, request, path);
            && (e.result.Err? && e.result.error.RequestNotSecured? <==>
                  && op.Some? && Alternatives(op.value) != []
                  && forall j | 0 <= j < |Alternatives(op.value)| ::
                       AllRegistered(Alternatives(op.value)[j], securities) && !Satisfies(Alternatives(op.value)[j], securities, env))
            && (e.result.Err? && e.result.error.RequestNotSecured? ==>
                  && e.result.error.httpMethod == request.httpMethod && e.result.error.path == path
                  && e.result.error.errors != []
                  && e.result.error.errors == FailedCalls(e.calls, securities)
                  && e.calls == AllInvocations(Alternatives(op.value), env)
                  && |e.calls| == TotalSchemes(Alternatives(op.value)))
  {
    var op := Resolve(definition, path, request.httpMethod);
    if op.Some? {
      var env := Env(definition, request, path);
      ExhaustedIffNoneHolds(Alternatives(op.value), securities, env);
      ExhaustedRecordsEveryFailure(Alternatives(op.value), securities, env);
    }
  }

  /** Every checking function is called with the evaluation's own definition,
      request and path and the scopes declared for its scheme: the calls are
      a prefix of one call per scheme of every alternative in declared order. */
  lemma EveryCheckSeesTheRequest(definition: Option<Definition>, securities: Registry, request: Request, path: string)
    ensures var e := Evaluate(definition, securities, request, path);
            && (forall i | 0 <= i < |e.calls| ::
                  && e.calls[i].context.definition == definition
                  && e.calls[i].context.request == request
                  && e.calls[i].context.path == path)
            && (Resolve(definition, path, request.httpMethod).Some? ==>
                  e.calls <= AllInvocations(Alternatives(Resolve(definition, path, request.httpMethod).value),
                                            Env(definition, request, path)))
  {
    var op := Resolve(definition, path, request.httpMethod);
    if op.Some? {
      var env := Env(definition, request, path);
      CallsFollowDeclaredOrder(Alternatives(op.value), securities, env);
      InvocationsShareEnv(Alternatives(op.value), env);
    }
  }

  lemma {:induction false} InvocationsShareEnv(alternatives: seq<Requirement>, env: Env)
    ensures forall i | 0 <= i < |AllInvocations(alternatives, env)| ::
              var c := AllInvocations(alternatives, env)[i].context;
              c.definition == env.definition && c.request == env.request && c.path == env.path
  {
    if alternatives != [] {
      InvocationsShareEnv(alternatives[1..], env);
    }
  }
}
