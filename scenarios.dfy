/** The scenarios of the repository's test suite, evaluated on the model:
    a GET on `/pets` against small definitions and registries. */
module Scenarios {
  import opened SecurityModel

  function PetsDefinition(security: Option<seq<Requirement>>): Definition {
    Definition(map["/pets" := map["get" := Operation(security)]])
  }

  function Get(): Request {
    Request("GET", map[])
  }

  /** `[{ thing1: ['scope1'] }, { thing2: ['scope2'], thing3: ['scope3'] }]`. */
  function TwoAlternatives(): seq<Requirement> {
    [[Scheme("thing1", ["scope1"])], [Scheme("thing2", ["scope2"]), Scheme("thing3", ["scope3"])]]
  }

  function Checked(name: string, scopes: seq<string>): Invocation {
    Invocation(name, Context(Some(PetsDefinition(Some(TwoAlternatives()))), Get(), "/pets", scopes))
  }

  /** Three checking functions that each throw their own error. */
  function Failing(): Registry {
    map["thing1" := Some((c: Context) => Fail(Thrown("oops1"))),
        "thing2" := Some((c: Context) => Fail(Thrown("oops2"))),
        "thing3" := Some((c: Context) => Fail(Thrown("oops3")))]
  }

  /** No security requirements: the request passes through unchanged. */
  lemma NoRequirementsPass()
    ensures Evaluate(Some(PetsDefinition(None)), map[], Get(), "/pets") == Evaluation(Ok(Get()), [])
  {
    assert ToLower("GET") == "get";
  }

  /** A PATCH where only GET is defined: OperationNotFound, nothing called. */
  lemma UnknownMethodNotFound()
    ensures Evaluate(Some(PetsDefinition(None)), map[], Request("PATCH", map[]), "/pets")
         == Evaluation(Err(OperationNotFound("PATCH", "/pets")), [])
  {
    assert ToLower("PATCH") == "patch";
  }

  /** A required scheme with no function: SecuringFunctionNotFound naming it. */
  lemma MissingFunctionNamed()
    ensures Evaluate(Some(PetsDefinition(Some([[Scheme("thing", [])]]))), map[], Get(), "/pets")
         == Evaluation(Err(SecuringFunctionNotFound("GET", "/pets", "thing")), [])
  {
    assert ToLower("GET") == "get";
  }

  /** The first alternative passes: the request is returned after exactly one
      call, to `thing1`, with the request, the path and `thing1`'s scopes. */
  lemma FirstAlternativePasses()
    ensures var securities: Registry := map["thing1" := Some((c: Context) => Pass)];
            Evaluate(Some(PetsDefinition(Some(TwoAlternatives()))), securities, Get(), "/pets")
              == Evaluation(Ok(Get()), [Checked("thing1", ["scope1"])])
  {
    assert ToLower("GET") == "get";
  }

  /** Every check fails: RequestNotSecured with the three errors, in call
      order, after exactly three calls. */
  lemma AllAlternativesFail()
    ensures Evaluate(Some(PetsDefinition(Some(TwoAlternatives()))), Failing(), Get(), "/pets")
              == Evaluation(
                   Err(RequestNotSecured("GET", "/pets", [
                     SchemeFailure("thing1", Thrown("oops1")),
                     SchemeFailure("thing2", Thrown("oops2")),
                     SchemeFailure("thing3", Thrown("oops3"))])),
                   [Checked("thing1", ["scope1"]), Checked("thing2", ["scope2"]), Checked("thing3", ["scope3"])])
  {
    var securities := Failing();
    var env := Env(Some(PetsDefinition(Some(TwoAlternatives()))), Get(), "/pets");
    var second: Requirement := [Scheme("thing2", ["scope2"]), Scheme("thing3", ["scope3"])];
    assert ToLower("GET") == "get";
    assert second[1..] == [Scheme("thing3", ["scope3"])];
    assert RunAlternative([Scheme("thing1", ["scope1"])], securities, env)
        == AltRun(None, 0, [SchemeFailure("thing1", Thrown("oops1"))], [Checked("thing1", ["scope1"])]);
    assert RunAlternative(second[1..], securities, env)
        == AltRun(None, 0, [SchemeFailure("thing3", Thrown("oops3"))], [Checked("thing3", ["scope3"])]);
    assert RunAlternative(second, securities, env)
        == AltRun(None, 0, [SchemeFailure("thing2", Thrown("oops2")), SchemeFailure("thing3", Thrown("oops3"))],
                  [Checked("thing2", ["scope2"]), Checked("thing3", ["scope3"])]);
    var last: seq<Requirement> := [second];
    assert TwoAlternatives()[0] == [Scheme("thing1", ["scope1"])] && TwoAlternatives()[1..] == last;
    assert last[0] == second && last[1..] == [];
    assert RunAlternatives(last, securities, env)
        == Exhausted([SchemeFailure("thing2", Thrown("oops2")), SchemeFailure("thing3", Thrown("oops3"))],
                     [Checked("thing2", ["scope2"]), Checked("thing3", ["scope3"])]);
    assert RunAlternatives(TwoAlternatives(), securities, env)
        == Exhausted([SchemeFailure("thing1", Thrown("oops1")), SchemeFailure("thing2", Thrown("oops2")), SchemeFailure("thing3", Thrown("oops3"))],
                     [Checked("thing1", ["scope1"]), Checked("thing2", ["scope2"]), Checked("thing3", ["scope3"])]);
    assert Resolve(env.definition, "/pets", "GET") == Some(Operation(Some(TwoAlternatives())));
  }
}
