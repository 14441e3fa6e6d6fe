/** Data model and reference semantics of the request-security evaluator:
    an OpenAPI operation lists security requirement objects (alternatives,
    combined by OR); each object names schemes with their scopes (combined
    by AND); every scheme is checked by a caller-supplied checking function. */
module SecurityModel {

  datatype Option<+T> = None | Some(value: T)

  /** A request as the evaluator sees it: it reads only `method`; the other
      fields are carried along and handed back untouched. */
  datatype Request = Request(httpMethod: string, fields: map<string, string>)

  /** One key of a security requirement object: a scheme name and the scope
      list declared for it. */
  datatype Scheme = Scheme(name: string, scopes: seq<string>)

  /** A security requirement object, its keys in enumeration order. */
  type Requirement = seq<Scheme>

  /** An operation object; `security` is absent (None) or a list of alternatives. */
  datatype Operation = Operation(security: Option<seq<Requirement>>)

  /** The API definition: path, then lower-case method, to operation. */
  datatype Definition = Definition(paths: map<string, map<string, Operation>>)

  /** The single argument every checking function receives. */
  datatype Context = Context(definition: Option<Definition>, request: Request, path: string, scopes: seq<string>)

  /** The value a checking function throws (or rejects with). */
  datatype Thrown = Thrown(message: string)

  /** How one call of a checking function settles. */
  datatype Outcome = Pass | Fail(error: Thrown)

  /** A checking function, seen as a deterministic oracle. */
  type Checker = Context -> Outcome

  /** The `securities` argument: None stands for an entry that is missing or
      is not a function. */
  type Registry = map<string, Option<Checker>>

  /** What stays fixed across all checks of one evaluation. */
  datatype Env = Env(definition: Option<Definition>, request: Request, path: string)
  {
    function With(scopes: seq<string>): Context {
      Context(definition, request, path, scopes)
    }
  }

  /** One call of a checking function: the scheme it was registered under and
      the argument it was given. */
  datatype Invocation = Invocation(name: string, context: Context)

  /** One entry of the `errors` list of RequestNotSecured. */
  datatype SchemeFailure = SchemeFailure(name: string, error: Thrown)

  /** The three error classes; each keeps the request method and path its
      message is built from, and the scheme name where there is one. */
  datatype SecurityError =
    | OperationNotFound(httpMethod: string, path: string)
    | SecuringFunctionNotFound(httpMethod: string, path: string, name: string)
    | RequestNotSecured(httpMethod: string, path: string, errors: seq<SchemeFailure>)

  datatype Result = Ok(request: Request) | Err(error: SecurityError)

  /** The result of one evaluation and the checking calls it made, in order. */
  datatype Evaluation = Evaluation(result: Result, calls: seq<Invocation>)

  function LowerChar(c: char): char {
    if 'A' <= c <= 'Z' then (c as int - 'A' as int + 'a' as int) as char else c
  }

  /** `toLowerCase` on ASCII letters. */
  function ToLower(s: string): (r: string)
    ensures |r| == |s|
    ensures forall i :: 0 <= i < |s| ==> r[i] == LowerChar(s[i])
    ensures forall i :: 0 <= i < |r| ==> !('A' <= r[i] <= 'Z')
  {
    if s == [] then [] else [LowerChar(s[0])] + ToLower(s[1..])
  }

  /** `definition?.paths[path]?.[method.toLowerCase()]`. */
  function Resolve(definition: Option<Definition>, path: string, httpMethod: string): Option<Operation> {
    match definition
    case None => None
    case Some(d) =>
      var m := ToLower(httpMethod);
      if path in d.paths && m in d.paths[path] then Some(d.paths[path][m]) else None
  }

  /** `operation.security || []`. */
  function Alternatives(operation: Operation): seq<Requirement> {
    match operation.security
    case None => []
    case Some(alternatives) => alternatives
  }

  /** The checking function registered under `name`, if it is one. */
  function Lookup(securities: Registry, name: string): Option<Checker> {
    if name in securities then securities[name] else None
  }

  /** The effect of checking the schemes of one alternative: the scheme whose
      function is missing (if the walk stopped there), how many checks
      passed, the failures and the calls, all in key order. */
  datatype AltRun = AltRun(missing: Option<string>, passed: nat, failures: seq<SchemeFailure>, calls: seq<Invocation>)

  /** Puts the effect of some leading schemes in front of the rest's. */
  function Join(passed: nat, failures: seq<SchemeFailure>, calls: seq<Invocation>, rest: AltRun): AltRun {
    AltRun(rest.missing, passed + rest.passed, failures + rest.failures, calls + rest.calls)
  }

  /** Checks the schemes of one alternative in key order, stopping at the first
      one with no checking function. */
  function RunAlternative(requirement: Requirement, securities: Registry, env: Env): (r: AltRun)
    ensures |r.calls| == r.passed + |r.failures| <= |requirement|
    ensures r.missing.None? ==> |r.calls| == |requirement|
    ensures r.missing.Some? ==> Lookup(securities, r.missing.value).None?
    ensures forall i :: 0 <= i < |r.calls| ==> Lookup(securities, r.calls[i].name).Some?
  {
    if requirement == [] then AltRun(None, 0, [], [])
    else
      var scheme := requirement[0];
      match Lookup(securities, scheme.name)
      case None => AltRun(Some(scheme.name), 0, [], [])
      case Some(check) =>
        var context := env.With(scheme.scopes);
        var call := Invocation(scheme.name, context);
        var rest := RunAlternative(requirement[1..], securities, env);
        match check(context)
        case Pass => Join(1, [], [call], rest)
        case Fail(e) => Join(0, [SchemeFailure(scheme.name, e)], [call], rest)
  }

  /** How the walk over the alternatives ends: an alternative all of whose
      checks passed, a scheme with no checking function, or no alternative
      left (with every failure recorded on the way). */
  datatype Tally =
    | Satisfied(calls: seq<Invocation>)
    | Aborted(name: string, calls: seq<Invocation>)
    | Exhausted(failures: seq<SchemeFailure>, calls: seq<Invocation>)

  /** Puts the failures and calls of earlier, failed alternatives in front of
      the tally of the later ones. Failures are kept only when the walk is
      exhausted. */
  function Resume(failures: seq<SchemeFailure>, calls: seq<Invocation>, t: Tally): Tally {
    match t
    case Satisfied(c) => Satisfied(calls + c)
    case Aborted(n, c) => Aborted(n, calls + c)
    case Exhausted(f, c) => Exhausted(failures + f, calls + c)
  }

  /** Tries the alternatives in declared order. When alternatives exist and
      the walk is exhausted, at least one failure was recorded. */
  function RunAlternatives(alternatives: seq<Requirement>, securities: Registry, env: Env): (t: Tally)
    ensures t.Aborted? ==> Lookup(securities, t.name).None?
    ensures forall i :: 0 <= i < |t.calls| ==> Lookup(securities, t.calls[i].name).Some?
    ensures t.Exhausted? ==> |t.failures| <= |t.calls|
    ensures t.Exhausted? && alternatives != [] ==> t.failures != []
  {
    if alternatives == [] then Exhausted([], [])
    else
      var a := RunAlternative(alternatives[0], securities, env);
      if a.missing.Some? then Aborted(a.missing.value, a.calls)
      else if a.passed == |alternatives[0]| then Satisfied(a.calls)
      else Resume(a.failures, a.calls, RunAlternatives(alternatives[1..], securities, env))
  }

  /** The evaluation of `request` at `path` against `definition`, with the
      checking functions of `securities`. Every success hands back the
      request itself. */
  function Evaluate(definition: Option<Definition>, securities: Registry, request: Request, path: string): (e: Evaluation)
    ensures e.result.Ok? ==> e.result.request == request
  {
    match Resolve(definition, path, request.httpMethod)
    case None => Evaluation(Err(OperationNotFound(request.httpMethod, path)), [])
    case Some(operation) =>
      var env := Env(definition, request, path);
      match RunAlternatives(Alternatives(operation), securities, env)
      case Satisfied(calls) => Evaluation(Ok(request), calls)
      case Aborted(name, calls) => Evaluation(Err(SecuringFunctionNotFound(request.httpMethod, path, name)), calls)
      case Exhausted(failures, calls) =>
        if |failures| > 0 then Evaluation(Err(RequestNotSecured(request.httpMethod, path, failures)), calls)
        else Evaluation(Ok(request), calls)
  }
}
