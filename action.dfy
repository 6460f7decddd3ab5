/** `main`: read the inputs, parse the extra headers, build the HTTP client,
    choose the login flow for the requested method, log in, then register
    the token as a secret and export it; any thrown error ends in
    `setFailed` with its message. The host's effects are recorded as a
    trace of events, and the remote login is a parameter. */
module Action {
  import Headers

  /** The three `AuthMethod` constants, plus any other string the `method`
      input may hold. */
  datatype MethodName = Universal | Oidc | AwsIam | Other(text: string)

  /** The inputs `main` reads with `getInput`; a missing input reads as "". */
  datatype Inputs = Inputs(
    authMethod: MethodName,
    clientId: string,
    clientSecret: string,
    identityId: string,
    oidcAudience: string,
    domain: string,
    extraHeaders: string)

  /** The login call a method selects, with the arguments passed to it. */
  datatype Flow =
    | UniversalLogin(clientId: string, clientSecret: string)
    | OidcLogin(identityId: string, audience: string)
    | AwsIamLogin(identityId: string)

  /** A value, or the message of the error thrown instead. */
  datatype Result<T> = Ok(value: T) | Err(message: string)

  const MissingUniversalCredentials := "Missing universal auth credentials"
  const MissingOidcIdentity := "Missing identity ID for OIDC auth"
  const MissingAwsIamIdentity := "Missing identity ID for AWS IAM auth"
  const InvalidMethodPrefix := "Invalid authentication method: "
  const TokenVariable := "INFISICAL_TOKEN"
  const SuccessMessage := "Successfully set INFISICAL_TOKEN"

  /** The method the flow belongs to. */
  function MethodOf(f: Flow): MethodName {
    match f
    case UniversalLogin(_, _) => Universal
    case OidcLogin(_, _) => Oidc
    case AwsIamLogin(_) => AwsIam
  }

  /** The credentials a method needs are present (non-empty, as JavaScript
      truthiness reads a string). */
  predicate HasCredentials(inputs: Inputs) {
    match inputs.authMethod
    case Universal => inputs.clientId != "" && inputs.clientSecret != ""
    case Oidc => inputs.identityId != ""
    case AwsIam => inputs.identityId != ""
    case Other(_) => false
  }

  /** The `switch` on the method, up to the login call: either the flow to
      run, carrying its arguments straight from the inputs, or the message
      of the error thrown before any login. */
  function SelectFlow(inputs: Inputs): (r: Result<Flow>)
    ensures r.Ok? <==> HasCredentials(inputs)
    ensures r.Ok? ==> MethodOf(r.value) == inputs.authMethod
    ensures inputs.authMethod.Other? ==> r == Err(InvalidMethodPrefix + inputs.authMethod.text)
  {
    match inputs.authMethod
    case Universal =>
      if !(inputs.clientId != "" && inputs.clientSecret != "") then Err(MissingUniversalCredentials)
      else Ok(UniversalLogin(inputs.clientId, inputs.clientSecret))
    case Oidc =>
      if inputs.identityId == "" then Err(MissingOidcIdentity)
      else Ok(OidcLogin(inputs.identityId, inputs.oidcAudience))
    case AwsIam =>
      if inputs.identityId == "" then Err(MissingAwsIamIdentity)
      else Ok(AwsIamLogin(inputs.identityId))
    case Other(text) => Err(InvalidMethodPrefix + text)
  }

  /** A universal-auth run with an empty client id or secret fails with the
      missing-credentials message, whatever the other inputs hold. */
  lemma UniversalNeedsBoth(inputs: Inputs)
    requires inputs.authMethod == Universal
    requires inputs.clientId == "" || inputs.clientSecret == ""
    ensures SelectFlow(inputs) == Err(MissingUniversalCredentials)
  {
  }

  /** OIDC and AWS IAM fail on an empty identity id, each with its own
      message. */
  lemma IdentityMethodsNeedIdentity(inputs: Inputs)
    requires inputs.authMethod == Oidc || inputs.authMethod == AwsIam
    requires inputs.identityId == ""
    ensures SelectFlow(inputs) ==
      Err(if inputs.authMethod == Oidc then MissingOidcIdentity else MissingAwsIamIdentity)
  {
  }

  /** The flow carries the inputs unchanged; the OIDC audience is forwarded
      as given, and an empty audience does not stop the selection. */
  lemma SelectedFlowArguments(inputs: Inputs)
    requires HasCredentials(inputs)
    ensures SelectFlow(inputs) == Ok(match inputs.authMethod
      case Universal => UniversalLogin(inputs.clientId, inputs.clientSecret)
      case Oidc => OidcLogin(inputs.identityId, inputs.oidcAudience)
      case _ => AwsIamLogin(inputs.identityId))
  {
  }

  /** Inputs the requested method does not read do not change the outcome. */
  lemma SelectionIgnoresUnusedInputs(a: Inputs, b: Inputs)
    requires a.authMethod == b.authMethod
    requires a.authMethod == Universal ==> a.clientId == b.clientId && a.clientSecret == b.clientSecret
    requires a.authMethod == Oidc ==> a.identityId == b.identityId && a.oidcAudience == b.oidcAudience
    requires a.authMethod == AwsIam ==> a.identityId == b.identityId
    ensures SelectFlow(a) == SelectFlow(b)
  {
  }

  /** What a run does, as seen from the host. */
  datatype Event =
    | CreateClient(domain: string, headers: Headers.HeaderMap)
    | Login(flow: Flow)
    | SetSecret(secret: string)
    | ExportVariable(name: string, value: string)
    | Info(message: string)
    | SetFailed(message: string)

  /** The selection followed by the login it selects: the token, or the
      message of the first error thrown. */
  function Exchange(inputs: Inputs, login: Flow -> Result<string>): Result<string> {
    match SelectFlow(inputs)
    case Err(m) => Err(m)
    case Ok(f) => login(f)
  }

  /** Every export is of a value registered as a secret earlier in the run. */
  predicate MaskedBeforeExport(trace: seq<Event>) {
    forall i :: 0 <= i < |trace| && trace[i].ExportVariable? ==>
      SetSecret(trace[i].value) in trace[..i]
  }

  /** Nothing secret left the run: no secret registered, nothing exported. */
  predicate NoOutput(trace: seq<Event>) {
    forall i :: 0 <= i < |trace| ==> !trace[i].SetSecret? && !trace[i].ExportVariable?
  }

  /** The number of login calls in the trace. */
  function LoginCount(trace: seq<Event>): nat
    decreases |trace|
  {
    if trace == [] then 0
    else (if trace[0].Login? then 1 else 0) + LoginCount(trace[1..])
  }

  /** The authentication part of `main` as the events it produces, with
      `login` standing for whichever of `UALogin`, `oidcLogin` and `awsIamLogin` the
      flow names: a rejected selection fails before any login; a failed
      login fails after it; a token is registered as a secret, exported as
      `INFISICAL_TOKEN` and reported. */
  function Outcome(inputs: Inputs, login: Flow -> Result<string>): seq<Event> {
    match SelectFlow(inputs)
    case Err(m) => [SetFailed(m)]
    case Ok(f) =>
      match login(f)
      case Err(m) => [Login(f), SetFailed(m)]
      case Ok(token) =>
        [Login(f), SetSecret(token), ExportVariable(TokenVariable, token), Info(SuccessMessage)]
  }

  /** The token is registered as a secret before it is exported. */
  lemma OutcomeMasksBeforeExport(inputs: Inputs, login: Flow -> Result<string>)
    ensures MaskedBeforeExport(Outcome(inputs, login))
  {
    var trace := Outcome(inputs, login);
    if Exchange(inputs, login).Ok? {
      assert trace[..2][1] == trace[1];
    }
  }

  /** A login is called only for a flow that passed the checks, exactly once,
      and before anything else happens. */
  lemma OutcomeLogsInOnce(inputs: Inputs, login: Flow -> Result<string>)
    ensures LoginCount(Outcome(inputs, login)) == if SelectFlow(inputs).Ok? then 1 else 0
    ensures SelectFlow(inputs).Ok? ==> Outcome(inputs, login)[0] == Login(SelectFlow(inputs).value)
  {
    var trace := Outcome(inputs, login);
    if SelectFlow(inputs).Ok? {
      NoLoginCounted(trace[1..]);
    } else {
      NoLoginCounted(trace);
    }
  }

  /** A trace without login events counts none. */
  lemma {:induction false} NoLoginCounted(trace: seq<Event>)
    requires forall i :: 0 <= i < |trace| ==> !trace[i].Login?
    ensures LoginCount(trace) == 0
    decreases |trace|
  {
    if trace != [] {
      NoLoginCounted(trace[1..]);
    }
  }

  /** On success the token is exported under `INFISICAL_TOKEN`, the run ends
      with the success message, and nothing is reported as failed. */
  lemma OutcomeOnSuccess(inputs: Inputs, login: Flow -> Result<string>)
    requires Exchange(inputs, login).Ok?
    ensures var trace := Outcome(inputs, login);
      && ExportVariable(TokenVariable, Exchange(inputs, login).value) in trace
      && trace[|trace| - 1] == Info(SuccessMessage)
      && forall i :: 0 <= i < |trace| ==> !trace[i].SetFailed?
  {
    var trace := Outcome(inputs, login);
    assert trace[2] == ExportVariable(TokenVariable, Exchange(inputs, login).value);
  }

  /** Any error thrown ends the run in `setFailed` with its message, and
      nothing is registered or exported. */
  lemma OutcomeOnFailure(inputs: Inputs, login: Flow -> Result<string>)
    requires Exchange(inputs, login).Err?
    ensures var trace := Outcome(inputs, login);
      && trace[|trace| - 1] == SetFailed(Exchange(inputs, login).message)
      && NoOutput(trace)
  {
  }

  /** The authentication part of `main` as written: the `switch` validates
      the inputs and assigns the token from the login it calls, or throws;
      then the token is registered, exported and reported. A throw anywhere
      ends in `setFailed` with its message. */
  method Authenticate(inputs: Inputs, login: Flow -> Result<string>) returns (trace: seq<Event>)
    ensures trace == Outcome(inputs, login)
  {
    trace := [];
    var response: Result<string>;
    match inputs.authMethod {
      case Universal =>
        if !(inputs.clientId != "" && inputs.clientSecret != "") {
          trace := trace + [SetFailed(MissingUniversalCredentials)];
          return;
        }
        var flow := UniversalLogin(inputs.clientId, inputs.clientSecret);
        trace := trace + [Login(flow)];
        response := login(flow);
      case Oidc =>
        if inputs.identityId == "" {
          trace := trace + [SetFailed(MissingOidcIdentity)];
          return;
        }
        var flow := OidcLogin(inputs.identityId, inputs.oidcAudience);
        trace := trace + [Login(flow)];
        response := login(flow);
      case AwsIam =>
        if inputs.identityId == "" {
          trace := trace + [SetFailed(MissingAwsIamIdentity)];
          return;
        }
        var flow := AwsIamLogin(inputs.identityId);
        trace := trace + [Login(flow)];
        response := login(flow);
      case Other(text) =>
        trace := trace + [SetFailed(InvalidMethodPrefix + text)];
        return;
    }
    if response.Err? {
      trace := trace + [SetFailed(response.message)];
      return;
    }
    var infisicalToken := response.value;
    trace := trace + [SetSecret(infisicalToken)];
    trace := trace + [ExportVariable(TokenVariable, infisicalToken)];
    trace := trace + [Info(SuccessMessage)];
  }

  /** `main` as written: the extra headers are parsed and the client built
      before the method is checked, then the authentication runs. */
  method Run(inputs: Inputs, login: Flow -> Result<string>) returns (trace: seq<Event>)
    ensures trace == [CreateClient(inputs.domain, Headers.ParseHeaders(inputs.extraHeaders))]
      + Outcome(inputs, login)
  {
    var extraHeaders := Headers.ParseHeadersInput(inputs.extraHeaders);
    var client := CreateClient(inputs.domain, extraHeaders);
    var rest := Authenticate(inputs, login);
    trace := [client] + rest;
  }

  /** Building the client first changes none of that: it logs in nobody,
      every export is still preceded by the secret's registration, a
      successful run still exports the token, ends in the success message and
      reports no failure, and a failed run still ends in `setFailed` with its
      message and registers and exports nothing. */
  lemma ClientFirst(inputs: Inputs, login: Flow -> Result<string>, client: Event)
    requires client.CreateClient?
    ensures var trace := [client] + Outcome(inputs, login);
      && LoginCount(trace) == LoginCount(Outcome(inputs, login))
      && MaskedBeforeExport(trace)
      && (Exchange(inputs, login).Ok? ==>
            && ExportVariable(TokenVariable, Exchange(inputs, login).value) in trace
            && trace[|trace| - 1] == Info(SuccessMessage)
            && forall i :: 0 <= i < |trace| ==> !trace[i].SetFailed?)
      && (Exchange(inputs, login).Err? ==>
            && trace[|trace| - 1] == SetFailed(Exchange(inputs, login).message)
            && NoOutput(trace))
  {
    var rest := Outcome(inputs, login);
    var trace := [client] + rest;
    assert trace[1..] == rest;
    assert MaskedBeforeExport(trace) by {
      OutcomeMasksBeforeExport(inputs, login);
      PrependKeepsMasked(client, rest);
    }
    if Exchange(inputs, login).Ok? {
      OutcomeOnSuccess(inputs, login);
      assert trace[3] == rest[2];
    } else {
      OutcomeOnFailure(inputs, login);
    }
  }

  /** An event other than an export, put in front, keeps every export
      preceded by its secret's registration. */
  lemma PrependKeepsMasked(e: Event, rest: seq<Event>)
    requires MaskedBeforeExport(rest) && !e.ExportVariable?
    ensures MaskedBeforeExport([e] + rest)
  {
    var trace := [e] + rest;
    forall i | 1 <= i < |trace| && trace[i].ExportVariable?
      ensures SetSecret(trace[i].value) in trace[..i]
    {
      assert trace[i] == rest[i - 1];
      var k :| 0 <= k < i - 1 && rest[..i - 1][k] == SetSecret(rest[i - 1].value);
      assert trace[..i][k + 1] == rest[k];
    }
  }
}
