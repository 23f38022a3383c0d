/** The two arms of the guard and their race under a deadline (adapters/shared-auth-rust/src/lib.rs). */
module GuardRace {
  import opened Prelude
  import opened KeyOrder
  import opened GuardIdentity
  import Utf8

  // What the authorities answer

  /** No answer, or a status with a body; the body is absent when it cannot be decoded. */
  datatype Response<+T> = SendFailed | Received(status: nat, body: Option<T>)

  datatype ExchangeBody = ExchangeBody(
    accessToken: string,
    sharedUserId: string,
    provider: string,
    providerTenant: string,
    providerSubject: string,
    roles: seq<string>)

  /** The claims of an introspection, and of a locally verified token (where `active` is true). */
  datatype Claims = Claims(
    active: bool,
    sub: string,
    provider: string,
    providerTenant: string,
    providerSubject: string,
    project: Option<string>,
    supabaseUserId: Option<string>,
    sid: Option<string>,
    email: Option<string>,
    emailVerified: bool,
    aal: nat,
    amr: seq<string>,
    roles: seq<string>)

  datatype SupabaseUser = SupabaseUser(id: string, email: Option<string>, emailConfirmedAt: Option<string>)

  datatype SessionUpgrade = SessionUpgrade(accessToken: string, sessionId: Option<string>)

  datatype Exchanged = Exchanged(identity: Identity, upgrade: SessionUpgrade)

  predicate IsSuccess(status: nat) {
    200 <= status <= 299
  }

  predicate TokenTooLong(token: string) {
    |Utf8.Encode(token)| > MAX_TOKEN_BYTES
  }

  function OrEmpty(s: Option<string>): string {
    if s.Some? then s.value else ""
  }

  function ClaimedIdentity(claims: Claims): Identity {
    Identity(claims.sub, claims.provider, claims.providerTenant, claims.providerSubject, OrEmpty(claims.project),
             OrEmpty(claims.supabaseUserId), claims.sid, claims.email, claims.emailVerified, claims.aal, claims.amr,
             claims.roles, SharedAuth)
  }

  /** `coherent_exchange`; `SameRoles` computes the comparison of the role lists. */
  predicate Coherent(exchange: ExchangeBody, claims: Claims, expectedProject: string) {
    && claims.active
    && claims.sub == exchange.sharedUserId
    && claims.provider == exchange.provider
    && claims.providerTenant == exchange.providerTenant
    && claims.providerSubject == exchange.providerSubject
    && Elements(claims.roles) == Elements(exchange.roles)
    && claims.provider == "supabase"
    && claims.providerTenant == expectedProject
    && claims.project == Some(expectedProject)
    && claims.supabaseUserId == Some(claims.providerSubject)
  }

  /** `exchange`, given both answers. */
  function Exchange(config: Config, token: string, requireRole: bool, first: Response<ExchangeBody>,
      second: Response<Claims>)
      : Result<Exchanged, Failure> {
    if TokenTooLong(token) then Err(Invalid)
    else if first.SendFailed? then Err(Unavailable)
    else if first.status == 401 || first.status == 403 then Err(Invalid)
    else if !IsSuccess(first.status) || first.body.None? then Err(Unavailable)
    else
      var body := first.body.value;
      if body.accessToken == "" || TokenTooLong(body.accessToken) then Err(Unavailable)
      else if second.SendFailed? || !IsSuccess(second.status) || second.body.None? then Err(Unavailable)
      else
        var claims := second.body.value;
        if !Coherent(body, claims, config.project) then Err(Invalid)
        else
          match ValidateShared(ClaimedIdentity(claims), OrEmpty(claims.project))
          case Err(failure) => Err(failure)
          case Ok(identity) =>
            if requireRole && !HasRequiredRole(config, identity) then Err(Forbidden)
            else Ok(Exchanged(identity, SessionUpgrade(body.accessToken, identity.sessionId)))
  }

  /** `verify_direct`, given the answer. */
  function VerifyDirect(config: Config, token: string, answer: Response<SupabaseUser>): Result<Identity, Failure> {
    if TokenTooLong(token) then Err(Invalid)
    else if answer.SendFailed? then Err(Unavailable)
    else if answer.status == 401 || answer.status == 403 then Err(Invalid)
    else if !IsSuccess(answer.status) || answer.body.None? then Err(Unavailable)
    else
      var user := answer.body.value;
      if !ValidIdentifier(user.id) || !ValidEmail(user.email) then Err(Invalid)
      else
        Ok(Identity(config.project + ":" + user.id, "supabase", config.project, user.id, config.project, user.id,
                    None, user.email, user.emailConfirmedAt.Some?, 1, ["supabase"], [], Supabase))
  }

  // Outcomes

  datatype Outcome =
    | Anonymous
    | Authenticated(identity: Identity, authority: Authority, elapsedMs: nat)
    | Unauthenticated
    | Denied
    | Degraded(reason: string)

  datatype Decision = Decision(outcome: Outcome, upgrade: Option<SessionUpgrade>)

  /** Equality of outcomes in the source: the elapsed time does not count. */
  predicate SameOutcome(a: Outcome, b: Outcome) {
    match (a, b)
    case (Authenticated(i, x, _), Authenticated(j, y, _)) => i == j && x == y
    case (Degraded(r), Degraded(s)) => r == s
    case _ => a == b
  }

  predicate SameDecision(a: Decision, b: Decision) {
    SameOutcome(a.outcome, b.outcome) && a.upgrade == b.upgrade
  }

  function WithoutUpgrade(outcome: Outcome): Decision {
    Decision(outcome, None)
  }

  function AuthenticatedAs(identity: Identity, elapsed: nat): Outcome {
    Authenticated(identity, identity.authority, elapsed)
  }

  const NO_AUTHORITY := Degraded("no authority could verify the credential")
  const NO_ROLE_AUTHORITY := Degraded("Shared Auth role authority is unavailable")
  const AUTHENTICATION_DEADLINE := Degraded("authentication race deadline exceeded")
  const AUTHORIZATION_DEADLINE := Degraded("authorization race deadline exceeded")

  /** `failures_to_outcome` */
  function FailuresToOutcome(failures: seq<Failure>): Outcome {
    if |failures| == 2 && forall i | 0 <= i < |failures| :: failures[i] == Invalid then Unauthenticated
        else NO_AUTHORITY
  }

  // The race. `arrivals` lists the arms in the order in which they finish before the deadline.

  datatype Arm = SharedArm | DirectArm

  /** An arm finishes at most once. */
  predicate Schedule(arrivals: seq<Arm>) {
    arrivals in {[], [SharedArm], [DirectArm], [SharedArm, DirectArm], [DirectArm, SharedArm]}
  }

  function Arrived(arrivals: seq<Arm>): set<Arm> {
    set arm | arm in arrivals
  }

  type SharedResult = Result<Exchanged, Failure>
  type DirectResult = Result<Identity, Failure>

  function SharedWins(exchanged: Exchanged, elapsed: nat): Decision {
    Decision(AuthenticatedAs(exchanged.identity, elapsed), Some(exchanged.upgrade))
  }

  function DirectWins(identity: Identity, elapsed: nat): Decision {
    WithoutUpgrade(AuthenticatedAs(identity, elapsed))
  }

  /** The reference for authentication: the first arm that succeeds in time decides. */
  function Authentication(shared: SharedResult, direct: DirectResult, arrivals: seq<Arm>, elapsed: nat): Decision {
    if shared.Ok? && SharedArm in arrivals && !(direct.Ok? && arrivals[0] == DirectArm)
        then SharedWins(shared.value, elapsed)
    else if direct.Ok? && DirectArm in arrivals then DirectWins(direct.value, elapsed)
    else if SharedArm !in arrivals || DirectArm !in arrivals then WithoutUpgrade(AUTHENTICATION_DEADLINE)
    else if shared == Err(Invalid) && direct == Err(Invalid) then WithoutUpgrade(Unauthenticated)
    else WithoutUpgrade(NO_AUTHORITY)
  }

  /** The reference for authorization: only Shared Auth grants or denies, in whatever order the arms arrive. */
  function Authorization(shared: SharedResult, direct: DirectResult, arrived: set<Arm>, elapsed: nat): Decision {
    if SharedArm in arrived && shared.Ok? then SharedWins(shared.value, elapsed)
    else if SharedArm in arrived && shared == Err(Forbidden) then WithoutUpgrade(Denied)
    else if SharedArm !in arrived || DirectArm !in arrived then WithoutUpgrade(AUTHORIZATION_DEADLINE)
    else if shared == Err(Invalid) && direct == Err(Invalid) then WithoutUpgrade(Unauthenticated)
    else WithoutUpgrade(NO_ROLE_AUTHORITY)
  }

  method RaceAuthentication(shared: SharedResult, direct: DirectResult, arrivals: seq<Arm>, elapsed: nat)
      returns (d: Decision, steps: nat)
    requires Schedule(arrivals)
    ensures d == Authentication(shared, direct, arrivals, elapsed)
    ensures steps <= 2
  {
    hide SharedWins, DirectWins, FailuresToOutcome;
    var failures: seq<Failure> := [];
    var sharedDone, directDone := false, false;
    steps := 0;
    while true
      invariant steps <= |arrivals| && !(sharedDone && directDone)
      invariant sharedDone <==> steps > 0 && arrivals[0] == SharedArm
      invariant directDone <==> steps > 0 && arrivals[0] == DirectArm
      invariant |failures| == steps
      invariant sharedDone ==> shared.Err? && failures == [shared.error]
      invariant directDone ==> direct.Err? && failures == [direct.error]
      decreases |arrivals| - steps
    {
      if sharedDone && directDone {
        // The `else` exit of the source: no arm is left to wait for.
        assert false;
        break;
      }
      if steps == |arrivals| {
        return WithoutUpgrade(AUTHENTICATION_DEADLINE), steps;
      }
      var arm := arrivals[steps];
      steps := steps + 1;
      if arm == SharedArm {
        sharedDone := true;
        if shared.Ok? {
          return SharedWins(shared.value, elapsed), steps;
        }
        failures := failures + [shared.error];
      } else {
        directDone := true;
        if direct.Ok? {
          return DirectWins(direct.value, elapsed), steps;
        }
        failures := failures + [direct.error];
      }
      if sharedDone && directDone {
        break;
      }
    }
    assert failures == [shared.error, direct.error] || failures == [direct.error, shared.error];
    TwoFailures(shared.error, direct.error);
    TwoFailures(direct.error, shared.error);
    d := WithoutUpgrade(FailuresToOutcome(failures));
  }

  lemma TwoFailures(first: Failure, second: Failure)
    ensures FailuresToOutcome([first, second]) == if first == Invalid && second == Invalid then Unauthenticated
        else NO_AUTHORITY
  {
    assert [first, second][0] == first && [first, second][1] == second;
  }

  method RaceAuthorization(shared: SharedResult, direct: DirectResult, arrivals: seq<Arm>, elapsed: nat)
      returns (d: Decision, steps: nat)
    requires Schedule(arrivals)
    ensures d == Authorization(shared, direct, Arrived(arrivals), elapsed)
    ensures steps <= 2
  {
    var sharedFailure, directFailure: Option<Failure> := None, None;
    var directValid := false;
    var sharedDone, directDone := false, false;
    steps := 0;
    while true
      invariant steps <= |arrivals| && !(sharedDone && directDone)
      invariant sharedDone <==> steps > 0 && arrivals[0] == SharedArm
      invariant directDone <==> steps > 0 && arrivals[0] == DirectArm
      invariant steps <= 1
      invariant sharedDone ==> shared.Err? && shared.error != Forbidden
      invariant sharedFailure == if sharedDone then Some(shared.error) else None
      invariant directValid == (directDone && direct.Ok?)
      invariant directFailure == if directDone && direct.Err? then Some(direct.error) else None
      decreases |arrivals| - steps
    {
      if sharedDone && directDone {
        // The `else` exit of the source: no arm is left to wait for.
        assert false;
        break;
      }
      if steps == |arrivals| {
        return WithoutUpgrade(AUTHORIZATION_DEADLINE), steps;
      }
      var arm := arrivals[steps];
      steps := steps + 1;
      if arm == SharedArm {
        sharedDone := true;
        if shared.Ok? {
          return SharedWins(shared.value, elapsed), steps;
        }
        if shared.error == Forbidden {
          return WithoutUpgrade(Denied), steps;
        }
        sharedFailure := Some(shared.error);
      } else {
        directDone := true;
        if direct.Ok? {
          directValid := true;
        } else {
          directFailure := Some(direct.error);
        }
      }
      if sharedDone && directDone {
        break;
      }
    }
    // The source's match has an arm for a late `Forbidden` here; it cannot be taken.
    assert sharedFailure != Some(Forbidden);
    d := WithoutUpgrade(if sharedFailure == Some(Invalid) && directFailure == Some(Invalid) && !directValid
        then Unauthenticated
                        else if sharedFailure == Some(Forbidden) then Denied
                        else NO_ROLE_AUTHORITY);
  }

  const SHARED_FIRST := [SharedArm, DirectArm]
  const DIRECT_FIRST := [DirectArm, SharedArm]

  /** Without the deadline, authorization gives the same decision for both arrival orders. */
  lemma AuthorizationOrderIndependent(shared: SharedResult, direct: DirectResult, e: nat, f: nat)
    ensures SameDecision(Authorization(shared, direct, Arrived(SHARED_FIRST), e),
                         Authorization(shared, direct, Arrived(DIRECT_FIRST), f))
  {
    assert Arrived(SHARED_FIRST) == Arrived(DIRECT_FIRST) == {SharedArm, DirectArm};
  }

  /**
   Without the deadline, authentication gives the same decision for both arrival orders exactly
   unless both arms succeed: then the first to arrive decides.
   */
  lemma AuthenticationOrderMatters(shared: SharedResult, direct: DirectResult, e: nat, f: nat)
    requires shared.Ok? ==> shared.value.identity.authority == SharedAuth
    requires direct.Ok? ==> direct.value.authority == Supabase
    ensures SameDecision(Authentication(shared, direct, SHARED_FIRST, e),
        Authentication(shared, direct, DIRECT_FIRST, f))
            <==> !(shared.Ok? && direct.Ok?)
  {
    assert SharedArm in SHARED_FIRST && DirectArm in SHARED_FIRST && SharedArm in DIRECT_FIRST
        && DirectArm in DIRECT_FIRST;
  }

  /** The deadline can only take a decision away: what authorization grants or denies early stays. */
  lemma DeadlineOnlyDegrades(shared: SharedResult, direct: DirectResult, arrived: set<Arm>, elapsed: nat)
    ensures var cut, full := Authorization(shared, direct, arrived, elapsed),
        Authorization(shared, direct, {SharedArm, DirectArm}, elapsed);
            cut == full || cut == WithoutUpgrade(AUTHORIZATION_DEADLINE)
    ensures SharedArm !in arrived ==> !Authorization(shared, direct, arrived, elapsed).outcome.Authenticated?
  {
  }
}
