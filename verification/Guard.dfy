/** The three entry points of the guard. */
module Guard {
  import opened Prelude
  import opened Strings
  import opened GuardIdentity
  import opened GuardRace

  /** What checking the signature of a token with one key set gives. */
  datatype LocalFailure = UnknownKey | BadToken

  /** A key set; what it says about the token at hand is all that matters here. */
  datatype KeySet = KeySet(verdict: Result<Claims, LocalFailure>)

  /** Everything outside the guard that one call sees. */
  datatype World = World(
    issuer: Option<string>,
    isEs256: bool,
    hasKeyId: bool,
    pinnedKeys: Option<KeySet>,
    cachedKeys: Result<KeySet, Failure>,
    refreshedKeys: Result<KeySet, Failure>,
    exchange: Response<ExchangeBody>,
    introspection: Response<Claims>,
    user: Response<SupabaseUser>,
    elapsed: nat)

  function CurrentKeys(w: World, force: bool): Result<KeySet, Failure> {
    if w.pinnedKeys.Some? then Ok(w.pinnedKeys.value) else if force then w.refreshedKeys else w.cachedKeys
  }

  /** `decode_with_jwks` */
  function DecodeWith(config: Config, keys: KeySet): Result<Identity, LocalFailure> {
    match keys.verdict
    case Err(failure) => Err(failure)
    case Ok(claims) =>
      match ValidateShared(ClaimedIdentity(claims), config.project)
      case Err(_) => Err(BadToken)
      case Ok(identity) => Ok(identity)
  }

  /** `verify_local`: an unknown key is looked up once more in a refreshed set, unless the keys are pinned. */
  function VerifyLocal(config: Config, token: string, w: World): Result<Identity, Failure> {
    if TokenTooLong(token) || !w.isEs256 || !w.hasKeyId then Err(Invalid)
    else
      match CurrentKeys(w, false)
      case Err(failure) => Err(failure)
      case Ok(keys) =>
        match DecodeWith(config, keys)
        case Ok(identity) => Ok(identity)
        case Err(failure) =>
          if failure == UnknownKey && w.pinnedKeys.None? then
            match CurrentKeys(w, true)
            case Err(failure) => Err(failure)
            case Ok(refreshed) =>
              match DecodeWith(config, refreshed)
              case Ok(identity) => Ok(identity)
              case Err(_) => Err(Invalid)
          else Err(Invalid)
  }

  /** `local_decision` */
  function LocalDecision(config: Config, token: string, requireRole: bool, w: World): Decision {
    match VerifyLocal(config, token, w)
    case Ok(identity) =>
      if !requireRole || HasRequiredRole(config, identity) then WithoutUpgrade(AuthenticatedAs(identity, w.elapsed))
      else WithoutUpgrade(Denied)
    case Err(Invalid) => WithoutUpgrade(Unauthenticated)
    case Err(_) => WithoutUpgrade(Degraded("Shared Auth verification is unavailable"))
  }

  function NormalizedToken(token: Option<string>): Option<string> {
    if token.Some? && Trim(token.value) != "" then Some(Trim(token.value)) else None
  }

  predicate IsSharedToken(config: Config, w: World) {
    w.issuer == Some(config.issuer)
  }

  function SharedArmOf(config: Config, token: string, requireRole: bool, w: World): SharedResult {
    Exchange(config, token, requireRole, w.exchange, w.introspection)
  }

  function DirectArmOf(config: Config, token: string, w: World): DirectResult {
    VerifyDirect(config, token, w.user)
  }

  /** The three entry points, for a token that is not blank. */
  function AuthenticateToken(config: Config, token: string, w: World, arrivals: seq<Arm>): Decision {
    if IsSharedToken(config, w) then LocalDecision(config, token, false, w)
    else Authentication(SharedArmOf(config, token, false, w), DirectArmOf(config, token, w), arrivals, w.elapsed)
  }

  /** `inTime` says whether the exchange ends before the deadline. */
  function AuthenticateSharedToken(config: Config, token: string, w: World, inTime: bool): Decision {
    if IsSharedToken(config, w) then LocalDecision(config, token, false, w)
    else if !inTime then WithoutUpgrade(Degraded("Shared Auth authentication deadline exceeded"))
    else
      match SharedArmOf(config, token, false, w)
      case Ok(exchanged) => SharedWins(exchanged, w.elapsed)
      case Err(Invalid) => WithoutUpgrade(Unauthenticated)
      case Err(Forbidden) => WithoutUpgrade(Denied)
      case Err(Unavailable) => WithoutUpgrade(Degraded("Shared Auth authentication is unavailable"))
  }

  function AuthorizeToken(config: Config, token: string, w: World, arrived: set<Arm>): Decision {
    if IsSharedToken(config, w) then LocalDecision(config, token, true, w)
    else Authorization(SharedArmOf(config, token, true, w), DirectArmOf(config, token, w), arrived, w.elapsed)
  }

  function Authenticate(config: Config, token: Option<string>, w: World, arrivals: seq<Arm>): Decision {
    match NormalizedToken(token)
    case None => WithoutUpgrade(Anonymous)
    case Some(normalized) => AuthenticateToken(config, normalized, w, arrivals)
  }

  function AuthenticateShared(config: Config, token: Option<string>, w: World, inTime: bool): Decision {
    match NormalizedToken(token)
    case None => WithoutUpgrade(Anonymous)
    case Some(normalized) => AuthenticateSharedToken(config, normalized, w, inTime)
  }

  function Authorize(config: Config, token: Option<string>, w: World, arrived: set<Arm>): Decision {
    match NormalizedToken(token)
    case None => WithoutUpgrade(Anonymous)
    case Some(normalized) => AuthorizeToken(config, normalized, w, arrived)
  }

  // What every identity is

  lemma ValidatedIsTrusted(config: Config, identity: Identity)
    requires identity.authority == SharedAuth && ValidateShared(identity, config.project).Ok?
    ensures ValidateShared(identity, config.project).value == identity && TrustedIdentity(config, identity)
  {
    hide UniqueValidIdentifiers, ValidIdentifier, ValidEmail;
    UniqueMeansDistinct(identity.roles);
    UniqueMeansDistinct(identity.authMethods);
  }

  lemma ExchangedIsTrusted(config: Config, token: string, requireRole: bool, w: World)
    requires SharedArmOf(config, token, requireRole, w).Ok?
    ensures var exchanged := SharedArmOf(config, token, requireRole, w).value;
            && TrustedIdentity(config, exchanged.identity)
            && (requireRole ==> HasRequiredRole(config, exchanged.identity))
            && exchanged.upgrade.sessionId == exchanged.identity.sessionId
            && exchanged.upgrade.accessToken != ""
  {
    hide TrustedIdentity, HasRequiredRole, UniqueValidIdentifiers, ValidIdentifier, ValidEmail;
    ValidatedIsTrusted(config, ClaimedIdentity(w.introspection.body.value));
  }

  lemma LocalIsTrusted(config: Config, token: string, w: World)
    requires VerifyLocal(config, token, w).Ok?
    ensures TrustedIdentity(config, VerifyLocal(config, token, w).value)
  {
    hide TrustedIdentity, ValidateShared;
    forall claims | ValidateShared(ClaimedIdentity(claims), config.project).Ok?
      ensures ValidateShared(ClaimedIdentity(claims), config.project).value == ClaimedIdentity(claims)
      ensures TrustedIdentity(config, ClaimedIdentity(claims))
    {
      ValidatedIsTrusted(config, ClaimedIdentity(claims));
    }
  }

  lemma TrustedAuthority(config: Config, identity: Identity)
    requires TrustedIdentity(config, identity)
    ensures identity.authority == SharedAuth
  {
  }

  /** What a decision that lets somebody in with a role promises. */
  predicate LetIn(config: Config, w: World, d: Decision)
    requires d.outcome.Authenticated?
  {
    && TrustedIdentity(config, d.outcome.identity)
    && HasRequiredRole(config, d.outcome.identity)
    && d.outcome.authority == SharedAuth
    && (d.upgrade.Some? <==> !IsSharedToken(config, w))
    && (d.upgrade.Some? ==> d.upgrade.value.sessionId == d.outcome.identity.sessionId)
  }

  lemma AuthorizedTokenIsTrusted(config: Config, token: string, w: World, arrived: set<Arm>)
    ensures var d := AuthorizeToken(config, token, w, arrived);
            d.outcome.Authenticated? ==> LetIn(config, w, d)
  {
    hide TrustedIdentity, HasRequiredRole, VerifyLocal, SharedArmOf, DirectArmOf;
    if VerifyLocal(config, token, w).Ok? {
      LocalIsTrusted(config, token, w);
      TrustedAuthority(config, VerifyLocal(config, token, w).value);
    }
    if SharedArmOf(config, token, true, w).Ok? {
      ExchangedIsTrusted(config, token, true, w);
      TrustedAuthority(config, SharedArmOf(config, token, true, w).value.identity);
    }
  }

  /**
   Under every schedule, whoever `authorize` lets in is a Shared Auth identity of the configured
   project with a required role; a session is upgraded exactly when the exchange let it in.
   */
  lemma AuthorizedIsTrusted(config: Config, token: Option<string>, w: World, arrived: set<Arm>)
    ensures var d := Authorize(config, token, w, arrived);
            d.outcome.Authenticated? ==> LetIn(config, w, d)
  {
    hide LetIn, AuthorizeToken, Trim;
    if NormalizedToken(token).Some? {
      AuthorizedTokenIsTrusted(config, NormalizedToken(token).value, w, arrived);
    }
  }

  /** What an upgrade comes with. */
  predicate UpgradeIsBacked(d: Decision) {
    d.upgrade.Some? ==> d.outcome.Authenticated? && d.outcome.authority == SharedAuth
                        && d.upgrade.value.sessionId == d.outcome.identity.sessionId
  }

  lemma ExchangedIsBacked(config: Config, token: string, requireRole: bool, w: World)
    ensures var shared := SharedArmOf(config, token, requireRole, w);
            shared.Ok? ==> UpgradeIsBacked(SharedWins(shared.value, w.elapsed))
  {
    hide TrustedIdentity, SharedArmOf;
    if SharedArmOf(config, token, requireRole, w).Ok? {
      ExchangedIsTrusted(config, token, requireRole, w);
      TrustedAuthority(config, SharedArmOf(config, token, requireRole, w).value.identity);
    }
  }

  /** No session is upgraded without an authenticated Shared Auth identity, at any entry point. */
  lemma UpgradeNeedsSharedAuth(config: Config, token: Option<string>, w: World, arrivals: seq<Arm>, inTime: bool)
    ensures UpgradeIsBacked(Authenticate(config, token, w, arrivals))
    ensures UpgradeIsBacked(AuthenticateShared(config, token, w, inTime))
    ensures UpgradeIsBacked(Authorize(config, token, w, Arrived(arrivals)))
  {
    hide VerifyLocal, SharedArmOf, DirectArmOf, Trim;
    if NormalizedToken(token).Some? {
      ExchangedIsBacked(config, NormalizedToken(token).value, false, w);
      ExchangedIsBacked(config, NormalizedToken(token).value, true, w);
    }
  }

  lemma DirectTokenHasNoPrivilege(config: Config, token: string, w: World, arrivals: seq<Arm>)
    ensures var d := AuthenticateToken(config, token, w, arrivals);
            d.outcome.Authenticated? && d.outcome.authority == Supabase ==>
              d.upgrade == None && DirectArmOf(config, token, w) == Ok(d.outcome.identity)
  {
    hide TrustedIdentity, VerifyLocal, SharedArmOf, DirectArmOf;
    if VerifyLocal(config, token, w).Ok? {
      LocalIsTrusted(config, token, w);
      TrustedAuthority(config, VerifyLocal(config, token, w).value);
    }
    if SharedArmOf(config, token, false, w).Ok? {
      ExchangedIsTrusted(config, token, false, w);
      TrustedAuthority(config, SharedArmOf(config, token, false, w).value.identity);
    }
  }

  /** Direct verification proves identity only: no roles, and no session. */
  lemma DirectHasNoPrivilege(config: Config, token: Option<string>, w: World, arrivals: seq<Arm>)
    ensures var d := Authenticate(config, token, w, arrivals);
            d.outcome.Authenticated? && d.outcome.authority == Supabase ==>
              && d.upgrade == None && d.outcome.identity.roles == [] && d.outcome.identity.sessionId == None
              && d.outcome.identity.assuranceLevel == 1 && !HasRequiredRole(config, d.outcome.identity)
  {
    hide AuthenticateToken, Trim, ValidIdentifier, ValidEmail, TokenTooLong;
    if NormalizedToken(token).Some? {
      DirectTokenHasNoPrivilege(config, NormalizedToken(token).value, w, arrivals);
    }
  }

  // Refinement

  /** Demanding a role only turns an identity without one into a denial. */
  lemma ExchangeWithRole(config: Config, token: string, w: World)
    ensures var plain, strict := SharedArmOf(config, token, false, w), SharedArmOf(config, token, true, w);
            strict == if plain.Ok? && !HasRequiredRole(config, plain.value.identity) then Err(Forbidden) else plain
  {
    hide HasRequiredRole, ValidateShared, Coherent, TokenTooLong;
  }

  lemma ExchangeForbidsOnlyRoles(config: Config, token: string, w: World)
    ensures SharedArmOf(config, token, false, w) != Err(Forbidden)
  {
    hide HasRequiredRole, Coherent, TokenTooLong, UniqueValidIdentifiers, ValidIdentifier, ValidEmail;
  }

  lemma AuthorizeTokenRefinesShared(config: Config, token: string, w: World)
    ensures var open, strict := AuthenticateSharedToken(config, token, w, true),
        AuthorizeToken(config, token, w, {SharedArm, DirectArm});
            if open.outcome.Authenticated? then
              strict == if HasRequiredRole(config, open.outcome.identity) then open else WithoutUpgrade(Denied)
            else !strict.outcome.Authenticated? && !strict.outcome.Denied?
  {
    hide HasRequiredRole, VerifyLocal, SharedArmOf, DirectArmOf;
    ExchangeWithRole(config, token, w);
    ExchangeForbidsOnlyRoles(config, token, w);
  }

  /**
   `authorize` refines `authenticate_shared`: on the same answers and without the deadline it gives
   the same identity when that has a required role, denies it otherwise, and lets in nobody else.
   */
  lemma AuthorizeRefinesShared(config: Config, token: Option<string>, w: World)
    ensures var open, strict := AuthenticateShared(config, token, w, true),
        Authorize(config, token, w, {SharedArm, DirectArm});
            if open.outcome.Authenticated? then
              strict == if HasRequiredRole(config, open.outcome.identity) then open else WithoutUpgrade(Denied)
            else !strict.outcome.Authenticated? && !strict.outcome.Denied?
  {
    hide HasRequiredRole, AuthenticateSharedToken, AuthorizeToken, Trim;
    if NormalizedToken(token).Some? {
      AuthorizeTokenRefinesShared(config, NormalizedToken(token).value, w);
    }
  }

  lemma DeadlineLetsInNoToken(config: Config, token: string, w: World, arrived: set<Arm>)
    ensures AuthorizeToken(config, token, w, arrived).outcome.Authenticated? ==>
              AuthenticateSharedToken(config, token, w, true) == AuthorizeToken(config, token, w, arrived)
  {
    hide HasRequiredRole, VerifyLocal, SharedArmOf, DirectArmOf;
    ExchangeWithRole(config, token, w);
  }

  /** With any deadline, whoever `authorize` lets in is whom `authenticate_shared` lets in without one. */
  lemma DeadlineLetsInNobody(config: Config, token: Option<string>, w: World, arrived: set<Arm>)
    ensures Authorize(config, token, w, arrived).outcome.Authenticated? ==>
              AuthenticateShared(config, token, w, true) == Authorize(config, token, w, arrived)
  {
    hide AuthenticateSharedToken, AuthorizeToken, Trim;
    if NormalizedToken(token).Some? {
      DeadlineLetsInNoToken(config, NormalizedToken(token).value, w, arrived);
    }
  }
}
