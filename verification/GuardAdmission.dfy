/** Who is let in, refused or put off, as exact conditions on what the guard is answered (adapters/shared-auth-rust). */
module GuardAdmission {
  import opened Prelude
  import opened Strings
  import opened KeyOrder
  import opened GuardIdentity
  import opened GuardRace
  import opened Guard
  import Utf8

  // Identities

  predicate IsControlChar(c: char) {
    c as int < 0x20 || 0x7F <= c as int < 0xA0
  }

  /** A text between white space, of at most 200 bytes, without control characters and slashes. */
  ghost predicate SpellsIdentifier(value: string) {
    exists core :: IsCore(value, core) && core != "" && |Utf8.Encode(core)| <= 200
                   && forall c | c in core :: !IsControlChar(c) && c != '/' && c != '\\'
  }

  /** No address, or a text between white space of at most 320 bytes, without control characters. */
  ghost predicate SpellsEmail(email: Option<string>) {
    email.Some? ==>
      exists core :: IsCore(email.value, core) && core != "" && |Utf8.Encode(core)| <= 320
                     && forall c | c in core :: !IsControlChar(c)
  }

  lemma IdentifierExactly(value: string)
    ensures ValidIdentifier(value) <==> SpellsIdentifier(value)
  {
    hide Trim, IsCore, Utf8.Encode;
    var trimmed := Trim(value);
    forall core
      ensures IsCore(value, core) <==> core == trimmed
    {
      CoreExactly(value, core);
    }
    assert forall c :: IsControl(c) <==> IsControlChar(c);
    assert ValidIdentifier(value) ==> forall c | c in trimmed :: !IsControl(c) && c != '/' && c != '\\';
  }

  lemma EmailExactly(email: Option<string>)
    ensures ValidEmail(email) <==> SpellsEmail(email)
  {
    hide Trim, IsCore, Utf8.Encode;
    if email.Some? {
      var trimmed := Trim(email.value);
      forall core
        ensures IsCore(email.value, core) <==> core == trimmed
      {
        CoreExactly(email.value, core);
      }
      assert forall c :: IsControl(c) <==> IsControlChar(c);
      assert ValidEmail(email) ==> forall c | c in trimmed :: !IsControl(c);
    }
  }

  ghost predicate SpellsIdentifiers(values: seq<string>) {
    Distinct(values) && forall v | v in values :: SpellsIdentifier(v)
  }

  lemma IdentifiersExactly(values: seq<string>)
    ensures UniqueValidIdentifiers(values) <==> SpellsIdentifiers(values)
  {
    hide ValidIdentifier, SpellsIdentifier;
    forall v
      ensures ValidIdentifier(v) <==> SpellsIdentifier(v)
    {
      IdentifierExactly(v);
    }
    if UniqueValidIdentifiers(values) {
      UniqueMeansDistinct(values);
    }
    if SpellsIdentifiers(values) {
      forall i | 0 <= i < |values|
        ensures values[i] !in values[..i]
      {
      }
    }
  }

  /** What an identity of Shared Auth has to be. */
  ghost predicate Acceptable(identity: Identity, project: string) {
    && project != ""
    && identity.provider == "supabase"
    && identity.providerTenant == project && identity.project == project
    && identity.supabaseUserId == identity.providerSubject
    && SpellsIdentifier(identity.sharedUserId) && SpellsIdentifier(identity.providerSubject)
    && SpellsEmail(identity.email)
    && identity.assuranceLevel in {1, 2, 3}
    && SpellsIdentifiers(identity.authMethods) && SpellsIdentifiers(identity.roles)
  }

  /** Validation returns an acceptable identity unchanged and calls every other one invalid. */
  lemma ValidatedExactly(identity: Identity, project: string)
    ensures Acceptable(identity, project) ==> ValidateShared(identity, project) == Ok(identity)
    ensures !Acceptable(identity, project) ==> ValidateShared(identity, project) == Err(Invalid)
  {
    hide ValidIdentifier, SpellsIdentifier, ValidEmail, SpellsEmail, UniqueValidIdentifiers, SpellsIdentifiers;
    IdentifierExactly(identity.sharedUserId);
    IdentifierExactly(identity.providerSubject);
    EmailExactly(identity.email);
    IdentifiersExactly(identity.authMethods);
    IdentifiersExactly(identity.roles);
  }

  /** The identity that claims describe. */
  ghost predicate Describes(claims: Claims, identity: Identity) {
    && identity.sharedUserId == claims.sub
    && identity.provider == claims.provider
    && identity.providerTenant == claims.providerTenant
    && identity.providerSubject == claims.providerSubject
    && (claims.project.Some? ==> identity.project == claims.project.value)
    && (claims.project.None? ==> identity.project == "")
    && (claims.supabaseUserId.Some? ==> identity.supabaseUserId == claims.supabaseUserId.value)
    && (claims.supabaseUserId.None? ==> identity.supabaseUserId == "")
    && identity.sessionId == claims.sid
    && identity.email == claims.email && identity.emailVerified == claims.emailVerified
    && identity.assuranceLevel == claims.aal
    && identity.authMethods == claims.amr && identity.roles == claims.roles
    && identity.authority == SharedAuth
  }

  lemma DescribedExactly(claims: Claims, identity: Identity)
    ensures Describes(claims, identity) <==> identity == ClaimedIdentity(claims)
  {
  }

  // Local verification

  predicate HeaderAccepted(token: string, w: World) {
    |Utf8.Encode(token)| <= 16384 && w.isEs256 && w.hasKeyId
  }

  /** The key set whose verdict counts: the pinned one; or the cached one, unless it does not know the key. */
  function DecidingKeys(w: World): Result<KeySet, Failure> {
    if w.pinnedKeys.Some? then Ok(w.pinnedKeys.value)
    else if w.cachedKeys.Ok? && w.cachedKeys.value.verdict == Err(UnknownKey) then w.refreshedKeys
    else w.cachedKeys
  }

  /** The token is well-formed, and the deciding keys vouch for claims that describe an acceptable identity. */
  ghost predicate VouchedLocally(config: Config, token: string, w: World, identity: Identity) {
    && HeaderAccepted(token, w)
    && DecidingKeys(w).Ok? && DecidingKeys(w).value.verdict.Ok?
    && Describes(DecidingKeys(w).value.verdict.value, identity) && Acceptable(identity, config.project)
  }

  /** The keys that the token needs cannot be had. */
  predicate KeysFail(token: string, w: World, failure: Failure) {
    HeaderAccepted(token, w) && DecidingKeys(w) == Err(failure)
  }

  lemma DecodedExactly(config: Config, keys: KeySet)
    ensures keys.verdict.Err? ==> DecodeWith(config, keys) == Err(keys.verdict.error)
    ensures keys.verdict.Ok? ==>
              var identity := ClaimedIdentity(keys.verdict.value);
              && (Acceptable(identity, config.project) ==> DecodeWith(config, keys) == Ok(identity))
              && (!Acceptable(identity, config.project) ==> DecodeWith(config, keys) == Err(BadToken))
  {
    hide Acceptable, ValidateShared;
    if keys.verdict.Ok? {
      ValidatedExactly(ClaimedIdentity(keys.verdict.value), config.project);
    }
  }

  /** Local verification lets in exactly those whom the deciding keys vouch for. */
  lemma LocalExactly(config: Config, token: string, w: World)
    ensures forall identity :: VerifyLocal(config, token, w) == Ok(identity)
                               <==> VouchedLocally(config, token, w, identity)
    ensures forall failure | KeysFail(token, w, failure) :: VerifyLocal(config, token, w) == Err(failure)
    ensures VerifyLocal(config, token, w).Err? && VerifyLocal(config, token, w).error != Invalid ==>
              KeysFail(token, w, VerifyLocal(config, token, w).error)
  {
    hide Acceptable, DecodeWith, Utf8.Encode, Describes;
    forall claims, identity
      ensures Describes(claims, identity) <==> identity == ClaimedIdentity(claims)
    {
      DescribedExactly(claims, identity);
    }
    forall keys: KeySet
      ensures keys.verdict.Err? ==> DecodeWith(config, keys) == Err(keys.verdict.error)
      ensures keys.verdict.Ok? ==>
                var identity := ClaimedIdentity(keys.verdict.value);
                && (Acceptable(identity, config.project) ==> DecodeWith(config, keys) == Ok(identity))
                && (!Acceptable(identity, config.project) ==> DecodeWith(config, keys) == Err(BadToken))
    {
      DecodedExactly(config, keys);
    }
  }

  // The exchange

  /** Both answers are there and have bodies, and the exchanged token is usable. */
  predicate Answered(token: string, w: World) {
    && |Utf8.Encode(token)| <= 16384
    && w.exchange.Received? && 200 <= w.exchange.status <= 299 && w.exchange.body.Some?
    && w.exchange.body.value.accessToken != "" && |Utf8.Encode(w.exchange.body.value.accessToken)| <= 16384
    && w.introspection.Received? && 200 <= w.introspection.status <= 299 && w.introspection.body.Some?
  }

  /** The introspection confirms what the exchange says, for the project. */
  ghost predicate Agree(exchange: ExchangeBody, claims: Claims, project: string) {
    && claims.active
    && claims.sub == exchange.sharedUserId
    && claims.provider == exchange.provider == "supabase"
    && claims.providerTenant == exchange.providerTenant == project
    && claims.providerSubject == exchange.providerSubject
    && (forall role :: role in claims.roles <==> role in exchange.roles)
    && claims.project == Some(project)
    && claims.supabaseUserId == Some(claims.providerSubject)
  }

  /** The answers agree on an acceptable identity; the upgrade carries the new token and its session. */
  ghost predicate VouchedByExchange(config: Config, token: string, w: World, e: Exchanged) {
    && Answered(token, w)
    && var exchange, claims := w.exchange.body.value, w.introspection.body.value;
       && Agree(exchange, claims, config.project)
       && Describes(claims, e.identity) && Acceptable(e.identity, config.project)
       && e.upgrade == SessionUpgrade(exchange.accessToken, claims.sid)
  }

  /** The token is too long, or refused, or the answers do not agree on an acceptable identity. */
  ghost predicate RefusedByExchange(config: Config, token: string, w: World) {
    || |Utf8.Encode(token)| > 16384
    || (w.exchange.Received? && w.exchange.status in {401, 403})
    || (Answered(token, w) && forall e :: !VouchedByExchange(config, token, w, e))
  }

  /** The identity's roles and the required ones are not disjoint. */
  predicate HasRole(config: Config, identity: Identity) {
    !(Elements(identity.roles) !! Elements(config.requiredRoles))
  }

  lemma HasRoleExactly(config: Config, identity: Identity)
    ensures HasRequiredRole(config, identity) <==> HasRole(config, identity)
  {
    assert forall role :: role in Elements(identity.roles) <==> role in identity.roles;
    assert forall role :: role in Elements(config.requiredRoles) <==> role in config.requiredRoles;
    if HasRole(config, identity) {
      var role :| role in Elements(identity.roles) && role in Elements(config.requiredRoles);
      assert role in identity.roles && role in config.requiredRoles;
    }
  }

  lemma CoherentExactly(exchange: ExchangeBody, claims: Claims, project: string)
    ensures Coherent(exchange, claims, project) <==> Agree(exchange, claims, project)
  {
    assert Elements(claims.roles) == Elements(exchange.roles) <==>
           forall role :: role in claims.roles <==> role in exchange.roles by {
      assert forall role :: role in Elements(claims.roles) <==> role in claims.roles;
      assert forall role :: role in Elements(exchange.roles) <==> role in exchange.roles;
    }
  }

  /** The only identity that the answers can vouch for. */
  lemma VouchedOnce(config: Config, token: string, w: World, e: Exchanged)
    requires Answered(token, w)
    ensures var claims := w.introspection.body.value;
            VouchedByExchange(config, token, w, e) <==>
            && Agree(w.exchange.body.value, claims, config.project)
                && Acceptable(ClaimedIdentity(claims), config.project)
            && e == Exchanged(ClaimedIdentity(claims), SessionUpgrade(w.exchange.body.value.accessToken, claims.sid))
  {
    hide Acceptable, Agree, Utf8.Encode, Describes;
    DescribedExactly(w.introspection.body.value, e.identity);
  }

  lemma ExchangeAnswered(config: Config, token: string, requireRole: bool, w: World)
    requires Answered(token, w)
    ensures var claims := w.introspection.body.value;
            var identity := ClaimedIdentity(claims);
            SharedArmOf(config, token, requireRole, w)
            == if !Agree(w.exchange.body.value, claims, config.project) || !Acceptable(identity, config.project)
               then Err(Invalid)
               else if requireRole && !HasRole(config, identity) then Err(Forbidden)
               else Ok(Exchanged(identity, SessionUpgrade(w.exchange.body.value.accessToken, claims.sid)))
  {
    hide Acceptable, Agree, Coherent, Utf8.Encode, ValidateShared;
    var claims := w.introspection.body.value;
    CoherentExactly(w.exchange.body.value, claims, config.project);
    AgreedProject(w.exchange.body.value, claims, config.project);
    HasRoleExactly(config, ClaimedIdentity(claims));
    ValidatedExactly(ClaimedIdentity(claims), config.project);
  }

  lemma AgreedProject(exchange: ExchangeBody, claims: Claims, project: string)
    ensures Agree(exchange, claims, project) ==> claims.project == Some(project)
  {
  }

  lemma ExchangeUnanswered(config: Config, token: string, requireRole: bool, w: World)
    requires !Answered(token, w)
    ensures SharedArmOf(config, token, requireRole, w).Err?
    ensures SharedArmOf(config, token, requireRole, w) != Err(Forbidden)
    ensures SharedArmOf(config, token, requireRole, w) == Err(Invalid) <==> RefusedByExchange(config, token, w)
  {
    hide Utf8.Encode, VouchedByExchange, ValidateShared, Coherent;
  }

  /** What the exchange returns, for every answer. */
  lemma ExchangeExactly(config: Config, token: string, requireRole: bool, w: World)
    ensures forall e :: SharedArmOf(config, token, requireRole, w) == Ok(e) <==>
                        VouchedByExchange(config, token, w, e) && (requireRole ==> HasRole(config, e.identity))
    ensures SharedArmOf(config, token, requireRole, w) == Err(Forbidden) <==>
            requireRole && exists e :: VouchedByExchange(config, token, w, e) && !HasRole(config, e.identity)
    ensures SharedArmOf(config, token, requireRole, w) == Err(Invalid) <==> RefusedByExchange(config, token, w)
  {
    hide Acceptable, Agree, HasRole, Utf8.Encode, SharedArmOf;
    if Answered(token, w) {
      hide VouchedByExchange;
      ExchangeAnswered(config, token, requireRole, w);
      var claims := w.introspection.body.value;
      var vouched := Exchanged(ClaimedIdentity(claims),
                               SessionUpgrade(w.exchange.body.value.accessToken, claims.sid));
      forall e
        ensures VouchedByExchange(config, token, w, e) <==>
                && Agree(w.exchange.body.value, claims, config.project)
                && Acceptable(ClaimedIdentity(claims), config.project) && e == vouched
      {
        VouchedOnce(config, token, w, e);
      }
      VouchedOnce(config, token, w, vouched);
    } else {
      ExchangeUnanswered(config, token, requireRole, w);
    }
  }

  // Direct verification

  /** The provider confirms a well-spelled user. */
  ghost predicate VouchedDirectly(config: Config, token: string, w: World, identity: Identity) {
    && |Utf8.Encode(token)| <= 16384
    && w.user.Received? && 200 <= w.user.status <= 299 && w.user.body.Some?
    && var user := w.user.body.value;
       && SpellsIdentifier(user.id) && SpellsEmail(user.email)
       && identity == Identity(
            sharedUserId := config.project + ":" + user.id, provider := "supabase",
            providerTenant := config.project, providerSubject := user.id,
            project := config.project, supabaseUserId := user.id,
            sessionId := None, email := user.email, emailVerified := user.emailConfirmedAt.Some?,
            assuranceLevel := 1, authMethods := ["supabase"], roles := [], authority := Supabase)
  }

  ghost predicate RefusedDirectly(config: Config, token: string, w: World) {
    || |Utf8.Encode(token)| > 16384
    || (w.user.Received? && w.user.status in {401, 403})
    || (w.user.Received? && 200 <= w.user.status <= 299 && w.user.body.Some?
        && !(SpellsIdentifier(w.user.body.value.id) && SpellsEmail(w.user.body.value.email)))
  }

  /** What direct verification returns, for every answer; it never calls anybody forbidden. */
  lemma DirectExactly(config: Config, token: string, w: World)
    ensures forall identity :: DirectArmOf(config, token, w) == Ok(identity) <==>
                               VouchedDirectly(config, token, w, identity)
    ensures DirectArmOf(config, token, w) == Err(Invalid) <==> RefusedDirectly(config, token, w)
    ensures DirectArmOf(config, token, w) != Err(Forbidden)
  {
    hide SpellsIdentifier, SpellsEmail, ValidIdentifier, ValidEmail, Utf8.Encode;
    if w.user.Received? && w.user.body.Some? {
      IdentifierExactly(w.user.body.value.id);
      EmailExactly(w.user.body.value.email);
    }
  }

  // The entry points

  /** What the guard takes the token to be: nothing when it is absent or blank. */
  ghost predicate Presents(token: Option<string>, core: string) {
    token.Some? && IsCore(token.value, core) && core != ""
  }

  ghost predicate PresentsNothing(token: Option<string>) {
    token.None? || AllWhitespace(token.value)
  }

  lemma NormalizedExactly(token: Option<string>)
    ensures PresentsNothing(token) <==> NormalizedToken(token).None?
    ensures forall core :: Presents(token, core) <==> NormalizedToken(token) == Some(core)
  {
    hide Trim, IsCore, AllWhitespace;
    if token.Some? {
      forall core
        ensures IsCore(token.value, core) <==> core == Trim(token.value)
      {
        CoreExactly(token.value, core);
      }
      BlankExactly(token.value);
    }
  }

  lemma BlankExactly(s: string)
    ensures AllWhitespace(s) <==> Trim(s) == ""
  {
    hide Trim;
    var before, after := TrimSplits(s);
    if AllWhitespace(s) {
      BlankTrimmed(s);
    }
    if Trim(s) == "" {
      assert s == before + after;
    }
  }

  function LetInAs(identity: Identity, elapsed: nat, upgrade: Option<SessionUpgrade>): Decision {
    Decision(Authenticated(identity, identity.authority, elapsed), upgrade)
  }

  const KEYS_UNAVAILABLE := Degraded("Shared Auth verification is unavailable")

  /** The decision on a token of the issuer, with or without a role demanded. */
  lemma LocalDecisionExactly(config: Config, token: string, requireRole: bool, w: World)
    ensures var d := LocalDecision(config, token, requireRole, w);
            && d.upgrade == None
            && (forall identity :: d == LetInAs(identity, w.elapsed, None) <==>
                  VouchedLocally(config, token, w, identity) && (requireRole ==> HasRole(config, identity)))
            && (d.outcome == Denied <==>
                  requireRole && exists identity ::
                      VouchedLocally(config, token, w, identity) && !HasRole(config, identity))
            && (d.outcome == KEYS_UNAVAILABLE <==> exists f :: KeysFail(token, w, f) && f != Invalid)
            && (d.outcome.Authenticated? || d.outcome == Denied || d.outcome == KEYS_UNAVAILABLE
                || d.outcome == Unauthenticated)
  {
    hide VouchedLocally, KeysFail, VerifyLocal, HasRole, HasRequiredRole;
    LocalExactly(config, token, w);
    if VerifyLocal(config, token, w).Ok? {
      HasRoleExactly(config, VerifyLocal(config, token, w).value);
    }
  }

  /** Who `authorize` lets in, denies and refuses, under every schedule. */
  ghost predicate AuthorizesRightly(config: Config, token: string, w: World, arrived: set<Arm>, d: Decision) {
    if w.issuer == Some(config.issuer) then
      && d.upgrade == None
      && (forall identity :: d == LetInAs(identity, w.elapsed, None) <==>
            VouchedLocally(config, token, w, identity) && HasRole(config, identity))
      && (d.outcome == Denied <==>
            exists identity :: VouchedLocally(config, token, w, identity) && !HasRole(config, identity))
      && (d.outcome == KEYS_UNAVAILABLE <==> exists f :: KeysFail(token, w, f) && f != Invalid)
      && (d.outcome.Authenticated? || d.outcome in {Denied, Unauthenticated, KEYS_UNAVAILABLE})
    else
      && (d.upgrade.Some? ==> d.outcome.Authenticated?)
      && (forall e: Exchanged :: d == LetInAs(e.identity, w.elapsed, Some(e.upgrade)) <==>
            SharedArm in arrived && VouchedByExchange(config, token, w, e) && HasRole(config, e.identity))
      && (d.outcome.Authenticated? ==> d.upgrade.Some?)
      && (d.outcome == Denied <==>
            SharedArm in arrived && exists e :: VouchedByExchange(config, token, w, e) && !HasRole(config, e.identity))
      && (d.outcome == Unauthenticated <==>
            SharedArm in arrived && DirectArm in arrived
            && RefusedByExchange(config, token, w) && RefusedDirectly(config, token, w))
      && (d.outcome.Degraded? ==>
            d.outcome.reason == if SharedArm in arrived && DirectArm in arrived
                                then "Shared Auth role authority is unavailable"
                                else "authorization race deadline exceeded")
      && d.outcome != Anonymous
  }

  lemma AuthorizeTokenExactly(config: Config, token: string, w: World, arrived: set<Arm>)
    ensures AuthorizesRightly(config, token, w, arrived, AuthorizeToken(config, token, w, arrived))
  {
    hide VouchedLocally, KeysFail, VerifyLocal, HasRole, LocalDecision, SharedArmOf, DirectArmOf;
    hide VouchedByExchange, VouchedDirectly, RefusedByExchange, RefusedDirectly;
    LocalDecisionExactly(config, token, true, w);
    ExchangeExactly(config, token, true, w);
    DirectExactly(config, token, w);
  }

  /** `authorize`, for every token, every answer and every schedule. */
  lemma AuthorizeExactly(config: Config, token: Option<string>, w: World, arrived: set<Arm>)
    ensures PresentsNothing(token) ==> Authorize(config, token, w, arrived) == WithoutUpgrade(Anonymous)
    ensures forall core | Presents(token, core) ::
              AuthorizesRightly(config, core, w, arrived, Authorize(config, token, w, arrived))
    ensures PresentsNothing(token) <==> !exists core :: Presents(token, core)
  {
    hide AuthorizeToken, AuthorizesRightly, PresentsNothing, Presents, NormalizedToken;
    NormalizedExactly(token);
    if NormalizedToken(token).Some? {
      AuthorizeTokenExactly(config, NormalizedToken(token).value, w, arrived);
    }
  }

  /** Who `authenticate_shared` lets in and refuses; it never falls back to direct verification. */
  ghost predicate SharesRightly(config: Config, token: string, w: World, inTime: bool, d: Decision) {
    if w.issuer == Some(config.issuer) then
      && d.upgrade == None
      && (forall identity :: d == LetInAs(identity, w.elapsed, None) <==> VouchedLocally(config, token, w, identity))
      && (d.outcome == KEYS_UNAVAILABLE <==> exists f :: KeysFail(token, w, f) && f != Invalid)
      && (d.outcome.Authenticated? || d.outcome in {Unauthenticated, KEYS_UNAVAILABLE})
    else
      && (d.outcome.Authenticated? <==> d.upgrade.Some?)
      && (forall e: Exchanged :: d == LetInAs(e.identity, w.elapsed, Some(e.upgrade)) <==>
            inTime && VouchedByExchange(config, token, w, e))
      && (d.outcome == Unauthenticated <==> inTime && RefusedByExchange(config, token, w))
      && (d.outcome.Authenticated? || d.outcome == Unauthenticated
          || d.outcome == Degraded(if inTime then "Shared Auth authentication is unavailable"
                                   else "Shared Auth authentication deadline exceeded"))
  }

  lemma AuthenticateSharedTokenExactly(config: Config, token: string, w: World, inTime: bool)
    ensures SharesRightly(config, token, w, inTime, AuthenticateSharedToken(config, token, w, inTime))
  {
    hide VouchedLocally, KeysFail, VerifyLocal, HasRole, LocalDecision, SharedArmOf;
    hide VouchedByExchange, RefusedByExchange;
    LocalDecisionExactly(config, token, false, w);
    ExchangeExactly(config, token, false, w);
  }

  lemma AuthenticateSharedExactly(config: Config, token: Option<string>, w: World, inTime: bool)
    ensures PresentsNothing(token) ==> AuthenticateShared(config, token, w, inTime) == WithoutUpgrade(Anonymous)
    ensures forall core | Presents(token, core) ::
              SharesRightly(config, core, w, inTime, AuthenticateShared(config, token, w, inTime))
  {
    hide AuthenticateSharedToken, SharesRightly, PresentsNothing, Presents, NormalizedToken;
    NormalizedExactly(token);
    if NormalizedToken(token).Some? {
      AuthenticateSharedTokenExactly(config, NormalizedToken(token).value, w, inTime);
    }
  }

  /** Shared Auth decides when it vouches in time, unless direct verification was there first. */
  ghost predicate SharedFirst(config: Config, token: string, w: World, arrivals: seq<Arm>, e: Exchanged) {
    && SharedArm in arrivals && VouchedByExchange(config, token, w, e)
    && (arrivals[0] == DirectArm ==> forall identity :: !VouchedDirectly(config, token, w, identity))
  }

  /** Who `authenticate` lets in and refuses, under every schedule. */
  ghost predicate AuthenticatesRightly(config: Config, token: string, w: World, arrivals: seq<Arm>, d: Decision) {
    if w.issuer == Some(config.issuer) then
      && d.upgrade == None
      && (forall identity :: d == LetInAs(identity, w.elapsed, None) <==> VouchedLocally(config, token, w, identity))
      && (d.outcome == KEYS_UNAVAILABLE <==> exists f :: KeysFail(token, w, f) && f != Invalid)
      && (d.outcome.Authenticated? || d.outcome in {Unauthenticated, KEYS_UNAVAILABLE})
    else
      && (forall e: Exchanged :: d == LetInAs(e.identity, w.elapsed, Some(e.upgrade)) <==>
            SharedFirst(config, token, w, arrivals, e))
      && (forall identity :: d == LetInAs(identity, w.elapsed, None) <==>
            && DirectArm in arrivals && VouchedDirectly(config, token, w, identity)
            && forall e :: !SharedFirst(config, token, w, arrivals, e))
      && (d.outcome == Unauthenticated <==>
            SharedArm in arrivals && DirectArm in arrivals
            && RefusedByExchange(config, token, w) && RefusedDirectly(config, token, w))
      && (d.outcome.Degraded? ==>
            d.outcome.reason == if SharedArm in arrivals && DirectArm in arrivals
                                then "no authority could verify the credential"
                                else "authentication race deadline exceeded")
      && d.outcome !in {Anonymous, Denied}
  }

  lemma AuthenticateTokenExactly(config: Config, token: string, w: World, arrivals: seq<Arm>)
    ensures AuthenticatesRightly(config, token, w, arrivals, AuthenticateToken(config, token, w, arrivals))
  {
    hide VouchedLocally, KeysFail, VerifyLocal, HasRole, LocalDecision, SharedArmOf, DirectArmOf;
    hide VouchedByExchange, VouchedDirectly, RefusedByExchange, RefusedDirectly;
    LocalDecisionExactly(config, token, false, w);
    ExchangeExactly(config, token, false, w);
    DirectExactly(config, token, w);
    if w.issuer != Some(config.issuer) {
      var shared, direct := SharedArmOf(config, token, false, w), DirectArmOf(config, token, w);
      assert direct.Ok? ==> VouchedDirectly(config, token, w, direct.value);
      assert forall e :: SharedFirst(config, token, w, arrivals, e) <==>
                         SharedArm in arrivals && shared == Ok(e) && !(direct.Ok? && arrivals[0] == DirectArm);
    }
  }

  lemma AuthenticateExactly(config: Config, token: Option<string>, w: World, arrivals: seq<Arm>)
    ensures PresentsNothing(token) ==> Authenticate(config, token, w, arrivals) == WithoutUpgrade(Anonymous)
    ensures forall core | Presents(token, core) ::
              AuthenticatesRightly(config, core, w, arrivals, Authenticate(config, token, w, arrivals))
  {
    hide AuthenticateToken, AuthenticatesRightly, PresentsNothing, Presents, NormalizedToken;
    NormalizedExactly(token);
    if NormalizedToken(token).Some? {
      AuthenticateTokenExactly(config, NormalizedToken(token).value, w, arrivals);
    }
  }
}
