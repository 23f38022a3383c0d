/** Who a credential identifies, and the checks every identity passes (adapters/shared-auth-rust/src/lib.rs). */
module GuardIdentity {
  import opened Prelude
  import opened Strings
  import opened KeyOrder
  import Utf8

  const MAX_TOKEN_BYTES := 16 * 1024
  const MAX_IDENTIFIER_BYTES := 200
  const MAX_EMAIL_BYTES := 320

  datatype Authority = SharedAuth | Supabase

  datatype Failure = Invalid | Unavailable | Forbidden

  datatype Identity = Identity(
    sharedUserId: string,
    provider: string,
    providerTenant: string,
    providerSubject: string,
    project: string,
    supabaseUserId: string,
    sessionId: Option<string>,
    email: Option<string>,
    emailVerified: bool,
    assuranceLevel: nat,
    authMethods: seq<string>,
    roles: seq<string>,
    authority: Authority)

  /** The parts of the configuration that decisions depend on. */
  datatype Config = Config(issuer: string, project: string, requiredRoles: seq<string>)

  predicate IsControl(c: char) {
    c as int <= 0x1F || 0x7F <= c as int <= 0x9F
  }

  predicate ValidIdentifier(value: string) {
    var trimmed := Trim(value);
    && trimmed != ""
    && |Utf8.Encode(trimmed)| <= MAX_IDENTIFIER_BYTES
    && forall i | 0 <= i < |trimmed| :: !IsControl(trimmed[i]) && trimmed[i] != '/' && trimmed[i] != '\\'
  }

  predicate ValidEmail(email: Option<string>) {
    email.Some? ==>
      var trimmed := Trim(email.value);
      && trimmed != ""
      && |Utf8.Encode(trimmed)| <= MAX_EMAIL_BYTES
      && forall i | 0 <= i < |trimmed| :: !IsControl(trimmed[i])
  }

  predicate UniqueValidIdentifiers(values: seq<string>) {
    forall i | 0 <= i < |values| :: ValidIdentifier(values[i]) && values[i] !in values[..i]
  }

  lemma UniqueMeansDistinct(values: seq<string>)
    requires UniqueValidIdentifiers(values)
    ensures Distinct(values)
  {
    hide ValidIdentifier;
    forall i, j | 0 <= i < j < |values|
      ensures values[i] != values[j]
    {
      assert values[..j][i] == values[i];
      assert values[i] in values[..j];
    }
  }

  predicate HasRequiredRole(config: Config, identity: Identity) {
    exists role :: role in identity.roles && role in config.requiredRoles
  }

  /** `validate_shared_identity` */
  function ValidateShared(identity: Identity, expectedProject: string): Result<Identity, Failure> {
    if expectedProject == ""
       || identity.provider != "supabase"
       || identity.providerTenant != expectedProject
       || identity.project != expectedProject
       || identity.supabaseUserId != identity.providerSubject
       || !ValidIdentifier(identity.sharedUserId)
       || !ValidIdentifier(identity.providerSubject)
       || !ValidEmail(identity.email)
       || !(1 <= identity.assuranceLevel <= 3)
       || !UniqueValidIdentifiers(identity.authMethods)
       || !UniqueValidIdentifiers(identity.roles)
    then Err(Invalid)
    else Ok(identity)
  }

  /** What callers may rely on in an identity from Shared Auth. */
  predicate TrustedIdentity(config: Config, identity: Identity) {
    && identity.authority == SharedAuth
    && identity.provider == "supabase"
    && identity.project == identity.providerTenant == config.project
    && identity.supabaseUserId == identity.providerSubject
    && 1 <= identity.assuranceLevel <= 3
    && Distinct(identity.roles) && Distinct(identity.authMethods)
  }

  // Role lists

  /** Each element is equal to the one after it or below it. */
  predicate NonDescending(s: seq<string>) {
    forall i, j | 0 <= i < j < |s| :: s[i] == s[j] || Below(s[i], s[j])
  }

  function Insert(x: string, s: seq<string>): (r: seq<string>)
    requires NonDescending(s)
    ensures NonDescending(r) && Elements(r) == Elements(s) + {x}
    ensures forall y | y in r :: y == x || y in s
  {
    if s == [] then [x]
    else if x == s[0] || Below(x, s[0]) then
      assert forall j | 0 < j < |s| :: s[0] == s[j] || Below(s[0], s[j]);
      InsertFront(x, s);
      [x] + s
    else
      BelowTotal(x, s[0]);
      var others := Insert(x, s[1..]);
      InsertBehind(x, s, others);
      [s[0]] + others
  }

  lemma InsertFront(x: string, s: seq<string>)
    requires NonDescending(s) && s != [] && (x == s[0] || Below(x, s[0]))
    ensures NonDescending([x] + s) && Elements([x] + s) == Elements(s) + {x}
  {
    hide Below;
    forall j | 0 <= j < |s|
      ensures x == s[j] || Below(x, s[j])
    {
      if j > 0 && s[0] != s[j] && x != s[0] {
        BelowTransitive(x, s[0], s[j]);
      }
    }
  }

  lemma InsertBehind(x: string, s: seq<string>, others: seq<string>)
    requires s != [] && NonDescending(s) && Below(s[0], x)
    requires NonDescending(others) && Elements(others) == Elements(s[1..]) + {x}
    requires forall y | y in others :: y == x || y in s[1..]
    ensures NonDescending([s[0]] + others) && Elements([s[0]] + others) == Elements(s) + {x}
  {
    hide Below;
    forall j | 0 <= j < |others|
      ensures s[0] == others[j] || Below(s[0], others[j])
    {
      assert others[j] in others;
    }
    ElementsAppend([s[0]], others);
    ElementsAppend([s[0]], s[1..]);
    assert s == [s[0]] + s[1..];
  }

  lemma ElementsAppend(s: seq<string>, t: seq<string>)
    ensures Elements(s + t) == Elements(s) + Elements(t)
  {
  }

  /** What `sort_unstable` leaves: equal strings cannot be told apart. */
  function SortedCopy(s: seq<string>): (r: seq<string>)
    ensures NonDescending(r) && Elements(r) == Elements(s)
  {
    if s == [] then []
    else
      assert s == [s[0]] + s[1..];
      Insert(s[0], SortedCopy(s[1..]))
  }

  /** `Vec::dedup` on a sorted list: one of each element stays. */
  method Dedup(s: seq<string>) returns (kept: seq<string>)
    requires NonDescending(s)
    ensures Ascending(kept) && Elements(kept) == Elements(s)
  {
    hide Below;
    kept := [];
    for i := 0 to |s|
      invariant Ascending(kept) && Elements(kept) == Elements(s[..i])
      invariant kept == [] <==> i == 0
      invariant i > 0 ==> kept[|kept| - 1] == s[i - 1]
    {
      assert s[..i + 1] == s[..i] + [s[i]];
      ElementsAppend(s[..i], [s[i]]);
      ElementsAppend(kept, [s[i]]);
      assert Elements([s[i]]) == {s[i]};
      if kept == [] || kept[|kept| - 1] != s[i] {
        forall j | 0 <= j < |kept|
          ensures Below(kept[j], s[i])
        {
          if j < |kept| - 1 {
            BelowTransitive(kept[j], kept[|kept| - 1], s[i]);
          }
        }
        kept := kept + [s[i]];
      }
    }
    assert s[..|s|] == s;
  }

  /** Two role lists are the same exactly when they have the same elements, in any order and number. */
  method SameRoles(left: seq<string>, right: seq<string>) returns (same: bool)
    ensures same <==> Elements(left) == Elements(right)
  {
    var l := Dedup(SortedCopy(left));
    var r := Dedup(SortedCopy(right));
    same := l == r;
    if Elements(left) == Elements(right) {
      forall k
        ensures k in l <==> k in r
      {
        assert k in Elements(l) <==> k in Elements(r);
      }
      AscendingUnique(l, r);
    }
  }
}
