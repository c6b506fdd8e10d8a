/** The terms-of-use and role helpers of the web front end: which
    organisation is current, the user's maximum role, the terms-of-use
    version string for a role, and whether a user must (re-)accept the terms.

    The deployment's terms version (`REACT_APP_TERMS_VERSION`) is read from
    the environment by the front end; here it is the parameter
    `termsVersion`, `None` when the variable is not set. */
module UserStateUtils {
  import opened Wrappers

  datatype Organization = Organization(id: string, name: string)

  /** One membership of a user: the role name and the organisation it is in. */
  datatype Role = Role(role: string, organization: Option<Organization>)

  datatype AuthUser = AuthUser(
    email: string,
    userType: string,
    roles: seq<Role>,
    dateAcceptedTerms: Option<string>,
    acceptedTermsVersion: Option<string>
  )

  /** The e-mail suffixes whose owners never have to accept the terms. */
  const ApprovedEmailAddresses: seq<string> := ["@cisa.dhs.gov", "@associates.cisa.dhs.gov"]

  /** JavaScript truthiness of an optional string: `undefined`, `null` and
      the empty string are falsy. */
  predicate Truthy(s: Option<string>)
  {
    s.Some? && s.value != ""
  }

  // ---------------------------------------------------------------------
  // getExtendedOrg
  // ---------------------------------------------------------------------

  /** `user?.roles[0]?.organization`: undefined when there is no user or the
      user has no role. */
  function FirstRoleOrganization(user: Option<AuthUser>): (r: Option<Organization>)
  {
    if user.Some? && |user.value.roles| > 0 then user.value.roles[0].organization else None
  }

  /** `org ?? user?.roles[0]?.organization ?? null` */
  function GetExtendedOrg(org: Option<Organization>, user: Option<AuthUser>): (r: Option<Organization>)
    ensures org.Some? ==> r == org
    ensures org.None? && user.Some? && |user.value.roles| > 0 ==> r == user.value.roles[0].organization
    ensures org.None? && (user.None? || user.value.roles == []) ==> r == None
  {
    Coalesce(org, Coalesce(FirstRoleOrganization(user), None))
  }

  /** The current organisation is always the explicit one or the organisation
      of one of the user's roles; never an organisation from elsewhere. */
  lemma ExtendedOrgComesFromArguments(org: Option<Organization>, user: Option<AuthUser>)
    ensures var r := GetExtendedOrg(org, user);
      r.Some? ==> r == org || (user.Some? && exists i :: 0 <= i < |user.value.roles| && user.value.roles[i].organization == r)
  {
  }

  /** Feeding the current organisation back in as the explicit one changes
      nothing: the fallback is only ever taken once. */
  lemma ExtendedOrgIsStable(org: Option<Organization>, user: Option<AuthUser>)
    ensures GetExtendedOrg(GetExtendedOrg(org, user), user) == GetExtendedOrg(org, user)
  {
  }

  // ---------------------------------------------------------------------
  // getMaximumRole
  // ---------------------------------------------------------------------

  /** `roles.find((role) => role.role === name)`: the first role with that
      name, or undefined. */
  function FindRole(roles: seq<Role>, name: string): (r: Option<Role>)
    ensures r.None? <==> forall i :: 0 <= i < |roles| ==> roles[i].role != name
    ensures r.Some? ==> exists i :: 0 <= i < |roles| && roles[i] == r.value && r.value.role == name &&
                                    forall j :: 0 <= j < i ==> roles[j].role != name
  {
    if roles == [] then None
    else if roles[0].role == name then Some(roles[0])
    else
      var r := FindRole(roles[1..], name);
      assert r.Some? ==> exists i :: 1 <= i < |roles| && roles[i] == r.value && r.value.role == name &&
                                     forall j :: 0 <= j < i ==> roles[j].role != name by {
        if r.Some? {
          var k :| 0 <= k < |roles[1..]| && roles[1..][k] == r.value && r.value.role == name &&
                   forall j :: 0 <= j < k ==> roles[1..][j].role != name;
          assert roles[k + 1] == r.value;
          forall j | 0 <= j < k + 1 ensures roles[j].role != name {
            if j > 0 { assert roles[j] == roles[1..][j - 1]; }
          }
        }
      }
      assert r.None? ==> forall i :: 0 <= i < |roles| ==> roles[i].role != name by {
        if r.None? {
          forall i | 0 <= i < |roles| ensures roles[i].role != name {
            if i > 0 { assert roles[i] == roles[1..][i - 1]; }
          }
        }
      }
      r
  }

  /** Whether some role of the user is named `admin`. */
  ghost predicate HoldsAdminRole(user: AuthUser)
  {
    exists i :: 0 <= i < |user.roles| && user.roles[i].role == "admin"
  }

  /** `getMaximumRole`: `'user'` for a global-view user, otherwise `'admin'`
      when `find` returns a role (an object, so always truthy). */
  function GetMaximumRole(user: Option<AuthUser>): (r: string)
    ensures r == "admin" || r == "user"
    ensures r == "admin" <==> user.Some? && user.value.userType != "globalView" && HoldsAdminRole(user.value)
  {
    if user.Some? && user.value.userType == "globalView" then "user"
    else if user.Some? && FindRole(user.value.roles, "admin").Some? then "admin"
    else "user"
  }

  /** A global-view user is a plain user whatever roles they hold. */
  lemma GlobalViewIsNeverAdmin(user: AuthUser)
    requires user.userType == "globalView"
    requires HoldsAdminRole(user)
    ensures GetMaximumRole(Some(user)) == "user"
  {
  }

  // ---------------------------------------------------------------------
  // getTouVersion
  // ---------------------------------------------------------------------

  /** How a template literal renders the terms version: an unset
      environment variable becomes the text `undefined`. */
  function TemplateText(termsVersion: Option<string>): (r: string)
    ensures termsVersion.Some? ==> r == termsVersion.value
    ensures termsVersion.None? ==> r == "undefined"
  {
    if termsVersion.Some? then termsVersion.value else "undefined"
  }

  /** `v${currentTermsVersion}-${maxRole}` */
  function GetTouVersion(termsVersion: Option<string>, maxRole: string): (r: string)
    ensures |r| == |TemplateText(termsVersion)| + |maxRole| + 2
    ensures r[..|TemplateText(termsVersion)| + 2] == "v" + TemplateText(termsVersion) + "-"
    ensures r[|TemplateText(termsVersion)| + 2..] == maxRole
  {
    var r := "v" + TemplateText(termsVersion) + "-" + maxRole;
    assert r[..|TemplateText(termsVersion)| + 2] == "v" + TemplateText(termsVersion) + "-";
    r
  }

  /** Reads the role back out of a terms version string made for the given
      deployment version: the inverse of `GetTouVersion`. */
  function RoleOfTouVersion(termsVersion: Option<string>, tou: string): (r: Option<string>)
  {
    var n := |TemplateText(termsVersion)| + 2;
    if n <= |tou| && tou[..n] == "v" + TemplateText(termsVersion) + "-" then Some(tou[n..]) else None
  }

  /** The role can always be read back from its terms version string. */
  lemma TouVersionRoundTrip(termsVersion: Option<string>, maxRole: string)
    ensures RoleOfTouVersion(termsVersion, GetTouVersion(termsVersion, maxRole)) == Some(maxRole)
  {
  }

  /** Every string the reader accepts is the terms version of the role it reads. */
  lemma TouVersionParseRoundTrip(termsVersion: Option<string>, tou: string)
    requires RoleOfTouVersion(termsVersion, tou).Some?
    ensures GetTouVersion(termsVersion, RoleOfTouVersion(termsVersion, tou).value) == tou
  {
  }

  /** Different roles give different terms version strings, so an admin's
      acceptance does not carry over to a plain user and the other way round. */
  lemma TouVersionInjectiveInRole(termsVersion: Option<string>, a: string, b: string)
    requires a != b
    ensures GetTouVersion(termsVersion, a) != GetTouVersion(termsVersion, b)
  {
  }

  /** Different deployment versions give different strings for the same role. */
  lemma TouVersionInjectiveInVersion(v1: Option<string>, v2: Option<string>, maxRole: string)
    requires TemplateText(v1) != TemplateText(v2)
    ensures GetTouVersion(v1, maxRole) != GetTouVersion(v2, maxRole)
  {
    var t1, t2 := TemplateText(v1), TemplateText(v2);
    var r1, r2 := GetTouVersion(v1, maxRole), GetTouVersion(v2, maxRole);
    assert r1[1..|t1| + 1] == (r1[..|t1| + 2])[1..|t1| + 1] == t1;
    assert r2[1..|t2| + 1] == (r2[..|t2| + 2])[1..|t2| + 1] == t2;
  }

  // ---------------------------------------------------------------------
  // getUserMustSign
  // ---------------------------------------------------------------------

  /** `s.endsWith(suffix)` */
  predicate EndsWith(s: string, suffix: string)
  {
    |suffix| <= |s| && s[|s| - |suffix|..] == suffix
  }

  /** The early-return loop over the approved suffixes: whether the e-mail
      ends with any of them. */
  function EndsWithAny(email: string, suffixes: seq<string>): (r: bool)
    ensures r <==> exists i :: 0 <= i < |suffixes| && EndsWith(email, suffixes[i])
  {
    if suffixes == [] then false
    else if EndsWith(email, suffixes[0]) then true
    else
      var r := EndsWithAny(email, suffixes[1..]);
      assert r ==> exists i :: 0 <= i < |suffixes| && EndsWith(email, suffixes[i]) by {
        if r {
          var k :| 0 <= k < |suffixes[1..]| && EndsWith(email, suffixes[1..][k]);
          assert suffixes[k + 1] == suffixes[1..][k];
        }
      }
      assert !r ==> forall i :: 0 <= i < |suffixes| ==> !EndsWith(email, suffixes[i]) by {
        if !r {
          forall i | 0 < i < |suffixes| ensures !EndsWith(email, suffixes[i]) {
            assert suffixes[i] == suffixes[1..][i - 1];
          }
        }
      }
      r
  }

  /** Whether the address is one of the approved agency addresses. */
  predicate IsApprovedEmail(email: string)
  {
    EndsWithAny(email, ApprovedEmailAddresses)
  }

  /** `getUserMustSign`: approved addresses never sign; otherwise a user
      signs when there is no user, no acceptance date, or an accepted
      version that is present (truthy) and differs from `touVersion`. */
  function GetUserMustSign(user: Option<AuthUser>, touVersion: string): (r: bool)
    ensures user.Some? && IsApprovedEmail(user.value.email) ==> !r
    ensures user.None? ==> r
    ensures user.Some? && !IsApprovedEmail(user.value.email) && !Truthy(user.value.dateAcceptedTerms) ==> r
    ensures user.Some? && !IsApprovedEmail(user.value.email) && Truthy(user.value.dateAcceptedTerms) ==>
      (r <==> Truthy(user.value.acceptedTermsVersion) && user.value.acceptedTermsVersion.value != touVersion)
  {
    if user.Some? && IsApprovedEmail(user.value.email) then false
    else
      var dateAccepted := if user.Some? then user.value.dateAcceptedTerms else None;
      !Truthy(dateAccepted) ||
      (Truthy(user.value.acceptedTermsVersion) && user.value.acceptedTermsVersion.value != touVersion)
  }

  /** Any address at either approved domain is exempt, whatever the user's
      acceptance fields say. */
  lemma AgencyAddressesNeverSign(user: AuthUser, local: string, touVersion: string)
    requires user.email == local + "@cisa.dhs.gov" || user.email == local + "@associates.cisa.dhs.gov"
    ensures !GetUserMustSign(Some(user), touVersion)
  {
    var i := if user.email == local + "@cisa.dhs.gov" then 0 else 1;
    var suffix := ApprovedEmailAddresses[i];
    assert user.email[|user.email| - |suffix|..] == suffix;
    assert EndsWith(user.email, ApprovedEmailAddresses[i]);
  }

  /** An address ending in a suffix that itself ends in `.gov` ends in `.gov`. */
  lemma GovSuffix(email: string, suffix: string)
    requires EndsWith(suffix, ".gov")
    ensures EndsWith(email, suffix) ==> EndsWith(email, ".gov")
  {
    if |suffix| <= |email| {
      assert email[|email| - |suffix|..][|suffix| - 4..] == email[|email| - 4..];
    }
  }

  /** Only addresses in `.gov` can be exempt: a user whose address does not
      end in `.gov` (such as one at a look-alike domain `cisa.dhs.gov.x`)
      and who has no acceptance date must sign. */
  lemma NonGovAddressMustSign(user: AuthUser, touVersion: string)
    requires !EndsWith(user.email, ".gov")
    requires !Truthy(user.dateAcceptedTerms)
    ensures GetUserMustSign(Some(user), touVersion)
  {
    GovSuffix(user.email, ApprovedEmailAddresses[0]);
    GovSuffix(user.email, ApprovedEmailAddresses[1]);
  }

  /** A user who accepted the current version need not sign again. */
  lemma AcceptedCurrentVersionNeedNotSign(user: AuthUser, touVersion: string)
    requires Truthy(user.dateAcceptedTerms)
    requires user.acceptedTermsVersion == Some(touVersion)
    ensures !GetUserMustSign(Some(user), touVersion)
  {
  }

  /** A user who accepted the terms for one maximum role must accept them
      again once their maximum role changes (unless their address is
      approved). */
  lemma RoleChangeForcesResigning(termsVersion: Option<string>, user: AuthUser, signedRole: string)
    requires !IsApprovedEmail(user.email)
    requires Truthy(user.dateAcceptedTerms)
    requires user.acceptedTermsVersion == Some(GetTouVersion(termsVersion, signedRole))
    requires GetMaximumRole(Some(user)) != signedRole
    ensures GetUserMustSign(Some(user), GetTouVersion(termsVersion, GetMaximumRole(Some(user))))
  {
  }

  /** A user who accepted the terms under one deployment version must accept
      them again when the deployment moves to a different version. */
  lemma VersionChangeForcesResigning(v1: Option<string>, v2: Option<string>, user: AuthUser)
    requires !IsApprovedEmail(user.email)
    requires Truthy(user.dateAcceptedTerms)
    requires TemplateText(v1) != TemplateText(v2)
    requires user.acceptedTermsVersion == Some(GetTouVersion(v1, GetMaximumRole(Some(user))))
    ensures GetUserMustSign(Some(user), GetTouVersion(v2, GetMaximumRole(Some(user))))
  {
    TouVersionInjectiveInVersion(v1, v2, GetMaximumRole(Some(user)));
  }
}
