# Crossfeed: terms-of-use helpers and dnstwist first-observed reconciliation

This project is a Dafny model of two small pieces of decision logic from Crossfeed.

- **`UserStateUtils`** (`user_state_utils.dfy`) models the front end's terms-of-use and role helpers. They pick the current organisation, collapse a user's roles to `admin` or `user`, build the terms-of-use version string for a role, and decide whether a user must (re-)accept the terms. These helpers are pure, so the model uses datatypes, functions and lemmas. JavaScript's truthiness is written out explicitly: `undefined`, `null` and `""` are falsy. The deployment's terms version (`REACT_APP_TERMS_VERSION`) is the parameter `termsVersion`. When it is unset, the template literal renders it as `undefined`.
- **`DnsTwist`** (`dnstwist.dfy`) models the per-domain loop of the dnstwist task. For each domain, that loop:
  - builds a map from each stored `domain-name` to its `date-first-observed`;
  - rewrites each fresh result's date to the stored one, or to the run's `dateNow`;
  - pushes one fixed-shape `dnstwist` vulnerability per domain with a non-empty result, unless a step threw;
  - hands the accumulated list to the storage helper.

  This code is imperative, so the model uses methods with loops:
  - `BuildHistory` fills the map entry by entry;
  - `Reconcile` overwrites the dates in place in an array;
  - `ProcessDomains` accumulates `vulns` and a log of what each save call received.

  Each method is proved against a specification function: `HistoryOf`, `Reconciled` and `Accumulated`. The lemmas state the properties of those functions.

  **This loop is commented out in the live handler** (`backend/src/tasks/dnstwist.ts:59-104`). The model follows the block as written.

`wrappers.dfy` holds the shared `Option` type and JavaScript's `??` (`Coalesce`).

How duplicate names behave in the code:
- Duplicate stored names: the history map is filled by assignment in list order, so the last stored entry with a given name wins (`HistoryLastWins`).
- Duplicate fresh results: all of them are kept, and each gets the date for its name (`ReconciledDates`).

## Model

| member | source | states |
|---|---|---|
| `UserStateUtils.GetExtendedOrg` | frontend/src/context/userStateUtils.ts:6-13 | An explicit organisation is returned unchanged. Otherwise the result is the first role's organisation when there is a user with at least one role. Otherwise it is null. |
| `UserStateUtils.ExtendedOrgComesFromArguments` | frontend/src/context/userStateUtils.ts:10-11 | A non-null current organisation is either the explicit one or the organisation of one of the user's roles. |
| `UserStateUtils.ExtendedOrgIsStable` | frontend/src/context/userStateUtils.ts:10-11 | Passing the current organisation back in as the explicit one yields the same organisation. |
| `UserStateUtils.FindRole` | frontend/src/context/userStateUtils.ts:17 | `find` returns undefined exactly when no role has the name. Otherwise it returns the first role with that name. |
| `UserStateUtils.GetMaximumRole` | frontend/src/context/userStateUtils.ts:15-20 | The result is always `admin` or `user`. It is `admin` exactly when the user exists, is not `globalView`, and holds some role named `admin`. |
| `UserStateUtils.GlobalViewIsNeverAdmin` | frontend/src/context/userStateUtils.ts:16 | A `globalView` user who holds an `admin` role still gets `user`. |
| `UserStateUtils.TemplateText` | frontend/src/context/userStateUtils.ts:23 | A set terms version is rendered as itself. An unset one is rendered as the text `undefined`. |
| `UserStateUtils.GetTouVersion` | frontend/src/context/userStateUtils.ts:22-24 | The string is `v`, the rendered terms version and `-`, followed by exactly the role. Its length is the sum of those parts. |
| `UserStateUtils.TouVersionRoundTrip` | frontend/src/context/userStateUtils.ts:22-24 | The role can be read back from its terms version string. |
| `UserStateUtils.TouVersionParseRoundTrip` | frontend/src/context/userStateUtils.ts:22-24 | Every string that the reader accepts is the terms version string of the role it reads. |
| `UserStateUtils.TouVersionInjectiveInRole` | frontend/src/context/userStateUtils.ts:22-24 | Different roles give different version strings. |
| `UserStateUtils.TouVersionInjectiveInVersion` | frontend/src/context/userStateUtils.ts:4-24 | Different rendered deployment versions give different strings for the same role. |
| `UserStateUtils.EndsWithAny` | frontend/src/context/userStateUtils.ts:27-30 | The early-return loop returns true exactly when the e-mail ends with one of the listed suffixes. |
| `UserStateUtils.GetUserMustSign` | frontend/src/context/userStateUtils.ts:26-35 | An approved address never signs. A null user always signs. A non-approved user without a truthy acceptance date signs. Otherwise the user signs exactly when the accepted version is truthy and differs from `touVersion`, so a missing one never forces signing. |
| `UserStateUtils.AgencyAddressesNeverSign` | frontend/src/context/userStateUtils.ts:27-30 | Any address ending in `@cisa.dhs.gov` or `@associates.cisa.dhs.gov` need not sign, whatever its acceptance fields say. |
| `UserStateUtils.NonGovAddressMustSign` | frontend/src/context/userStateUtils.ts:27-32 | A user whose address does not end in `.gov` is never exempt, so without an acceptance date they must sign. This covers look-alike domains such as `a@cisa.dhs.gov.x`. |
| `UserStateUtils.AcceptedCurrentVersionNeedNotSign` | frontend/src/context/userStateUtils.ts:31-34 | A user with an acceptance date who accepted exactly `touVersion` need not sign. |
| `UserStateUtils.RoleChangeForcesResigning` | frontend/src/context/userStateUtils.ts:15-35 | A non-approved user who accepted the terms for one role must sign again once their maximum role differs from it. |
| `UserStateUtils.VersionChangeForcesResigning` | frontend/src/context/userStateUtils.ts:4-35 | A non-approved user who accepted under one deployment version must sign again under a different one. |
| `DnsTwist.BuildHistory` | backend/src/tasks/dnstwist.ts:68-74 | The map-filling loop yields the ordered assignment of every stored entry. The map is empty without a stored record. There is no map (the domain is skipped) when the stored record has no `domains` list. |
| `DnsTwist.ExistingHistory` | backend/src/tasks/dnstwist.ts:69-74 | Without a stored record the map is empty. A stored record without a `domains` list yields no map: iterating over it throws, and the domain is skipped. Otherwise the map's keys are exactly the stored names. |
| `DnsTwist.HistoryKeys` | backend/src/tasks/dnstwist.ts:70-73 | The map's keys are exactly the stored `domain-name`s. |
| `DnsTwist.HistoryLastWins` | backend/src/tasks/dnstwist.ts:70-73 | For a repeated name, the map holds the date of the last stored entry with that name. |
| `DnsTwist.FirstObservedFor` | backend/src/tasks/dnstwist.ts:79 | The chosen date is always truthy. It is the stored value when the name is stored with a truthy date, and the run's `dateNow` otherwise. |
| `DnsTwist.Reconcile` | backend/src/tasks/dnstwist.ts:77-80 | The in-place loop leaves the array equal to the reconciled list of its old contents. |
| `DnsTwist.ReconciledKeepsEverythingElse` | backend/src/tasks/dnstwist.ts:77-80 | Reconciliation keeps the number of results, their order, their names and all other fields. |
| `DnsTwist.ReconciledDates` | backend/src/tasks/dnstwist.ts:78-79 | A name that is stored with a truthy date gets that date. Any other name gets the run's `dateNow`: not stored, or stored with a falsy value, the JavaScript or-fallback case. |
| `DnsTwist.ReconciledDatesAreTruthy` | backend/src/tasks/dnstwist.ts:78-79 | After reconciliation every result's first-observed date is truthy. |
| `DnsTwist.FirstObservedNeverRegresses` | backend/src/tasks/dnstwist.ts:68-80 | A permutation that is stored with a truthy date keeps exactly that date in the new list, whatever the run's date. |
| `DnsTwist.ReconcileIdempotent` | backend/src/tasks/dnstwist.ts:68-80 | A second run on identical scanner output, against the record the first run produced, yields the same list at any later date. |
| `DnsTwist.ReconcileIdempotentThroughStorage` | backend/src/tasks/dnstwist.ts:68-80 | Idempotence also holds after storage converts the dates to any other form, provided a truthy date stays truthy. A second run on identical output reproduces the stored list. |
| `DnsTwist.DnsTwistVulnerability` | backend/src/tasks/dnstwist.ts:83-93 | The pushed record carries the domain, its `lastSeen` time and the reconciled list. It has the fixed dnstwist shape exactly when that list is non-empty and every date in it is truthy. |
| `DnsTwist.Contribution` | backend/src/tasks/dnstwist.ts:81-99 | A domain pushes a vulnerability exactly when it was fetched, its result is non-empty and its history could be built. The vulnerability has the fixed dnstwist shape, the domain, the `lastSeen` time and the reconciled list. |
| `DnsTwist.AccumulatedMatchesPushingRuns` | backend/src/tasks/dnstwist.ts:58-99 | `vulns` holds one entry per domain that pushes, in domain order. A domain pushes when it was fetched, has a non-empty result and has a readable stored record. The k-th entry is what the k-th such domain pushed. |
| `DnsTwist.PushingRunsComplete` | backend/src/tasks/dnstwist.ts:81-95 | Every domain that pushes is among the pushing runs, so its vulnerability is in `vulns`. |
| `DnsTwist.AccumulatedAreDnsTwistRecords` | backend/src/tasks/dnstwist.ts:82-93 | Every accumulated vulnerability has the fixed shape: title, state `open`, source `dnstwist`, severity `Low`, `needsPopulation` false, a non-empty list with truthy dates, and the description naming its domain. |
| `DnsTwist.SkippedRunsAddNothing` | backend/src/tasks/dnstwist.ts:69-103 | A domain that pushes nothing adds nothing, and the rest are processed as if it were absent. This covers all three skip paths: the scan or lookup threw; the stored record has no `domains` list, so iterating over it throws; or the result is empty. |
| `DnsTwist.ProcessDomains` | backend/src/tasks/dnstwist.ts:55-104 | The loop yields the accumulated `vulns` for the whole run under a single `dateNow`. Every push is followed by one save call that receives the whole list so far. |

## Left out

- `runDNSTwist` (the `dnstwist` subprocess and `JSON.parse` of its output) is not modelled. The parsed results are an input, and a throw from it is the `Failed` fetch.
- The PE Postgres client, `connectToDatabase` and `getIps` are not modelled because they are database I/O. `Vulnerability.findOne` is not modelled either: the stored record is an input, and a throw from it is the `Failed` fetch.
- `saveVulnerabilitiesToDb` is modelled only as a log of the lists it receives. Its storage effects are outside this model. A throw from it comes after the push and is caught, so it does not change `vulns`.
- `lastSeen: new Date(Date.now())` is not modelled as a clock read. It is an opaque per-domain input, and `dateNow` is the parameter `now`.
- Console logging is not modelled.
- Reading `REACT_APP_TERMS_VERSION` from the environment is not modelled; the value is a parameter.
- `backend/src/tasks/test-proxy.ts` is not modelled. It is a manual network integration test made of HTTP requests, subprocesses and file writes.
- Lookups of JavaScript prototype keys in `existingVulnsMap` (a scanned name such as `constructor`) are not modelled. Domain names never take those values.
- A stored entry without a `domain-name` (JavaScript would key it as `undefined`) is not modelled. The map is keyed by string names only.
- The scanner's other fields are kept as an opaque string map. The model never inspects them.
- The object identity of result objects is not modelled. The reconciled list is a copy of the array's contents when it is pushed. Nothing mutates the objects afterwards, so this matches.
- `AuthUser.roles` is always present in the model. The `user.roles &&` guard is always true for an array, even an empty one.
- The type difference between `Organization` and `OrganizationTag` is not modelled. Both are one organisation value.
- `dateAcceptedTerms` is modelled as an optional string with JavaScript truthiness. A `Date` object would always be truthy, which is the `Some` of a non-empty string here.
- `ReconcileIdempotent` builds the second run's history straight from the first run's list, so new names come back as the `Date` value itself. How storage converts that `Date` into a string is not modelled. `ReconcileIdempotentThroughStorage` covers every conversion that keeps a truthy date truthy.
- A scanned result without a `domain-name` is not modelled; JavaScript would look it up under the key `undefined`. A `null` entry in either list is not modelled either: it would make the map-filling or the rewriting loop throw, and the domain would be skipped.
