# Feature preferences of the macro-fit backend, modelled in Dafny

This project models `FeaturesService` of the macro-fit backend
(`src/modules/features/features.service.ts`). The service resolves, for one user, the
enabled/disabled state of every feature in a catalog of feature groups. It changes that
state in two ways: a single toggle, and a survey that replaces all of the user's
preferences at once.

The persistent tables become in-memory state:

- the **catalog**: a sequence of `Group`s, each with an id, a name, a `createdAt`
  timestamp and its `Feature`s (id, name). The service never writes it, so it is a
  `const` of the class;
- the **preference table**: a `map<PrefKey, bool>` keyed by `(userId, featureId)`. The
  composite unique key `userId_featureId` therefore holds by construction.

Files and modules:

| file | module | contents |
|---|---|---|
| `wrappers.dfy` | `Wrappers` | `Option`, `Result` |
| `catalog.dfy` | `Catalog` | groups and features, feature lookup, the catalog query ordered by `createdAt` |
| `preferences.dfy` | `Preferences` | the preference table, upsert, delete-by-user, a sequence of upserts |
| `resolution.dfy` | `Resolution` | `getUserFeaturePreferences` and what it reports |
| `survey.dfy` | `Survey` | the essential-name policy, the nested loops that build the survey rows, the table a survey commits |
| `service.dfy` | `Service` | the `FeaturesService` class with the two mutating operations, and lemmas tying them to resolution |
| `scenario.dfy` | `Scenario` | a worked example: the group "Wellness" with a basic and a pro feature |

The two read operations are pure queries. They are functions of the catalog and the
table. `toggleFeatureForUser` and `saveSurveyResults` change the table, so they are
methods of the class `Service.FeaturesService`. Each method is proved equal to a
specification function (`Service.Toggle`, `Survey.SurveyTable`). The properties are then
proved about those functions.

The survey's transaction is modelled as follows. The delete and the upserts run on a
staged copy of the table, and that copy replaces the table in one assignment only if
every step succeeded. The parameter `storeFault` says at which step the store reports an
error, if any: step 0 is the `deleteMany`, step i + 1 the i-th upsert. A failure at any
step leaves the table exactly as it was.

The model follows the code as written:

- A feature without a stored preference resolves to `false`, because
  `features.service.ts:45` hard-codes it. The Feature rows carry no default flag that the
  service reads.
- `saveSurveyResults` returns `{ success: true, message: 'Survey results saved successfully' }`,
  with no count of rows written (`features.service.ts:151`).
- The selection policy is the one the code runs (lines 109-115); the other two options in
  that block are commented out. A feature is enabled exactly when its group's name is among
  `selectedCategories` and one of the words "basic", "core" or "essential" occurs in its
  lower-cased name. `primaryCategory` is accepted and has no effect.

## Model

| member | source | states |
|---|---|---|
| `Catalog.GetAllGroupsWithFeatures` | src/modules/features/features.service.ts:10-19 | the result holds the catalog's groups, each with its features, each group as often as the catalog lists it, in ascending `createdAt` order |
| `Catalog.FindFeature` | src/modules/features/features.service.ts:53-55 | a feature is found exactly when its id is in the catalog; the one found has that id and belongs to a catalog group |
| `Catalog.CatalogFeaturesMembership` | src/modules/features/features.service.ts:96-99 | the flattened group-by-group feature list holds a (group, feature) pair exactly when the group is in the catalog and lists the feature |
| `Preferences.Upsert` | src/modules/features/features.service.ts:61-76 | the row for `(userId, featureId)` is created when absent and overwritten when present; every other row is unchanged |
| `Preferences.DeleteUserRows` | src/modules/features/features.service.ts:132-134 | every row of the user is gone and every row of any other user is kept with its value |
| `Preferences.UpsertAll` | src/modules/features/features.service.ts:137-148 | after the upserts the table has its old keys plus the keys the rows name; the last row decides its key's value; keys no row names keep their values |
| `Preferences.UpsertAllSpec` | src/modules/features/features.service.ts:137-148 | upserting rows with distinct keys leaves exactly the old keys plus those rows' keys; each named key holds its row's value, every other key its old value |
| `Resolution.UserRows` | src/modules/features/features.service.ts:26-30 | the user's rows for a feature number at most one; there is one exactly when the table has the key, and it carries the stored value |
| `Resolution.GetUserFeaturePreferences` | src/modules/features/features.service.ts:21-48 | the groups and features are exactly those of the catalog query, in its order; each feature is enabled exactly when the user's stored preference for it is true, and it carries the user's row for it, if any |
| `Resolution.EffectiveState` | src/modules/features/features.service.ts:43-45 | a feature's effective state is the user's stored value when the table has the key, and off when it does not |
| `Resolution.ResolveFeature` | src/modules/features/features.service.ts:41-45 | a resolved feature is the feature itself, carries the user's rows for it, and shows its effective state |
| `Resolution.ResolveGroup` | src/modules/features/features.service.ts:39-47 | a resolved group keeps the group's columns and every feature of the group, once each and in order, each showing its effective state |
| `Resolution.ResolutionReadsOnlyUserRows` | src/modules/features/features.service.ts:26-30 | resolution for a user depends only on that user's rows: two tables that agree on them resolve identically |
| `Resolution.ResolveWithoutRows` | src/modules/features/features.service.ts:43-45 | a user with no rows sees every feature off, with no rows attached |
| `Survey.ToLowerCase` | src/modules/features/features.service.ts:110 | same length; each character lower-cased; no upper-case ASCII letter remains |
| `Survey.Includes` | src/modules/features/features.service.ts:111-114 | true exactly when the searched string occurs at some position of the name |
| `Survey.IsEssentialName` | src/modules/features/features.service.ts:110-114 | a name is essential exactly when "basic", "core" or "essential" occurs at some position of its lower-cased form |
| `Survey.ShouldEnable` | src/modules/features/features.service.ts:97-115 | a survey turns a feature on exactly when its group's name is among the selected categories and an essential word occurs in its lower-cased name |
| `Survey.SurveyRows` | src/modules/features/features.service.ts:94-127 | one row per catalog feature; every row is the user's and names a catalog feature; with unique feature ids no key repeats |
| `Survey.BuildSurveyPreferences` | src/modules/features/features.service.ts:94-127 | the nested loops produce one row per catalog feature, group after group, for the user, each with the policy's decision |
| `Survey.SurveyTable` | src/modules/features/features.service.ts:130-149 | the committed table keeps every other user's rows with their values, and every row of the user names a catalog feature |
| `Survey.SurveyTableSpec` | src/modules/features/features.service.ts:130-149 | after the survey the user has exactly one row per catalog feature, holding the policy's value; no earlier row of the user survives; other users' rows are untouched |
| `Survey.SurveyIdempotent` | src/modules/features/features.service.ts:79-152 | saving the same survey twice gives the same table as saving it once, for any catalog |
| `Survey.SurveyTableOrderIndependent` | src/modules/features/features.service.ts:83-87 | two listings of the catalog with unique feature ids that pair the same features with the same group names give the same committed table. Neither the order of the groups nor the order of the features inside a group matters, so the survey's unordered query may be taken in the catalog's listed order |
| `Service.Toggle` | src/modules/features/features.service.ts:50-77 | an unknown feature id fails with NotFound and the table is unchanged; otherwise the returned record is `(userId, featureId, isEnabled)` and the table is the old one with that key upserted |
| `Service.ToggleIdempotent` | src/modules/features/features.service.ts:61-76 | toggling twice with the same arguments gives the same table and the same result as toggling once |
| `Service.ResolveAfterToggle` | src/modules/features/features.service.ts:50-77 | after a toggle the user sees the new value for that feature and the old effective state for every other one; other users see no change |
| `Service.ResolveAfterSurvey` | src/modules/features/features.service.ts:79-152 | after a survey every feature has an explicit row for the user and shows the policy's decision; other users see no change |
| `Service.FeaturesService.constructor` | src/modules/features/features.service.ts:8 | the service starts on the given catalog and table, with unique feature ids and every row referring to a catalog feature |
| `Service.FeaturesService.ToggleFeatureForUser` | src/modules/features/features.service.ts:50-77 | result and new table are those of `Toggle`; feature ids stay unique and every row refers to a catalog feature |
| `Service.FeaturesService.SaveSurveyResults` | src/modules/features/features.service.ts:79-152 | a store error at any step of the transaction leaves the table unchanged and fails; otherwise the table becomes the full survey table and the result is `{success: true, 'Survey results saved successfully'}`, whatever `primaryCategory` is |
| `Scenario.BasicIsEssential` | src/modules/features/features.service.ts:110-115 | "Wellness Basic Feature" passes the essential-name rule |
| `Scenario.ProIsNotEssential` | src/modules/features/features.service.ts:110-115 | "Wellness Pro" does not pass the essential-name rule |
| `Scenario.WellnessInitially` | src/modules/features/features.service.ts:39-47 | a user without rows sees both Wellness features off |
| `Scenario.WellnessAfterToggle` | src/modules/features/features.service.ts:50-77 | toggling feature 10 on for user 7 returns the row `(7, 10, true)`; the user then sees basic on and pro off |
| `Scenario.WellnessAfterSurvey` | src/modules/features/features.service.ts:96-149 | after a survey selecting "Wellness", user 7 has explicit rows for both features: basic on, pro off, whatever was stored before |
| `Scenario.WellnessFeatureOrder` | src/modules/features/features.service.ts:83-87 | whichever order the survey's query lists the two Wellness features in, the same table is committed |

## Left out

- `getSurveyStatus` is routed by `features.controller.ts:47-52` but is not defined in the service, so it is not modelled.
- A per-feature `defaultEnabled` column is mentioned only in the comments at `features.service.ts:93` and `:100`. The service never reads it: a missing preference resolves to `false`, so the model has no such column.
- `toLowerCase` is modelled on the ASCII letters only. Full Unicode case mapping is not modelled.
- Ties in `createdAt`: the database orders equal timestamps as it likes. `Catalog.GetAllGroupsWithFeatures` promises only ascending `createdAt` and the same groups. The group id is not used as a tie-breaker, because the query orders by `createdAt` alone.
- The order of features inside a group, and the order of groups in the survey's unordered query (lines 83-87), are whatever the database returns. The model keeps the catalog's listed order. `Survey.SurveyTableOrderIndependent` proves that the table a survey commits depends on neither order: it depends only on which features each named group lists. For the page read, `Resolution.GetUserFeaturePreferences` returns features in the listed order, because that is what the query returns.
- The `selectedGroups` list (lines 89-91) is computed and never used, so it is not modelled.
- Columns other than ids, names and `createdAt` are not modelled: descriptions, and the surrogate id and timestamps of a preference row. The returned upsert record is `(userId, featureId, isEnabled)`.
- The NotFound exception carries the feature id. Its message text "Feature with ID … not found" is not modelled.
- Store errors outside the survey's transaction are not modelled: failing catalog reads, or a failing upsert in a toggle.
- Async/await, concurrent toggles or surveys, and the database's transaction isolation are left out. The transaction is one sequential state replacement.
- Request validation (DTO decorators), authentication, HTTP routing, the users and auth modules, and dependency-injection wiring are not part of this model. The user id is a plain parameter.
