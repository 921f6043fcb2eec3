# Tenancy scoping engine — a Dafny model

This project models the tenant-scoping engine of the `djavue-tenancy` Laravel
package. It covers two parts.

- The `TenantManager` registry. It holds the active tenants of the current unit
  of work: an insertion-ordered map from tenant column name to tenant id. It
  also holds the queue of deferred models, which are models that asked for
  scoping before any tenant was known.
- The `MultiTenantable` trait. It is the per-model wiring: it installs one
  global scope per applicable tenant column when the class boots, and it stamps
  tenant columns on every new instance when that instance is created.

Every operation is a pure function. It takes a registry value (and a model
value) and returns either the new state or the exception the PHP code throws.
A failed call returns no state, so the registry is left as it was. In the
package too, the exception comes before any `put`.

Files and modules:

- `wrappers.dfy` (`Wrappers`): `Option` and a `Result` that can be used with `:-`.
- `values.dfy` (`Values`): the scalar `Value` a tenant id or attribute holds,
  and PHP truthiness (`Truthy`).
- `exceptions.dfy` (`Exceptions`): `TenantNullId` and `TenantColumnUnknown`.
- `ordered_map.dfy` (`OrderedMap`): the part of Laravel's `Collection` that the
  core uses. It is an association list with `Get`, `Put`, `First` and `Only`.
  Their behaviour is stated by lemmas. `Put` overwrites an existing key where
  it stands, so the first-inserted column stays first.
- `model.dfy` (`Models`): the Eloquent model record and the trait's
  `getTenantColumns` and `getQualifiedTenant`.
- `tenant_manager.dfy` (`TenantManager`): the registry and its operations. The
  registry's tenants have the type `TenantMap`, which rules out repeated
  columns and null ids. `addTenant` is the only operation that writes tenants,
  and it keeps this invariant.
- `multi_tenantable.dfy` (`MultiTenantable`): class boot, the `creating` hook
  run by an insert, and query building.
- `scenarios.dfy` (`Scenarios`): concrete runs of the promised behaviour.

Inputs that are external to the core are modelled as follows.

- The service container and the static `$tm` become an explicit `Registry`
  argument.
- `getForeignKey()`, `getKey()` and `getTable()` become fields of the model
  record.
- A model's class-wide global scopes are the `scopes` field: scope name mapped
  to the tenant id captured when the scope was installed.
- A query is the list of `where` triples (qualified column, `"="`, id) that
  the scopes add when the query is built.
- Model events become an explicit list of `creating` hooks. `Create` runs that
  list, in order, for an insert.

Three behaviours of the package are easy to miss, and the model keeps them.

- An undeclared `tenant_columns` raises `TenantColumnUnknownException`, the
  same class as a bad tenant argument (src/Traits/MultiTenantable.php:44-47,
  src/TenantManager.php.php:141-144). The model records the cause as
  `ColumnsNotSet` or `NotAKey`.
- An empty `tenant_columns` array is accepted, because `isset` is true for it.
  Such a model gets no scope and no stamp.
- With an empty registry, `addTenantScopes` and `newTenantModel` defer the
  model before they read `tenant_columns`. So a model without declared columns
  is deferred there, not rejected.

## Model

| member | source | states |
|---|---|---|
| `OrderedMap.GetPresent` | src/TenantManager.php.php:65-68 | a lookup finds a value exactly when the key is registered, and what it finds is an entry of the map |
| `OrderedMap.GetEntry` | src/TenantManager.php.php:65-68 | with unique keys, looking up an entry's key returns that entry's value |
| `OrderedMap.PutGet` | src/TenantManager.php.php:55 | after `put(k, v)`, `k` maps to `v` and every other key maps to what it did before |
| `OrderedMap.PutKeys` | src/TenantManager.php.php:55 | `put` of a present key keeps the key sequence and positions; `put` of a new key appends it at the end |
| `OrderedMap.PutAppends` | src/TenantManager.php.php:55 | `put` of a key not yet present appends exactly one entry at the end |
| `OrderedMap.PutEntries` | src/TenantManager.php.php:55 | every entry after `put` is the new entry or an entry that was there before |
| `OrderedMap.PutUnique` | src/TenantManager.php.php:55 | `put` never creates a second entry for a key |
| `OrderedMap.PutIdempotent` | src/TenantManager.php.php:55 | putting the same entry twice gives the same map as putting it once |
| `OrderedMap.PutKeepsFirstKey` | src/TenantManager.php.php:95 | `put` never changes which key is first; the first value changes only when the first key is re-put |
| `OrderedMap.OnlyGet` | src/TenantManager.php.php:160 | `only(keys)` keeps exactly the listed keys that are present, each with its value |
| `OrderedMap.OnlyOrdered` | src/TenantManager.php.php:160 | `only` keeps registry order (a subsequence) and introduces no entry |
| `OrderedMap.OnlyUnique` | src/TenantManager.php.php:160 | `only` of a map with unique keys has unique keys |
| `Models.GetTenantColumns` | src/Traits/MultiTenantable.php:42-51 | fails with the unknown-column exception exactly when `tenant_columns` is unset; otherwise returns the declared columns unchanged |
| `Models.QualifiedTenant` | src/Traits/MultiTenantable.php:61-64 | the result is the table, a dot, then the column, so its length is the table's length plus one plus the column's |
| `Models.QualifiedRoundTrip` | src/Traits/MultiTenantable.php:61-64 | stripping the table qualifier recovers the column, and any name that strips to a column is that column's qualified name |
| `TenantManager.GetTenantKey` | src/TenantManager.php.php:135-148 | a column name is its own key and a model's key is its foreign-key name; anything else fails with the unknown-column exception |
| `TenantManager.AddTenant` | src/TenantManager.php.php:45-56 | a null id (explicit, or a one-argument call whose argument is not a model with a key) fails with the null-id exception; an unsupported argument fails with the unknown-column exception only after the id check passed; success happens exactly otherwise and leaves the deferred queue alone (its effect on the tenants is stated by `AddTenantRegisters`) |
| `TenantManager.HasTenant` | src/TenantManager.php.php:65-68 | true exactly when the derived column is registered; fails for an unsupported argument |
| `TenantManager.FirstTenant` | src/TenantManager.php.php:95 | null exactly when no tenant is registered, otherwise the id of the earliest registered column |
| `TenantManager.ModelTenants` | src/TenantManager.php.php:158-161 | fails exactly when `tenant_columns` is unset; otherwise it holds exactly the registered columns that are declared, with their ids, in registry order |
| `TenantManager.InstallScopesGet` | src/TenantManager.php.php:93-101 | each applicable column names a scope that captured that column's id; other scopes are untouched |
| `TenantManager.InstallScopesUnique` | src/TenantManager.php.php:93-101 | installation never gives two scopes the same name, so each applicable column has exactly one scope |
| `TenantManager.AddTenantScopes` | src/TenantManager.php.php:83-102 | an empty registry defers the model and installs nothing; otherwise it fails exactly when columns are undeclared, and then with the unknown-column exception, else installs scopes holding the registry id for exactly the declared registered columns and changes nothing else |
| `TenantManager.EvaluateScope` | src/TenantManager.php.php:94-100 | the scope's filter is qualified column `=` id, where the id is the registry's first tenant whenever that is truthy, and the captured id otherwise |
| `TenantManager.StampLookup` | src/TenantManager.php.php:119-123 | stamping sets exactly the applicable columns that were missing or null, each to its tenant id, and leaves every other attribute as it was |
| `TenantManager.NewTenantModel` | src/TenantManager.php.php:109-124 | an empty registry defers the model and changes no attribute; otherwise it fails exactly when columns are undeclared, and then with the unknown-column exception, else sets each declared, registered, unset column to the registry id and changes nothing else |
| `TenantManager.AddTenantByModel` | src/TenantManager.php.php:45-56 | a one-argument `addTenant($model)` is `addTenant($model->getForeignKey(), $model->getKey())` |
| `TenantManager.AddTenantRegisters` | src/TenantManager.php.php:45-56 | after a successful `addTenant`, with a column name or a model, with or without an explicit id, the derived column is a tenant with exactly the resolved id, other columns keep their ids, re-adding keeps keys and positions, and the first column stays first |
| `TenantManager.AddTenantIdempotent` | src/TenantManager.php.php:45-56 | repeating a successful `addTenant` changes nothing |
| `TenantManager.NewTenantModelIdempotent` | src/TenantManager.php.php:119-123 | a second stamping of a stamped model changes nothing |
| `MultiTenantable.Boot` | src/Traits/MultiTenantable.php:24-35 | with an empty registry the class boots deferred, without scopes, and its fresh instance is queued; otherwise boot fails exactly when columns are undeclared, and then with the unknown-column exception; a boot that succeeds keeps every field of the instance but its scopes (so its table still qualifies the filters), and on a class without scopes and with a non-empty registry installs exactly one scope per declared registered column, each holding that column's registry id, and no other; a successful boot registers the single stamping `creating` hook |
| `MultiTenantable.FreshClassScopes` | src/TenantManager.php.php:93-101 | on a class without scopes and a non-empty registry, installation leaves exactly one scope per declared registered column, holding that column's id, and no other scope |
| `MultiTenantable.Query` | src/TenantManager.php.php:94-100 | a query on the class gets one `where` per installed scope, on the qualified column, with the first tenant's id when that is truthy and the captured id otherwise |
| `MultiTenantable.CreateAfterBoot` | src/Traits/MultiTenantable.php:32-34 | inserting an instance of a booted class is exactly `newTenantModel` on it, against the registry current at insert time |
| `MultiTenantable.DeferredNeverReplayed` | src/TenantManager.php.php:86-91 | a class booted before any tenant stays deferred: a later `addTenant` leaves the deferred queue as it was and the class's queries unfiltered |
| `Scenarios.OrgScenario` | src/Traits/MultiTenantable.php:24-34 | with `org_id => 42` registered, queries on a class declaring `org_id` filter on `posts.org_id = 42`, and a new instance gets `org_id` 42 |
| `Scenarios.FirstTenantOverrides` | src/TenantManager.php.php:95-99 | with `tenant1 => 5` registered before `tenant2 => 9`, the `tenant2` scope captured 9 but filters on 5 |
| `Scenarios.StampsOnlyRegisteredColumns` | src/TenantManager.php.php:119-123 | declaring `c1` and `c2` with only `c1` registered stamps `c1` and leaves `c2` unset |
| `Scenarios.CallerValueWins` | src/TenantManager.php.php:120-122 | a tenant column the caller already set is not overwritten |

`OrderedMap.Get`, `Put`, `First` and `Only` are the `Collection` methods
`get`, `put`, `first` and `only`. `InstallScopes` and `Stamp` are the two
`each` loops. `Create` and `RunCreating` are the insert path that fires
`creating` hooks. These are described by the lemmas above rather than by
contracts of their own. `getTenants()` is the field `Registry.tenants`. The
constructor is the constant `TenantManager.Initial`. `TenantManager.ResolvedId`
is the id choice at src/TenantManager.php.php:47-49: the explicit id, else,
for a one-argument call with a model, the model's key, else null.
`TenantManager.Lookup` and `Unset` are `isset($model->{$tenantColumn})` at
src/TenantManager.php.php:120: an attribute is unset when it is missing or
null.

## Left out

- Eloquent's query builder and SQL: a query is the list of recorded `where` triples.
- `addGlobalScope` internals: a scope is a name and a captured id, and a scope
  of the same name is replaced in place.
- Model event dispatch: the `creating` listeners are an explicit list, fired by `Create`.
- The service container and the static `$tm`: the registry is passed explicitly.
  One registry per unit of work is the caller's concern.
- `getForeignKey()` naming rules: the foreign-key name is a field of the model.
- `Macroable`: runtime method injection, not part of the scoping logic.
- `src/Facades/Tenancy.php`: service location only. Its unqualified
  `TenantManager::class` resolves to `Tenancy\Facades\TenantManager`, not to
  the registry class.
- `getTenants()` returns the live collection, through which a caller could
  `put` a null id or `forget` a key. The model treats the returned collection as
  a read-only snapshot, so the `TenantMap` invariant rests on `addTenant` being
  the only writer.
- PHP array-key coercion: numeric-string column names are not turned into integer keys.
- Floats and arrays as ids: `Value` covers null, booleans, integers and strings.
- Eloquent attribute accessors, casts and relations: an attribute counts as set when it is present and not null.
- TenantManager.EvaluateScope: compares the first tenant with the captured id by
  structural inequality, not PHP's loose `!=`. So the loosely equal ids `5` and
  `"5"` are treated as different. In that case the model filters on the first
  tenant's value, while PHP keeps the captured one.
- MultiTenantable.Query: its `where` values come from `EvaluateScope`, so the
  same structural comparison applies. With first tenant `5` and a scope that
  captured `"5"`, the model filters on `5`, while PHP keeps `"5"`
  (src/TenantManager.php.php:95).
- MultiTenantable.Boot: "runs once per class" is not enforced by the model. Each
  call of `Boot` is one boot, and a `BootedClass` is never re-booted.
