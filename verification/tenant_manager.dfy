/** The tenant registry (`TenantManager`): the active tenants of the current
    unit of work and the models that asked for scoping before any tenant was
    known. Every operation is a pure transition returning the new state or
    the exception the PHP code throws; a failed call leaves the state as it was. */
module TenantManager {
  import opened Wrappers
  import opened Values
  import opened Exceptions
  import opened OrderedMap
  import opened Models

  /** What `addTenant` can put in the registry: one entry per column, never a
      null id. */
  predicate ValidTenants(t: Assoc<string, Value>) {
    UniqueKeys(t) && forall i :: 0 <= i < |t| ==> t[i].1 != Null
  }

  /** Tenant column name -> tenant id, in registration order. */
  type TenantMap = t: Assoc<string, Value> | ValidTenants(t) witness []

  datatype Registry = Registry(tenants: TenantMap, deferredModels: seq<Model>)

  /** The state the constructor creates: no tenants, nothing deferred. */
  const Initial: Registry := Registry([], [])

  /** The first argument of `addTenant`/`hasTenant`: a column name, a model
      instance, or any other PHP value (which is neither). */
  datatype TenantArg = Column(name: string) | Instance(model: Model) | Unsupported

  /** A recorded `where` call on the query builder. */
  datatype Where = Where(column: string, operator: string, value: Value)

  /** The attribute value `isset($model->{$column})` looks at. */
  function Lookup(attributes: map<string, Value>, column: string): Option<Value>
  {
    if column in attributes then Some(attributes[column]) else None
  }

  /** `isset` is false for a missing attribute and for a null one. */
  predicate Unset(attributes: map<string, Value>, column: string) {
    Lookup(attributes, column) == None || Lookup(attributes, column) == Some(Null)
  }

  lemma TailValid(t: TenantMap)
    requires |t| > 0
    ensures ValidTenants(t[1..])
  {
  }

  lemma PutValid(t: TenantMap, column: string, id: Value)
    requires id != Null
    ensures ValidTenants(Put(t, column, id))
  {
    PutUnique(t, column, id);
    PutEntries(t, column, id);
    var r := Put(t, column, id);
    forall i | 0 <= i < |r|
      ensures r[i].1 != Null
    {
      if r[i] != (column, id) {
        var j :| 0 <= j < |t| && t[j] == r[i];
      }
    }
  }

  /** `getTenantKey()`: the column a `TenantArg` names. */
  function GetTenantKey(arg: TenantArg): (r: Result<string, TenancyError>)
    ensures r.Failure? <==> arg.Unsupported?
    ensures r.Failure? ==> r.error == TenantColumnUnknown(NotAKey)
    ensures arg.Column? ==> r == Success(arg.name)
    ensures arg.Instance? ==> r == Success(arg.model.foreignKey)
  {
    match arg
    case Column(name) => Success(name)
    case Instance(model) => Success(model.foreignKey)
    case Unsupported => Failure(TenantColumnUnknown(NotAKey))
  }

  /** The id `addTenant` registers: the explicit id when one is passed,
      else the key of a model argument, else null. */
  function ResolvedId(arg: TenantArg, id: Option<Value>): Value
  {
    match id
    case Some(v) => v
    case None => if arg.Instance? then arg.model.key else Null
  }

  /** `addTenant($tenant, $id)`. `id` is None when the call passes one
      argument; only then does a model argument supply its own key as the id.
      The null check comes before the column is derived. */
  function AddTenant(reg: Registry, arg: TenantArg, id: Option<Value>): (r: Result<Registry, TenancyError>)
    ensures id == Some(Null) ==> r == Failure(TenantNullId)
    ensures id.None? && !arg.Instance? ==> r == Failure(TenantNullId)
    ensures id.None? && arg.Instance? && arg.model.key == Null ==> r == Failure(TenantNullId)
    ensures arg.Unsupported? && id.Some? && id.value != Null ==> r == Failure(TenantColumnUnknown(NotAKey))
    ensures r.Success? <==> !arg.Unsupported? && (if id.Some? then id.value != Null else arg.Instance? && arg.model.key != Null)
    ensures r.Success? ==> r.value.deferredModels == reg.deferredModels
  {
    var resolved := ResolvedId(arg, id);
    if resolved == Null then Failure(TenantNullId)
    else
      var column :- GetTenantKey(arg);
      PutValid(reg.tenants, column, resolved);
      Success(reg.(tenants := Put(reg.tenants, column, resolved)))
  }

  /** `hasTenant($tenant)`: whether the derived column has a tenant. */
  function HasTenant(reg: Registry, arg: TenantArg): (r: Result<bool, TenancyError>)
    ensures arg.Unsupported? ==> r == Failure(TenantColumnUnknown(NotAKey))
    ensures arg.Column? ==> r == Success(arg.name in Keys(reg.tenants))
    ensures arg.Instance? ==> r == Success(arg.model.foreignKey in Keys(reg.tenants))
  {
    var column :- GetTenantKey(arg);
    GetPresent(reg.tenants, column);
    Success(Get(reg.tenants, column).Some?)
  }

  /** `getTenants()->first()`, null for an empty registry. */
  function FirstTenant(reg: Registry): (v: Value)
    ensures v == Null <==> |reg.tenants| == 0
    ensures |reg.tenants| > 0 ==> v == reg.tenants[0].1
  {
    match First(reg.tenants)
    case None => Null
    case Some(v) => v
  }

  /** `modelTenants($model)`: the registry restricted to the model's declared
      tenant columns, in registry order. */
  function ModelTenants(reg: Registry, m: Model): (r: Result<TenantMap, TenancyError>)
    ensures r.Failure? <==> m.tenantColumns.None?
    ensures r.Failure? ==> r.error == TenantColumnUnknown(ColumnsNotSet)
    ensures r.Success? ==> Subsequence(r.value, reg.tenants)
    ensures r.Success? ==> forall c :: Get(r.value, c) == if c in m.tenantColumns.value then Get(reg.tenants, c) else None
  {
    var columns :- GetTenantColumns(m);
    var applicable := Only(reg.tenants, columns);
    OnlyGet(reg.tenants, columns);
    OnlyOrdered(reg.tenants, columns);
    OnlyUnique(reg.tenants, columns);
    assert forall i :: 0 <= i < |applicable| ==> applicable[i].1 != Null by {
      forall i | 0 <= i < |applicable|
        ensures applicable[i].1 != Null
      {
        var j :| 0 <= j < |reg.tenants| && reg.tenants[j] == applicable[i];
      }
    }
    Success(applicable)
  }

  /** One `addGlobalScope($column, closure)` per applicable tenant, in order;
      a scope records its name and the tenant id captured at install time.
      A scope of the same name is replaced, as Eloquent does. */
  function InstallScopes(scopes: Assoc<string, Value>, applicable: Assoc<string, Value>): Assoc<string, Value>
    decreases |applicable|
  {
    if |applicable| == 0 then scopes
    else
      InstallScopes(Put(scopes, applicable[0].0, applicable[0].1), applicable[1..])
  }

  /** After installation each applicable column names a scope holding that
      column's id; every other scope is untouched. */
  lemma {:induction false} InstallScopesGet(scopes: Assoc<string, Value>, applicable: TenantMap)
    ensures forall c :: Get(InstallScopes(scopes, applicable), c) ==
                        if c in Keys(applicable) then Get(applicable, c) else Get(scopes, c)
    decreases |applicable|
  {
    if |applicable| > 0 {
      TailValid(applicable);
      HeadNotInTail(applicable);
      var (c0, id0) := applicable[0];
      var rest: TenantMap := applicable[1..];
      var scopes' := Put(scopes, c0, id0);
      InstallScopesGet(scopes', rest);
      PutGet(scopes, c0, id0);
      forall c
        ensures Get(InstallScopes(scopes, applicable), c) ==
          if c in Keys(applicable) then Get(applicable, c) else Get(scopes, c)
      {
        GetPresent(rest, c);
        if c == c0 {
        }
      }
    }
  }

  lemma HeadNotInTail(t: TenantMap)
    requires |t| > 0
    ensures Keys(t) == [t[0].0] + Keys(t[1..])
    ensures t[0].0 !in Keys(t[1..])
  {
  }

  /** Installation never gives two scopes the same name. */
  lemma {:induction false} InstallScopesUnique(scopes: Assoc<string, Value>, applicable: Assoc<string, Value>)
    ensures UniqueKeys(scopes) ==> UniqueKeys(InstallScopes(scopes, applicable))
    decreases |applicable|
  {
    if |applicable| > 0 && UniqueKeys(scopes) {
      PutUnique(scopes, applicable[0].0, applicable[0].1);
      InstallScopesUnique(Put(scopes, applicable[0].0, applicable[0].1), applicable[1..]);
    }
  }

  /** `addTenantScopes($model)`: defer the model when no tenant is known,
      otherwise install one scope per applicable column. */
  function AddTenantScopes(reg: Registry, m: Model): (r: Result<(Registry, Model), TenancyError>)
    ensures |reg.tenants| == 0 ==> r == Success((Registry(reg.tenants, reg.deferredModels + [m]), m))
    ensures |reg.tenants| > 0 ==> (r.Failure? <==> m.tenantColumns.None?)
    ensures r.Failure? ==> r.error == TenantColumnUnknown(ColumnsNotSet)
    ensures |reg.tenants| > 0 && r.Success? ==> r.value.0 == reg && r.value.1 == m.(scopes := r.value.1.scopes)
    ensures |reg.tenants| > 0 && r.Success? && m.tenantColumns.Some? ==>
      forall c :: Get(r.value.1.scopes, c) ==
        if c in m.tenantColumns.value && c in Keys(reg.tenants) then Get(reg.tenants, c) else Get(m.scopes, c)
    ensures r.Success? && UniqueKeys(m.scopes) ==> UniqueKeys(r.value.1.scopes)
  {
    if |reg.tenants| == 0 then
      Success((reg.(deferredModels := reg.deferredModels + [m]), m))
    else
      var applicable :- ModelTenants(reg, m);
      InstallScopesGet(m.scopes, applicable);
      InstallScopesUnique(m.scopes, applicable);
      forall c ensures c in Keys(applicable) <==> c in m.tenantColumns.value && c in Keys(reg.tenants) {
        GetPresent(applicable, c);
        GetPresent(reg.tenants, c);
      }
      Success((reg, m.(scopes := InstallScopes(m.scopes, applicable))))
  }

  /** The scope closure, run when a query is built: a `where` on the
      qualified column. The id is the registry's first tenant when that is
      truthy and differs from the captured id, else the captured id; so a
      truthy first tenant always wins. */
  function EvaluateScope(reg: Registry, m: Model, column: string, captured: Value): (w: Where)
    ensures w.column == QualifiedTenant(m, column) && w.operator == "="
    ensures Truthy(FirstTenant(reg)) ==> w.value == FirstTenant(reg)
    ensures !Truthy(FirstTenant(reg)) ==> w.value == captured
  {
    var first := FirstTenant(reg);
    var id := if Truthy(first) && first != captured then first else captured;
    Where(QualifiedTenant(m, column), "=", id)
  }

  /** Set each applicable column the model has not set (missing or null). */
  function Stamp(attributes: map<string, Value>, applicable: Assoc<string, Value>): map<string, Value>
    decreases |applicable|
  {
    if |applicable| == 0 then attributes
    else
      var (column, id) := applicable[0];
      var attributes' := if Unset(attributes, column) then attributes[column := id] else attributes;
      Stamp(attributes', applicable[1..])
  }

  /** Stamping sets exactly the applicable columns that were unset, each to
      its tenant id, and leaves every other attribute as it was. */
  lemma {:induction false} StampLookup(attributes: map<string, Value>, applicable: TenantMap)
    ensures forall c :: Lookup(Stamp(attributes, applicable), c) ==
                        if c in Keys(applicable) && Unset(attributes, c) then Get(applicable, c) else Lookup(attributes, c)
    decreases |applicable|
  {
    if |applicable| > 0 {
      TailValid(applicable);
      HeadNotInTail(applicable);
      var (c0, id0) := applicable[0];
      var rest: TenantMap := applicable[1..];
      var attributes' := if Unset(attributes, c0) then attributes[c0 := id0] else attributes;
      StampLookup(attributes', rest);
      forall c
        ensures Lookup(Stamp(attributes, applicable), c) ==
          if c in Keys(applicable) && Unset(attributes, c) then Get(applicable, c) else Lookup(attributes, c)
      {
        GetPresent(rest, c);
        if c == c0 {
          assert id0 != Null;
        }
      }
    }
  }

  /** `newTenantModel($model)`: defer the model when no tenant is known,
      otherwise stamp the applicable columns it has not set. */
  function NewTenantModel(reg: Registry, m: Model): (r: Result<(Registry, Model), TenancyError>)
    ensures |reg.tenants| == 0 ==> r == Success((Registry(reg.tenants, reg.deferredModels + [m]), m))
    ensures |reg.tenants| > 0 ==> (r.Failure? <==> m.tenantColumns.None?)
    ensures r.Failure? ==> r.error == TenantColumnUnknown(ColumnsNotSet)
    ensures |reg.tenants| > 0 && r.Success? ==> r.value.0 == reg && r.value.1 == m.(attributes := r.value.1.attributes)
    ensures |reg.tenants| > 0 && r.Success? && m.tenantColumns.Some? ==>
      forall c :: Lookup(r.value.1.attributes, c) ==
        if c in m.tenantColumns.value && c in Keys(reg.tenants) && Unset(m.attributes, c)
        then Get(reg.tenants, c) else Lookup(m.attributes, c)
  {
    if |reg.tenants| == 0 then
      Success((reg.(deferredModels := reg.deferredModels + [m]), m))
    else
      var applicable :- ModelTenants(reg, m);
      StampLookup(m.attributes, applicable);
      forall c ensures c in Keys(applicable) <==> c in m.tenantColumns.value && c in Keys(reg.tenants) {
        GetPresent(applicable, c);
        GetPresent(reg.tenants, c);
      }
      Success((reg, m.(attributes := Stamp(m.attributes, applicable))))
  }

  /** A one-argument `addTenant($model)` registers the model's key under the
      model's foreign-key name. */
  lemma AddTenantByModel(reg: Registry, m: Model)
    ensures AddTenant(reg, Instance(m), None) == AddTenant(reg, Column(m.foreignKey), Some(m.key))
  {
  }

  /** A successful `addTenant`, with a column name or a model, with or
      without an explicit id: the derived column is now a tenant with exactly
      the resolved id, every other column keeps its id, re-adding a column
      changes no key or position, and the first registered column stays
      first. */
  lemma AddTenantRegisters(reg: Registry, arg: TenantArg, id: Option<Value>)
    requires !arg.Unsupported? && ResolvedId(arg, id) != Null
    ensures AddTenant(reg, arg, id).Success?
    ensures var column := GetTenantKey(arg).value;
      var reg' := AddTenant(reg, arg, id).value;
      && HasTenant(reg', arg) == Success(true)
      && Get(reg'.tenants, column) == Some(ResolvedId(arg, id))
      && (forall c :: c != column ==> Get(reg'.tenants, c) == Get(reg.tenants, c))
      && (column in Keys(reg.tenants) ==> Keys(reg'.tenants) == Keys(reg.tenants))
      && (column !in Keys(reg.tenants) ==> Keys(reg'.tenants) == Keys(reg.tenants) + [column])
      && (|reg.tenants| > 0 ==> reg'.tenants[0].0 == reg.tenants[0].0)
  {
    var column := GetTenantKey(arg).value;
    var v := ResolvedId(arg, id);
    var reg' := AddTenant(reg, arg, id).value;
    assert reg'.tenants == Put(reg.tenants, column, v);
    PutGet(reg.tenants, column, v);
    PutKeys(reg.tenants, column, v);
    GetPresent(reg'.tenants, column);
    if |reg.tenants| > 0 {
      PutKeepsFirstKey(reg.tenants, column, v);
    }
  }

  /** Registering the same tenant twice is registering it once. */
  lemma AddTenantIdempotent(reg: Registry, arg: TenantArg, id: Option<Value>)
    requires AddTenant(reg, arg, id).Success?
    ensures AddTenant(AddTenant(reg, arg, id).value, arg, id) == AddTenant(reg, arg, id)
  {
    var column := GetTenantKey(arg).value;
    PutIdempotent(reg.tenants, column, ResolvedId(arg, id));
  }

  /** Stamping is idempotent: a second `newTenantModel` on a stamped model
      changes no attribute, since every applicable column is now set. */
  lemma NewTenantModelIdempotent(reg: Registry, m: Model)
    requires |reg.tenants| > 0 && m.tenantColumns.Some?
    ensures NewTenantModel(reg, m).Success?
    ensures var m' := NewTenantModel(reg, m).value.1;
      NewTenantModel(reg, m') == Success((reg, m'))
  {
    var m' := NewTenantModel(reg, m).value.1;
    var m'' := NewTenantModel(reg, m').value.1;
    forall c
      ensures Lookup(m''.attributes, c) == Lookup(m'.attributes, c)
    {
      if c in m.tenantColumns.value && c in Keys(reg.tenants) {
        GetPresent(reg.tenants, c);
        var j :| 0 <= j < |reg.tenants| && reg.tenants[j] == (c, Get(reg.tenants, c).value);
      }
    }
    assert m''.attributes == m'.attributes by {
      forall c ensures c in m''.attributes <==> c in m'.attributes {
        assert Lookup(m''.attributes, c) == Lookup(m'.attributes, c);
      }
      forall c | c in m''.attributes
        ensures m''.attributes[c] == m'.attributes[c]
      {
        assert Lookup(m''.attributes, c) == Lookup(m'.attributes, c);
      }
    }
  }
}
