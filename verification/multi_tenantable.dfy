/** The `MultiTenantable` trait's boot wiring: on the class's first use it
    asks the registry to install scopes for a fresh instance, then registers
    a `creating` hook that stamps every new instance. Queries against the
    class evaluate its global scopes against the registry of that moment. */
module MultiTenantable {
  import opened Wrappers
  import opened Values
  import opened Exceptions
  import opened OrderedMap
  import opened Models
  import opened TenantManager

  /** The one `creating` listener the trait registers: run `newTenantModel`
      on the model about to be inserted. */
  datatype Hook = StampOnCreating

  /** Whether scopes could be installed when the class booted. A class that
      booted `Deferred` stays so: nothing replays the deferred queue. */
  datatype BootState = Deferred | ScopesInstalled

  /** A class after `bootMultiTenantable`: the instance it booted with
      (carrying the class's global scopes), how boot went, and the
      `creating` listeners in registration order. */
  datatype BootedClass = BootedClass(prototype: Model, state: BootState, creating: seq<Hook>)

  /** `bootMultiTenantable()`, run once per class with a fresh instance:
      scope installation first, then the `creating` hook. If scope
      installation throws, the hook is never registered. */
  function Boot(reg: Registry, prototype: Model): (r: Result<(Registry, BootedClass), TenancyError>)
    ensures |reg.tenants| == 0 ==> r.Success?
    ensures |reg.tenants| == 0 ==> r.value.1.state == Deferred && r.value.1.prototype == prototype
    ensures |reg.tenants| == 0 ==> r.value.0.deferredModels == reg.deferredModels + [prototype]
    ensures |reg.tenants| > 0 ==> (r.Failure? <==> prototype.tenantColumns.None?)
    ensures r.Failure? ==> r.error == TenantColumnUnknown(ColumnsNotSet)
    ensures r.Success? ==> r.value.1.prototype == prototype.(scopes := r.value.1.prototype.scopes)
    ensures |reg.tenants| > 0 && r.Success? ==> r.value.1.state == ScopesInstalled && r.value.0 == reg
    ensures r.Success? ==> r.value.0.tenants == reg.tenants && r.value.1.creating == [StampOnCreating]
    ensures |reg.tenants| > 0 && r.Success? && prototype.tenantColumns.Some? && |prototype.scopes| == 0 ==>
      && UniqueKeys(r.value.1.prototype.scopes)
      && (forall c :: c in Keys(r.value.1.prototype.scopes) <==> c in prototype.tenantColumns.value && c in Keys(reg.tenants))
      && (forall c :: Get(r.value.1.prototype.scopes, c) ==
                      if c in prototype.tenantColumns.value && c in Keys(reg.tenants) then Get(reg.tenants, c) else None)
  {
    FreshClassScopes(reg, prototype);
    var installed :- AddTenantScopes(reg, prototype);
    var state := if |reg.tenants| == 0 then Deferred else ScopesInstalled;
    Success((installed.0, BootedClass(installed.1, state, [StampOnCreating])))
  }

  /** On a class without scopes, `addTenantScopes` with a non-empty registry
      leaves exactly one scope per declared registered column, holding that
      column's id, and no other scope. */
  lemma FreshClassScopes(reg: Registry, m: Model)
    ensures |reg.tenants| > 0 && m.tenantColumns.Some? && |m.scopes| == 0 ==>
      && AddTenantScopes(reg, m).Success?
      && var scopes := AddTenantScopes(reg, m).value.1.scopes;
         && UniqueKeys(scopes)
         && (forall c :: c in Keys(scopes) <==> c in m.tenantColumns.value && c in Keys(reg.tenants))
         && (forall c :: Get(scopes, c) ==
                         if c in m.tenantColumns.value && c in Keys(reg.tenants) then Get(reg.tenants, c) else None)
  {
    if |reg.tenants| > 0 && m.tenantColumns.Some? && |m.scopes| == 0 {
      var scopes := AddTenantScopes(reg, m).value.1.scopes;
      forall c
        ensures c in Keys(scopes) <==> c in m.tenantColumns.value && c in Keys(reg.tenants)
      {
        GetPresent(scopes, c);
        GetPresent(reg.tenants, c);
      }
    }
  }

  /** Fire the `creating` listeners in order on the model being inserted. */
  function RunCreating(reg: Registry, hooks: seq<Hook>, m: Model): Result<(Registry, Model), TenancyError>
    decreases |hooks|
  {
    if |hooks| == 0 then Success((reg, m))
    else
      var step :- match hooks[0] { case StampOnCreating => NewTenantModel(reg, m) };
      RunCreating(step.0, hooks[1..], step.1)
  }

  /** Inserting a new instance of a booted class against the registry as it
      is at insert time: the `creating` event, before the row is written. */
  function Create(reg: Registry, cls: BootedClass, m: Model): Result<(Registry, Model), TenancyError>
  {
    RunCreating(reg, cls.creating, m)
  }

  /** Building a query on a booted class: every global scope of the class
      adds its `where`, evaluated against the current registry. */
  function Query(reg: Registry, cls: BootedClass): (ws: seq<Where>)
    ensures |ws| == |cls.prototype.scopes|
    ensures forall i :: 0 <= i < |ws| ==>
      && ws[i].column == QualifiedTenant(cls.prototype, cls.prototype.scopes[i].0)
      && ws[i].operator == "="
      && ws[i].value == (if Truthy(FirstTenant(reg)) then FirstTenant(reg) else cls.prototype.scopes[i].1)
  {
    var scopes := cls.prototype.scopes;
    seq(|scopes|, i requires 0 <= i < |scopes| => EvaluateScope(reg, cls.prototype, scopes[i].0, scopes[i].1))
  }

  /** After boot, inserting an instance is exactly `newTenantModel` on it,
      with whatever registry is current at insert time. */
  lemma CreateAfterBoot(reg0: Registry, prototype: Model, reg: Registry, m: Model)
    requires Boot(reg0, prototype).Success?
    ensures Create(reg, Boot(reg0, prototype).value.1, m) == NewTenantModel(reg, m)
  {
  }

  /** Deferral is never replayed: a class booted with an empty registry has
      no scopes, and registering a tenant afterwards leaves its queries
      unfiltered and the deferred queue as it was. */
  lemma DeferredNeverReplayed(reg0: Registry, prototype: Model, arg: TenantArg, id: Option<Value>)
    requires |reg0.tenants| == 0 && |prototype.scopes| == 0
    requires Boot(reg0, prototype).Success?
    requires AddTenant(Boot(reg0, prototype).value.0, arg, id).Success?
    ensures var (reg1, cls) := Boot(reg0, prototype).value;
      && cls.state == Deferred
      && prototype in reg1.deferredModels
      && var reg2 := AddTenant(reg1, arg, id).value;
         && |reg2.tenants| > 0
         && reg2.deferredModels == reg1.deferredModels
         && Query(reg2, cls) == []
  {
  }
}
