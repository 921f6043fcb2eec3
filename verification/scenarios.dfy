/** Concrete runs of the tenancy core, each derived from the general
    properties of the registry and the boot wiring. */
module Scenarios {
  import opened Wrappers
  import opened Values
  import opened OrderedMap
  import opened Models
  import opened TenantManager
  import opened MultiTenantable

  /** A class on table `table` declaring `columns`, as `new static()` makes it:
      no key, no attributes, no scopes yet. */
  function Fresh(table: string, columns: seq<string>): Model
  {
    Model(table, Null, "owner_id", Some(columns), map[], [])
  }

  /** End to end: with `org_id => 42` registered, a class declaring
      `org_id` filters every query on `org_id = 42` and stamps 42 on a new
      instance that did not set `org_id`. */
  lemma OrgScenario()
    ensures var reg := AddTenant(Initial, Column("org_id"), Some(Int(42)));
      && reg.Success?
      && var booted := Boot(reg.value, Fresh("posts", ["org_id"]));
         && booted.Success?
         && Query(reg.value, booted.value.1) == [Where("posts.org_id", "=", Int(42))]
         && var created := Create(reg.value, booted.value.1, Fresh("posts", ["org_id"]));
            && created.Success?
            && Lookup(created.value.1.attributes, "org_id") == Some(Int(42))
  {
    var reg := AddTenant(Initial, Column("org_id"), Some(Int(42))).value;
    assert reg.tenants == [("org_id", Int(42))];
    var proto := Fresh("posts", ["org_id"]);
    assert reg.tenants[1..] == [];
    assert Only(reg.tenants, ["org_id"]) == [("org_id", Int(42))];
    assert ModelTenants(reg, proto).value == [("org_id", Int(42))];
    assert InstallScopes([], [("org_id", Int(42))]) == [("org_id", Int(42))];
    var cls := Boot(reg, proto).value.1;
    assert cls.prototype.scopes == [("org_id", Int(42))];
    assert QualifiedTenant(proto, "org_id") == "posts.org_id";
    CreateAfterBoot(reg, proto, reg, proto);
  }

  /** The first-registered override: with `tenant1 => 5` registered before
      `tenant2 => 9`, the scope installed for `tenant2` captured 9 but
      filters on 5 at query time. */
  lemma FirstTenantOverrides()
    ensures var reg1 := AddTenant(Initial, Column("tenant1"), Some(Int(5)));
      && reg1.Success?
      && var reg2 := AddTenant(reg1.value, Column("tenant2"), Some(Int(9)));
         && reg2.Success?
         && var booted := Boot(reg2.value, Fresh("t", ["tenant2"]));
            && booted.Success?
            && booted.value.1.prototype.scopes == [("tenant2", Int(9))]
            && Query(reg2.value, booted.value.1) == [Where("t.tenant2", "=", Int(5))]
  {
    var reg1 := AddTenant(Initial, Column("tenant1"), Some(Int(5))).value;
    assert reg1.tenants == [("tenant1", Int(5))];
    assert "tenant1" != "tenant2" by {
      assert "tenant1"[6] != "tenant2"[6];
    }
    assert Put(reg1.tenants, "tenant2", Int(9)) == [("tenant1", Int(5)), ("tenant2", Int(9))];
    var reg2 := AddTenant(reg1, Column("tenant2"), Some(Int(9))).value;
    assert reg2.tenants == [("tenant1", Int(5)), ("tenant2", Int(9))];
    var proto := Fresh("t", ["tenant2"]);
    assert "tenant1" !in ["tenant2"];
    assert reg2.tenants[1..] == [("tenant2", Int(9))] && reg2.tenants[1..][1..] == [];
    assert Only(reg2.tenants[1..], ["tenant2"]) == [("tenant2", Int(9))];
    assert Only(reg2.tenants, ["tenant2"]) == [("tenant2", Int(9))];
    assert InstallScopes([], [("tenant2", Int(9))]) == [("tenant2", Int(9))];
    assert QualifiedTenant(proto, "tenant2") == "t.tenant2";
  }

  /** Only the intersection is stamped: a class declaring `c1` and `c2`
      with only `c1` registered gets `c1` stamped and `c2` left unset. */
  lemma StampsOnlyRegisteredColumns()
    ensures var reg := AddTenant(Initial, Column("c1"), Some(Int(7)));
      && reg.Success?
      && var created := NewTenantModel(reg.value, Fresh("t", ["c1", "c2"]));
         && created.Success?
         && Lookup(created.value.1.attributes, "c1") == Some(Int(7))
         && Lookup(created.value.1.attributes, "c2") == None
  {
  }

  /** An explicit tenant value survives creation: stamping never overwrites
      a column the caller already set. */
  lemma CallerValueWins()
    ensures var reg := AddTenant(Initial, Column("org_id"), Some(Int(42)));
      && reg.Success?
      && var m := Fresh("posts", ["org_id"]).(attributes := map["org_id" := Int(7)]);
         && var created := NewTenantModel(reg.value, m);
         && created.Success?
         && Lookup(created.value.1.attributes, "org_id") == Some(Int(7))
  {
  }
}
