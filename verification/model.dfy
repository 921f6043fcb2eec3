/** An Eloquent model instance that uses the `MultiTenantable` trait, and the
    trait's per-instance accessors `getTenantColumns` and `getQualifiedTenant`. */
module Models {
  import opened Wrappers
  import opened Values
  import opened Exceptions
  import opened OrderedMap

  /** Only what tenancy reads or writes of a model. The foreign-key name is
      taken as given, not derived from the class name. */
  datatype Model = Model(
    table: string,                       // getTable()
    key: Value,                          // getKey(): the primary-key value
    foreignKey: string,                  // getForeignKey()
    tenantColumns: Option<seq<string>>,  // the `tenant_columns` property; None when unset
    attributes: map<string, Value>,      // attribute name -> value
    scopes: Assoc<string, Value>)        // global scopes of the class: name -> captured tenant id

  /** `getTenantColumns()`: the declared columns, unchanged, or an error when
      the class declares none. */
  function GetTenantColumns(m: Model): (r: Result<seq<string>, TenancyError>)
    ensures r.Failure? <==> m.tenantColumns.None?
    ensures r.Failure? ==> r.error == TenantColumnUnknown(ColumnsNotSet)
    ensures r.Success? ==> r.value == m.tenantColumns.value
  {
    match m.tenantColumns
    case None => Failure(TenantColumnUnknown(ColumnsNotSet))
    case Some(columns) => Success(columns)
  }

  /** `getQualifiedTenant($tenant)`: the column qualified by the table name. */
  function QualifiedTenant(m: Model, column: string): (q: string)
    ensures |q| == |m.table| + 1 + |column|
    ensures q[..|m.table|] == m.table
    ensures q[|m.table|] == '.'
    ensures q[|m.table| + 1..] == column
  {
    m.table + "." + column
  }

  /** The inverse of `QualifiedTenant`: the column named by `q`, when `q` is
      qualified by this model's table. */
  function Unqualify(m: Model, q: string): Option<string>
  {
    if |q| > |m.table| && q[..|m.table|] == m.table && q[|m.table|] == '.'
    then Some(q[|m.table| + 1..])
    else None
  }

  /** Qualifying and unqualifying are inverse to each other, so the qualified
      name determines the column and distinct columns give distinct filters. */
  lemma QualifiedRoundTrip(m: Model, column: string, q: string)
    ensures Unqualify(m, QualifiedTenant(m, column)) == Some(column)
    ensures Unqualify(m, q) == Some(column) ==> QualifiedTenant(m, column) == q
  {
  }
}
