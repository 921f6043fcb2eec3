/** The exceptions the tenancy core throws. */
module Exceptions {

  /** Why no tenant column could be determined. The package throws the same
      exception class, `TenantColumnUnknownException`, for both. */
  datatype UnknownColumnReason =
    | NotAKey        // the argument is neither a column name nor a model
    | ColumnsNotSet  // the model declares no `tenant_columns`

  datatype TenancyError =
    | TenantNullId                                  // TenantNullIdException
    | TenantColumnUnknown(reason: UnknownColumnReason) // TenantColumnUnknownException
}
