/** Query parameters and read models shared by the repository and the
    list-users query: sorting, pagination, user roles and the user projection. */
module QueryParams {

  datatype SortingOrder = Asc | Desc

  /** The requested sort: a column name and a direction. */
  datatype Sorting = Sorting(sortingField: string, sortingOrder: SortingOrder)

  /** A page window: at most `limit` items after skipping `offset` items. */
  datatype Pagination = Pagination(limit: nat, offset: nat)

  datatype UserRole = SuperAdmin | Admin | User

  /** The read-side projection of a user returned by the query gateway. */
  datatype UserQueryModel = UserQueryModel(
    id: string,
    username: string,
    role: UserRole,
    isActive: bool)
}
