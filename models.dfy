/** The two Eloquent models the customer workflow touches, as values. */
module Models {
  import opened Wrappers

  /** The authenticated user acting on a request. */
  datatype User = User(id: int)

  /** One row of the `customers` table; `ownerId` is the `user_id` column. */
  datatype Customer = Customer(
    id: int,
    ownerId: int,
    name: string,
    email: string,
    imageUrl: Option<string>)
}
