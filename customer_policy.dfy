/** `App\Policies\CustomerPolicy`: who may modify a customer. */
module CustomerPolicy {
  import opened Models

  const NotOwnerMessage := "You do not own this customer."

  /** An authorization decision: allowed, or denied with a message. */
  datatype Response = Allow | Deny(message: string)

  /** `modify`: the acting user may change or delete a customer exactly when
      they own it; otherwise the answer is a denial saying so. */
  function Modify(user: User, customer: Customer): (r: Response)
    ensures r.Allow? <==> user.id == customer.ownerId
    ensures r.Deny? ==> r.message == NotOwnerMessage
  {
    if user.id == customer.ownerId then Allow else Deny(NotOwnerMessage)
  }

  /** The decision reads the two ids and nothing else: users and customers
      that agree on them get the same answer, whatever their name, email or
      image. */
  lemma ModifyDependsOnlyOnIds(u1: User, u2: User, c1: Customer, c2: Customer)
    requires u1.id == u2.id && c1.ownerId == c2.ownerId
    ensures Modify(u1, c1) == Modify(u2, c2)
  {
  }
}
