/**
 The member profile data: `Member` and its embedded `Address`. Plain data,
 no behaviour of their own.
 */
module Members {
  import opened Lang

  /** `Address`: an embedded value, compared by value. */
  datatype Address = Address(
    city: Option<string>,
    street: Option<string>,
    zipcode: Option<string>)

  /** `Member`: an account; `username` is what sign-up keeps unique. */
  datatype Member = Member(
    id: Option<int64>,
    username: Option<string>,
    password: Option<string>,
    name: Option<string>,
    address: Option<Address>)
}
