/** The rows of the application's tables. An id is `None` until the row has
    been saved, as in the models' optional `id` properties. */
module Entities {
  import opened Common

  type UserId = nat
  type CategoryId = nat
  type AcronymId = nat

  /** A registered account. `password` holds the password hash; `twitterURL` is
      the optional column added to the users table by a later migration. */
  datatype User = User(id: Option<UserId>, name: string, username: string,
                       password: string, twitterURL: Option<string>)

  /** What the API shows of a user: no password and no profile URL. */
  datatype PublicUser = PublicUser(id: Option<UserId>, name: string, username: string)

  /** A bearer token bound to the user with id `userID`. */
  datatype Token = Token(token: string, userID: UserId)

  datatype Category = Category(id: Option<CategoryId>, name: string)

  /** An acronym, its expansion and the id of the user who created or last edited it. */
  datatype Acronym = Acronym(id: Option<AcronymId>, short: string, long: string, userID: UserId)

  /** One row of the acronym/category pivot table. */
  type PivotRow = (AcronymId, CategoryId)
}
