/** The authentication user, known to the core only by its primary key and
    its username (what `str(user)` renders). */
module Users {

  type UserId = nat

  datatype User = User(id: UserId, username: string)
}
