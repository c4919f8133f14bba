/** The persistent entities the user controller creates and returns, and
    the shape of its requests and responses. */
module Entities {
  import opened Wrappers

  /** A shopping cart. Its items are kept as item ids; the operations that
      add and remove items belong to the cart controller, which is not part
      of this model. */
  datatype Cart = Cart(id: int, items: seq<int>)

  /** A registered user: store-assigned id, unique username, the encoded
      password and the cart created together with the user. */
  datatype User = User(id: int, username: string, password: string, cart: Cart)

  /** The body of `POST /api/user/create`. */
  datatype CreateUserRequest = CreateUserRequest(username: string, password: string, confirmPassword: string)

  /** The HTTP status codes the controller produces. */
  datatype Status = Ok | BadRequest | NotFound

  /** A `ResponseEntity<User>`: a status and, only with `Ok`, a user. */
  datatype Response = Response(status: Status, body: Option<User>)

  /** Minimum password length accepted by registration. */
  const MinPasswordLength: nat := 7
}
