# UserController registration and lookup, modelled in Dafny

This project models the user controller of a small Spring e-commerce backend
(`UserController.java`). The controller registers users and looks them up:

- `POST /api/user/create` (`createUser`) makes three checks in a fixed order.
  It rejects with 400 a username that is already taken, then a password shorter
  than 7 characters, then a confirmation that differs from the password.
  Otherwise it encodes the password with the injected BCrypt encoder, saves a
  new empty cart, attaches that cart to the new user, saves the user and
  returns it with 200.
- `GET /api/user/id/{id}` (`findById`) and `GET /api/user/{username}`
  (`findByUserName`) return the stored user with 200, or 404 when there is none.

The user and cart repositories are modelled as in-memory collections.
`Registration.Store` holds the username index, the id table and the cart
table. `Registration.Create` is `createUser` as a pure function on a store.
`Registration.Inv` is the invariant of every reachable store: the two user
collections agree, ids are the ones the store handed out, usernames are
unique, and every user owns exactly one cart of its own.
`Controllers.UserController` is the controller as a class whose fields are
the repositories. Its `CreateUser` method follows the Java statement by
statement and is proved equal to `Create`. `FindById` and `FindByUserName`
are read-only functions of the stored state.

Files: `wrappers.dfy` (Option), `entities.dfy` (User, Cart, request and
response shapes, the minimum password length), `registration.dfy` (store,
invariant, `Create`, lemmas over series of registrations),
`user_controller.dfy` (the class and a client that replays the unit-test
scenarios of `UserControllerTests.java` against the contracts).

## Model

| member | source | states |
|---|---|---|
| Registration.Create | starter_code/src/main/java/com/example/demo/controllers/UserController.java:49-73 | A taken username gives BadRequest and an unchanged store, whatever the passwords are. With a free username, a password shorter than 7 gives BadRequest and an unchanged store. With a free username and a long enough password, a different confirmation gives BadRequest and an unchanged store. The result is Ok exactly when all three checks pass, and it is never NotFound. On success the returned user has the requested username, its password is `encode(password)`, and its cart is new and empty. That cart is appended to the cart table, and the username index gains exactly that username mapped to the user. The id table gains the user under its id. Nothing else changes. |
| Registration.CreateKeepsInvariant | starter_code/src/main/java/com/example/demo/controllers/UserController.java:54-70 | From a store satisfying the invariant, a registration leads to a store that satisfies it too. The new user gets an id no stored user has. |
| Registration.ReplayKeepsInvariant | starter_code/src/main/java/com/example/demo/controllers/UserController.java:49-73 | Any series of registrations, successful or not, keeps the invariant. Usernames stay unique, and the username index and the id table agree. There is one cart per user with no cart shared, and the cart each user holds is the one stored in the cart table. |
| Registration.ReachableStoresAreValid | starter_code/src/main/java/com/example/demo/controllers/UserController.java:49-73 | Every store reached from empty repositories by registrations satisfies the invariant. |
| Registration.CreateKeepsUsers | starter_code/src/main/java/com/example/demo/controllers/UserController.java:66-70 | A registration never removes, renames or overwrites a stored user. It never drops or reorders a saved cart. |
| Registration.ReplayKeepsUsers | starter_code/src/main/java/com/example/demo/controllers/UserController.java:49-73 | A series of registrations keeps every earlier user and cart unchanged and in place. |
| Registration.RegisteredNameStaysTaken | starter_code/src/main/java/com/example/demo/controllers/UserController.java:54-57 | Once a username is registered, any later request for that username is rejected with BadRequest and leaves the store unchanged, whatever registrations came in between. |
| Controllers.UserController.constructor | starter_code/src/main/java/com/example/demo/controllers/UserController.java:27-34 | A controller wired to empty repositories and the given encoder satisfies the invariant. |
| Controllers.UserController.FindById | starter_code/src/main/java/com/example/demo/controllers/UserController.java:36-40 | The result is Ok exactly when a user is stored under the id, and then its body is that user. Otherwise it is NotFound with no body, and it is never BadRequest. In a valid state the returned user has the requested id, and looking it up by its username gives the same response. Being a function, it leaves the store unchanged. |
| Controllers.UserController.FindByUserName | starter_code/src/main/java/com/example/demo/controllers/UserController.java:42-47 | The result is Ok exactly when the username index holds the name, and then its body is that user. Otherwise it is NotFound with no body, and it is never BadRequest. In a valid state the result is NotFound exactly when no user in the id table has that username. A returned user has the requested username and is the one stored under its id. The store is unchanged. |
| Controllers.UserController.CreateUser | starter_code/src/main/java/com/example/demo/controllers/UserController.java:49-73 | The checks, the encoding and the two saves run in the source's order. The response and the new repository contents equal `Create` of the old contents, so everything proved of `Create` holds. The invariant is kept. A BadRequest changes nothing. On Ok the new user's id was not in use, and both finders now return exactly the created user. |

## Left out

- Logging (`log.info`, `log.error`) has no behavioural content and is not modelled.
- Spring routing, `ResponseEntity` construction, dependency injection and Spring Security are framework code and are not modelled. Only the status and the body of a response are kept.
- The BCrypt encoder is salted and randomised. Here it is an arbitrary fixed function `encoder: string -> string` supplied to the constructor. The model does not claim that the stored password differs from the plaintext, because the code does not promise it.
- The persistence provider's id generation is not part of this model. The in-memory repositories hand out the next unused number: a user's id is the number of users already stored, and a cart's id is its position in the cart table. The invariant `Inv` fixes this scheme: user ids are exactly 0 up to the number of users minus one, and cart ids are positions. `CreateUser` requires the invariant, so a repository whose ids start elsewhere or have gaps is outside the model.
- `FindById` takes an unbounded `int` where the source takes a 64-bit `Long`. The model never does arithmetic on ids, so the width does not change its behaviour.
- Java's `String.length()` counts UTF-16 code units, and the model counts characters (`|password|`). So a password with characters outside the Basic Multilingual Plane is measured differently.
- Java null handling is not modelled. A null password would throw at `UserController.java:58`. Request fields are non-null strings here.
- Storage faults between the cart save and the user save, which would leave an orphaned cart, are not modelled. Concurrent registrations of the same username are not modelled either. The invariant "one cart per user" holds only for the fault-free, sequential model.
- The cart's items are kept only as item ids, so the model can say that a new cart is empty. Cart, item and order controllers are not part of this model, and neither are the `User`/`Cart` entity classes or their back-references.
- `SareetaApplication.java` is application bootstrap and configuration and is not part of this model.
