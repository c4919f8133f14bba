/** The user repository and the cart repository of the shop, abstracted as
    in-memory collections, and the registration step of `createUser` as a
    pure function on them. The controller class in `user_controller.dfy`
    is proved against `Create`. */
module Registration {
  import opened Wrappers
  import opened Entities

  /** The persisted state the user controller reads and writes:
      `users` is the username index used by `findByUsername`, `usersById`
      the user table used by `findById`, and `carts` the cart table, where
      a cart's id is its position. */
  datatype Store = Store(users: map<string, User>, usersById: map<int, User>, carts: seq<Cart>)

  /** The state before anyone has registered. */
  const Empty: Store := Store(map[], map[], [])

  /** The username index and the id table hold the same users. */
  ghost predicate Indexed(s: Store) {
    && (forall u :: u in s.users ==>
          s.users[u].username == u && s.users[u].id in s.usersById && s.usersById[s.users[u].id] == s.users[u])
    && (forall id :: id in s.usersById ==>
          s.usersById[id].username in s.users && s.users[s.usersById[id].username] == s.usersById[id])
  }

  /** Every user is stored under its own id, and the ids the store has
      handed out are exactly 0 up to the number of users. */
  ghost predicate IdsAssigned(byId: map<int, User>) {
    forall id :: id in byId ==> byId[id].id == id && 0 <= id < |byId|
  }

  /** No two stored users share a username. */
  ghost predicate UniqueUsernames(byId: map<int, User>) {
    forall id1, id2 :: id1 in byId && id2 in byId && id1 != id2 ==> byId[id1].username != byId[id2].username
  }

  /** Carts are stored under their ids, the cart a user holds is the very
      cart stored under its id, no two users share a cart, and there is one
      cart per user. */
  ghost predicate CartsOwned(s: Store) {
    && |s.carts| == |s.usersById|
    && (forall i :: 0 <= i < |s.carts| ==> s.carts[i].id == i)
    && (forall id :: id in s.usersById ==>
          0 <= s.usersById[id].cart.id < |s.carts| && s.carts[s.usersById[id].cart.id] == s.usersById[id].cart)
    && (forall id1, id2 :: id1 in s.usersById && id2 in s.usersById && id1 != id2 ==>
          s.usersById[id1].cart.id != s.usersById[id2].cart.id)
  }

  /** The invariant every state reachable by registrations satisfies. */
  ghost predicate Inv(s: Store) {
    Indexed(s) && IdsAssigned(s.usersById) && UniqueUsernames(s.usersById) && CartsOwned(s)
  }

  /** Whether a registration request passes the three checks of
      `createUser`, in the order the controller makes them. */
  predicate Acceptable(s: Store, req: CreateUserRequest) {
    req.username !in s.users && |req.password| >= MinPasswordLength && req.password == req.confirmPassword
  }

  /** `createUser` on a store: the response and the store afterwards.
      `encode` is the injected password encoder. */
  function Create(s: Store, encode: string -> string, req: CreateUserRequest): (r: (Response, Store))
    // A taken username is rejected first, whatever the passwords are.
    ensures req.username in s.users ==> r.0 == Response(BadRequest, None) && r.1 == s
    // A free username with a short password is rejected.
    ensures req.username !in s.users && |req.password| < MinPasswordLength ==>
              r.0 == Response(BadRequest, None) && r.1 == s
    // A free username, a long enough password and a different confirmation is rejected.
    ensures req.username !in s.users && |req.password| >= MinPasswordLength && req.password != req.confirmPassword ==>
              r.0 == Response(BadRequest, None) && r.1 == s
    // Registration succeeds exactly when all three checks pass; it never reports NotFound.
    ensures r.0.status == Ok <==> Acceptable(s, req)
    ensures r.0.status != NotFound
    ensures r.0.status == BadRequest ==> r.0.body == None && r.1 == s
    // On success the returned user carries the requested name, the encoded
    // password, a fresh id and a new empty cart, and is what the store saved.
    ensures r.0.status == Ok ==>
              && r.0.body.Some?
              && var u := r.0.body.value;
              && u.username == req.username
              && u.password == encode(req.password)
              && u.cart.items == []
              && r.1.carts == s.carts + [u.cart]
              && r.1.users == s.users[req.username := u]
              && r.1.usersById == s.usersById[u.id := u]
  {
    if req.username in s.users then
      (Response(BadRequest, None), s)
    else if |req.password| < MinPasswordLength then
      (Response(BadRequest, None), s)
    else if req.password != req.confirmPassword then
      (Response(BadRequest, None), s)
    else
      var cart := Cart(|s.carts|, []);
      var user := User(|s.usersById|, req.username, encode(req.password), cart);
      (Response(Ok, Some(user)), Store(s.users[req.username := user], s.usersById[user.id := user], s.carts + [cart]))
  }

  /** A registration keeps the store invariant, and the id the store hands
      out is one no stored user has. */
  lemma CreateKeepsInvariant(s: Store, encode: string -> string, req: CreateUserRequest)
    requires Inv(s)
    ensures Inv(Create(s, encode, req).1)
    ensures Create(s, encode, req).0.status == Ok ==> Create(s, encode, req).0.body.value.id !in s.usersById
  {
    if Acceptable(s, req) {
      var u := Create(s, encode, req).0.body.value;
      var t := Create(s, encode, req).1;
      assert u.id == |s.usersById| && u.cart.id == |s.carts|;
      assert t == Store(s.users[u.username := u], s.usersById[u.id := u], s.carts + [u.cart]);
      IndexedAfterSave(s, u);
      IdsAssignedAfterSave(s.usersById, u);
      UniqueAfterSave(s, u);
      CartsOwnedAfterSave(s, u);
    }
  }

  /** Saving a user with a free username and the next id keeps the two user collections in agreement. */
  lemma IndexedAfterSave(s: Store, u: User)
    requires Indexed(s) && IdsAssigned(s.usersById)
    requires u.username !in s.users && u.id == |s.usersById|
    ensures Indexed(Store(s.users[u.username := u], s.usersById[u.id := u], s.carts + [u.cart]))
  {
  }

  /** Saving a user under the next id keeps the ids the ones handed out. */
  lemma IdsAssignedAfterSave(byId: map<int, User>, u: User)
    requires IdsAssigned(byId) && u.id == |byId|
    ensures IdsAssigned(byId[u.id := u])
  {
  }

  /** Saving a user whose username is free keeps usernames unique. */
  lemma UniqueAfterSave(s: Store, u: User)
    requires Indexed(s) && UniqueUsernames(s.usersById)
    requires u.username !in s.users && u.id !in s.usersById
    ensures UniqueUsernames(s.usersById[u.id := u])
  {
  }

  /** Saving a user together with the next cart keeps one cart per user. */
  lemma CartsOwnedAfterSave(s: Store, u: User)
    requires CartsOwned(s) && IdsAssigned(s.usersById)
    requires u.id == |s.usersById| && u.cart.id == |s.carts|
    ensures CartsOwned(Store(s.users[u.username := u], s.usersById[u.id := u], s.carts + [u.cart]))
  {
  }

  /** The store after the controller has served `reqs`, one after the other. */
  function Replay(s: Store, encode: string -> string, reqs: seq<CreateUserRequest>): Store
    decreases |reqs|
  {
    if reqs == [] then s else Replay(Create(s, encode, reqs[0]).1, encode, reqs[1..])
  }

  /** Every store reached by a series of registrations satisfies the
      invariant: usernames stay unique and every user owns its own cart. */
  lemma {:induction false} ReplayKeepsInvariant(s: Store, encode: string -> string, reqs: seq<CreateUserRequest>)
    requires Inv(s)
    ensures Inv(Replay(s, encode, reqs))
    decreases |reqs|
  {
    if reqs != [] {
      CreateKeepsInvariant(s, encode, reqs[0]);
      ReplayKeepsInvariant(Create(s, encode, reqs[0]).1, encode, reqs[1..]);
    }
  }

  /** In particular every state reachable from the empty store does. */
  lemma ReachableStoresAreValid(encode: string -> string, reqs: seq<CreateUserRequest>)
    ensures Inv(Replay(Empty, encode, reqs))
  {
    ReplayKeepsInvariant(Empty, encode, reqs);
  }

  /** `t` keeps every user and every cart of `s`, unchanged and in place. */
  ghost predicate Extends(s: Store, t: Store) {
    && (forall u :: u in s.users ==> u in t.users && t.users[u] == s.users[u])
    && (forall id :: id in s.usersById ==> id in t.usersById && t.usersById[id] == s.usersById[id])
    && s.carts <= t.carts
  }

  /** `Extends` is transitive. */
  lemma ExtendsTransitive(s: Store, t: Store, w: Store)
    requires Extends(s, t) && Extends(t, w)
    ensures Extends(s, w)
  {
  }

  /** A single registration never removes, renames or overwrites a
      registered user, and never drops or reorders a saved cart. */
  lemma CreateKeepsUsers(s: Store, encode: string -> string, req: CreateUserRequest)
    requires Inv(s)
    ensures Extends(s, Create(s, encode, req).1)
  {
  }

  /** Neither does any series of registrations. */
  lemma {:induction false} ReplayKeepsUsers(s: Store, encode: string -> string, reqs: seq<CreateUserRequest>)
    requires Inv(s)
    ensures Extends(s, Replay(s, encode, reqs))
    decreases |reqs|
  {
    if reqs != [] {
      var t := Create(s, encode, reqs[0]).1;
      CreateKeepsUsers(s, encode, reqs[0]);
      CreateKeepsInvariant(s, encode, reqs[0]);
      ReplayKeepsUsers(t, encode, reqs[1..]);
      ExtendsTransitive(s, t, Replay(t, encode, reqs[1..]));
    }
  }

  /** Once a username is registered, every later attempt to register it
      again is rejected, whatever happened in between. */
  lemma RegisteredNameStaysTaken(s: Store, encode: string -> string, reqs: seq<CreateUserRequest>, req: CreateUserRequest)
    requires Inv(s) && req.username in s.users
    ensures Create(Replay(s, encode, reqs), encode, req) == (Response(BadRequest, None), Replay(s, encode, reqs))
  {
    ReplayKeepsUsers(s, encode, reqs);
  }
}
