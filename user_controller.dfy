/** The user controller: `GET /api/user/id/{id}`, `GET /api/user/{username}`
    and `POST /api/user/create`, over the user and cart repositories it is
    given. */
module Controllers {
  import opened Wrappers
  import opened Entities
  import opened Registration

  class UserController {
    /** The user repository, as its username index and its id table. */
    var users: map<string, User>
    var usersById: map<int, User>
    /** The cart repository; a cart's id is its position. */
    var carts: seq<Cart>
    /** The injected password encoder, an opaque function here. */
    const encoder: string -> string

    /** The repositories' contents as one value. */
    function Snapshot(): Store
      reads this
    {
      Store(users, usersById, carts)
    }

    ghost predicate Valid()
      reads this
    {
      Inv(Snapshot())
    }

    /** A controller wired to empty repositories and the given encoder. */
    constructor (encoder: string -> string)
      ensures Valid()
      ensures Snapshot() == Empty && this.encoder == encoder
    {
      users, usersById, carts := map[], map[], [];
      this.encoder := encoder;
    }

    /** `findById`: the stored user with that id, or NotFound. */
    function FindById(id: int): (r: Response)
      reads this
      ensures r.status == Ok <==> id in usersById
      ensures r.status == Ok ==> r.body == Some(usersById[id])
      ensures r.status == NotFound ==> r.body == None
      ensures r.status != BadRequest
      ensures Valid() && r.status == Ok ==>
                r.body.value.id == id && FindByUserName(r.body.value.username) == r
    {
      if id in usersById then Response(Ok, Some(usersById[id])) else Response(NotFound, None)
    }

    /** `findByUserName`: the stored user with that exact username, or NotFound. */
    function FindByUserName(username: string): (r: Response)
      reads this
      ensures r.status == Ok <==> username in users
      ensures r.status == Ok ==> r.body == Some(users[username])
      ensures r.status == NotFound ==> r.body == None
      ensures r.status != BadRequest
      ensures Valid() ==>
                (r.status == NotFound <==> forall id :: id in usersById ==> usersById[id].username != username)
      ensures Valid() && r.status == Ok ==>
                r.body.value.username == username && r.body.value.id in usersById &&
                usersById[r.body.value.id] == r.body.value
    {
      if username in users then Response(Ok, Some(users[username])) else Response(NotFound, None)
    }

    /** `createUser`: three checks in order, then the password is encoded,
        an empty cart is saved, and the user owning it is saved and returned. */
    method CreateUser(req: CreateUserRequest) returns (r: Response)
      requires Valid()
      modifies this
      ensures Valid()
      ensures (r, Snapshot()) == Create(old(Snapshot()), encoder, req)
      ensures r.status == BadRequest ==> Snapshot() == old(Snapshot())
      ensures r.status == Ok ==> r.body.Some? && r.body.value.id !in old(usersById)
      ensures r.status == Ok ==> FindByUserName(req.username) == r && FindById(r.body.value.id) == r
    {
      ghost var before := Snapshot();
      // `new User()` and `setUsername`; the id, password and cart are set later.
      var user := User(0, req.username, "", Cart(0, []));
      if req.username in users {
        return Response(BadRequest, None);
      }
      if |req.password| < MinPasswordLength {
        return Response(BadRequest, None);
      }
      if req.password != req.confirmPassword {
        return Response(BadRequest, None);
      }
      user := user.(password := encoder(req.password));
      // `cartRepository.save`: the repository gives the new cart its id.
      var cart := Cart(|carts|, []);
      carts := carts + [cart];
      user := user.(cart := cart);
      // `userRepository.save`: the repository gives the new user its id.
      user := user.(id := |usersById|);
      users := users[user.username := user];
      usersById := usersById[user.id := user];
      r := Response(Ok, Some(user));
      CreateKeepsInvariant(before, encoder, req);
    }
  }

  /** The scenarios of the controller's unit tests, as a client of the
      contracts above: a valid registration, a taken username, a mismatched
      confirmation, a short password and both lookups. */
  method RegistrationScenario(encoder: string -> string)
  {
    var c := new UserController(encoder);
    var ok := c.CreateUser(CreateUserRequest("admin1", "12341234", "12341234"));
    assert ok.status == Ok && ok.body.value.username == "admin1";
    assert ok.body.value.password == encoder("12341234");
    var taken := c.CreateUser(CreateUserRequest("admin1", "12341234", "4321"));
    assert taken.status == BadRequest;
    var typo := c.CreateUser(CreateUserRequest("admin2", "12341234", "4321"));
    assert typo.status == BadRequest;
    var short := c.CreateUser(CreateUserRequest("admin3", "4321", "4321"));
    assert short.status == BadRequest;
    assert c.FindByUserName("admin1") == ok;
    assert c.FindByUserName("test").status == NotFound;
    assert c.FindById(ok.body.value.id) == ok;
  }
}
