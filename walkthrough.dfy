/**
 * Short sessions against fresh tables, each answering as the handlers'
 * contracts say it must: one client's task stays invisible and untouchable to
 * another, a second delete finds nothing, a taken username is refused, a weak
 * password leaves no user behind, and a token logs out once.
 */
module Walkthrough {
  import opened Wrappers
  import opened Fields
  import opened Models
  import opened Database
  import TaskSerializer
  import TaskViews
  import RegistrationSerializer
  import AccountViews

  const ALICE: UserId := 1
  const BOB: UserId := 2
  const TODAY: Date := Date(2025, 3, 14)

  function MilkBody(): Payload {
    map[TITLE := Text("Buy milk"), DESCRIPTION := Text("2%"), STATUS := Text(INQU)]
  }

  /** The row that posting MilkBody() as ALICE on TODAY stores. */
  function Milk(): Task {
    Task("Buy milk", ALICE, "2%", InQueue, TODAY)
  }

  /** MilkBody() passes validation as a create, with a description. */
  lemma MilkIsAccepted()
    ensures TaskSerializer.Validate(MilkBody(), false).Ok? && DESCRIPTION in MilkBody()
  {
    assert !TaskSerializer.Offending(MilkBody(), false, TITLE);
    assert !TaskSerializer.Offending(MilkBody(), false, DESCRIPTION);
    assert ParseStatus(INQU) == Some(InQueue);
    assert !TaskSerializer.Offending(MilkBody(), false, STATUS);
  }

  /** A row with the fields that MilkBody() sent, owned by ALICE and dated TODAY, is Milk(). */
  lemma MilkRow(t: Task)
    requires t.owner == ALICE && t.creationDate == TODAY
    requires MilkBody()[TITLE] == Text(t.title) && MilkBody()[DESCRIPTION] == Text(t.description)
    requires MilkBody()[STATUS] == Text(StatusText(t.status))
    ensures t == Milk()
  {
    StatusRoundTrip(t.status);
  }

  /** A table holding one row of ALICE under key 1 lists exactly that row for her. */
  lemma ListingOfOne(t: Task)
    requires t.owner == ALICE
    ensures TaskViews.Listing(map[1 := t], ALICE, 2) == [TaskSerializer.Serialize(1, t)]
  {
    var rows := map[1 := t];
    assert OwnedBy(rows, ALICE, 1) == [] by {
      assert 0 !in rows;
      assert OwnedBy(rows, ALICE, 0) == [];
    }
    assert OwnedBy(rows, ALICE, 2) == [1];
    var items := TaskViews.SerializeRows(rows, [1]);
    assert |items| == 1 && items[0] == TaskSerializer.Serialize(1, t);
  }

  /** Posts MilkBody() as ALICE into a fresh table. */
  method Seed() returns (table: TaskTable, created: TaskViews.Response)
    ensures fresh(table) && table.Valid() && TaskViews.AllValid(table.rows)
    ensures table.rows == map[1 := Milk()] && table.nextId == 2
    ensures created == TaskViews.Created(TaskSerializer.Serialize(1, Milk()))
  {
    table := new TaskTable();
    MilkIsAccepted();
    created := TaskViews.Post(table, ALICE, MilkBody(), TODAY);
    MilkRow(table.rows[1]);
  }

  /** A task posted by a client is the one task that client then lists. */
  method PostThenList() returns (created: TaskViews.Response, listed: TaskViews.Response)
    ensures created == TaskViews.Created(TaskSerializer.Serialize(1, Milk())) && TaskViews.Code(created) == 201
    ensures listed == TaskViews.Listed([created.task])
  {
    var table;
    table, created := Seed();
    ListingOfOne(Milk());
    listed := TaskViews.Get(table, ALICE);
  }

  /** Another client can neither change nor delete the task, and it stays as it was. */
  method OtherClientIsTurnedAway() returns (patched: TaskViews.Response, deleted: TaskViews.Response, listed: TaskViews.Response)
    ensures patched == TaskViews.NotFound(TaskViews.NOT_FOUND) && TaskViews.Code(patched) == 404
    ensures deleted == TaskViews.NotFound(TaskViews.NOT_FOUND) && TaskViews.Code(deleted) == 404
    ensures listed == TaskViews.Listed([TaskSerializer.Serialize(1, Milk())])
  {
    var table, created := Seed();
    patched := TaskViews.Patch(table, BOB, 1, map[TITLE := Text("Buy beer")]);
    deleted := TaskViews.Delete(table, BOB, 1);
    ListingOfOne(Milk());
    listed := TaskViews.Get(table, ALICE);
  }

  /** Deleting a task twice: the second attempt finds nothing. */
  method DeleteTwice() returns (first: TaskViews.Response, second: TaskViews.Response)
    ensures first == TaskViews.Deleted(TaskViews.DELETED) && TaskViews.Code(first) == 204
    ensures second == TaskViews.NotFound(TaskViews.NOT_FOUND) && TaskViews.Code(second) == 404
  {
    var table, created := Seed();
    first := TaskViews.Delete(table, ALICE, 1);
    second := TaskViews.Delete(table, ALICE, 1);
  }

  function SignUp(password: string): Payload {
    map[
      RegistrationSerializer.USERNAME := Text("alice"),
      RegistrationSerializer.EMAIL := Text("alice@example.com"),
      RegistrationSerializer.PASSWORD := Text(password),
      RegistrationSerializer.PASSWORD2 := Text(password)]
  }

  /** The same username registered twice: the second time it is refused, and only on that field. */
  method RegisterTwice() returns (first: AccountViews.RegisterResponse, second: AccountViews.RegisterResponse)
    ensures first == AccountViews.Registered(AccountViews.REGISTERED) && AccountViews.RegisterCode(first) == 201
    ensures second.Rejected? && AccountViews.RegisterCode(second) == 400
    ensures second.errors == map[RegistrationSerializer.USERNAME := Custom(RegistrationSerializer.USERNAME_EXISTS)]
  {
    var users := new UserTable();
    assert RegistrationSerializer.FieldsWellFormed(SignUp("s3cret-Pass"));
    first := AccountViews.Register(users, SignUp("s3cret-Pass"), []);
    second := AccountViews.Register(users, SignUp("s3cret-Pass"), []);
    assert !NameFree(users.rows, "alice");
    assert second.errors.Keys == {RegistrationSerializer.USERNAME};
  }

  /** A weak password is refused and leaves no user, so the name can be registered again. */
  method WeakPasswordIsRolledBack() returns (weak: AccountViews.RegisterResponse, retry: AccountViews.RegisterResponse)
    ensures weak == AccountViews.WeakPassword(["This password is too common."])
    ensures AccountViews.RegisterCode(weak) == 400
    ensures retry == AccountViews.Registered(AccountViews.REGISTERED)
  {
    var users := new UserTable();
    assert RegistrationSerializer.FieldsWellFormed(SignUp("password"));
    assert RegistrationSerializer.FieldsWellFormed(SignUp("s3cret-Pass"));
    weak := AccountViews.Register(users, SignUp("password"), ["This password is too common."]);
    retry := AccountViews.Register(users, SignUp("s3cret-Pass"), []);
  }

  /** A body without an email passes validation, but storing it fails and nothing is kept. */
  method RegisterWithoutEmail() returns (resp: AccountViews.RegisterResponse)
    ensures resp == AccountViews.Crashed(RegistrationSerializer.MissingKey(RegistrationSerializer.EMAIL))
    ensures AccountViews.RegisterCode(resp) == 500
  {
    var users := new UserTable();
    var body := SignUp("s3cret-Pass") - {RegistrationSerializer.EMAIL};
    assert RegistrationSerializer.FieldsWellFormed(body);
    resp := AccountViews.Register(users, body, []);
  }

  /** Login after registering: a wrong password and an unknown name get the same 401; the right password gets tokens. */
  method LoginAnswers() returns (wrong: AccountViews.LoginResponse, unknown: AccountViews.LoginResponse, right: AccountViews.LoginResponse)
    ensures wrong == unknown == AccountViews.Denied(AccountViews.INVALID_CREDENTIALS)
    ensures AccountViews.LoginCode(wrong) == 401
    ensures right.Granted? && right.tokens.refresh.user == right.tokens.access.user
  {
    var users := new UserTable();
    assert RegistrationSerializer.FieldsWellFormed(SignUp("s3cret-Pass"));
    var registered := AccountViews.Register(users, SignUp("s3cret-Pass"), []);
    ghost var id: nat :| id in users.rows && users.rows[id] == User("alice", "alice@example.com", Hashed("s3cret-Pass"));
    wrong := AccountViews.Login(users, map[RegistrationSerializer.USERNAME := Text("alice"), RegistrationSerializer.PASSWORD := Text("guess")]);
    unknown := AccountViews.Login(users, map[RegistrationSerializer.USERNAME := Text("bob"), RegistrationSerializer.PASSWORD := Text("s3cret-Pass")]);
    AccountViews.LoginHidesWhichCheckFailed(users,
      map[RegistrationSerializer.USERNAME := Text("bob"), RegistrationSerializer.PASSWORD := Text("s3cret-Pass")],
      map[RegistrationSerializer.USERNAME := Text("alice"), RegistrationSerializer.PASSWORD := Text("guess")], id);
    var good := map[RegistrationSerializer.USERNAME := Text("alice"), RegistrationSerializer.PASSWORD := Text("s3cret-Pass")];
    assert AccountViews.Authentic(users.rows, good, id);
    right := AccountViews.Login(users, good);
  }

  /** A refresh token logs out once; sent again it is refused as invalid. */
  method LogoutTwice() returns (first: AccountViews.LogoutResponse, second: AccountViews.LogoutResponse, missing: AccountViews.LogoutResponse)
    ensures first == AccountViews.LoggedOut(AccountViews.LOGGED_OUT) && AccountViews.LogoutCode(first) == 200
    ensures second == AccountViews.LogoutRefused(AccountViews.INVALID_TOKEN) && AccountViews.LogoutCode(second) == 400
    ensures missing == AccountViews.LogoutRefused(AccountViews.REFRESH_REQUIRED)
  {
    var blacklist := new TokenBlacklist();
    var body := map[AccountViews.REFRESH := Text("eyJhbGciOi.refresh")];
    first := AccountViews.Logout(blacklist, body, true);
    second := AccountViews.Logout(blacklist, body, true);
    missing := AccountViews.Logout(blacklist, map[AccountViews.REFRESH := Text("")], true);
  }
}
