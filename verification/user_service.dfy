/** The user service: registration with a unique email and a role fixed by
    the entry point, login against the stored password hash, the field-wise
    update and the two-row role report. The password hash, its check and the
    login token are supplied as functions; the user totals are supplied by
    the caller as query outcomes. */
module UserService {
  import opened Base
  import opened Entity
  import opened Store

  const UserRole := "user"
  const AdminRole := "admin"

  /** The roles of the user report, in report order. */
  const ReportRoles: seq<string> := [AdminRole, UserRole]

  /** No two users share an email: what registration maintains. */
  predicate EmailsUnique(us: seq<User>)
  {
    forall i, j :: 0 <= i < |us| && 0 <= j < |us| && i != j ==> us[i].Email != us[j].Email
  }

  /** RegisterUser and RegisterAsAdmin alike: a registered email is refused,
      then the password is hashed, then a user with the given role and the
      hash in place of the password is inserted. */
  method Register(db: Database, req: RegisterReq, role: string, hash: string -> Option<string>, now: Instant)
    returns (r: Result<UserRes>)
    requires db.Valid()
    modifies db`users, db`nextUserId
    ensures db.Valid()
    ensures IsEmailExists(old(db.users), req.Email) ==> r == Err(EmailAlreadyRegistered)
    ensures !IsEmailExists(old(db.users), req.Email) && hash(req.Password).None? ==> r == Err(HashFailure)
    ensures r.Ok? <==> !IsEmailExists(old(db.users), req.Email) && hash(req.Password).Some?
    ensures r.Err? ==> db.users == old(db.users) && db.nextUserId == old(db.nextUserId)
    ensures r.Ok? ==>
              var u := User(old(db.nextUserId), req.Name, req.Email, hash(req.Password).value, role, now, now);
              && db.users == old(db.users) + [u]
              && db.nextUserId == old(db.nextUserId) + 1
              && r.value == UserToRes(u)
    ensures EmailsUnique(old(db.users)) ==> EmailsUnique(db.users)
  {
    if IsEmailExists(db.users, req.Email) {
      return Err(EmailAlreadyRegistered);
    }
    var hashed := hash(req.Password);
    if hashed.None? {
      return Err(HashFailure);
    }
    var stored := db.InsertUser(User(0, req.Name, req.Email, hashed.value, role, ZeroTime, ZeroTime), now);
    r := Ok(UserToRes(stored));
  }

  /** RegisterUser: registration with the role "user". */
  method RegisterUser(db: Database, req: RegisterReq, hash: string -> Option<string>, now: Instant)
    returns (r: Result<UserRes>)
    requires db.Valid()
    modifies db`users, db`nextUserId
    ensures db.Valid()
    ensures IsEmailExists(old(db.users), req.Email) ==> r == Err(EmailAlreadyRegistered)
    ensures !IsEmailExists(old(db.users), req.Email) && hash(req.Password).None? ==> r == Err(HashFailure)
    ensures r.Ok? <==> !IsEmailExists(old(db.users), req.Email) && hash(req.Password).Some?
    ensures r.Err? ==> db.users == old(db.users) && db.nextUserId == old(db.nextUserId)
    ensures r.Ok? ==>
              var u := User(old(db.nextUserId), req.Name, req.Email, hash(req.Password).value, UserRole, now, now);
              && db.users == old(db.users) + [u]
              && db.nextUserId == old(db.nextUserId) + 1
              && r.value == UserToRes(u)
    ensures EmailsUnique(old(db.users)) ==> EmailsUnique(db.users)
  {
    r := Register(db, req, UserRole, hash, now);
  }

  /** RegisterAsAdmin: registration with the role "admin". */
  method RegisterAsAdmin(db: Database, req: RegisterReq, hash: string -> Option<string>, now: Instant)
    returns (r: Result<UserRes>)
    requires db.Valid()
    modifies db`users, db`nextUserId
    ensures db.Valid()
    ensures IsEmailExists(old(db.users), req.Email) ==> r == Err(EmailAlreadyRegistered)
    ensures !IsEmailExists(old(db.users), req.Email) && hash(req.Password).None? ==> r == Err(HashFailure)
    ensures r.Ok? <==> !IsEmailExists(old(db.users), req.Email) && hash(req.Password).Some?
    ensures r.Err? ==> db.users == old(db.users) && db.nextUserId == old(db.nextUserId)
    ensures r.Ok? ==>
              var u := User(old(db.nextUserId), req.Name, req.Email, hash(req.Password).value, AdminRole, now, now);
              && db.users == old(db.users) + [u]
              && db.nextUserId == old(db.nextUserId) + 1
              && r.value == UserToRes(u)
    ensures EmailsUnique(old(db.users)) ==> EmailsUnique(db.users)
  {
    r := Register(db, req, AdminRole, hash, now);
  }

  /** A successful login: the user's view and the issued token. */
  datatype LoginRes = LoginRes(User: UserRes, Token: string)

  /** LoginUser: the lowest-id user with the email, if the password matches
      that user's stored hash and a token can be issued for its id and role. */
  function LoginUser(us: seq<User>, req: LoginReq, matches: (string, string) -> bool, token: (int, string) -> Option<string>)
    : (r: Result<LoginRes>)
    ensures FindUserByEmail(us, req.Email).None? ==> r == Err(RecordNotFound)
    ensures FindUserByEmail(us, req.Email).Some? ==>
              var k := FindUserByEmail(us, req.Email).value;
              && (!matches(us[k].Password, req.Password) ==> r == Err(PasswordMismatch))
              && (matches(us[k].Password, req.Password) && token(us[k].Id, us[k].Role).None? ==> r == Err(TokenFailure))
              && (r.Ok? <==> matches(us[k].Password, req.Password) && token(us[k].Id, us[k].Role).Some?)
              && (r.Ok? ==> r.value == LoginRes(UserToRes(us[k]), token(us[k].Id, us[k].Role).value))
    ensures r.Ok? ==> IsEmailExists(us, req.Email)
  {
    match FindUserByEmail(us, req.Email)
    case None => Err(RecordNotFound)
    case Some(k) =>
      if !matches(us[k].Password, req.Password) then Err(PasswordMismatch)
      else match token(us[k].Id, us[k].Role)
        case None => Err(TokenFailure)
        case Some(t) => Ok(LoginRes(UserToRes(us[k]), t))
  }

  /** Appending a user whose email is new makes it the one an email lookup
      finds. */
  lemma {:induction false} FindUserByEmailAppend(us: seq<User>, u: User)
    requires !IsEmailExists(us, u.Email)
    ensures FindUserByEmail(us + [u], u.Email) == Some(|us|)
  {
    if us != [] {
      assert (us + [u])[1..] == us[1..] + [u];
      FindUserByEmailAppend(us[1..], u);
    }
  }

  /** Registering and then logging in with the same email and password
      succeeds and returns the registered user, as long as the hash check
      accepts the password it hashed and a token can be issued. */
  lemma LoginAfterRegister(us: seq<User>, u: User, password: string,
                           matches: (string, string) -> bool, token: (int, string) -> Option<string>)
    requires !IsEmailExists(us, u.Email)
    requires matches(u.Password, password)
    requires token(u.Id, u.Role).Some?
    ensures LoginUser(us + [u], LoginReq(u.Email, password), matches, token)
            == Ok(LoginRes(UserToRes(u), token(u.Id, u.Role).value))
  {
    FindUserByEmailAppend(us, u);
  }

  /** The user UpdateUser saves: name, email and role are replaced when the
      request gives them, a given password is replaced by its hash, and the
      id (the request's own id is ignored) and creation time stay. A hash
      failure stops the update. */
  function MergeUserUpdate(u: User, req: UpdateUserReq, hash: string -> Option<string>): (r: Result<User>)
    ensures r.Err? <==> req.Password != "" && hash(req.Password).None?
    ensures r.Err? ==> r.error == HashFailure
    ensures r.Ok? ==>
              && r.value.Id == u.Id && r.value.CreatedAt == u.CreatedAt && r.value.UpdatedAt == u.UpdatedAt
              && r.value.Name == (if req.Name != "" then req.Name else u.Name)
              && r.value.Email == (if req.Email != "" then req.Email else u.Email)
              && r.value.Role == (if req.Role != "" then req.Role else u.Role)
              && r.value.Password == (if req.Password != "" then hash(req.Password).value else u.Password)
  {
    var named := u.(Name := if req.Name != "" then req.Name else u.Name,
                    Email := if req.Email != "" then req.Email else u.Email);
    if req.Password != "" && hash(req.Password).None? then Err(HashFailure)
    else
      var hashed := named.(Password := if req.Password != "" then hash(req.Password).value else u.Password);
      Ok(hashed.(Role := if req.Role != "" then req.Role else u.Role))
  }

  /** A request with every field empty leaves the user as it is, and the
      plaintext of a new password is never what gets stored unless the hash
      itself returns it. */
  lemma MergeUserUpdateKeeps(u: User, req: UpdateUserReq, hash: string -> Option<string>)
    ensures req.Name == "" && req.Email == "" && req.Password == "" && req.Role == ""
            ==> MergeUserUpdate(u, req, hash) == Ok(u)
    ensures req.Password != "" && MergeUserUpdate(u, req, hash).Ok?
            && MergeUserUpdate(u, req, hash).value.Password == req.Password
            ==> hash(req.Password) == Some(req.Password)
  {
  }

  /** UpdateUser: an unknown id returns the lookup error, a failing hash its
      error, and neither writes anything; otherwise the merged user replaces
      the row. */
  method UpdateUser(db: Database, id: int, req: UpdateUserReq, hash: string -> Option<string>, now: Instant)
    returns (err: Option<Error>)
    requires db.Valid()
    modifies db`users
    ensures db.Valid()
    ensures FindUserIndex(old(db.users), id).None? ==> err == Some(RecordNotFound) && db.users == old(db.users)
    ensures FindUserIndex(old(db.users), id).Some? ==>
              var i := FindUserIndex(old(db.users), id).value;
              match MergeUserUpdate(old(db.users)[i], req, hash)
              case Err(e) => err == Some(e) && db.users == old(db.users)
              case Ok(u) => err.None? && db.users == old(db.users)[i := u.(UpdatedAt := now)]
  {
    var found := FindUserIndex(db.users, id);
    if found.None? {
      return Some(RecordNotFound);
    }
    var i := found.value;
    var merged := MergeUserUpdate(db.users[i], req, hash);
    if merged.Err? {
      return Some(merged.error);
    }
    db.SaveUser(i, merged.value, now);
    err := None;
  }

  /** Unlike registration, the update does not check the new email, so two
      users can end up sharing one, after which login by that email only
      ever reaches the lower id. */
  lemma UpdateUserCanDuplicateEmail(hash: string -> Option<string>)
    ensures var a := User(1, "a", "a@x", "h1", UserRole, 0, 0);
            var b := User(2, "b", "b@x", "h2", UserRole, 0, 0);
            var req := UpdateUserReq(2, "", "a@x", "", "");
            && EmailsUnique([a, b])
            && MergeUserUpdate(b, req, hash).Ok?
            && !EmailsUnique([a, MergeUserUpdate(b, req, hash).value])
            && FindUserByEmail([a, MergeUserUpdate(b, req, hash).value], "a@x") == Some(0)
  {
    var a := User(1, "a", "a@x", "h1", UserRole, 0, 0);
    var b := User(2, "b", "b@x", "h2", UserRole, 0, 0);
    var req := UpdateUserReq(2, "", "a@x", "", "");
    assert a.Email[0] != b.Email[0];
    var b' := MergeUserUpdate(b, req, hash).value;
    assert [a, b'][0].Email == [a, b'][1].Email;
  }

  /** GetUserReport: the user total first, then one row per role of
      ReportRoles ("admin", then "user"), each with its count; the first
      failing query aborts the whole report. */
  method GetUserReport(totalUsers: Result<int>, roleCount: string -> Result<int>) returns (r: Result<UserReport>)
    ensures totalUsers.Err? ==> r == Err(totalUsers.error)
    ensures r.Ok? <==> totalUsers.Ok? && forall i :: 0 <= i < |ReportRoles| ==> roleCount(ReportRoles[i]).Ok?
    ensures r.Err? && totalUsers.Ok? ==>
              exists i :: 0 <= i < |ReportRoles| && roleCount(ReportRoles[i]) == Err(r.error)
                          && forall j :: 0 <= j < i ==> roleCount(ReportRoles[j]).Ok?
    ensures r.Ok? ==>
              && r.value.TotalUser == totalUsers.value
              && |r.value.UserRoleDistribution| == |ReportRoles|
              && forall i :: 0 <= i < |ReportRoles| ==>
                   r.value.UserRoleDistribution[i] == UserRoleDistribution(ReportRoles[i], roleCount(ReportRoles[i]).value)
  {
    if totalUsers.Err? {
      return Err(totalUsers.error);
    }
    var rows: seq<UserRoleDistribution> := [];
    for i := 0 to |ReportRoles|
      invariant |rows| == i
      invariant forall j :: 0 <= j < i ==> roleCount(ReportRoles[j]).Ok?
      invariant forall j :: 0 <= j < i ==> rows[j] == UserRoleDistribution(ReportRoles[j], roleCount(ReportRoles[j]).value)
    {
      var role := ReportRoles[i];
      var count := roleCount(role);
      if count.Err? {
        return Err(count.error);
      }
      rows := rows + [UserRoleDistribution(role, count.value)];
    }
    r := Ok(UserReport(totalUsers.value, rows));
  }
}
