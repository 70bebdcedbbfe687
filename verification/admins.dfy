/**
 * The admin registry of the older backend (`AdminService` under
 * `backend/`): password accounts with a unique username and a unique
 * email. The table becomes a sequence of rows; bcrypt hashing, done by the
 * entity's insert/update hook, is the parameter `hash`.
 */
module Admins {
  import opened Wrappers
  import Seqs

  datatype Role = SuperAdmin | Admin

  /** The database spelling of a role. */
  function RoleName(r: Role): string {
    match r
    case SuperAdmin => "super_admin"
    case Admin => "admin"
  }

  datatype AdminUser = AdminUser(
    id: string,
    username: string,
    email: string,
    passwordHash: string,
    fullName: Option<string>,
    role: Role,
    isActive: bool,
    lastLoginAt: Option<int>)

  /** An admin as the service hands it out: every column except the password hash. */
  datatype View = View(
    id: string,
    username: string,
    email: string,
    fullName: Option<string>,
    role: Role,
    isActive: bool,
    lastLoginAt: Option<int>)

  /** `sanitizeAdmin`: drop the password hash and keep everything else. */
  function Sanitize(a: AdminUser): (v: View)
    ensures v.id == a.id && v.username == a.username && v.email == a.email
    ensures v.fullName == a.fullName && v.role == a.role && v.isActive == a.isActive
    ensures v.lastLoginAt == a.lastLoginAt
  {
    View(a.id, a.username, a.email, a.fullName, a.role, a.isActive, a.lastLoginAt)
  }

  /** Nothing of the password hash reaches the view: two admins that differ only there look the same. */
  lemma SanitizeHidesHash(a: AdminUser, hash: string)
    ensures Sanitize(a) == Sanitize(a.(passwordHash := hash))
  {
  }

  /** The three columns a row is looked up by. */
  datatype Column = ById | ByUsername | ByEmail

  function Key(a: AdminUser, c: Column): string {
    match c
    case ById => a.id
    case ByUsername => a.username
    case ByEmail => a.email
  }

  /** `findOne({ where: { <column>: k } })`: the first row holding `k` in that column. */
  function FindBy(admins: seq<AdminUser>, c: Column, k: string): (o: Option<nat>)
    ensures o.Some? ==> o.value < |admins| && Key(admins[o.value], c) == k
    ensures o.Some? ==> forall i :: 0 <= i < o.value ==> Key(admins[i], c) != k
    ensures o.None? <==> forall i :: 0 <= i < |admins| ==> Key(admins[i], c) != k
    decreases |admins|
  {
    if |admins| == 0 then None
    else if Key(admins[0], c) == k then Some(0)
    else
      match FindBy(admins[1..], c, k)
      case None => None
      case Some(i) => Some(i + 1)
  }

  predicate Taken(admins: seq<AdminUser>, c: Column, k: string) {
    FindBy(admins, c, k).Some?
  }

  /** Primary key, `username` and `email` are each unique columns. */
  predicate Valid(admins: seq<AdminUser>) {
    forall i, j :: 0 <= i < |admins| && 0 <= j < |admins| && i != j ==>
      admins[i].id != admins[j].id && admins[i].username != admins[j].username
      && admins[i].email != admins[j].email
  }

  /** The registry after a call together with the admin the call returns. */
  datatype Saved = Saved(admins: seq<AdminUser>, view: View)

  /**
   * The request of `create` with the two fields the service reads but the
   * backend `CreateAdminDto` does not declare, `username` and `password`,
   * declared: the corrected request.
   */
  datatype NewAdmin = NewAdmin(username: string, email: string, password: string,
                               fullName: Option<string>, role: Option<Role>)

  /** The backend `CreateAdminDto` as declared: email, optional full name and role. */
  datatype CreateAdminDto = CreateAdminDto(email: string, fullName: Option<string>, role: Option<Role>)

  /**
   * `findOne({ where: { <column>: k } })` with `k` possibly undefined:
   * TypeORM drops an undefined property from the where, which then
   * matches the first row of the table.
   */
  function Lookup(admins: seq<AdminUser>, c: Column, k: Option<string>): (o: Option<nat>)
    ensures k.None? ==> (o.Some? <==> |admins| > 0) && (o.Some? ==> o.value == 0)
    ensures k.Some? ==> o == FindBy(admins, c, k.value)
  {
    if k.Some? then FindBy(admins, c, k.value)
    else if |admins| > 0 then Some(0)
    else None
  }

  const UsernameTakenMsg := "Username already exists"
  const EmailTakenMsg := "Email already exists"
  const NotFoundMsg := "Admin not found"
  /** The insert hook hashes only a non-empty password; the NOT NULL hash column then refuses the row. */
  const NoHashMsg := "null value in column \"password_hash\" violates not-null constraint"
  /** An undefined username reaches the NOT NULL `username` column, the first one checked. */
  const NoUsernameMsg := "null value in column \"username\" violates not-null constraint"

  /**
   * `create`: a taken username is refused before a taken email. The role
   * defaults to ADMIN, the password is stored hashed, and the caller gets
   * the sanitised row.
   */
  function Create(admins: seq<AdminUser>, d: NewAdmin, id: string, hash: string -> string): (r: Result<Saved, HttpError>)
    ensures Taken(admins, ByUsername, d.username) ==> r == Err(Conflict(UsernameTakenMsg))
    ensures !Taken(admins, ByUsername, d.username) && Taken(admins, ByEmail, d.email) ==>
              r == Err(Conflict(EmailTakenMsg))
    ensures r.Ok? <==> !Taken(admins, ByUsername, d.username) && !Taken(admins, ByEmail, d.email) && d.password != ""
    ensures r.Ok? ==> |r.value.admins| == |admins| + 1 && r.value.admins[..|admins|] == admins
    ensures r.Ok? ==>
      var a := r.value.admins[|admins|];
      && a.id == id && a.username == d.username && a.email == d.email && a.fullName == d.fullName
      && a.passwordHash == hash(d.password) && a.isActive && a.lastLoginAt.None?
      && a.role == (if d.role.Some? then d.role.value else Admin)
      && r.value.view == Sanitize(a)
  {
    if Taken(admins, ByUsername, d.username) then Err(Conflict(UsernameTakenMsg))
    else if Taken(admins, ByEmail, d.email) then Err(Conflict(EmailTakenMsg))
    else if d.password == "" then Err(ServerError(NoHashMsg))
    else
      var a := AdminUser(id, d.username, d.email, hash(d.password), d.fullName, d.role.GetOr(Admin), true, None);
      assert (admins + [a])[..|admins|] == admins;
      Ok(Saved(admins + [a], Sanitize(a)))
  }

  /**
   * `create` as written, on the request its DTO declares: `username` and
   * `password` read as undefined. The username lookup then matches any
   * row, so a non-empty table is always a username conflict; an empty
   * one passes both lookups and the insert is refused by the NOT NULL
   * username column. No request creates an admin.
   */
  function CreateAsWritten(admins: seq<AdminUser>, d: CreateAdminDto): (r: Result<Saved, HttpError>)
    ensures r.Err?
    ensures |admins| > 0 <==> r == Err(Conflict(UsernameTakenMsg))
    ensures |admins| == 0 ==> r == Err(ServerError(NoUsernameMsg))
  {
    if Lookup(admins, ByUsername, None).Some? then Err(Conflict(UsernameTakenMsg))
    else if Taken(admins, ByEmail, d.email) then Err(Conflict(EmailTakenMsg))
    else Err(ServerError(NoUsernameMsg))
  }

  /**
   * The discrepancy: with the declared DTO the first admin cannot be
   * created and every later request is a username conflict, while the
   * same request with a free username and a password creates the admin.
   */
  lemma DeclaredDtoNeverCreates(d: CreateAdminDto, a: AdminUser, id: string, hash: string -> string)
    requires a.email != d.email && a.username != "root"
    ensures CreateAsWritten([], d) == Err(ServerError(NoUsernameMsg))
    ensures CreateAsWritten([a], d) == Err(Conflict(UsernameTakenMsg))
    ensures Create([a], NewAdmin("root", d.email, "secret", d.fullName, d.role), id, hash).Ok?
  {
    assert !Taken([a], ByUsername, "root") by {
      assert Key([a][0], ByUsername) != "root";
    }
    assert !Taken([a], ByEmail, d.email) by {
      assert Key([a][0], ByEmail) != d.email;
    }
  }

  lemma CreatePreservesValid(admins: seq<AdminUser>, d: NewAdmin, id: string, hash: string -> string)
    requires Valid(admins) && !Taken(admins, ById, id)
    ensures var r := Create(admins, d, id, hash); r.Ok? ==> Valid(r.value.admins)
  {
    var r := Create(admins, d, id, hash);
    if r.Ok? {
      var s := r.value.admins;
      var n := |admins|;
      forall i, j | 0 <= i < |s| && 0 <= j < |s| && i != j
        ensures s[i].id != s[j].id && s[i].username != s[j].username && s[i].email != s[j].email
      {
        if i < n && j < n {
          assert s[i] == admins[i] && s[j] == admins[j];
        } else if i < n {
          assert s[i] == admins[i];
          assert Key(admins[i], ById) != id && Key(admins[i], ByUsername) != d.username;
        } else {
          assert s[j] == admins[j];
          assert Key(admins[j], ById) != id && Key(admins[j], ByUsername) != d.username;
        }
      }
    }
  }

  /**
   * `findAll`: every row, sanitised, under `order: { createdAt: 'DESC' }`.
   * `Create` appends, so the table is in creation order and the newest
   * admin is its last row.
   */
  function FindAll(admins: seq<AdminUser>): (r: seq<View>)
    ensures |r| == |admins|
    ensures forall i :: 0 <= i < |admins| ==> r[i] == Sanitize(admins[|admins| - 1 - i])
  {
    seq(|admins|, i requires 0 <= i < |admins| => Sanitize(admins[|admins| - 1 - i]))
  }

  /** The admin just created heads the listing, followed by the listing as it was. */
  lemma CreatedAdminListedFirst(admins: seq<AdminUser>, d: NewAdmin, id: string, hash: string -> string)
    requires Create(admins, d, id, hash).Ok?
    ensures var r := Create(admins, d, id, hash).value;
            FindAll(r.admins) == [r.view] + FindAll(admins)
  {
    var r := Create(admins, d, id, hash).value;
    var listed := FindAll(r.admins);
    forall i | 0 <= i < |listed| ensures listed[i] == ([r.view] + FindAll(admins))[i] {
      if i > 0 {
        assert r.admins[|r.admins| - 1 - i] == admins[|admins| - 1 - (i - 1)];
      }
    }
  }

  /** `findOne`: the sanitised admin with that id, or NotFound. */
  function FindOne(admins: seq<AdminUser>, id: string): (r: Result<View, HttpError>)
    ensures r.Err? <==> forall i :: 0 <= i < |admins| ==> admins[i].id != id
    ensures r.Err? ==> r.error == NotFound(NotFoundMsg)
    ensures r.Ok? ==> exists i :: 0 <= i < |admins| && admins[i].id == id && r.value == Sanitize(admins[i])
  {
    match FindBy(admins, ById, id)
    case None => Err(NotFound(NotFoundMsg))
    case Some(i) => Ok(Sanitize(admins[i]))
  }

  /** The fields an update may carry; the DTO has no password. */
  datatype AdminPatch = AdminPatch(username: Option<string>, email: Option<string>,
                                   fullName: Option<string>, role: Option<Role>, isActive: Option<bool>)

  /** `Object.assign(admin, dto)`: every field the patch carries overwrites the row's. */
  function Assign(a: AdminUser, p: AdminPatch): AdminUser {
    a.(username := p.username.GetOr(a.username), email := p.email.GetOr(a.email),
       fullName := if p.fullName.Some? then p.fullName else a.fullName,
       role := p.role.GetOr(a.role), isActive := p.isActive.GetOr(a.isActive))
  }

  /** A patch value that the service checks for uniqueness: present, non-empty and different from the current one. */
  predicate Changes(v: Option<string>, current: string) {
    v.Some? && v.value != "" && v.value != current
  }

  /**
   * `update`: NotFound for a missing id; then a new username that another
   * row holds, then a new email that another row holds, are refused. A
   * value equal to the current one is not looked up at all.
   */
  function Update(admins: seq<AdminUser>, id: string, p: AdminPatch): (r: Result<Saved, HttpError>)
    ensures !Taken(admins, ById, id) ==> r == Err(NotFound(NotFoundMsg))
    ensures Taken(admins, ById, id) ==>
      var a := admins[FindBy(admins, ById, id).value];
      && (Changes(p.username, a.username) && Taken(admins, ByUsername, p.username.value) ==>
            r == Err(Conflict(UsernameTakenMsg)))
      && (!(Changes(p.username, a.username) && Taken(admins, ByUsername, p.username.value))
          && Changes(p.email, a.email) && Taken(admins, ByEmail, p.email.value) ==>
            r == Err(Conflict(EmailTakenMsg)))
    ensures r.Ok? <==>
      Taken(admins, ById, id)
      && var a := admins[FindBy(admins, ById, id).value];
         !(Changes(p.username, a.username) && Taken(admins, ByUsername, p.username.value))
         && !(Changes(p.email, a.email) && Taken(admins, ByEmail, p.email.value))
    ensures r.Ok? ==>
      var i := FindBy(admins, ById, id).value;
      && r.value.admins == admins[i := Assign(admins[i], p)]
      && r.value.admins[i].passwordHash == admins[i].passwordHash
      && r.value.admins[i].id == id
      && r.value.view == Sanitize(r.value.admins[i])
  {
    match FindBy(admins, ById, id)
    case None => Err(NotFound(NotFoundMsg))
    case Some(i) =>
      var a := admins[i];
      if Changes(p.username, a.username) && Taken(admins, ByUsername, p.username.value) then
        Err(Conflict(UsernameTakenMsg))
      else if Changes(p.email, a.email) && Taken(admins, ByEmail, p.email.value) then
        Err(Conflict(EmailTakenMsg))
      else
        var a' := Assign(a, p);
        Ok(Saved(admins[i := a'], Sanitize(a')))
  }

  /**
   * Sending back an admin's own username and email never conflicts, even
   * though both are "taken" (by that admin).
   */
  lemma UpdateWithOwnValuesNoConflict(admins: seq<AdminUser>, id: string, p: AdminPatch)
    requires Taken(admins, ById, id)
    requires var a := admins[FindBy(admins, ById, id).value];
             p.username in {None, Some(a.username)} && p.email in {None, Some(a.email)}
    ensures Update(admins, id, p).Ok?
  {
  }

  /** The update DTO's validation rules out empty usernames and emails. */
  predicate PatchWellFormed(p: AdminPatch) {
    p.username != Some("") && p.email != Some("")
  }

  lemma UpdatePreservesValid(admins: seq<AdminUser>, id: string, p: AdminPatch)
    requires Valid(admins) && PatchWellFormed(p)
    ensures var r := Update(admins, id, p); r.Ok? ==> Valid(r.value.admins)
  {
    var r := Update(admins, id, p);
    if r.Ok? {
      var k := FindBy(admins, ById, id).value;
      var s := r.value.admins;
      forall i, j | 0 <= i < |s| && 0 <= j < |s| && i != j
        ensures s[i].id != s[j].id && s[i].username != s[j].username && s[i].email != s[j].email
      {
        if i != k && j != k {
          assert s[i] == admins[i] && s[j] == admins[j];
        } else {
          var o := if i == k then j else i;
          assert s[o] == admins[o];
          assert Key(admins[o], ByUsername) != s[k].username;
          assert Key(admins[o], ByEmail) != s[k].email;
        }
      }
    }
  }

  /** `remove`: NotFound for a missing id, otherwise every other row stays. */
  function Remove(admins: seq<AdminUser>, id: string): (r: Result<seq<AdminUser>, HttpError>)
    ensures r.Err? <==> !Taken(admins, ById, id)
    ensures r.Err? ==> r.error == NotFound(NotFoundMsg)
    ensures r.Ok? ==> forall a :: a in r.value <==> a in admins && a.id != id
  {
    if !Taken(admins, ById, id) then Err(NotFound(NotFoundMsg))
    else Ok(Seqs.Keep(admins, (a: AdminUser) => a.id != id))
  }

  /** `updateLastLogin`: an update by id, which touches nothing when the id is missing. */
  function UpdateLastLogin(admins: seq<AdminUser>, id: string, now: int): (r: seq<AdminUser>)
    ensures |r| == |admins|
    ensures forall i :: 0 <= i < |admins| ==>
      r[i] == if admins[i].id == id then admins[i].(lastLoginAt := Some(now)) else admins[i]
  {
    seq(|admins|, i requires 0 <= i < |admins| =>
      if admins[i].id == id then admins[i].(lastLoginAt := Some(now)) else admins[i])
  }

  /** Stamping the last login changes no key, so uniqueness survives. */
  lemma UpdateLastLoginPreservesValid(admins: seq<AdminUser>, id: string, now: int)
    requires Valid(admins)
    ensures Valid(UpdateLastLogin(admins, id, now))
  {
  }
}

/**
 * The admin registry of the api backend (`AdminService` under
 * `api/backend/`): passwordless accounts, keyed by a unique email, that
 * sign in through magic links.
 */
module ApiAdmins {
  import opened Wrappers
  import Seqs
  import Admins

  type Role = Admins.Role

  datatype AdminUser = AdminUser(
    id: string,
    email: string,
    fullName: Option<string>,
    role: Role,
    isActive: bool,
    lastLoginAt: Option<int>)

  /** `findOne({ where: { id } })`. */
  function FindById(admins: seq<AdminUser>, id: string): (o: Option<nat>)
    ensures o.Some? ==> o.value < |admins| && admins[o.value].id == id
    ensures o.None? <==> forall i :: 0 <= i < |admins| ==> admins[i].id != id
    decreases |admins|
  {
    if |admins| == 0 then None
    else if admins[0].id == id then Some(0)
    else
      match FindById(admins[1..], id)
      case None => None
      case Some(i) => Some(i + 1)
  }

  /** `findByEmail`: the first row with that email. */
  function FindByEmail(admins: seq<AdminUser>, email: string): (o: Option<nat>)
    ensures o.Some? ==> o.value < |admins| && admins[o.value].email == email
    ensures o.None? <==> forall i :: 0 <= i < |admins| ==> admins[i].email != email
    decreases |admins|
  {
    if |admins| == 0 then None
    else if admins[0].email == email then Some(0)
    else
      match FindByEmail(admins[1..], email)
      case None => None
      case Some(i) => Some(i + 1)
  }

  /** Primary key and `email` are unique columns. */
  predicate Valid(admins: seq<AdminUser>) {
    forall i, j :: 0 <= i < |admins| && 0 <= j < |admins| && i != j ==>
      admins[i].id != admins[j].id && admins[i].email != admins[j].email
  }

  datatype NewAdmin = NewAdmin(email: string, fullName: Option<string>, role: Option<Role>)

  /** `create`: a taken email is refused; the role defaults to ADMIN; the saved row is returned as is. */
  function Create(admins: seq<AdminUser>, d: NewAdmin, id: string): (r: Result<seq<AdminUser>, HttpError>)
    ensures r.Err? <==> FindByEmail(admins, d.email).Some?
    ensures r.Err? ==> r.error == Conflict(Admins.EmailTakenMsg)
    ensures r.Ok? ==>
      && |r.value| == |admins| + 1 && r.value[..|admins|] == admins
      && r.value[|admins|] == AdminUser(id, d.email, d.fullName,
                                        if d.role.Some? then d.role.value else Admins.Admin, true, None)
  {
    if FindByEmail(admins, d.email).Some? then Err(Conflict(Admins.EmailTakenMsg))
    else
      var a := AdminUser(id, d.email, d.fullName, d.role.GetOr(Admins.Admin), true, None);
      assert (admins + [a])[..|admins|] == admins;
      Ok(admins + [a])
  }

  lemma CreatePreservesValid(admins: seq<AdminUser>, d: NewAdmin, id: string)
    requires Valid(admins) && FindById(admins, id).None?
    ensures var r := Create(admins, d, id); r.Ok? ==> Valid(r.value)
  {
    var r := Create(admins, d, id);
    if r.Ok? {
      var s := r.value;
      var n := |admins|;
      forall i, j | 0 <= i < |s| && 0 <= j < |s| && i != j
        ensures s[i].id != s[j].id && s[i].email != s[j].email
      {
        if i < n {
          assert s[i] == admins[i];
        }
        if j < n {
          assert s[j] == admins[j];
        }
      }
    }
  }

  /** `findOne`: the admin with that id, or NotFound. */
  function FindOne(admins: seq<AdminUser>, id: string): (r: Result<AdminUser, HttpError>)
    ensures r.Err? <==> forall i :: 0 <= i < |admins| ==> admins[i].id != id
    ensures r.Err? ==> r.error == NotFound(Admins.NotFoundMsg)
    ensures r.Ok? ==> r.value in admins && r.value.id == id
  {
    match FindById(admins, id)
    case None => Err(NotFound(Admins.NotFoundMsg))
    case Some(i) => Ok(admins[i])
  }

  datatype AdminPatch = AdminPatch(email: Option<string>, fullName: Option<string>,
                                   role: Option<Role>, isActive: Option<bool>)

  /** `Object.assign(admin, dto)`. */
  function Assign(a: AdminUser, p: AdminPatch): AdminUser {
    a.(email := p.email.GetOr(a.email), fullName := if p.fullName.Some? then p.fullName else a.fullName,
       role := p.role.GetOr(a.role), isActive := p.isActive.GetOr(a.isActive))
  }

  /** `update`: NotFound for a missing id; a new email another row holds is refused; an unchanged one is not looked up. */
  function Update(admins: seq<AdminUser>, id: string, p: AdminPatch): (r: Result<seq<AdminUser>, HttpError>)
    ensures FindById(admins, id).None? ==> r == Err(NotFound(Admins.NotFoundMsg))
    ensures r.Ok? <==>
      FindById(admins, id).Some?
      && !(Admins.Changes(p.email, admins[FindById(admins, id).value].email)
           && FindByEmail(admins, p.email.value).Some?)
    ensures r.Err? && FindById(admins, id).Some? ==> r.error == Conflict(Admins.EmailTakenMsg)
    ensures r.Ok? ==>
      var i := FindById(admins, id).value;
      r.value == admins[i := Assign(admins[i], p)]
  {
    match FindById(admins, id)
    case None => Err(NotFound(Admins.NotFoundMsg))
    case Some(i) =>
      if Admins.Changes(p.email, admins[i].email) && FindByEmail(admins, p.email.value).Some? then
        Err(Conflict(Admins.EmailTakenMsg))
      else Ok(admins[i := Assign(admins[i], p)])
  }

  lemma UpdatePreservesValid(admins: seq<AdminUser>, id: string, p: AdminPatch)
    requires Valid(admins) && p.email != Some("")
    ensures var r := Update(admins, id, p); r.Ok? ==> Valid(r.value)
  {
    var r := Update(admins, id, p);
    if r.Ok? {
      var k := FindById(admins, id).value;
      var s := r.value;
      forall i, j | 0 <= i < |s| && 0 <= j < |s| && i != j
        ensures s[i].id != s[j].id && s[i].email != s[j].email
      {
        if i != k && j != k {
          assert s[i] == admins[i] && s[j] == admins[j];
        } else {
          var o := if i == k then j else i;
          assert s[o] == admins[o];
        }
      }
    }
  }

  /** `remove`: NotFound for a missing id, otherwise every other row stays. */
  function Remove(admins: seq<AdminUser>, id: string): (r: Result<seq<AdminUser>, HttpError>)
    ensures r.Err? <==> FindById(admins, id).None?
    ensures r.Err? ==> r.error == NotFound(Admins.NotFoundMsg)
    ensures r.Ok? ==> forall a :: a in r.value <==> a in admins && a.id != id
  {
    if FindById(admins, id).None? then Err(NotFound(Admins.NotFoundMsg))
    else Ok(Seqs.Keep(admins, (a: AdminUser) => a.id != id))
  }

  /** `updateLastLogin`. */
  function UpdateLastLogin(admins: seq<AdminUser>, id: string, now: int): (r: seq<AdminUser>)
    ensures |r| == |admins|
    ensures forall i :: 0 <= i < |admins| ==>
      r[i] == if admins[i].id == id then admins[i].(lastLoginAt := Some(now)) else admins[i]
  {
    seq(|admins|, i requires 0 <= i < |admins| =>
      if admins[i].id == id then admins[i].(lastLoginAt := Some(now)) else admins[i])
  }
}
