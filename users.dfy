/** The user service: accounts with a unique e-mail at creation, a hashed
    password and a role, the filtered and paginated listing, and lookup,
    update and removal by id. */
module Users {
  import opened Common
  import opened Pagination

  /** The two roles of `UserRole`. */
  datatype Role = Admin | User

  /** A bcrypt digest, modelled by the secret it was computed from: hashing is
      injective and a digest is never equal to a plain string. */
  datatype PasswordHash = Bcrypt(secret: string)

  /** `bcrypt.hash(plain, 10)`. */
  function Hash(plain: string): (h: PasswordHash)
  {
    Bcrypt(plain)
  }

  /** `bcrypt.compare(plain, hash)`. */
  predicate Compare(plain: string, h: PasswordHash)
  {
    h.secret == plain
  }

  /** A password matches exactly the digest made from it. */
  lemma CompareIffHashOf(plain: string, h: PasswordHash)
    ensures Compare(plain, h) <==> h == Hash(plain)
  {
  }

  /** A row of `users`. */
  datatype UserRow = UserRow(
    id: int,
    email: string,
    firstName: string,
    lastName: string,
    password: PasswordHash,
    role: Role,
    isActive: bool,
    createdAt: int)

  /** The body of a new account; `role` may be absent. */
  datatype NewUser = NewUser(
    email: string,
    firstName: string,
    lastName: string,
    password: string,
    role: Option<Role>)

  /** The partial body of an update: the fields present overwrite the row's. */
  datatype UserPatch = UserPatch(
    email: Option<string>,
    firstName: Option<string>,
    lastName: Option<string>,
    role: Option<Role>,
    isActive: Option<bool>)

  /** The query string of the listing. */
  datatype UserFilter = UserFilter(
    page: Option<int>,
    limit: Option<int>,
    sortBy: Option<string>,
    sortOrder: Option<string>,
    role: Option<Role>,
    isActive: Option<bool>,
    search: Option<string>)

  /** A listed row: the selected columns, without the password. */
  datatype UserSummary = UserSummary(
    id: int,
    email: string,
    firstName: string,
    lastName: string,
    role: Role,
    isActive: bool,
    createdAt: int)

  datatype UserMeta = UserMeta(total: nat, page: int, limit: int, totalPages: nat)

  /** The listing page, its metadata and the `orderBy(column, direction)` the query carried. */
  datatype UserListing = UserListing(data: seq<UserSummary>, meta: UserMeta, orderBy: (string, string))

  /** Defaults of the listing: page 1, 10 rows, newest first. */
  const DefaultSortBy: string := "createdAt"
  const DefaultSortOrder: string := "DESC"

  /** A new account is active. */
  const NewUserActive: bool := true

  function Summary(u: UserRow): (s: UserSummary)
  {
    UserSummary(u.id, u.email, u.firstName, u.lastName, u.role, u.isActive, u.createdAt)
  }

  function Summaries(rows: seq<UserRow>): (r: seq<UserSummary>)
    ensures |r| == |rows|
    ensures forall i :: 0 <= i < |rows| ==> r[i] == Summary(rows[i])
  {
    seq(|rows|, i requires 0 <= i < |rows| => Summary(rows[i]))
  }

  /** Reference definition of the listing's filter: every supplied criterion
      holds. `isActive` is applied whenever present, `false` included; `search`
      only when non-empty. */
  predicate UserMatches(f: UserFilter, u: UserRow)
  {
    (f.role.Some? ==> u.role == f.role.value)
    && (f.isActive.Some? ==> u.isActive == f.isActive.value)
    && (f.search.Some? && f.search.value != "" ==>
          ILike(u.email, f.search.value) || ILike(u.firstName, f.search.value) || ILike(u.lastName, f.search.value))
  }

  /** A filter asking for inactive accounts keeps no active one. */
  lemma InactiveFilterExcludesActive(f: UserFilter, u: UserRow)
    requires f.isActive == Some(false) && u.isActive
    ensures !UserMatches(f, u)
  {
  }

  /** The rows with the given ids that satisfy the filter, in the order of `ids`. */
  function Select(table: map<int, UserRow>, ids: seq<int>, f: UserFilter, k: nat): seq<UserRow>
    requires k <= |ids|
    requires forall i :: 0 <= i < |ids| ==> ids[i] in table
  {
    if k == 0 then []
    else
      var rest := Select(table, ids, f, k - 1);
      var row := table[ids[k - 1]];
      if UserMatches(f, row) then rest + [row] else rest
  }

  /** All rows that satisfy the filter, by ascending id. */
  ghost function Matching(table: map<int, UserRow>, f: UserFilter): seq<UserRow>
  {
    var ids := Ascending(table.Keys);
    Select(table, ids, f, |ids|)
  }

  lemma {:induction false} SelectMembers(table: map<int, UserRow>, ids: seq<int>, f: UserFilter, k: nat, u: UserRow)
    requires k <= |ids|
    requires forall i :: 0 <= i < |ids| ==> ids[i] in table
    ensures u in Select(table, ids, f, k) <==>
      UserMatches(f, u) && exists i :: 0 <= i < k && table[ids[i]] == u
  {
    if k > 0 {
      SelectMembers(table, ids, f, k - 1, u);
      if exists i :: 0 <= i < k && table[ids[i]] == u {
        var i :| 0 <= i < k && table[ids[i]] == u;
        if i < k - 1 {
          assert exists j :: 0 <= j < k - 1 && table[ids[j]] == u;
        }
      }
    }
  }

  /** Every listed row is a matching row of the table, and every matching row is listed. */
  lemma MatchingSoundAndComplete(table: map<int, UserRow>, f: UserFilter, u: UserRow)
    ensures u in Matching(table, f) <==> UserMatches(f, u) && exists id :: id in table && table[id] == u
  {
    var ids := Ascending(table.Keys);
    SelectMembers(table, ids, f, |ids|, u);
    if exists id :: id in table && table[id] == u {
      var id :| id in table && table[id] == u;
      assert id in ids;
      var i :| 0 <= i < |ids| && ids[i] == id;
      assert table[ids[i]] == u;
    }
  }

  /** `Object.assign(user, dto)`: the fields present in the patch replace the row's. */
  function Patched(u: UserRow, p: UserPatch): UserRow
  {
    u.(
      email := if p.email.Some? then p.email.value else u.email,
      firstName := if p.firstName.Some? then p.firstName.value else u.firstName,
      lastName := if p.lastName.Some? then p.lastName.value else u.lastName,
      role := if p.role.Some? then p.role.value else u.role,
      isActive := if p.isActive.Some? then p.isActive.value else u.isActive)
  }

  /** An update never touches the id, the password or the creation instant,
      and applying it twice changes nothing more. */
  lemma PatchedKeepsIdentity(u: UserRow, p: UserPatch)
    ensures Patched(u, p).id == u.id && Patched(u, p).password == u.password
    ensures Patched(u, p).createdAt == u.createdAt
    ensures Patched(Patched(u, p), p) == Patched(u, p)
  {
  }

  /** An update may give a user the e-mail of another: no uniqueness check is made. */
  lemma PatchCanDuplicateEmail(a: UserRow, b: UserRow)
    requires a.email != b.email
    ensures Patched(a, UserPatch(Some(b.email), None, None, None, None)).email == b.email
  {
  }

  class UsersService {
    var table: map<int, UserRow>
    var nextId: int

    /** Rows are keyed by their own id, and ids below `nextId` have been handed out. */
    ghost predicate Valid()
      reads this
    {
      nextId >= 1 && forall id :: id in table ==> table[id].id == id && 1 <= id < nextId
    }

    /** No two users share an e-mail. */
    ghost predicate EmailsUnique()
      reads this
    {
      forall a, b :: a in table && b in table && table[a].email == table[b].email ==> a == b
    }

    ghost predicate EmailTaken(email: string)
      reads this
    {
      exists id :: id in table && table[id].email == email
    }

    constructor()
      ensures Valid() && EmailsUnique() && table == map[] && nextId == 1
    {
      table := map[];
      nextId := 1;
    }

    /** `findByEmail`: some user with that e-mail, or none; it never fails. */
    method FindByEmail(email: string) returns (r: Option<UserRow>)
      requires Valid()
      ensures r.Some? ==> r.value.email == email && r.value.id in table && table[r.value.id] == r.value
      ensures r.None? <==> !EmailTaken(email)
    {
      if exists id :: id in table && table[id].email == email {
        var id :| id in table && table[id].email == email;
        r := Some(table[id]);
      } else {
        r := None;
      }
    }

    /** `create`: a taken e-mail is a Conflict; otherwise one new row with the
        hashed password and the requested role, USER by default. */
    method Create(dto: NewUser, now: int) returns (r: Result<UserRow>)
      requires Valid()
      modifies this
      ensures Valid()
      ensures old(EmailTaken(dto.email)) ==>
        r == Err(Conflict("Email already exists")) && table == old(table) && nextId == old(nextId)
      ensures !old(EmailTaken(dto.email)) ==>
        r.Ok? && r.value.id == old(nextId) && r.value.id !in old(table)
        && table == old(table)[r.value.id := r.value] && nextId == old(nextId) + 1
      ensures r.Ok? ==>
        r.value.email == dto.email && r.value.firstName == dto.firstName && r.value.lastName == dto.lastName
        && r.value.password == Hash(dto.password)
        && r.value.role == (if dto.role.Some? then dto.role.value else User)
        && r.value.isActive == NewUserActive && r.value.createdAt == now
      ensures old(EmailsUnique()) ==> EmailsUnique()
    {
      var existing := FindByEmail(dto.email);
      if existing.Some? {
        return Err(Conflict("Email already exists"));
      }
      var hashed := Hash(dto.password);
      var role := if dto.role.Some? then dto.role.value else User;
      var row := UserRow(nextId, dto.email, dto.firstName, dto.lastName, hashed, role, NewUserActive, now);
      table := table[nextId := row];
      nextId := nextId + 1;
      r := Ok(row);
    }

    /** `findAll`: the requested page of matching users without their passwords. */
    method FindAll(f: UserFilter) returns (r: UserListing)
      requires Valid()
      requires OrDefault(f.page, 1) >= 1 && OrDefault(f.limit, 10) >= 1
      ensures
        var page, limit := OrDefault(f.page, 1), OrDefault(f.limit, 10);
        var rows := Matching(table, f);
        r.data == Summaries(PageOf(rows, page, limit))
        && r.meta == UserMeta(|rows|, page, limit, CeilDiv(|rows|, limit))
      ensures r.orderBy ==
        ("user." + (if f.sortBy.Some? then f.sortBy.value else DefaultSortBy),
         if f.sortOrder.Some? then f.sortOrder.value else DefaultSortOrder)
    {
      var page := if f.page.Some? then f.page.value else 1;
      var limit := if f.limit.Some? then f.limit.value else 10;
      var sortBy := if f.sortBy.Some? then f.sortBy.value else DefaultSortBy;
      var sortOrder := if f.sortOrder.Some? then f.sortOrder.value else DefaultSortOrder;
      var rows := RunQuery(f);
      MulNonNegative(page - 1, limit);
      var skip := (page - 1) * limit;
      var meta := UserMeta(|rows|, page, limit, CeilDiv(|rows|, limit));
      r := UserListing(Summaries(Window(rows, skip, limit)), meta, ("user." + sortBy, sortOrder));
    }

    /** `getManyAndCount` before the window: every user satisfying the filter, by ascending id. */
    method RunQuery(f: UserFilter) returns (rows: seq<UserRow>)
      ensures rows == Matching(table, f)
    {
      var ids := AscendingKeys(table);
      rows := [];
      for i := 0 to |ids|
        invariant rows == Select(table, ids, f, i)
      {
        var row := table[ids[i]];
        if UserMatches(f, row) {
          rows := rows + [row];
        }
      }
    }

    /** `findOne`: the user with that id, or NotFound. */
    function FindOne(id: int): (r: Result<UserRow>)
      reads this
      ensures r.Ok? <==> id in table
      ensures r.Ok? ==> r.value == table[id]
      ensures r.Err? ==> r.error == NotFound("User not found")
    {
      if id in table then Ok(table[id]) else Err(NotFound("User not found"))
    }

    /** `validatePassword`. */
    function ValidatePassword(plain: string, hashed: PasswordHash): (ok: bool)
      ensures ok <==> hashed == Hash(plain)
    {
      CompareIffHashOf(plain, hashed);
      Compare(plain, hashed)
    }

    /** `updatePassword`: only that user's password changes, to the digest of the new one. */
    method UpdatePassword(id: int, newPassword: string) returns (r: Result<()>)
      requires Valid()
      modifies this
      ensures Valid() && nextId == old(nextId)
      ensures id !in old(table) ==> r == Err(NotFound("User not found")) && table == old(table)
      ensures id in old(table) ==>
        r == Ok(()) && table == old(table)[id := old(table)[id].(password := Hash(newPassword))]
      ensures old(EmailsUnique()) ==> EmailsUnique()
    {
      var found := FindOne(id);
      if found.Err? {
        return Err(found.error);
      }
      var user := found.value.(password := Hash(newPassword));
      table := table[id := user];
      r := Ok(());
    }

    /** `update`: the present fields of the patch overwrite the row; other rows are kept. */
    method Update(id: int, p: UserPatch) returns (r: Result<UserRow>)
      requires Valid()
      modifies this
      ensures Valid() && nextId == old(nextId)
      ensures id !in old(table) ==> r == Err(NotFound("User not found")) && table == old(table)
      ensures id in old(table) ==> r == Ok(Patched(old(table)[id], p)) && table == old(table)[id := r.value]
    {
      var found := FindOne(id);
      if found.Err? {
        return Err(found.error);
      }
      var user := Patched(found.value, p);
      table := table[id := user];
      r := Ok(user);
    }

    /** `remove`: deletes the user, or NotFound with the table unchanged. */
    method Remove(id: int) returns (r: Result<()>)
      requires Valid()
      modifies this
      ensures Valid() && nextId == old(nextId)
      ensures id !in old(table) ==> r == Err(NotFound("User not found")) && table == old(table)
      ensures id in old(table) ==> r == Ok(()) && table == old(table) - {id}
      ensures old(EmailsUnique()) ==> EmailsUnique()
    {
      var found := FindOne(id);
      if found.Err? {
        return Err(found.error);
      }
      table := table - {id};
      r := Ok(());
    }
  }
}
