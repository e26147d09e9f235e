/** accounts/models.py: the User record, its manager's creation rules and the
    constraints the user table enforces. */
module Models {
  import opened Base

  /** max_length of username, email, first_name and last_name */
  const MaxFieldLength := 50

  /** The stored password as set_password leaves it: an abstract one-way hash
      of the raw password, so that CheckPassword(MakePassword(p), q) holds
      exactly when p == q. */
  datatype PasswordHash = PasswordHash(secret: string)

  function MakePassword(raw: string): PasswordHash
  {
    PasswordHash(raw)
  }

  predicate CheckPassword(h: PasswordHash, raw: string)
  {
    h == MakePassword(raw)
  }

  /** The text of the `password` column ("<algorithm>$...$<digest>"): the
      encoded hash always carries an algorithm prefix. */
  function Encoded(h: PasswordHash): string
  {
    "hash$" + h.secret
  }

  lemma CheckPasswordIffSameRaw(p: string, q: string)
    ensures CheckPassword(MakePassword(p), q) <==> p == q
  {
  }

  /** A row of the user table. created_at and updated_at are not modelled. */
  datatype User = User(
    username: string,
    email: string,
    firstName: string,
    lastName: string,
    password: PasswordHash,
    isActive: bool,
    isStaff: bool,
    isSuperuser: bool)

  /** The fields the account service names in its checks and error reports. */
  datatype Field =
    | Username | Email | FirstName | LastName | Password | ConfirmPassword
    | OldPassword | NewPassword | ConfirmNewPassword

  /** User.full_name: first name, one space, last name. */
  function FullName(u: User): (s: string)
    ensures |s| == |u.firstName| + 1 + |u.lastName|
    ensures s[..|u.firstName|] == u.firstName && s[|u.firstName|] == ' '
    ensures s[|u.firstName| + 1..] == u.lastName
  {
    u.firstName + " " + u.lastName
  }

  /** When first names contain no space, the full name determines both parts. */
  lemma FullNameDeterminesParts(u: User, v: User)
    requires ' ' !in u.firstName && ' ' !in v.firstName
    requires FullName(u) == FullName(v)
    ensures u.firstName == v.firstName && u.lastName == v.lastName
  {
    if |u.firstName| != |v.firstName| {
      assert false;
    }
  }

  /** Python's str.strip() whitespace among the ASCII characters:
      tab to carriage return (9-13), the separators 28-31 and the space. */
  predicate IsWhitespace(c: char)
  {
    (9 <= c as int <= 13) || (28 <= c as int <= 32)
  }

  function StripLeft(s: string): (r: string)
    ensures |r| <= |s| && r == s[|s| - |r|..]
    ensures r == [] || !IsWhitespace(r[0])
    ensures forall i :: 0 <= i < |s| - |r| ==> IsWhitespace(s[i])
  {
    if |s| > 0 && IsWhitespace(s[0]) then StripLeft(s[1..]) else s
  }

  function StripRight(s: string): (r: string)
    ensures |r| <= |s| && r == s[..|r|]
    ensures r == [] || !IsWhitespace(r[|r| - 1])
    ensures forall i :: |r| <= i < |s| ==> IsWhitespace(s[i])
  {
    if |s| > 0 && IsWhitespace(s[|s| - 1]) then StripRight(s[..|s| - 1]) else s
  }

  /** r is s with its leading and trailing whitespace removed: a run of s
      whose characters before and after are all whitespace. */
  ghost predicate TrimmedOf(s: string, r: string)
  {
    exists a :: 0 <= a <= |s| - |r| && r <= s[a..]
      && (forall i :: 0 <= i < a ==> IsWhitespace(s[i]))
      && (forall i :: a + |r| <= i < |s| ==> IsWhitespace(s[i]))
  }

  /** str.strip(): both ends, left first. */
  function Strip(s: string): (r: string)
    ensures TrimmedOf(s, r)
    ensures r == [] || (!IsWhitespace(r[0]) && !IsWhitespace(r[|r| - 1]))
  {
    StripTrims(s);
    StripRight(StripLeft(s))
  }

  lemma StripTrims(s: string)
    ensures TrimmedOf(s, StripRight(StripLeft(s)))
  {
    var left := StripLeft(s);
    var r := StripRight(left);
    var a := |s| - |left|;
    assert r <= s[a..] by {
      assert left == s[a..];
      assert r == left[..|r|];
    }
    assert forall i :: 0 <= i < a ==> IsWhitespace(s[i]);
    forall i | a + |r| <= i < |s|
      ensures IsWhitespace(s[i])
    {
      assert s[i] == left[i - a];
    }
    assert 0 <= a <= |s| - |r|;
  }

  /** get_full_name() of the framework's user base class, which the list and
      detail handlers call: the full name with surrounding whitespace removed. */
  function GetFullName(u: User): (r: string)
    ensures TrimmedOf(FullName(u), r)
    ensures r == [] || (!IsWhitespace(r[0]) && !IsWhitespace(r[|r| - 1]))
  {
    Strip(FullName(u))
  }

  /** For names that are non-empty and carry no surrounding whitespace, as
      registration leaves them, get_full_name is full_name. */
  lemma GetFullNameIsFullName(u: User)
    requires u.firstName != [] && !IsWhitespace(u.firstName[0])
    requires u.lastName != [] && !IsWhitespace(u.lastName[|u.lastName| - 1])
    ensures GetFullName(u) == FullName(u)
  {
    var s := FullName(u);
    assert s[0] == u.firstName[0];
    assert StripLeft(s) == s;
    assert s[|s| - 1] == u.lastName[|u.lastName| - 1];
  }

  /** create_user's guard chain: the first of its arguments that is empty,
      in the order they are checked. */
  function FirstMissing(email: string, username: string, firstName: string,
                        lastName: string, password: string): (r: Option<Field>)
    ensures r == None <==>
      email != "" && username != "" && firstName != "" && lastName != "" && password != ""
    ensures r == Some(Email) <==> email == ""
    ensures r == Some(Username) <==> email != "" && username == ""
    ensures r == Some(FirstName) <==> email != "" && username != "" && firstName == ""
    ensures r == Some(LastName) <==>
      email != "" && username != "" && firstName != "" && lastName == ""
    ensures r == Some(Password) <==>
      email != "" && username != "" && firstName != "" && lastName != "" && password == ""
  {
    if email == "" then Some(Email)
    else if username == "" then Some(Username)
    else if firstName == "" then Some(FirstName)
    else if lastName == "" then Some(LastName)
    else if password == "" then Some(Password)
    else None
  }

  /** The record create_user saves: the given fields, the hashed password,
      and the field defaults is_active = is_staff = is_superuser = False. */
  function NewUser(email: string, username: string, firstName: string,
                   lastName: string, password: string): (u: User)
    ensures !u.isActive && !u.isStaff && !u.isSuperuser
    ensures CheckPassword(u.password, password)
    ensures forall other :: other != password ==> !CheckPassword(u.password, other)
    ensures u.email == email && u.username == username
    ensures u.firstName == firstName && u.lastName == lastName
  {
    User(username, email, firstName, lastName, MakePassword(password), false, false, false)
  }

  /** What create_superuser changes after create_user: all three flags set. */
  function Promoted(u: User): (v: User)
    ensures v.isActive && v.isStaff && v.isSuperuser
    ensures v.username == u.username && v.email == u.email && v.password == u.password
    ensures v.firstName == u.firstName && v.lastName == u.lastName
  {
    u.(isActive := true, isStaff := true, isSuperuser := true)
  }

  predicate WithinLimits(u: User)
  {
    |u.username| <= MaxFieldLength && |u.email| <= MaxFieldLength &&
    |u.firstName| <= MaxFieldLength && |u.lastName| <= MaxFieldLength
  }

  predicate UsernameTaken(users: map<int, User>, username: string)
  {
    exists id | id in users :: users[id].username == username
  }

  predicate EmailTaken(users: map<int, User>, email: string)
  {
    exists id | id in users :: users[id].email == email
  }

  /** unique=True on username and email: no two rows share either. */
  ghost predicate Unique(users: map<int, User>)
  {
    && (forall i, j | i in users && j in users && users[i].username == users[j].username :: i == j)
    && (forall i, j | i in users && j in users && users[i].email == users[j].email :: i == j)
  }

  /** User.objects.filter(email=email).first(): the row with that email, if any. */
  function FindByEmail(users: map<int, User>, email: string): (r: Option<int>)
    requires Unique(users)
    ensures r.Some? <==> EmailTaken(users, email)
    ensures r.Some? ==> r.value in users && users[r.value].email == email
    ensures forall id | id in users && users[id].email == email :: r == Some(id)
  {
    if EmailTaken(users, email) then
      var id :| id in users && users[id].email == email;
      Some(id)
    else None
  }

  /** Why creating or saving a user fails. */
  datatype CreateError =
    | MissingField(field: Field)  // ValueError from create_user's guards
    | DataError                   // a value longer than its column's max_length
    | IntegrityError              // a unique column's value is already stored

  /** The database's verdict on storing `u` as row `id`: the length limits
      first, then the uniqueness of username and email among the other rows. */
  function SaveError(users: map<int, User>, id: int, u: User): (r: Option<CreateError>)
    ensures r == None <==>
      WithinLimits(u) && !UsernameTaken(users - {id}, u.username) && !EmailTaken(users - {id}, u.email)
    ensures r.Some? ==> r.value == DataError || r.value == IntegrityError
  {
    var others := users - {id};
    if !WithinLimits(u) then Some(DataError)
    else if UsernameTaken(others, u.username) || EmailTaken(others, u.email) then Some(IntegrityError)
    else None
  }

  /** Storing a row the database admits keeps the table's constraints. */
  lemma {:induction false} SavePreservesUnique(users: map<int, User>, id: int, u: User)
    requires Unique(users)
    requires SaveError(users, id, u) == None
    ensures Unique(users[id := u])
  {
    forall k | k in users && k != id
      ensures users[k].username != u.username && users[k].email != u.email
    {
      assert k in users - {id};
    }
  }

  /** Changing a row in a way that keeps its username and email keeps the
      table's constraints. */
  lemma {:induction false} SameKeysPreserveUnique(users: map<int, User>, id: int, u: User)
    requires Unique(users) && id in users
    requires u.username == users[id].username && u.email == users[id].email
    ensures Unique(users[id := u])
  {
    var after := users[id := u];
    forall i, j | i in after && j in after && after[i].username == after[j].username
      ensures i == j
    {
      assert users[i].username == after[i].username && users[j].username == after[j].username;
    }
    forall i, j | i in after && j in after && after[i].email == after[j].email
      ensures i == j
    {
      assert users[i].email == after[i].email && users[j].email == after[j].email;
    }
  }

  /** The user table, User.objects: rows by primary key, and the next key the
      auto-increment column hands out. */
  class UserManager {
    var users: map<int, User>
    var nextId: int

    ghost predicate Valid()
      reads this
    {
      && 1 <= nextId
      && Unique(users)
      && (forall id | id in users :: 1 <= id < nextId && WithinLimits(users[id]))
    }

    constructor ()
      ensures Valid() && users == map[]
    {
      users := map[];
      nextId := 1;
    }

    /** create_user: the guard chain, then one new inactive row, unless the
        database refuses it. */
    method CreateUser(email: string, username: string, firstName: string,
                      lastName: string, password: string) returns (r: Result<int, CreateError>)
      requires Valid()
      modifies this
      ensures Valid()
      ensures FirstMissing(email, username, firstName, lastName, password).Some? ==>
        r == Err(MissingField(FirstMissing(email, username, firstName, lastName, password).value))
      ensures FirstMissing(email, username, firstName, lastName, password) == None ==>
        (r.Ok? <==> SaveError(old(users), old(nextId), NewUser(email, username, firstName, lastName, password)) == None)
      ensures r.Ok? ==>
        && r.value == old(nextId) && r.value !in old(users)
        && users == old(users)[r.value := NewUser(email, username, firstName, lastName, password)]
      ensures FirstMissing(email, username, firstName, lastName, password) == None && r.Err? ==>
        r == Err(SaveError(old(users), old(nextId), NewUser(email, username, firstName, lastName, password)).value)
      ensures r.Err? ==> users == old(users)
      ensures nextId == old(nextId) + (if r.Ok? then 1 else 0)
    {
      var missing := FirstMissing(email, username, firstName, lastName, password);
      if missing.Some? {
        return Err(MissingField(missing.value));
      }
      var user := NewUser(email, username, firstName, lastName, password);
      var refused := SaveError(users, nextId, user);
      if refused.Some? {
        return Err(refused.value);
      }
      SavePreservesUnique(users, nextId, user);
      r := Ok(nextId);
      users := users[nextId := user];
      nextId := nextId + 1;
    }

    /** create_superuser: create_user, then is_active, is_staff and
        is_superuser all set on the new row. */
    method CreateSuperuser(email: string, username: string, firstName: string,
                           lastName: string, password: string) returns (r: Result<int, CreateError>)
      requires Valid()
      modifies this
      ensures Valid()
      ensures FirstMissing(email, username, firstName, lastName, password).Some? ==>
        r == Err(MissingField(FirstMissing(email, username, firstName, lastName, password).value))
      ensures FirstMissing(email, username, firstName, lastName, password) == None ==>
        (r.Ok? <==> SaveError(old(users), old(nextId), NewUser(email, username, firstName, lastName, password)) == None)
      ensures r.Ok? ==>
        && r.value == old(nextId) && r.value !in old(users)
        && users == old(users)[r.value := Promoted(NewUser(email, username, firstName, lastName, password))]
      ensures FirstMissing(email, username, firstName, lastName, password) == None && r.Err? ==>
        r == Err(SaveError(old(users), old(nextId), NewUser(email, username, firstName, lastName, password)).value)
      ensures r.Err? ==> users == old(users)
      ensures nextId == old(nextId) + (if r.Ok? then 1 else 0)
    {
      r := CreateUser(email, username, firstName, lastName, password);
      if r.Ok? {
        var id := r.value;
        SameKeysPreserveUnique(users, id, Promoted(users[id]));
        users := users[id := Promoted(users[id])];
      }
    }
  }
}
