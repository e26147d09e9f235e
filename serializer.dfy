/** accounts/serializer.py: the registration, login and password-change
    validators, the password policy they share, and the user serializer's
    output and update. */
module Serializers {
  import opened Base
  import opened Models

  /* ---------------------------------------------------------------------
     The password pattern ^(?=.*[A-Z])(?=.*\d)(?=.*[@$!%*?&])[A-Za-z\d@$!%*?&]{8,}$
     ------------------------------------------------------------------- */

  predicate IsUpper(c: char) { 'A' <= c <= 'Z' }
  predicate IsLower(c: char) { 'a' <= c <= 'z' }
  predicate IsDigit(c: char) { '0' <= c <= '9' }
  predicate IsSpecial(c: char)
  {
    c == '@' || c == '$' || c == '!' || c == '%' || c == '*' || c == '?' || c == '&'
  }

  /** [A-Za-z\d@$!%*?&] */
  predicate InPasswordClass(c: char)
  {
    IsUpper(c) || IsLower(c) || IsDigit(c) || IsSpecial(c)
  }

  /** The lookahead (?=.*X) tried at the start of s: `.` does not match a
      newline, so some character of class X must come before any newline. */
  predicate LookaheadFinds(s: string, x: char -> bool)
    decreases |s|
  {
    |s| > 0 && (x(s[0]) || (s[0] != '\n' && LookaheadFinds(s[1..], x)))
  }

  /** [A-Za-z\d@$!%*?&]* consuming all of s. */
  predicate ClassRun(s: string)
    decreases |s|
  {
    |s| == 0 || (InPasswordClass(s[0]) && ClassRun(s[1..]))
  }

  /** `$` without MULTILINE matches at the end of s, or just before a newline
      that ends s. */
  predicate EndAnchorAt(s: string, k: nat)
  {
    k == |s| || (k + 1 == |s| && s[k] == '\n')
  }

  /** The three lookaheads: an upper-case letter, a digit, a special character. */
  predicate Lookaheads(s: string)
  {
    LookaheadFinds(s, IsUpper) && LookaheadFinds(s, IsDigit) && LookaheadFinds(s, IsSpecial)
  }

  /** re.match(pattern, s) as the source calls it: the lookaheads, then a run
      of at least eight class characters (any length the backtracking may
      settle on) followed by `$`. */
  function MatchesAsWritten(s: string): (b: bool)
    ensures b ==> |s| >= 8 && Lookaheads(s)
    ensures b ==> forall i :: 0 <= i < |s| ==> InPasswordClass(s[i]) || (i == |s| - 1 && s[i] == '\n')
  {
    var b := Lookaheads(s) && exists k: nat | 8 <= k <= |s| :: ClassRun(s[..k]) && EndAnchorAt(s, k);
    assert b ==> forall i :: 0 <= i < |s| ==> InPasswordClass(s[i]) || (i == |s| - 1 && s[i] == '\n') by {
      if b {
        var k: nat :| 8 <= k <= |s| && ClassRun(s[..k]) && EndAnchorAt(s, k);
        ClassRunIff(s[..k]);
        assert forall i :: 0 <= i < k ==> s[..k][i] == s[i];
      }
    }
    b
  }

  /** The pattern matched against the whole string (re.fullmatch): what the
      password policy evidently intends. */
  predicate MatchesPolicy(s: string)
  {
    Lookaheads(s) && |s| >= 8 && ClassRun(s)
  }

  /** The policy stated character by character: at least eight characters,
      all from A-Z a-z 0-9 @$!%*?&, among them an upper-case letter, a digit
      and one of @$!%*?&. No lower-case letter is required. */
  ghost predicate PolicyHolds(s: string)
  {
    && |s| >= 8
    && (forall i :: 0 <= i < |s| ==> InPasswordClass(s[i]))
    && (exists i :: 0 <= i < |s| && IsUpper(s[i]))
    && (exists i :: 0 <= i < |s| && IsDigit(s[i]))
    && (exists i :: 0 <= i < |s| && IsSpecial(s[i]))
  }

  /** (?=.*X) succeeds exactly when some X character has no newline before it. */
  lemma {:induction false} LookaheadFindsIff(s: string, x: char -> bool)
    ensures LookaheadFinds(s, x) <==> exists i :: 0 <= i < |s| && x(s[i]) && '\n' !in s[..i]
    decreases |s|
  {
    if |s| > 0 {
      LookaheadFindsIff(s[1..], x);
      if LookaheadFinds(s, x) {
        if x(s[0]) {
          assert s[..0] == [];
          assert 0 < |s| && x(s[0]) && '\n' !in s[..0];
        } else {
          var i :| 0 <= i < |s| - 1 && x(s[1..][i]) && '\n' !in s[1..][..i];
          assert s[..i + 1] == [s[0]] + s[1..][..i];
          assert x(s[i + 1]) && '\n' !in s[..i + 1];
        }
      }
      if exists i :: 0 <= i < |s| && x(s[i]) && '\n' !in s[..i] {
        var i :| 0 <= i < |s| && x(s[i]) && '\n' !in s[..i];
        if i > 0 {
          assert s[..i][0] == s[0];
          assert s[1..][..i - 1] == s[1..i] && s[1..i] <= s[..i][1..];
          assert s[1..][..i - 1] == s[..i][1..];
          assert x(s[1..][i - 1]) && '\n' !in s[1..][..i - 1];
        }
      }
    }
  }

  /** The class run holds exactly when every character is in the class. */
  lemma {:induction false} ClassRunIff(s: string)
    ensures ClassRun(s) <==> forall i :: 0 <= i < |s| ==> InPasswordClass(s[i])
    decreases |s|
  {
    if |s| > 0 {
      ClassRunIff(s[1..]);
      assert forall i :: 1 <= i < |s| ==> s[i] == s[1..][i - 1];
    }
  }

  /** The regex, matched against the whole string, is the policy stated
      character by character. */
  lemma PolicyIff(s: string)
    ensures MatchesPolicy(s) <==> PolicyHolds(s)
  {
    ClassRunIff(s);
    LookaheadFindsIff(s, IsUpper);
    LookaheadFindsIff(s, IsDigit);
    LookaheadFindsIff(s, IsSpecial);
    if forall i :: 0 <= i < |s| ==> InPasswordClass(s[i]) {
      assert forall i :: 0 <= i <= |s| ==> '\n' !in s[..i];
    }
  }

  /** (?=.*X) is not changed by one more newline at the end. */
  lemma LookaheadIgnoresFinalNewline(t: string, x: char -> bool)
    requires !x('\n')
    ensures LookaheadFinds(t + ['\n'], x) == LookaheadFinds(t, x)
  {
    var s := t + ['\n'];
    LookaheadFindsIff(s, x);
    LookaheadFindsIff(t, x);
    assert forall i :: 0 <= i < |t| ==> s[i] == t[i] && s[..i] == t[..i];
  }

  /** As written, the validator accepts exactly the policy's passwords and
      the policy's passwords followed by one newline. */
  lemma AsWrittenAcceptsPolicyPlusNewline(s: string)
    ensures MatchesAsWritten(s) <==>
      MatchesPolicy(s) || (|s| > 0 && s[|s| - 1] == '\n' && MatchesPolicy(s[..|s| - 1]))
  {
    if |s| > 0 && s[|s| - 1] == '\n' {
      var t := s[..|s| - 1];
      assert s == t + ['\n'];
      LookaheadIgnoresFinalNewline(t, IsUpper);
      LookaheadIgnoresFinalNewline(t, IsDigit);
      LookaheadIgnoresFinalNewline(t, IsSpecial);
      if MatchesPolicy(t) {
        assert s[..|t|] == t;
        assert EndAnchorAt(s, |t|);
      }
    }
    if MatchesPolicy(s) {
      assert s[..|s|] == s;
      assert EndAnchorAt(s, |s|);
    }
    if MatchesAsWritten(s) {
      var k: nat :| 8 <= k <= |s| && ClassRun(s[..k]) && EndAnchorAt(s, k);
      if k == |s| {
        assert s[..k] == s;
      } else {
        assert s[..k] == s[..|s| - 1];
      }
    }
  }

  /** Without a final newline the pattern as written is the policy. */
  lemma AsWrittenIsPolicyWithoutFinalNewline(s: string)
    requires s == [] || s[|s| - 1] != '\n'
    ensures MatchesAsWritten(s) <==> MatchesPolicy(s)
  {
    AsWrittenAcceptsPolicyPlusNewline(s);
  }

  /** The input that shows the difference: a policy password plus "\n" is
      accepted as written, and the value returned keeps the newline, which
      is outside the character class. */
  lemma TrailingNewlineSlipsThrough()
    ensures MatchesAsWritten("Abcdefg1@" + ['\n'])
    ensures !MatchesPolicy("Abcdefg1@" + ['\n'])
  {
    var t := "Abcdefg1@";
    var s := t + ['\n'];
    assert MatchesPolicy(t) by {
      assert forall i :: 0 <= i < |t| ==> InPasswordClass(t[i]);
      assert IsUpper(t[0]) && IsDigit(t[7]) && IsSpecial(t[8]);
      PolicyIff(t);
    }
    assert s[..|s| - 1] == t;
    AsWrittenAcceptsPolicyPlusNewline(s);
    assert !ClassRun(s) by {
      ClassRunIff(s);
      assert !InPasswordClass(s[9]);
    }
  }

  /* ---------------------------------------------------------------------
     Validation errors
     ------------------------------------------------------------------- */

  /** What a validator reports. Blank, TooLong and AlreadyTaken come from the
      checks the framework derives from the field declarations; the others
      are raised by the validators of serializer.py. */
  datatype Problem =
    | Blank | TooLong | AlreadyTaken
    | WeakPassword | PasswordMismatch
    | NotRegistered | NotVerified | IncorrectPassword
    | SameAsOld | ConfirmMismatch

  datatype ValidationError = ValidationError(field: Field, problem: Problem)

  /** UserSerializer.validate_password (with the pattern matched as a whole). */
  function ValidatePassword(value: string): (r: Result<string, ValidationError>)
    ensures r.Ok? <==> PolicyHolds(value)
    ensures r.Ok? ==> r.value == value
    ensures r.Err? ==> r.error == ValidationError(Password, WeakPassword)
  {
    PolicyIff(value);
    if MatchesPolicy(value) then Ok(value) else Err(ValidationError(Password, WeakPassword))
  }

  /** UpdatePasswordSerializer.validate_new_password: the same pattern. */
  function ValidateNewPassword(value: string): (r: Result<string, ValidationError>)
    ensures r.Ok? <==> PolicyHolds(value)
    ensures r.Ok? ==> r.value == value
    ensures r.Err? ==> r.error == ValidationError(NewPassword, WeakPassword)
  {
    PolicyIff(value);
    if MatchesPolicy(value) then Ok(value) else Err(ValidationError(NewPassword, WeakPassword))
  }

  /** Both validators accept the same strings. */
  lemma SamePasswordPolicy(value: string)
    ensures ValidateNewPassword(value).Ok? <==> ValidatePassword(value).Ok?
  {
  }

  /** An accepted password has at least eight characters, all from the class. */
  lemma AcceptedPasswordShape(value: string)
    requires ValidatePassword(value).Ok?
    ensures |value| >= 8
    ensures forall i :: 0 <= i < |value| ==> InPasswordClass(value[i])
    ensures exists i :: 0 <= i < |value| && IsUpper(value[i])
    ensures exists i :: 0 <= i < |value| && IsDigit(value[i])
    ensures exists i :: 0 <= i < |value| && IsSpecial(value[i])
  {
  }

  /** No lower-case letter is required, whatever the error message says. */
  lemma NoLowercaseRequired()
    ensures ValidatePassword("ABCDEFG1@").Ok?
    ensures forall i :: 0 <= i < |"ABCDEFG1@"| ==> !IsLower("ABCDEFG1@"[i])
  {
    var s := "ABCDEFG1@";
    assert IsUpper(s[0]) && IsDigit(s[7]) && IsSpecial(s[8]);
    assert forall i :: 0 <= i < |s| ==> InPasswordClass(s[i]);
    assert PolicyHolds(s);
  }

  /* ---------------------------------------------------------------------
     UserSerializer: registration
     ------------------------------------------------------------------- */

  datatype RegistrationData = RegistrationData(
    username: string, email: string, firstName: string, lastName: string,
    password: string, confirmPassword: string)

  /** UserSerializer.validate: the password must equal its confirmation. */
  function ValidateRegistration(data: RegistrationData): (r: Result<RegistrationData, ValidationError>)
    ensures r.Err? <==> data.password != data.confirmPassword
    ensures r.Ok? ==> r.value == data
    ensures r.Err? ==> r.error == ValidationError(Password, PasswordMismatch)
  {
    if data.password != data.confirmPassword then Err(ValidationError(Password, PasswordMismatch))
    else Ok(data)
  }

  function Report(field: Field, problem: Option<Problem>): seq<ValidationError>
  {
    if problem.None? then [] else [ValidationError(field, problem.value)]
  }

  /** The first failing field-level check of a model-backed text column. */
  function ColumnProblem(value: string, taken: bool): Option<Problem>
  {
    if value == "" then Some(Blank)
    else if |value| > MaxFieldLength then Some(TooLong)
    else if taken then Some(AlreadyTaken)
    else None
  }

  /** The field-level checks of UserSerializer, field by field in the
      declared order: the model columns' non-blank, max_length and unique
      constraints, then validate_password and the non-blank confirmation. */
  function RegistrationFieldErrors(users: map<int, User>, data: RegistrationData): seq<ValidationError>
  {
    Report(Username, ColumnProblem(data.username, UsernameTaken(users, data.username)))
    + Report(Email, ColumnProblem(data.email, EmailTaken(users, data.email)))
    + Report(FirstName, ColumnProblem(data.firstName, false))
    + Report(LastName, ColumnProblem(data.lastName, false))
    + Report(Password,
        if data.password == "" then Some(Blank)
        else if ValidatePassword(data.password).Err? then Some(WeakPassword)
        else None)
    + Report(ConfirmPassword, if data.confirmPassword == "" then Some(Blank) else None)
  }

  /** The registration data a new row can be built from. */
  ghost predicate Registrable(users: map<int, User>, data: RegistrationData)
  {
    && data.username != "" && |data.username| <= MaxFieldLength && !UsernameTaken(users, data.username)
    && data.email != "" && |data.email| <= MaxFieldLength && !EmailTaken(users, data.email)
    && data.firstName != "" && |data.firstName| <= MaxFieldLength
    && data.lastName != "" && |data.lastName| <= MaxFieldLength
    && PolicyHolds(data.password)
    && data.password == data.confirmPassword
  }

  /** serializer.is_valid() on the registration form: the field-level errors
      if there are any, otherwise the result of validate. */
  function CheckRegistration(users: map<int, User>, data: RegistrationData)
    : (r: Result<RegistrationData, seq<ValidationError>>)
    ensures r.Ok? <==> Registrable(users, data)
    ensures r.Ok? ==> r.value == data
    ensures r.Err? ==> r.error != []
    ensures data.password != data.confirmPassword ==> r.Err?
  {
    var errors := RegistrationFieldErrors(users, data);
    if errors != [] then Err(errors)
    else match ValidateRegistration(data)
      case Ok(d) => Ok(d)
      case Err(e) => Err([e])
  }

  /** Data that passes registration passes create_user's guards, and the
      table admits the new row under a fresh key. */
  lemma RegistrationAdmitted(users: map<int, User>, data: RegistrationData, id: int)
    requires CheckRegistration(users, data).Ok?
    requires id !in users
    ensures FirstMissing(data.email, data.username, data.firstName, data.lastName, data.password) == None
    ensures SaveError(users, id, NewUser(data.email, data.username, data.firstName, data.lastName, data.password)) == None
  {
    assert users - {id} == users;
  }

  /** UserSerializer(user).data: the readable fields; password and
      confirm_password are write-only and never appear. */
  function Serialize(id: int, u: User): (j: Json)
    ensures j.Obj? && j.fields.Keys == {"id", "username", "email", "first_name", "last_name"}
    ensures j.fields["id"] == Num(id) && j.fields["email"] == Str(u.email)
    ensures j.fields["username"] == Str(u.username)
    ensures j.fields["first_name"] == Str(u.firstName) && j.fields["last_name"] == Str(u.lastName)
  {
    Obj(map["id" := Num(id), "username" := Str(u.username), "email" := Str(u.email),
             "first_name" := Str(u.firstName), "last_name" := Str(u.lastName)])
  }

  /* ---------------------------------------------------------------------
     UserSerializer.update
     ------------------------------------------------------------------- */

  function GetOr(m: map<string, string>, key: string, default: string): string
  {
    if key in m then m[key] else default
  }

  /** update as written: an absent "password" key makes set_password hash
      the stored encoded hash itself. */
  function UpdatedAsWritten(u: User, validated: map<string, string>): (v: User)
    ensures "username" in validated ==> v.username == validated["username"]
    ensures "username" !in validated ==> v.username == u.username
    ensures "email" in validated ==> v.email == validated["email"]
    ensures "email" !in validated ==> v.email == u.email
    ensures "first_name" in validated ==> v.firstName == validated["first_name"]
    ensures "first_name" !in validated ==> v.firstName == u.firstName
    ensures "last_name" in validated ==> v.lastName == validated["last_name"]
    ensures "last_name" !in validated ==> v.lastName == u.lastName
    ensures "password" in validated ==> CheckPassword(v.password, validated["password"])
    ensures "password" !in validated ==> CheckPassword(v.password, Encoded(u.password))
    ensures v.isActive == u.isActive && v.isStaff == u.isStaff && v.isSuperuser == u.isSuperuser
  {
    u.(username := GetOr(validated, "username", u.username),
       email := GetOr(validated, "email", u.email),
       firstName := GetOr(validated, "first_name", u.firstName),
       lastName := GetOr(validated, "last_name", u.lastName),
       password := MakePassword(GetOr(validated, "password", Encoded(u.password))))
  }

  /** After an update as written that carries no password, the user's own
      password no longer checks. */
  lemma UpdateWithoutPasswordLocksOut(u: User, validated: map<string, string>, raw: string)
    requires "password" !in validated
    requires CheckPassword(u.password, raw)
    ensures !CheckPassword(UpdatedAsWritten(u, validated).password, raw)
  {
    assert |Encoded(u.password)| == |raw| + 5;
  }

  /** update as evidently intended: each of the four fields and the password
      is replaced only when its key is present. */
  function Updated(u: User, validated: map<string, string>): (v: User)
    ensures "username" in validated ==> v.username == validated["username"]
    ensures "username" !in validated ==> v.username == u.username
    ensures "email" in validated ==> v.email == validated["email"]
    ensures "email" !in validated ==> v.email == u.email
    ensures "first_name" in validated ==> v.firstName == validated["first_name"]
    ensures "first_name" !in validated ==> v.firstName == u.firstName
    ensures "last_name" in validated ==> v.lastName == validated["last_name"]
    ensures "last_name" !in validated ==> v.lastName == u.lastName
    ensures "password" in validated ==> CheckPassword(v.password, validated["password"])
    ensures "password" !in validated ==> forall raw :: CheckPassword(v.password, raw) == CheckPassword(u.password, raw)
    ensures v.isActive == u.isActive && v.isStaff == u.isStaff && v.isSuperuser == u.isSuperuser
  {
    u.(username := GetOr(validated, "username", u.username),
       email := GetOr(validated, "email", u.email),
       firstName := GetOr(validated, "first_name", u.firstName),
       lastName := GetOr(validated, "last_name", u.lastName),
       password := if "password" in validated then MakePassword(validated["password"]) else u.password)
  }

  /** The two agree whenever a password is given. */
  lemma UpdatedAgreesWithPassword(u: User, validated: map<string, string>)
    requires "password" in validated
    ensures Updated(u, validated) == UpdatedAsWritten(u, validated)
  {
  }

  /** UserSerializer.update(instance, validated_data): the instance's fields
      replaced, then saved; the save fails when the table refuses the row. */
  method Update(objects: UserManager, id: int, validated: map<string, string>)
    returns (r: Result<User, CreateError>)
    requires objects.Valid() && id in objects.users
    modifies objects
    ensures objects.Valid() && objects.nextId == old(objects.nextId)
    ensures var v := Updated(old(objects.users)[id], validated);
      && (r.Ok? <==> SaveError(old(objects.users), id, v) == None)
      && (r.Ok? ==> r.value == v && objects.users == old(objects.users)[id := v])
      && (r.Err? ==> r.error == SaveError(old(objects.users), id, v).value && objects.users == old(objects.users))
  {
    var instance := Updated(objects.users[id], validated);
    var refused := SaveError(objects.users, id, instance);
    if refused.Some? {
      return Err(refused.value);
    }
    SavePreservesUnique(objects.users, id, instance);
    objects.users := objects.users[id := instance];
    r := Ok(instance);
  }

  /* ---------------------------------------------------------------------
     UserLoginSerializer
     ------------------------------------------------------------------- */

  datatype LoginData = LoginData(email: string, password: string)

  /** UserLoginSerializer.validate: an unknown email, then an unverified
      account (whatever the password), then a wrong password. */
  function ValidateLogin(users: map<int, User>, data: LoginData): (r: Result<LoginData, ValidationError>)
    requires Unique(users)
    ensures !EmailTaken(users, data.email) ==> r == Err(ValidationError(Email, NotRegistered))
    ensures forall id | id in users && users[id].email == data.email ::
      && (!users[id].isActive ==> r == Err(ValidationError(Email, NotVerified)))
      && (users[id].isActive && !CheckPassword(users[id].password, data.password) ==>
            r == Err(ValidationError(Password, IncorrectPassword)))
      && (users[id].isActive && CheckPassword(users[id].password, data.password) ==> r == Ok(data))
  {
    match FindByEmail(users, data.email)
    case None => Err(ValidationError(Email, NotRegistered))
    case Some(id) =>
      if !users[id].isActive then Err(ValidationError(Email, NotVerified))
      else if !CheckPassword(users[id].password, data.password) then Err(ValidationError(Password, IncorrectPassword))
      else Ok(data)
  }

  /* ---------------------------------------------------------------------
     UpdatePasswordSerializer
     ------------------------------------------------------------------- */

  datatype PasswordChange = PasswordChange(oldPassword: string, newPassword: string, confirmNewPassword: string)

  /** UpdatePasswordSerializer.validate: new == old is reported before
      new != confirmation. */
  function ValidatePasswordChange(attrs: PasswordChange): (r: Result<PasswordChange, ValidationError>)
    ensures r.Ok? <==> attrs.newPassword != attrs.oldPassword && attrs.newPassword == attrs.confirmNewPassword
    ensures r.Ok? ==> r.value == attrs
    ensures attrs.newPassword == attrs.oldPassword ==> r == Err(ValidationError(NewPassword, SameAsOld))
    ensures attrs.newPassword != attrs.oldPassword && attrs.newPassword != attrs.confirmNewPassword ==>
      r == Err(ValidationError(NewPassword, ConfirmMismatch))
  {
    if attrs.newPassword == attrs.oldPassword then Err(ValidationError(NewPassword, SameAsOld))
    else if attrs.newPassword != attrs.confirmNewPassword then Err(ValidationError(NewPassword, ConfirmMismatch))
    else Ok(attrs)
  }

  /** The field-level checks, in declared order: old password non-blank,
      new password non-blank and validate_new_password, confirmation non-blank. */
  function PasswordChangeFieldErrors(attrs: PasswordChange): seq<ValidationError>
  {
    Report(OldPassword, if attrs.oldPassword == "" then Some(Blank) else None)
    + Report(NewPassword,
        if attrs.newPassword == "" then Some(Blank)
        else if ValidateNewPassword(attrs.newPassword).Err? then Some(WeakPassword)
        else None)
    + Report(ConfirmNewPassword, if attrs.confirmNewPassword == "" then Some(Blank) else None)
  }

  /** serializer.is_valid() on the password-change form. */
  function CheckPasswordChange(attrs: PasswordChange): (r: Result<PasswordChange, seq<ValidationError>>)
    ensures r.Ok? <==>
      attrs.oldPassword != "" && PolicyHolds(attrs.newPassword)
      && attrs.newPassword != attrs.oldPassword && attrs.newPassword == attrs.confirmNewPassword
    ensures r.Ok? ==> r.value == attrs
    ensures r.Err? ==> r.error != []
  {
    var errors := PasswordChangeFieldErrors(attrs);
    if errors != [] then Err(errors)
    else match ValidatePasswordChange(attrs)
      case Ok(a) => Ok(a)
      case Err(e) => Err([e])
  }
}
