/** accounts/views.py: the request handlers of the account service, as
    transitions of the user table and of the outbox of queued verification
    emails. */
module Views {
  import opened Base
  import opened Utils
  import opened Models
  import opened Serializers

  /** A verification email handed to the task queue (SendEmail.delay): the
      recipient, the username the template greets, and the token its link carries. */
  datatype VerificationEmail = VerificationEmail(recipient: string, username: string, token: Token)

  /** How a handler ends. */
  datatype Reply =
    | Respond(response: Response)               // a response built by format_response
    | Invalid(errors: seq<ValidationError>)     // is_valid(raise_exception=True) failed: the framework answers 400
    | Raised(message: string)                   // the handler raised a django.forms ValidationError

  const CreatedMessage := "User has been created successfully. please verify your email."
  const CreateFailedMessage := "An error occurred while creating user."
  const FetchedMessage := "User has been fetched successfully."
  const ListedMessage := "Users list has been fetched successfully."
  const IdNotFoundMessage := "User with this id not found."
  const BadTokenMessage := "Token is invalid or expired."
  const AlreadyVerifiedMessage := "This user account has been already verified."
  const VerifiedMessage := "User account has been verified successfully."
  const EmailNotFoundMessage := "User with this email not found."
  const ResentMessage := "Verification email has been sent successfully. please check your email."
  const ResendFailedMessage := "An error occurred while sending verification email."
  const WrongOldPasswordMessage := "Plesae provide correct old password."
  const WrongOldPasswordError := "Please provide correct old password."
  const PasswordUpdatedMessage := "Password has been updated successfully."

  /** The user table after VerifyEmail.get: the token's user, when the token
      is valid and the user is stored and inactive, becomes active; nothing
      else changes. */
  function Verified(users: map<int, User>, token: Token, now: int): (r: map<int, User>)
    ensures r.Keys == users.Keys
    ensures forall id | id in users ::
      r[id] == if VerifyToken(token, now) == Some(id) then users[id].(isActive := true) else users[id]
  {
    match VerifyToken(token, now)
    case None => users
    case Some(id) =>
      if id in users && !users[id].isActive then users[id := users[id].(isActive := true)] else users
  }

  /** Verifying twice leaves the table as verifying once. */
  lemma VerifyIdempotent(users: map<int, User>, token: Token, now: int)
    ensures Verified(Verified(users, token, now), token, now) == Verified(users, token, now)
  {
  }

  /** The end-to-end flow: a registration is refused at login until the
      account is verified, and the registered password logs in once the
      emailed token is used in time. */
  lemma RegisterVerifyLogin(users: map<int, User>, data: RegistrationData, id: int,
                            issued: int, now: int, guess: string)
    requires Unique(users) && id !in users
    requires CheckRegistration(users, data).Ok?
    requires now - issued <= MaxAge
    ensures var registered := users[id := NewUser(data.email, data.username, data.firstName, data.lastName, data.password)];
      && Unique(registered)
      && ValidateLogin(registered, LoginData(data.email, guess)) == Err(ValidationError(Email, NotVerified))
      && var verified := Verified(registered, GenerateToken(id, issued), now);
         && Unique(verified)
         && ValidateLogin(verified, LoginData(data.email, data.password)) == Ok(LoginData(data.email, data.password))
  {
    var u := NewUser(data.email, data.username, data.firstName, data.lastName, data.password);
    var registered := users[id := u];
    RegistrationAdmitted(users, data, id);
    SavePreservesUnique(users, id, u);
    TokenRoundTrip(id, issued, now);
    var verified := Verified(registered, GenerateToken(id, issued), now);
    assert verified == registered[id := u.(isActive := true)];
    SameKeysPreserveUnique(registered, id, u.(isActive := true));
  }

  /** After a password change the new password logs in and the old one is refused. */
  lemma PasswordChangeTakesEffect(users: map<int, User>, id: int, attrs: PasswordChange)
    requires Unique(users) && id in users && users[id].isActive
    requires CheckPasswordChange(attrs).Ok?
    ensures var after := users[id := users[id].(password := MakePassword(attrs.newPassword))];
      && Unique(after)
      && ValidateLogin(after, LoginData(users[id].email, attrs.newPassword)).Ok?
      && ValidateLogin(after, LoginData(users[id].email, attrs.oldPassword))
           == Err(ValidationError(Password, IncorrectPassword))
  {
    var after := users[id := users[id].(password := MakePassword(attrs.newPassword))];
    SameKeysPreserveUnique(users, id, after[id]);
    assert id in after && after[id].email == users[id].email && after[id].isActive;
    assert !CheckPassword(after[id].password, attrs.oldPassword);
  }

  /** `order` lists every row of the table once: the order in which the
      database returns User.objects.all(). */
  ghost predicate ListsEveryRowOnce(order: seq<int>, users: map<int, User>)
  {
    && (forall i | 0 <= i < |order| :: order[i] in users)
    && (forall id | id in users :: id in order)
    && (forall i, j | 0 <= i < j < |order| :: order[i] != order[j])
  }

  /** user_data['fullname'] = user.get_full_name() on one serialised user. */
  function AddFullName(userData: Json, u: User): (j: Json)
    requires userData.Obj?
    ensures j.Obj? && j.fields.Keys == userData.fields.Keys + {"fullname"}
    ensures j.fields["fullname"] == Str(GetFullName(u))
    ensures forall k | k in userData.fields && k != "fullname" :: j.fields[k] == userData.fields[k]
  {
    Obj(userData.fields["fullname" := Str(GetFullName(u))])
  }

  /** One entry of the users list or the detail view. */
  function Entry(id: int, u: User): Json
  {
    AddFullName(Serialize(id, u), u)
  }

  class AccountService {
    const objects: UserManager
    var outbox: seq<VerificationEmail>

    ghost predicate Valid()
      reads this, objects
    {
      objects.Valid()
    }

    constructor (objects: UserManager)
      requires objects.Valid()
      ensures Valid() && this.objects == objects && outbox == []
    {
      this.objects := objects;
      outbox := [];
    }

    /** UserCreateListAPIView.post: validate, create the inactive user, then
        queue one verification email with a token for the new id. The task
        queue can fail (`brokerFailure` is the exception's text); the user
        then stays created and the answer is 400. */
    method Register(data: RegistrationData, now: int, brokerFailure: Option<string>) returns (reply: Reply)
      requires Valid()
      modifies this, objects
      ensures Valid()
      ensures objects.nextId == old(objects.nextId) + (if CheckRegistration(old(objects.users), data).Ok? then 1 else 0)
      ensures CheckRegistration(old(objects.users), data).Err? ==>
        && reply == Invalid(CheckRegistration(old(objects.users), data).error)
        && objects.users == old(objects.users) && outbox == old(outbox)
      ensures CheckRegistration(old(objects.users), data).Ok? ==>
        var id := old(objects.nextId);
        var u := NewUser(data.email, data.username, data.firstName, data.lastName, data.password);
        && id !in old(objects.users)
        && objects.users == old(objects.users)[id := u]
        && (brokerFailure.None? ==>
              && outbox == old(outbox) + [VerificationEmail(data.email, data.username, GenerateToken(id, now))]
              && reply == Respond(FormatResponse(CreatedMessage, Serialize(id, u), Null, HTTP_201_CREATED)))
        && (brokerFailure.Some? ==>
              && outbox == old(outbox)
              && reply == Respond(FormatResponse(CreateFailedMessage, Null, Str(brokerFailure.value), HTTP_400_BAD_REQUEST)))
    {
      var checked := CheckRegistration(objects.users, data);
      if checked.Err? {
        return Invalid(checked.error);
      }
      RegistrationAdmitted(objects.users, data, objects.nextId);
      var created := objects.CreateUser(data.email, data.username, data.firstName, data.lastName, data.password);
      var id := created.value;
      var user := objects.users[id];
      var userData := Serialize(id, user);
      var token := GenerateToken(id, now);
      if brokerFailure.Some? {
        return Respond(FormatResponse(CreateFailedMessage, error := Str(brokerFailure.value),
                                      statusCode := HTTP_400_BAD_REQUEST));
      }
      outbox := outbox + [VerificationEmail(user.email, user.username, token)];
      reply := Respond(FormatResponse(CreatedMessage, userData, statusCode := HTTP_201_CREATED));
    }

    /** UserCreateListAPIView.get: one user by id, or, without an id, every
        user in the database's order, each serialised with its full name added. */
    method Get(userId: Option<int>, order: seq<int>) returns (reply: Reply)
      requires userId.None? ==> ListsEveryRowOnce(order, objects.users)
      ensures userId.Some? && userId.value !in objects.users ==>
        reply == Respond(FormatResponse(IdNotFoundMessage, Null, Str(IdNotFoundMessage), HTTP_400_BAD_REQUEST))
      ensures userId.Some? && userId.value in objects.users ==>
        reply == Respond(FormatResponse(FetchedMessage, Entry(userId.value, objects.users[userId.value]), Null, HTTP_200_OK))
      ensures userId.None? ==>
        && reply.Respond? && reply.response.status == HTTP_200_OK
        && "message" in reply.response.body && reply.response.body["message"] == Str(ListedMessage)
        && "data" in reply.response.body && reply.response.body["data"].Arr?
        && var items := reply.response.body["data"].items;
           && |items| == |order|
           && forall i :: 0 <= i < |order| ==> items[i] == Entry(order[i], objects.users[order[i]])
    {
      var users := objects.users;
      if userId.Some? {
        if userId.value !in users {
          return Respond(FormatResponse(IdNotFoundMessage, error := Str(IdNotFoundMessage),
                                        statusCode := HTTP_400_BAD_REQUEST));
        }
        var user := users[userId.value];
        var userData := AddFullName(Serialize(userId.value, user), user);
        return Respond(FormatResponse(FetchedMessage, userData, statusCode := HTTP_200_OK));
      }
      var data := seq(|order|, i requires 0 <= i < |order| => Serialize(order[i], users[order[i]]));
      var i := 0;
      while i < |data|
        invariant 0 <= i <= |data| == |order|
        invariant forall k :: 0 <= k < i ==> data[k] == Entry(order[k], users[order[k]])
        invariant forall k :: i <= k < |data| ==> data[k] == Serialize(order[k], users[order[k]])
      {
        var entry := AddFullName(data[i], users[order[i]]);
        assert entry == Entry(order[i], users[order[i]]);
        data := data[i := entry];
        i := i + 1;
      }
      reply := Respond(FormatResponse(ListedMessage, Arr(data), statusCode := HTTP_200_OK));
    }

    /** VerifyEmail.get: an invalid or expired token answers 400; a token for
        an id not in the table raises; an active user answers 200 "already
        verified"; otherwise the user becomes active. */
    method VerifyEmail(token: Token, now: int) returns (reply: Reply)
      requires Valid()
      modifies objects
      ensures Valid() && objects.nextId == old(objects.nextId)
      ensures objects.users == Verified(old(objects.users), token, now)
      ensures VerifyToken(token, now).None? ==>
        reply == Respond(FormatResponse(BadTokenMessage, Null, Str(BadTokenMessage), HTTP_400_BAD_REQUEST))
      ensures VerifyToken(token, now).Some? && VerifyToken(token, now).value !in old(objects.users) ==>
        reply == Raised(EmailNotFoundMessage)
      ensures VerifyToken(token, now).Some? && VerifyToken(token, now).value in old(objects.users) ==>
        var id := VerifyToken(token, now).value;
        && (old(objects.users)[id].isActive ==>
              reply == Respond(FormatResponse(AlreadyVerifiedMessage, Null, Str(AlreadyVerifiedMessage), HTTP_200_OK)))
        && (!old(objects.users)[id].isActive ==>
              reply == Respond(FormatResponse(VerifiedMessage, Null, Null, HTTP_200_OK)))
    {
      var data := VerifyToken(token, now);
      if data.None? {
        return Respond(FormatResponse(BadTokenMessage, error := Str(BadTokenMessage),
                                      statusCode := HTTP_400_BAD_REQUEST));
      }
      var id := data.value;
      if id !in objects.users {
        return Raised(EmailNotFoundMessage);
      }
      var user := objects.users[id];
      if user.isActive {
        return Respond(FormatResponse(AlreadyVerifiedMessage, error := Str(AlreadyVerifiedMessage),
                                      statusCode := HTTP_200_OK));
      }
      SameKeysPreserveUnique(objects.users, id, user.(isActive := true));
      objects.users := objects.users[id := user.(isActive := true)];
      reply := Respond(FormatResponse(VerifiedMessage, statusCode := HTTP_200_OK));
    }

    /** ResendVerificationEmail.post: an unknown (or missing) email raises; an
        active user answers 200 "already verified" and nothing is queued; an
        inactive one gets exactly one new email. The table never changes. */
    method ResendVerificationEmail(email: Option<string>, now: int, brokerFailure: Option<string>)
      returns (reply: Reply)
      requires Valid()
      modifies this
      ensures Valid() && objects.users == old(objects.users)
      ensures email.None? || !EmailTaken(objects.users, email.value) ==>
        reply == Raised(EmailNotFoundMessage) && outbox == old(outbox)
      ensures email.Some? ==> forall id | id in objects.users && objects.users[id].email == email.value ::
        && (objects.users[id].isActive ==>
              && reply == Respond(FormatResponse(AlreadyVerifiedMessage, Null, Str(AlreadyVerifiedMessage), HTTP_200_OK))
              && outbox == old(outbox))
        && (!objects.users[id].isActive && brokerFailure.None? ==>
              && reply == Respond(FormatResponse(ResentMessage, Null, Null, HTTP_200_OK))
              && outbox == old(outbox) + [VerificationEmail(email.value, objects.users[id].username, GenerateToken(id, now))])
        && (!objects.users[id].isActive && brokerFailure.Some? ==>
              reply == Raised(ResendFailedMessage) && outbox == old(outbox))
    {
      if email.None? {
        return Raised(EmailNotFoundMessage);
      }
      var found := FindByEmail(objects.users, email.value);
      if found.None? {
        return Raised(EmailNotFoundMessage);
      }
      var id := found.value;
      var user := objects.users[id];
      if user.isActive {
        return Respond(FormatResponse(AlreadyVerifiedMessage, error := Str(AlreadyVerifiedMessage),
                                      statusCode := HTTP_200_OK));
      }
      var token := GenerateToken(id, now);
      if brokerFailure.Some? {
        return Raised(ResendFailedMessage);
      }
      outbox := outbox + [VerificationEmail(email.value, user.username, token)];
      reply := Respond(FormatResponse(ResentMessage, statusCode := HTTP_200_OK));
    }

    /** UpdatePasswordAPIView.post for the authenticated user `userId`: the
        form is validated, a wrong old password answers 400, otherwise only
        that user's password is replaced. */
    method UpdatePassword(userId: int, attrs: PasswordChange) returns (reply: Reply)
      requires Valid() && userId in objects.users
      modifies objects
      ensures Valid() && objects.nextId == old(objects.nextId)
      ensures CheckPasswordChange(attrs).Err? ==>
        reply == Invalid(CheckPasswordChange(attrs).error) && objects.users == old(objects.users)
      ensures CheckPasswordChange(attrs).Ok? && !CheckPassword(old(objects.users)[userId].password, attrs.oldPassword) ==>
        && reply == Respond(FormatResponse(WrongOldPasswordMessage, Null, Str(WrongOldPasswordError), HTTP_400_BAD_REQUEST))
        && objects.users == old(objects.users)
      ensures CheckPasswordChange(attrs).Ok? && CheckPassword(old(objects.users)[userId].password, attrs.oldPassword) ==>
        && reply == Respond(FormatResponse(PasswordUpdatedMessage, Null, Null, HTTP_200_OK))
        && objects.users == old(objects.users)[userId := old(objects.users)[userId].(password := MakePassword(attrs.newPassword))]
    {
      var checked := CheckPasswordChange(attrs);
      if checked.Err? {
        return Invalid(checked.error);
      }
      var user := objects.users[userId];
      if !CheckPassword(user.password, attrs.oldPassword) {
        return Respond(FormatResponse(WrongOldPasswordMessage, error := Str(WrongOldPasswordError),
                                      statusCode := HTTP_400_BAD_REQUEST));
      }
      var changed := user.(password := MakePassword(attrs.newPassword));
      SameKeysPreserveUnique(objects.users, userId, changed);
      objects.users := objects.users[userId := changed];
      reply := Respond(FormatResponse(PasswordUpdatedMessage, statusCode := HTTP_200_OK));
    }
  }
}
