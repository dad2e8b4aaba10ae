/** The account service of users.services.ts: OTP sending, registration,
    password reset, the refresh-token table and the partial profile update.
    Password hashing and token signing are parameters (`hash`, the token
    strings); the e-mail sent with a code is an output. */
module Accounts {
  import opened Schemas
  import opened Decimal
  import opened Store
  import opened OtpStore
  import Matching

  /** Why an account request fails. The first four are answered with a status;
      the last three are thrown (and answered 500 by the error handler). */
  datatype AccountError =
    | EmailAlreadyUsed | EmailNotRegistered | PasswordMismatch | UserNotFound
    | ValidationFailed | DuplicateEmail | ProfileNotFound
  {
    function Status(): HttpStatus
    {
      match this
      case UserNotFound => NotFound404
      case ValidationFailed | DuplicateEmail | ProfileNotFound => ServerError500
      case _ => BadRequest400
    }
  }

  /** `expiresIn` of a sent reset code, in seconds. */
  const OtpExpiresInSeconds: nat := 300

  /** `checkEmailExist`. */
  predicate EmailExists(users: map<UserId, User>, email: string)
  {
    exists id :: id in users && users[id].email == email
  }

  // ─── sendOTP ────────────────────────────────────────────────────────

  datatype SendOtpReply = SkipOtp | OtpSent(expiresIn: nat)

  /** `sendOTP`. Registration never sends a code (the client may register at
      once); a reset code is created and handed to the mailer (`mailed`). */
  method SendOtp(db: Database, email: string, purpose: OtpPurpose, now: int)
    returns (r: Result<SendOtpReply, AccountError>, mailed: Option<string>)
    modifies db`otps
    ensures purpose == OtpPurpose.Register ==>
      && db.otps == old(db.otps) && mailed == None
      && r == if EmailExists(db.users, email) then Err(EmailAlreadyUsed) else Ok(SkipOtp)
    ensures purpose == OtpPurpose.ResetPassword && !EmailExists(db.users, email) ==>
      && db.otps == old(db.otps) && mailed == None && r == Err(EmailNotRegistered)
    ensures purpose == OtpPurpose.ResetPassword && EmailExists(db.users, email) ==>
      && r == Ok(OtpSent(OtpExpiresInSeconds)) && mailed.Some?
      && |mailed.value| == 6 && AllDigits(mailed.value) && OtpLow <= Value(mailed.value) <= OtpHigh
      && db.otps == AfterCreate(old(db.otps), email, OtpPurpose.ResetPassword, mailed.value, now)
  {
    mailed := None;
    if purpose == OtpPurpose.Register {
      if EmailExists(db.users, email) {
        return Err(EmailAlreadyUsed), mailed;
      }
      return Ok(SkipOtp), mailed;
    }
    if !EmailExists(db.users, email) {
      return Err(EmailNotRegistered), mailed;
    }
    var otp := CreateOtp(db, email, purpose, now);
    mailed := Some(otp);
    return Ok(OtpSent(OtpExpiresInSeconds)), mailed;
  }

  /** A reset code that was sent can be redeemed with the same e-mail before
      it expires, and only once: `sendOTP` and `verifyOTP` fit together. The
      record found is the one just stored, and after it is used the same
      code is refused at any later time. */
  lemma SentCodeVerifies(otps: seq<OtpRecord>, email: string, code: string, now: int, t: int, later: int)
    requires AtMostOnePending(otps)
    requires t < now + OtpLifetimeMs
    ensures var after := AfterCreate(otps, email, OtpPurpose.ResetPassword, code, now);
      && FirstRedeemable(after, email, code, OtpPurpose.ResetPassword, t) == Some(|after| - 1)
      && FirstRedeemable(AfterVerify(after, email, code, OtpPurpose.ResetPassword, t), email, code, OtpPurpose.ResetPassword, later).None?
  {
    var after := AfterCreate(otps, email, OtpPurpose.ResetPassword, code, now);
    CreateLeavesOnePending(otps, email, OtpPurpose.ResetPassword, code, now);
    CreateKeepsRule(otps, email, OtpPurpose.ResetPassword, code, now);
    assert forall k :: 0 <= k < |after| - 1 ==> !Redeemable(after[k], email, code, OtpPurpose.ResetPassword, t);
    FirstRedeemableIs(after, email, code, OtpPurpose.ResetPassword, t, |after| - 1);
    SingleUse(after, email, code, OtpPurpose.ResetPassword, t, later);
  }

  // ─── verifyRegisterOTP ──────────────────────────────────────────────

  datatype RegisterInput = RegisterInput(
    email: string, password: string, confirmPassword: string,
    name: string, age: int, gender: Gender, bio: Option<string>, otp: string)

  /** The document `User.create` stores: verified, active, default avatar, no
      relations; a missing or empty bio becomes ''. */
  function NewUser(input: RegisterInput, hash: string -> string): User
  {
    User(input.email, hash(input.password), true, true, input.name, input.age, input.gender,
         if input.bio.Some? then input.bio.value else "", DefaultAvatar, {}, {}, {}, {})
  }

  /** The schema validators `User.create` runs: required strings are
      non-empty and the age is at least 18. */
  predicate PassesValidation(input: RegisterInput)
  {
    input.email != "" && input.name != "" && input.age >= 18
  }

  /** `verifyRegisterOTP`. The code is not checked. `newId` is the fresh id
      MongoDB assigns. */
  method VerifyRegisterOtp(db: Database, input: RegisterInput, newId: UserId, hash: string -> string)
    returns (r: Result<UserId, AccountError>)
    requires newId !in db.users
    modifies db`users
    ensures input.password != input.confirmPassword ==> r == Err(PasswordMismatch) && db.users == old(db.users)
    ensures input.password == input.confirmPassword && !PassesValidation(input) ==>
      r == Err(ValidationFailed) && db.users == old(db.users)
    ensures input.password == input.confirmPassword && PassesValidation(input) && EmailExists(old(db.users), input.email) ==>
      r == Err(DuplicateEmail) && db.users == old(db.users)
    ensures r.Ok? <==> input.password == input.confirmPassword && PassesValidation(input) && !EmailExists(old(db.users), input.email)
    ensures r.Ok? ==> r.value == newId && db.users == old(db.users)[newId := NewUser(input, hash)]
  {
    if input.password != input.confirmPassword {
      return Err(PasswordMismatch);
    }
    if !PassesValidation(input) {
      return Err(ValidationFailed);
    }
    if EmailExists(db.users, input.email) {
      return Err(DuplicateEmail);
    }
    db.users := db.users[newId := NewUser(input, hash)];
    return Ok(newId);
  }

  /** Registration keeps the relation sets consistent and keeps e-mails
      unique; the new user is verified and has no relations. */
  lemma RegisterKeepsStoreSound(users: map<UserId, User>, input: RegisterInput, newId: UserId, hash: string -> string)
    requires newId !in users && Matching.Consistent(users) && UniqueEmails(users)
    requires PassesValidation(input) && !EmailExists(users, input.email)
    ensures Matching.Consistent(users[newId := NewUser(input, hash)])
    ensures UniqueEmails(users[newId := NewUser(input, hash)])
    ensures NewUser(input, hash).isVerified && NewUser(input, hash).email == input.email
  {
    var u := NewUser(input, hash);
    var users' := users[newId := u];
    assert forall x :: x in users ==> newId !in users[x].likes && newId !in users[x].likedBy && newId !in users[x].matches;
  }

  /** The unique index on `email`. */
  predicate UniqueEmails(users: map<UserId, User>)
  {
    forall a, b :: a in users && b in users && a != b ==> users[a].email != users[b].email
  }

  // ─── verifyResetPasswordOTP / resetPassword ─────────────────────────

  /** `verifyResetPasswordOTP`: 200 exactly when `verifyOTP` accepts. */
  method VerifyResetPasswordOtp(db: Database, email: string, otp: string, now: int) returns (status: HttpStatus)
    modifies db`otps
    ensures status == Ok200 <==> FirstRedeemable(old(db.otps), email, otp, OtpPurpose.ResetPassword, now).Some?
    ensures status != Ok200 ==> status == BadRequest400
    ensures db.otps == AfterVerify(old(db.otps), email, otp, OtpPurpose.ResetPassword, now)
  {
    var valid := VerifyOtp(db, email, otp, OtpPurpose.ResetPassword, now);
    if !valid {
      return BadRequest400;
    }
    return Ok200;
  }

  /** `resetPassword`: on matching passwords, set the password of the user
      with that e-mail to the hash of the new one; nothing else changes. */
  method ResetPassword(db: Database, email: string, newPassword: string, confirmPassword: string, hash: string -> string)
    returns (r: Result<UserId, AccountError>)
    modifies db`users
    ensures newPassword != confirmPassword ==> r == Err(PasswordMismatch) && db.users == old(db.users)
    ensures newPassword == confirmPassword && !EmailExists(old(db.users), email) ==>
      r == Err(UserNotFound) && db.users == old(db.users)
    ensures r.Ok? <==> newPassword == confirmPassword && EmailExists(old(db.users), email)
    ensures r.Ok? ==> && r.value in old(db.users) && old(db.users)[r.value].email == email
                      && db.users == old(db.users)[r.value := old(db.users)[r.value].(password := hash(newPassword))]
  {
    if newPassword != confirmPassword {
      return Err(PasswordMismatch);
    }
    if !EmailExists(db.users, email) {
      return Err(UserNotFound);
    }
    var id :| id in db.users && db.users[id].email == email;
    db.users := db.users[id := db.users[id].(password := hash(newPassword))];
    return Ok(id);
  }

  /** With unique e-mails the reset hits the one account with that e-mail,
      changes only its password and keeps the relation sets consistent. */
  lemma ResetHitsTheOwner(users: map<UserId, User>, id: UserId, email: string, pw: string)
    requires UniqueEmails(users) && Matching.Consistent(users)
    requires id in users && users[id].email == email
    ensures forall other :: other in users && users[other].email == email ==> other == id
    ensures Matching.Consistent(users[id := users[id].(password := pw)])
    ensures UniqueEmails(users[id := users[id].(password := pw)])
  {
    var users' := users[id := users[id].(password := pw)];
    Matching.SameRelationsConsistent(users, users');
    forall a, b | a in users' && b in users' && a != b
      ensures users'[a].email != users'[b].email
    {
      assert users'[a].email == users[a].email && users'[b].email == users[b].email;
    }
  }

  // ─── refresh tokens ─────────────────────────────────────────────────

  /** `findOneAndUpdate({ user_id }, { refreshtoken }, { upsert: true })`: the
      first record of the user takes the token, or a record is added. */
  function UpsertToken(tokens: seq<RefreshTokenRecord>, userId: UserId, token: string): seq<RefreshTokenRecord>
  {
    if tokens == [] then [RefreshTokenRecord(token, userId)]
    else if tokens[0].userId == userId then [tokens[0].(token := token)] + tokens[1..]
    else [tokens[0]] + UpsertToken(tokens[1..], userId, token)
  }

  /** `deleteOne({ refreshtoken })`: the first record holding the token goes. */
  function DeleteFirstToken(tokens: seq<RefreshTokenRecord>, token: string): seq<RefreshTokenRecord>
  {
    if tokens == [] then []
    else if tokens[0].token == token then tokens[1..]
    else [tokens[0]] + DeleteFirstToken(tokens[1..], token)
  }

  /** `deleteMany({ user_id })`. */
  function DeleteUserTokens(tokens: seq<RefreshTokenRecord>, userId: UserId): (r: seq<RefreshTokenRecord>)
    ensures forall x :: x in r <==> x in tokens && x.userId != userId
  {
    if tokens == [] then []
    else
      var rest := DeleteUserTokens(tokens[1..], userId);
      assert forall x :: x in tokens <==> x == tokens[0] || x in tokens[1..];
      if tokens[0].userId == userId then rest else [tokens[0]] + rest
  }

  /** `login`: store the freshly signed refresh token as the user's. */
  method Login(db: Database, userId: UserId, accessToken: string, refreshToken: string)
    returns (tokens: (string, string))
    modifies db`refreshTokens
    ensures tokens == (accessToken, refreshToken)
    ensures db.refreshTokens == UpsertToken(old(db.refreshTokens), userId, refreshToken)
  {
    db.refreshTokens := UpsertToken(db.refreshTokens, userId, refreshToken);
    return (accessToken, refreshToken);
  }

  /** `refreshToken`: delete the presented token, store the new one. */
  method RefreshToken(db: Database, userId: UserId, presented: string, newAccess: string, newRefresh: string)
    returns (tokens: (string, string))
    modifies db`refreshTokens
    ensures tokens == (newAccess, newRefresh)
    ensures db.refreshTokens == DeleteFirstToken(old(db.refreshTokens), presented) + [RefreshTokenRecord(newRefresh, userId)]
  {
    db.refreshTokens := DeleteFirstToken(db.refreshTokens, presented);
    db.refreshTokens := db.refreshTokens + [RefreshTokenRecord(newRefresh, userId)];
    return (newAccess, newRefresh);
  }

  /** `logout`. */
  method Logout(db: Database, userId: UserId)
    modifies db`refreshTokens
    ensures db.refreshTokens == DeleteUserTokens(old(db.refreshTokens), userId)
  {
    db.refreshTokens := DeleteUserTokens(db.refreshTokens, userId);
  }

  function TokenCount(tokens: seq<RefreshTokenRecord>, token: string): nat
  {
    if tokens == [] then 0 else (if tokens[0].token == token then 1 else 0) + TokenCount(tokens[1..], token)
  }

  /** After login the user holds the new token, and no other user's records
      change. */
  lemma {:induction false} LoginStoresToken(tokens: seq<RefreshTokenRecord>, userId: UserId, token: string)
    ensures RefreshTokenRecord(token, userId) in UpsertToken(tokens, userId, token)
    ensures forall x :: x in tokens && x.userId != userId ==> x in UpsertToken(tokens, userId, token)
    ensures forall x :: x in UpsertToken(tokens, userId, token) && x.userId != userId ==> x in tokens
  {
    if tokens != [] && tokens[0].userId != userId {
      LoginStoresToken(tokens[1..], userId, token);
      assert forall x :: x in tokens <==> x == tokens[0] || x in tokens[1..];
    }
  }

  /** A refresh removes one occurrence of the presented token and adds the new
      one: a token stored once can no longer be presented again. */
  lemma {:induction false} RefreshRotates(tokens: seq<RefreshTokenRecord>, presented: string)
    ensures TokenCount(DeleteFirstToken(tokens, presented), presented) ==
      if TokenCount(tokens, presented) == 0 then 0 else TokenCount(tokens, presented) - 1
    ensures |DeleteFirstToken(tokens, presented)| == if TokenCount(tokens, presented) == 0 then |tokens| else |tokens| - 1
  {
    if tokens != [] && tokens[0].token != presented {
      RefreshRotates(tokens[1..], presented);
    }
  }

  /** After logout the user holds no refresh token; every other record stays. */
  lemma LogoutRemovesAll(tokens: seq<RefreshTokenRecord>, userId: UserId)
    ensures forall x :: x in DeleteUserTokens(tokens, userId) ==> x.userId != userId
    ensures forall x :: x in tokens && x.userId != userId ==> x in DeleteUserTokens(tokens, userId)
  {
  }

  // ─── updateProfile ──────────────────────────────────────────────────

  /** The optional fields of the request body; None is `undefined`. */
  datatype ProfilePatch = ProfilePatch(
    name: Option<string>, age: Option<int>, gender: Option<Gender>, bio: Option<string>, avatar: Option<string>)

  function Pick<T>(update: Option<T>, current: T): T
  {
    if update.Some? then update.value else current
  }

  /** `$set` of exactly the fields the body defines. */
  function ApplyPatch(u: User, p: ProfilePatch): User
  {
    u.(name := Pick(p.name, u.name), age := Pick(p.age, u.age), gender := Pick(p.gender, u.gender),
       bio := Pick(p.bio, u.bio), avatar := Pick(p.avatar, u.avatar))
  }

  /** `updateProfile`: a missing user is an error; otherwise only the defined
      fields are written and the updated user is returned without its password
      (`select: '-password'`; the empty string stands for the left-out field). */
  method UpdateProfile(db: Database, userId: UserId, patch: ProfilePatch) returns (r: Result<User, AccountError>)
    modifies db`users
    ensures userId !in old(db.users) ==> r == Err(ProfileNotFound) && db.users == old(db.users)
    ensures userId in old(db.users) ==> && db.users == old(db.users)[userId := ApplyPatch(old(db.users)[userId], patch)]
                                        && r == Ok(db.users[userId].(password := ""))
  {
    if userId !in db.users {
      return Err(ProfileNotFound);
    }
    var updated := ApplyPatch(db.users[userId], patch);
    db.users := db.users[userId := updated];
    return Ok(updated.(password := ""));
  }

  /** A defined field takes the new value and an undefined one keeps the old;
      authentication, status and relation fields never change. */
  lemma PatchWritesDefinedFields(u: User, p: ProfilePatch)
    ensures var v := ApplyPatch(u, p);
      && (p.name.Some? ==> v.name == p.name.value) && (p.name.None? ==> v.name == u.name)
      && (p.age.Some? ==> v.age == p.age.value) && (p.age.None? ==> v.age == u.age)
      && (p.gender.Some? ==> v.gender == p.gender.value) && (p.gender.None? ==> v.gender == u.gender)
      && (p.bio.Some? ==> v.bio == p.bio.value) && (p.bio.None? ==> v.bio == u.bio)
      && (p.avatar.Some? ==> v.avatar == p.avatar.value) && (p.avatar.None? ==> v.avatar == u.avatar)
      && v.email == u.email && v.password == u.password && v.isVerified == u.isVerified && v.isActive == u.isActive
      && v.likes == u.likes && v.likedBy == u.likedBy && v.matches == u.matches && v.seenPosts == u.seenPosts
  {
  }

  /** Two successive updates are one update with the later fields winning;
      in particular the same update twice is the update once. */
  lemma PatchesCompose(u: User, p: ProfilePatch, q: ProfilePatch)
    ensures ApplyPatch(ApplyPatch(u, p), q) == ApplyPatch(u, Merge(p, q))
    ensures ApplyPatch(ApplyPatch(u, p), p) == ApplyPatch(u, p)
  {
  }

  function Merge(p: ProfilePatch, q: ProfilePatch): ProfilePatch
  {
    ProfilePatch(if q.name.Some? then q.name else p.name, if q.age.Some? then q.age else p.age,
                 if q.gender.Some? then q.gender else p.gender, if q.bio.Some? then q.bio else p.bio,
                 if q.avatar.Some? then q.avatar else p.avatar)
  }

  /** A profile update keeps the relation sets consistent. */
  lemma UpdateKeepsConsistency(users: map<UserId, User>, userId: UserId, p: ProfilePatch)
    requires Matching.Consistent(users) && userId in users
    ensures Matching.Consistent(users[userId := ApplyPatch(users[userId], p)])
  {
    var users' := users[userId := ApplyPatch(users[userId], p)];
    Matching.SameRelationsConsistent(users, users');
  }
}
