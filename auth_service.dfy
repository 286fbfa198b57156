/** The user table behind sign-up, sign-in, profile editing and account deletion
    (backend/src/auth/auth.service.ts). The table is a sequence of rows whose ids
    come from an auto-increment counter; bcrypt and JWT signing are functions the
    service is given, and every image URL handed to the image service for
    deletion is recorded in order. */
module Auth {
  import opened Wrappers
  import opened Tables
  import opened HttpErrors
  import opened UpdateProfileDto

  datatype User = User(
    id: nat, userId: string, password: string, nickname: string,
    profileImage: Option<string>, createdAt: int, updatedAt: int)

  /** A user without its password: `const { password: _, ...result } = user`. */
  datatype PublicUser = PublicUser(
    id: nat, userId: string, nickname: string, profileImage: Option<string>, createdAt: int, updatedAt: int)

  /** The JWT payload of `generateToken`. */
  datatype TokenPayload = TokenPayload(sub: nat, userId: string, nickname: string)

  datatype Session = Session(user: PublicUser, token: string)

  const UserIdTakenMessage := "이미 존재하는 사용자 ID입니다."
  const NicknameTakenMessage := "이미 존재하는 닉네임입니다."
  const InvalidCredentialsMessage := "사용자 ID 또는 비밀번호가 올바르지 않습니다."
  const UserNotFoundMessage := "사용자를 찾을 수 없습니다."
  const NicknameInUseMessage := "이미 사용 중인 닉네임입니다."
  const WrongPasswordMessage := "비밀번호가 올바르지 않습니다."
  const AccountDeletedMessage := "회원 탈퇴가 성공적으로 완료되었습니다."

  function Public(u: User): (p: PublicUser)
    ensures p.id == u.id && p.userId == u.userId && p.nickname == u.nickname && p.profileImage == u.profileImage
    ensures p.createdAt == u.createdAt && p.updatedAt == u.updatedAt
  {
    PublicUser(u.id, u.userId, u.nickname, u.profileImage, u.createdAt, u.updatedAt)
  }

  /** The token claims: the id as `sub`, the userId and the nickname; never the
      password hash or the image. */
  function PayloadOf(u: User): (claims: TokenPayload)
    ensures claims.sub == u.id && claims.userId == u.userId && claims.nickname == u.nickname
  {
    TokenPayload(u.id, u.userId, u.nickname)
  }

  /** JavaScript truthiness of a nullable string. */
  predicate Truthy(s: Option<string>) {
    s.Some? && s.value != ""
  }

  function HasId(id: nat): User -> bool { (u: User) => u.id == id }
  function HasUserId(userId: string): User -> bool { (u: User) => u.userId == userId }
  function HasNickname(nickname: string): User -> bool { (u: User) => u.nickname == nickname }
  function NotId(id: nat): User -> bool { (u: User) => u.id != id }

  /** `findOne({ where: { nickname } })` finds someone. */
  predicate NicknameHeld(users: seq<User>, nickname: string) {
    FindIndex(users, HasNickname(nickname)).Some?
  }

  lemma NicknameHeldIff(users: seq<User>, nickname: string)
    ensures NicknameHeld(users, nickname) <==> exists k | 0 <= k < |users| :: users[k].nickname == nickname
  {
    if NicknameHeld(users, nickname) {
      var k := FindIndex(users, HasNickname(nickname)).value;
      assert HasNickname(nickname)(users[k]);
    } else {
      forall k | 0 <= k < |users| ensures users[k].nickname != nickname {
        assert !HasNickname(nickname)(users[k]);
      }
    }
  }

  /** The table's unique keys: ids, userIds and nicknames, and every id below the
      next one to be handed out. */
  ghost predicate UniqueKeys(users: seq<User>, nextId: nat) {
    && (forall i, j | 0 <= i < j < |users| ::
          users[i].id != users[j].id && users[i].userId != users[j].userId && users[i].nickname != users[j].nickname)
    && (forall i | 0 <= i < |users| :: users[i].id < nextId)
  }

  /** The image after `updateProfile`, and the image handed over for deletion. */
  datatype ImageChange = ImageChange(image: Option<string>, deleted: Option<string>)

  /** The three-way image update of `updateProfile`. */
  function ChangeImage(current: Option<string>, update: ImageUpdate): (c: ImageChange)
    ensures update.Omitted? ==> c == ImageChange(current, None)
    ensures update.SetNull? ==> c.image == (if Truthy(current) then None else current)
    ensures update.SetValue? ==> c.image == (if update.url != "" then Some(update.url) else current)
    ensures c.deleted.Some? ==> Truthy(current) && c.deleted == current && c.image != current
    ensures c.image != current ==> c.deleted == (if Truthy(current) then current else None)
  {
    if update == SetNull && Truthy(current) then ImageChange(None, current)
    else if update.SetValue? && update.url != "" && Some(update.url) != current then
      ImageChange(Some(update.url), if Truthy(current) then current else None)
    else ImageChange(current, None)
  }

  /** Removing the row with a unique id removes exactly that row. */
  lemma RemoveOne(users: seq<User>, i: nat)
    requires i < |users|
    requires forall a, b | 0 <= a < b < |users| :: users[a].id != users[b].id
    ensures Filter(users, NotId(users[i].id)) == users[..i] + users[i + 1..]
  {
    var id := users[i].id;
    forall k | 0 <= k < |users| && k != i ensures NotId(id)(users[k]) {
      if k < i { assert users[k].id != users[i].id; } else { assert users[i].id != users[k].id; }
    }
    FilterRemovesOne(users, i, NotId(id));
  }

  /** Removing a row keeps the keys unique. */
  lemma RemoveKeepsKeys(users: seq<User>, nextId: nat, i: nat)
    requires i < |users| && UniqueKeys(users, nextId)
    ensures UniqueKeys(users[..i] + users[i + 1..], nextId)
  {
    var rest := users[..i] + users[i + 1..];
    assert forall k | 0 <= k < |rest| :: rest[k] == if k < i then users[k] else users[k + 1];
  }

  class AuthService {
    /** `bcrypt.hash(password, 10)`; `bcrypt.compare(p, h)` is `hash(p) == h`. */
    const hash: string -> string
    /** `jwtService.sign`. */
    const sign: TokenPayload -> string
    var users: seq<User>
    var nextId: nat
    /** The URLs passed to `profileImageService.deleteImage`, in call order. */
    var imageDeletions: seq<string>

    ghost predicate Valid()
      reads this
    {
      UniqueKeys(users, nextId)
    }

    constructor(hash: string -> string, sign: TokenPayload -> string)
      ensures Valid()
      ensures this.hash == hash && this.sign == sign && users == [] && nextId == 0 && imageDeletions == []
    {
      this.hash := hash;
      this.sign := sign;
      users := [];
      nextId := 0;
      imageDeletions := [];
    }

    /** `generateToken`. */
    function Token(u: User): string
      reads this
    {
      sign(PayloadOf(u))
    }

    /** The token depends on the id, userId and nickname only: changing the
        password, the image or the dates keeps it. */
    lemma TokenIgnoresSecrets(u: User, v: User)
      requires v.id == u.id && v.userId == u.userId && v.nickname == u.nickname
      ensures Token(v) == Token(u)
    {
    }

    /** `signUp`: the userId is checked first, then the nickname; a new row keeps
        the hash of the password and a missing image as null. */
    method SignUp(userId: string, password: string, nickname: string, profileImage: Option<string>, now: int)
      returns (r: Result<Session, HttpError>)
      requires Valid()
      modifies this
      ensures Valid() && imageDeletions == old(imageDeletions)
      ensures (exists k | 0 <= k < |old(users)| :: old(users)[k].userId == userId) ==>
        r == Failure(Conflict(UserIdTakenMessage)) && users == old(users) && nextId == old(nextId)
      ensures ((forall k | 0 <= k < |old(users)| :: old(users)[k].userId != userId) &&
               (exists k | 0 <= k < |old(users)| :: old(users)[k].nickname == nickname)) ==>
        r == Failure(Conflict(NicknameTakenMessage)) && users == old(users) && nextId == old(nextId)
      ensures r.Success? ==>
        var u := User(old(nextId), userId, hash(password), nickname, profileImage, now, now);
        && users == old(users) + [u] && nextId == old(nextId) + 1
        && r.value == Session(Public(u), Token(u))
      ensures r.Failure? ==> users == old(users)
      ensures ((forall k | 0 <= k < |old(users)| :: old(users)[k].userId != userId && old(users)[k].nickname != nickname)) ==>
        r.Success?
    {
      var existingUser := FindIndex(users, HasUserId(userId));
      if existingUser.Some? {
        r := Failure(Conflict(UserIdTakenMessage));
        return;
      }
      forall k | 0 <= k < |users| ensures users[k].userId != userId {
        assert !HasUserId(userId)(users[k]);
      }
      var existingNickname := FindIndex(users, HasNickname(nickname));
      NicknameHeldIff(users, nickname);
      if existingNickname.Some? {
        r := Failure(Conflict(NicknameTakenMessage));
        return;
      }
      var hashedPassword := hash(password);
      var user := User(nextId, userId, hashedPassword, nickname, profileImage, now, now);
      users := users + [user];
      nextId := nextId + 1;
      r := Success(Session(Public(user), sign(PayloadOf(user))));
    }

    /** A sign-up that succeeds can be followed by a sign-in with the same userId
        and password, which returns the same user and token. */
    method SignUpThenSignIn(userId: string, password: string, nickname: string, profileImage: Option<string>, now: int)
      returns (up: Result<Session, HttpError>, signedIn: Result<Session, HttpError>)
      requires Valid()
      modifies this
      ensures Valid()
      ensures up.Success? ==> signedIn == up
    {
      up := SignUp(userId, password, nickname, profileImage, now);
      signedIn := SignIn(userId, password);
      if up.Success? {
        var last := |users| - 1;
        assert users[last].userId == userId && users[last].password == hash(password);
        var k :| 0 <= k < |users| && users[k].userId == userId && signedIn.value == Session(Public(users[k]), Token(users[k]));
        assert k == last;
      }
    }

    /** `signIn`: the same error for an unknown userId and a wrong password. */
    method SignIn(userId: string, password: string) returns (r: Result<Session, HttpError>)
      requires Valid()
      ensures r.Success? <==> exists k | 0 <= k < |users| :: users[k].userId == userId && users[k].password == hash(password)
      ensures r.Success? ==> exists k | 0 <= k < |users| :: users[k].userId == userId && r.value == Session(Public(users[k]), Token(users[k]))
      ensures r.Failure? ==> r.error == Unauthorized(InvalidCredentialsMessage)
    {
      var found := FindIndex(users, HasUserId(userId));
      if found.None? {
        r := Failure(Unauthorized(InvalidCredentialsMessage));
        forall k | 0 <= k < |users| ensures users[k].userId != userId {
          assert !HasUserId(userId)(users[k]);
        }
        return;
      }
      var f := found.value;
      var user := users[f];
      if hash(password) != user.password {
        r := Failure(Unauthorized(InvalidCredentialsMessage));
        forall k | 0 <= k < |users| && users[k].userId == userId ensures k == f {
          assert HasUserId(userId)(user);
        }
        return;
      }
      assert HasUserId(userId)(user);
      r := Success(Session(Public(user), sign(PayloadOf(user))));
    }

    /** `findUserById`: the row without its password, or null. */
    function FindUserById(id: nat): (found: Option<PublicUser>)
      reads this
      ensures found.Some? ==> exists k | 0 <= k < |users| :: users[k].id == id && found.value == Public(users[k])
      ensures found.None? <==> forall k | 0 <= k < |users| :: users[k].id != id
    {
      match FindIndex(users, HasId(id))
      case Some(k) => Some(Public(users[k]))
      case None =>
        assert forall k | 0 <= k < |users| :: !HasId(id)(users[k]);
        None
    }

    /** `updateProfile`: a missing user, then a nickname taken by someone else,
        are refused; otherwise the image changes as `ChangeImage` says and the
        nickname is set. */
    method UpdateProfile(id: nat, nickname: string, update: ImageUpdate, now: int)
      returns (r: Result<PublicUser, HttpError>)
      requires Valid()
      modifies this
      ensures Valid() && nextId == old(nextId)
      ensures FindIndex(old(users), HasId(id)).None? ==>
        r == Failure(NotFound(UserNotFoundMessage)) && users == old(users) && imageDeletions == old(imageDeletions)
      ensures FindIndex(old(users), HasId(id)).Some? ==>
        var i := FindIndex(old(users), HasId(id)).value;
        var u := old(users)[i];
        if nickname != u.nickname && NicknameHeld(old(users), nickname) then
          r == Failure(Conflict(NicknameInUseMessage)) && users == old(users) && imageDeletions == old(imageDeletions)
        else
          var change := ChangeImage(u.profileImage, update);
          var u' := u.(nickname := nickname, profileImage := change.image, updatedAt := now);
          && users == old(users)[i := u']
          && imageDeletions == old(imageDeletions) + (if change.deleted.Some? then [change.deleted.value] else [])
          && r == Success(Public(u'))
    {
      var found := FindIndex(users, HasId(id));
      if found.None? {
        r := Failure(NotFound(UserNotFoundMessage));
        return;
      }
      var i := found.value;
      var user := users[i];
      if nickname != user.nickname {
        if FindIndex(users, HasNickname(nickname)).Some? {
          r := Failure(Conflict(NicknameInUseMessage));
          return;
        }
        NicknameHeldIff(users, nickname);
      }
      if update == SetNull && Truthy(user.profileImage) {
        imageDeletions := imageDeletions + [user.profileImage.value];
        user := user.(profileImage := None);
      } else if update.SetValue? && update.url != "" && Some(update.url) != user.profileImage {
        if Truthy(user.profileImage) {
          imageDeletions := imageDeletions + [user.profileImage.value];
        }
        user := user.(profileImage := Some(update.url));
      }
      user := user.(nickname := nickname, updatedAt := now);
      users := users[i := user];
      r := Success(Public(user));
    }

    /** `checkNicknameAvailability`. */
    method CheckNicknameAvailability(nickname: string) returns (available: bool)
      ensures available <==> forall k | 0 <= k < |users| :: users[k].nickname != nickname
    {
      var existingUser := FindIndex(users, HasNickname(nickname));
      NicknameHeldIff(users, nickname);
      available := existingUser.None?;
    }

    /** `deleteAccount`: the password is checked before anything is deleted;
        then the image, if any, and exactly that row go. */
    method DeleteAccount(id: nat, password: string) returns (r: Result<string, HttpError>)
      requires Valid()
      modifies this
      ensures Valid() && nextId == old(nextId)
      ensures FindIndex(old(users), HasId(id)).None? ==>
        r == Failure(NotFound(UserNotFoundMessage)) && users == old(users) && imageDeletions == old(imageDeletions)
      ensures FindIndex(old(users), HasId(id)).Some? ==>
        var i := FindIndex(old(users), HasId(id)).value;
        var u := old(users)[i];
        if hash(password) != u.password then
          r == Failure(Unauthorized(WrongPasswordMessage)) && users == old(users) && imageDeletions == old(imageDeletions)
        else
          && users == old(users)[..i] + old(users)[i + 1..]
          && imageDeletions == old(imageDeletions) + (if Truthy(u.profileImage) then [u.profileImage.value] else [])
          && r == Success(AccountDeletedMessage)
    {
      var found := FindIndex(users, HasId(id));
      if found.None? {
        r := Failure(NotFound(UserNotFoundMessage));
        return;
      }
      var i := found.value;
      var user := users[i];
      if hash(password) != user.password {
        r := Failure(Unauthorized(WrongPasswordMessage));
        return;
      }
      if Truthy(user.profileImage) {
        imageDeletions := imageDeletions + [user.profileImage.value];
      }
      RemoveOne(users, i);
      RemoveKeepsKeys(users, nextId, i);
      users := Filter(users, NotId(user.id));
      r := Success(AccountDeletedMessage);
    }
  }
}
