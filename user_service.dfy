/** `UserServiceImpl`: sign-up with its duplicate checks, login and the
    refresh-token round trip kept in the token store, the blank-safe
    availability checks, profile updates and point awards. The password
    encoder and the JWT library are given as parameters: `matches` stands for
    `passwordEncoder.matches`, and a token's validity and subject are passed
    in as already decoded. */
module UserService {
  import opened Common
  import opened Tables
  import opened Repositories
  import opened RedisService

  /** `existsById`, `existsByNickname`, `existsByEmail`. */
  predicate IdTaken(users: seq<Member>, id: string) {
    FindUser(users, id).Some?
  }

  predicate NicknameTaken(users: seq<Member>, nickname: string) {
    exists j :: 0 <= j < |users| && users[j].nickname == nickname
  }

  predicate EmailTaken(users: seq<Member>, email: string) {
    exists j :: 0 <= j < |users| && users[j].email == email
  }

  /** The directory part of every stored profile image URL. */
  const ProfileFilesPrefix := "/uploadFiles/profileFile/"

  /** The stored URL of a profile image: the prefix, the UUID without its
      dashes, '_' and the original file name. */
  function ProfileImageUrl(uuid: string, fileName: string): (url: string)
    ensures StartsWith(url, ProfileFilesPrefix)
    ensures url[|ProfileFilesPrefix|..] == RemoveChar(uuid, '-') + "_" + fileName
    ensures '-' !in url[|ProfileFilesPrefix|..|ProfileFilesPrefix| + |RemoveChar(uuid, '-')|]
  {
    var url := ProfileFilesPrefix + RemoveChar(uuid, '-') + "_" + fileName;
    assert url[|ProfileFilesPrefix|..] == RemoveChar(uuid, '-') + "_" + fileName;
    assert url[|ProfileFilesPrefix|..|ProfileFilesPrefix| + |RemoveChar(uuid, '-')|] == RemoveChar(uuid, '-');
    url
  }

  /** `signup` and `signupWithoutProfile` as a function of the member table:
      the id, then the nickname, then the e-mail must be unused, the first
      one taken naming the error; otherwise a member with the encoded
      password, the given image (null without a profile) and no points is
      appended. */
  function SignupOutcome(users: seq<Member>, id: string, encodedPassword: string, nickname: string,
                         email: string, isAdmin: bool, image: Option<string>)
    : (r: (Result<Member>, seq<Member>))
    requires Coded(users, MemberCodeOf) && UniqueKeys(users, MemberIdOf)
    ensures Coded(r.1, MemberCodeOf) && UniqueKeys(r.1, MemberIdOf)
    ensures r.0 == Failure(Duplicate(DuplicateId)) <==> IdTaken(users, id)
    ensures r.0 == Failure(Duplicate(DuplicateNickname)) <==> !IdTaken(users, id) && NicknameTaken(users, nickname)
    ensures r.0 == Failure(Duplicate(DuplicateEmail))
      <==> !IdTaken(users, id) && !NicknameTaken(users, nickname) && EmailTaken(users, email)
    ensures r.0.Failure? ==> r.1 == users && r.0.error.Duplicate?
    ensures r.0.Success? ==>
      r.1 == users + [r.0.value]
      && r.0.value == Member(|users| + 1, id, encodedPassword, nickname, email, isAdmin, image, 0)
      && FindUser(r.1, id) == Some(r.0.value)
  {
    if IdTaken(users, id) then (Failure(Duplicate(DuplicateId)), users)
    else if NicknameTaken(users, nickname) then (Failure(Duplicate(DuplicateNickname)), users)
    else if EmailTaken(users, email) then (Failure(Duplicate(DuplicateEmail)), users)
    else
      var user := Member(|users| + 1, id, encodedPassword, nickname, email, isAdmin, image, 0);
      CodedAppend(users, MemberCodeOf, user);
      UniqueKeysAppend(users, user);
      LookupAppendMember(users, user);
      (Success(user), users + [user])
  }

  /** Appending a member whose login is unused keeps logins unique. */
  lemma UniqueKeysAppend(users: seq<Member>, user: Member)
    requires UniqueKeys(users, MemberIdOf) && !IdTaken(users, user.id)
    ensures UniqueKeys(users + [user], MemberIdOf)
  {
    var r := users + [user];
    forall p, q | 0 <= p < q < |r| ensures r[p].id != r[q].id {
      if q == |users| {
        assert r[p] == users[p];
      } else {
        assert r[p] == users[p] && r[q] == users[q];
      }
    }
  }

  /** A member appended under an unused login is the one found by it. */
  lemma LookupAppendMember(users: seq<Member>, user: Member)
    requires !IdTaken(users, user.id)
    ensures FindUser(users + [user], user.id) == Some(user)
  {
    var r := users + [user];
    assert r[|users|].id == user.id;
    assert forall i :: 0 <= i < |users| ==> r[i] == users[i];
  }

  /** `SignResponseDto`: the two tokens handed out at login. */
  datatype SignResponse = SignResponse(accessToken: string, refreshToken: string)

  /** `login` as a function of the member table and the token store: an
      unknown id fails with `MemberNotFound`, a wrong password with
      `PasswordNotMatched`; success stores the refresh token under the id and
      returns both tokens. */
  function LoginOutcome(users: seq<Member>, kv: Store, id: string, password: string,
                        matches: (string, string) -> bool, accessToken: string, refreshToken: string)
    : (r: (Result<SignResponse>, Store))
    ensures r.0 == Failure(MemberNotFound) <==> !IdTaken(users, id)
    ensures r.0 == Failure(PasswordNotMatched)
      <==> IdTaken(users, id) && !matches(password, FindUser(users, id).value.password)
    ensures r.0.Failure? ==> r.1 == kv
    ensures r.0.Success? ==>
      r.0.value == SignResponse(accessToken, refreshToken)
      && TokenValid(r.1, id, Some(refreshToken))
      && (forall other :: other != id ==> TokenOf(r.1, other) == TokenOf(kv, other))
      && (forall email :: EmailCodeOf(r.1, email) == EmailCodeOf(kv, email))
  {
    var user := FindUser(users, id);
    if user.None? then (Failure(MemberNotFound), kv)
    else if !matches(password, user.value.password) then (Failure(PasswordNotMatched), kv)
    else (Success(SignResponse(accessToken, refreshToken)), WithToken(kv, user.value.id, refreshToken))
  }

  /** `refreshTokens`: a token the JWT check rejects fails with
      `ExpiredToken`; then its subject must be a member; then it must be the
      one stored for that member, else `ExpiredToken` again. Success returns
      the new access token. */
  function RefreshOutcome(users: seq<Member>, kv: Store, refreshToken: string, jwtValid: bool, subject: string,
                          newAccessToken: string)
    : (r: Result<string>)
    ensures r == Failure(MemberNotFound) <==> jwtValid && !IdTaken(users, subject)
    ensures r == Failure(ExpiredToken)
      <==> !jwtValid || (IdTaken(users, subject) && !TokenValid(kv, subject, Some(refreshToken)))
    ensures r.Success? <==> jwtValid && IdTaken(users, subject) && TokenOf(kv, subject) == Some(refreshToken)
    ensures r.Success? ==> r.value == newAccessToken
  {
    if !jwtValid then Failure(ExpiredToken)
    else if FindUser(users, subject).None? then Failure(MemberNotFound)
    else if !TokenValid(kv, subject, Some(refreshToken)) then Failure(ExpiredToken)
    else Success(newAccessToken)
  }

  /** A token handed out at login refreshes as long as the JWT check accepts
      it and its subject is the login. */
  lemma LoginThenRefresh(users: seq<Member>, kv: Store, id: string, password: string,
                         matches: (string, string) -> bool, accessToken: string, refreshToken: string,
                         newAccessToken: string)
    requires LoginOutcome(users, kv, id, password, matches, accessToken, refreshToken).0.Success?
    ensures var after := LoginOutcome(users, kv, id, password, matches, accessToken, refreshToken).1;
      RefreshOutcome(users, after, refreshToken, true, id, newAccessToken) == Success(newAccessToken)
  {
  }

  /** `logout`: the JWT check, then the member lookup, then the stored token
      of the subject is deleted. */
  function LogoutOutcome(users: seq<Member>, kv: Store, jwtValid: bool, subject: string)
    : (r: (Outcome, Store))
    ensures r.0 == Fail(ExpiredToken) <==> !jwtValid
    ensures r.0 == Fail(MemberNotFound) <==> jwtValid && !IdTaken(users, subject)
    ensures r.0 != Done ==> r.1 == kv
    ensures r.0 == Done ==>
      TokenOf(r.1, subject) == None
      && (forall other :: other != subject ==> TokenOf(r.1, other) == TokenOf(kv, other))
      && (forall email :: EmailCodeOf(r.1, email) == EmailCodeOf(kv, email))
  {
    if !jwtValid then (Fail(ExpiredToken), kv)
    else if FindUser(users, subject).None? then (Fail(MemberNotFound), kv)
    else (Done, WithoutToken(kv, subject))
  }

  /** After a logout the same refresh token no longer refreshes. */
  lemma LogoutThenRefresh(users: seq<Member>, kv: Store, subject: string, refreshToken: string,
                          newAccessToken: string)
    requires LogoutOutcome(users, kv, true, subject).0 == Done
    ensures RefreshOutcome(users, LogoutOutcome(users, kv, true, subject).1, refreshToken, true, subject,
                           newAccessToken) == Failure(ExpiredToken)
  {
  }

  /** `UserInfoResponseDto`. */
  datatype UserInfo = UserInfo(id: string, nickname: string, isAdmin: bool, image: Option<string>)

  /** `findUserInfoById`: the member's public fields, or `MemberNotFound`. */
  function FindUserInfo(users: seq<Member>, id: string): (r: Result<UserInfo>)
    ensures r.Failure? <==> !IdTaken(users, id)
    ensures r.Failure? ==> r.error == MemberNotFound
    ensures r.Success? ==>
      exists j :: 0 <= j < |users| && users[j].id == id
        && r.value == UserInfo(id, users[j].nickname, users[j].isAdmin, users[j].image)
  {
    var user := FindUser(users, id);
    if user.None? then Failure(MemberNotFound)
    else
      var j := IndexIn(users, user.value);
      Success(UserInfo(user.value.id, user.value.nickname, user.value.isAdmin, user.value.image))
  }

  /** `MyPageResponseDto`. */
  datatype MyPage = MyPage(nickname: string, point: int, image: Option<string>)

  /** The message of the `IllegalArgumentException` for an unknown login. */
  const UnknownUserMessage := "사용자를 찾을 수 없습니다."

  /** `findMyPageInfoById`: nickname, points and image; an unknown id fails
      with `IllegalArgument`, not `MemberNotFound`. */
  function FindMyPageInfo(users: seq<Member>, id: string): (r: Result<MyPage>)
    ensures r.Failure? <==> !IdTaken(users, id)
    ensures r.Failure? ==> r.error == IllegalArgument(UnknownUserMessage)
    ensures r.Success? ==>
      exists j :: 0 <= j < |users| && users[j].id == id
        && r.value == MyPage(users[j].nickname, users[j].point, users[j].image)
  {
    var user := FindUser(users, id);
    if user.None? then Failure(IllegalArgument(UnknownUserMessage))
    else
      var j := IndexIn(users, user.value);
      Success(MyPage(user.value.nickname, user.value.point, user.value.image))
  }

  /** `findId`: a blank id (empty after `trim`) is reported as not taken
      without a lookup, any other id as taken exactly when a member has it. */
  function FindId(users: seq<Member>, id: string): (r: bool)
    ensures r <==> (exists k :: 0 <= k < |id| && !IsTrimmed(id[k])) && IdTaken(users, id)
  {
    TrimEmptyIffBlank(id);
    if Trim(id) == [] then false else IdTaken(users, id)
  }

  /** `findNickName`: the same for nicknames. */
  function FindNickName(users: seq<Member>, nickname: string): (r: bool)
    ensures r <==> (exists k :: 0 <= k < |nickname| && !IsTrimmed(nickname[k])) && NicknameTaken(users, nickname)
  {
    TrimEmptyIffBlank(nickname);
    if Trim(nickname) == [] then false else NicknameTaken(users, nickname)
  }

  /** `updateUserInfo` as a function of the member table. The nickname, then
      the e-mail must be unused by every member (the caller included), then
      the login must exist. A missing file or a member without an image fails
      with `NullPointer`: the file name is compared with the stored image's
      last path segment. That comparison is by reference, so it never finds
      them equal, and the image is always replaced by the newly stored one.
      Then the e-mail and nickname are set; nothing else changes. */
  function UpdateUserInfoOutcome(users: seq<Member>, id: string, nickname: string, email: string,
                                 imageFile: Option<string>, uuid: string)
    : (r: (Outcome, seq<Member>))
    requires Coded(users, MemberCodeOf) && UniqueKeys(users, MemberIdOf)
    ensures Coded(r.1, MemberCodeOf) && UniqueKeys(r.1, MemberIdOf)
    ensures r.0 == Fail(Duplicate(DuplicateNickname)) <==> NicknameTaken(users, nickname)
    ensures r.0 == Fail(Duplicate(DuplicateEmail)) <==> !NicknameTaken(users, nickname) && EmailTaken(users, email)
    ensures r.0 == Fail(IllegalArgument(UnknownUserMessage))
      <==> !NicknameTaken(users, nickname) && !EmailTaken(users, email) && !IdTaken(users, id)
    ensures r.0 == Fail(NullPointer)
      <==> !NicknameTaken(users, nickname) && !EmailTaken(users, email) && IdTaken(users, id)
           && (imageFile.None? || FindUser(users, id).value.image.None?)
    ensures r.0 != Done ==> r.1 == users
    ensures r.0 == Done ==>
      imageFile.Some? && IdTaken(users, id) && |r.1| == |users|
      && var before := FindUser(users, id).value;
      var k := before.memberCode - 1;
      0 <= k < |users| && users[k] == before
      && r.1[k] == before.(nickname := nickname, email := email,
                           image := Some(ProfileImageUrl(uuid, imageFile.value)))
      && (forall j :: 0 <= j < |users| && j != k ==> r.1[j] == users[j])
  {
    if NicknameTaken(users, nickname) then (Fail(Duplicate(DuplicateNickname)), users)
    else if EmailTaken(users, email) then (Fail(Duplicate(DuplicateEmail)), users)
    else
      var user := FindUser(users, id);
      if user.None? then (Fail(IllegalArgument(UnknownUserMessage)), users)
      else if imageFile.None? || user.value.image.None? then (Fail(NullPointer), users)
      else
        var k := IndexIn(users, user.value);
        var updated := user.value.(image := Some(ProfileImageUrl(uuid, imageFile.value)),
                                   email := email, nickname := nickname);
        CodedUpdate(users, MemberCodeOf, updated);
        UniqueKeysReplace(users, MemberIdOf, k, updated);
        (Done, users[k := updated])
  }

  /** An update never succeeds when the nickname asked for is the member's
      own current one: the member itself counts as its holder. */
  lemma OwnNicknameRejected(users: seq<Member>, id: string, email: string, imageFile: Option<string>, uuid: string)
    requires Coded(users, MemberCodeOf) && UniqueKeys(users, MemberIdOf) && IdTaken(users, id)
    ensures var nickname := FindUser(users, id).value.nickname;
      UpdateUserInfoOutcome(users, id, nickname, email, imageFile, uuid).0 == Fail(Duplicate(DuplicateNickname))
  {
    var user := FindUser(users, id).value;
    var j := IndexIn(users, user);
    assert users[j].nickname == user.nickname;
  }

  /** A member who signed up without a profile image can never update their
      info: the stored image is null. */
  lemma NoProfileNoUpdate(users: seq<Member>, id: string, password: string, nickname: string, email: string,
                          isAdmin: bool, nickname': string, email': string, imageFile: Option<string>, uuid: string)
    requires Coded(users, MemberCodeOf) && UniqueKeys(users, MemberIdOf)
    requires SignupOutcome(users, id, password, nickname, email, isAdmin, None).0.Success?
    ensures var after := SignupOutcome(users, id, password, nickname, email, isAdmin, None).1;
      UpdateUserInfoOutcome(after, id, nickname', email', imageFile, uuid).0 != Done
  {
  }

  /** The member service over the member table and the token store. */
  class UserService {
    const users: UserRepository
    const redis: RedisService

    constructor (users: UserRepository, redis: RedisService)
      ensures this.users == users && this.redis == redis
    {
      this.users := users;
      this.redis := redis;
    }

    ghost predicate Valid() reads users {
      users.Valid()
    }

    /** The duplicate checks both sign-ups share, in their order. */
    method CheckDuplicates(id: string, nickname: string, email: string) returns (r: Option<DuplicateCode>)
      ensures r == Some(DuplicateId) <==> IdTaken(users.rows, id)
      ensures r == Some(DuplicateNickname) <==> !IdTaken(users.rows, id) && NicknameTaken(users.rows, nickname)
      ensures r == Some(DuplicateEmail)
        <==> !IdTaken(users.rows, id) && !NicknameTaken(users.rows, nickname) && EmailTaken(users.rows, email)
    {
      if IdTaken(users.rows, id) {
        return Some(DuplicateId);
      } else if NicknameTaken(users.rows, nickname) {
        return Some(DuplicateNickname);
      } else if EmailTaken(users.rows, email) {
        return Some(DuplicateEmail);
      }
      return None;
    }

    /** `signupWithoutProfile`: the member is saved with a null image. */
    method SignupWithoutProfile(id: string, encodedPassword: string, nickname: string, email: string, isAdmin: bool)
      returns (r: Result<Member>)
      requires Valid()
      modifies users
      ensures Valid()
      ensures (r, users.rows) == SignupOutcome(old(users.rows), id, encodedPassword, nickname, email, isAdmin, None)
    {
      var duplicate := CheckDuplicates(id, nickname, email);
      if duplicate.Some? {
        assert duplicate.value.DuplicateId? || duplicate.value.DuplicateNickname? || duplicate.value.DuplicateEmail?;
        return Failure(Duplicate(duplicate.value));
      }
      var user := Member(|users.rows| + 1, id, encodedPassword, nickname, email, isAdmin, None, 0);
      CodedAppend(users.rows, MemberCodeOf, user);
      UniqueKeysAppend(users.rows, user);
      users.rows := users.rows + [user];
      return Success(user);
    }

    /** `signup`: the member is saved with the URL of the uploaded image. */
    method Signup(id: string, encodedPassword: string, nickname: string, email: string, isAdmin: bool,
                  fileName: string, uuid: string)
      returns (r: Result<Member>)
      requires Valid()
      modifies users
      ensures Valid()
      ensures (r, users.rows)
        == SignupOutcome(old(users.rows), id, encodedPassword, nickname, email, isAdmin,
                         Some(ProfileImageUrl(uuid, fileName)))
    {
      var duplicate := CheckDuplicates(id, nickname, email);
      if duplicate.Some? {
        assert duplicate.value.DuplicateId? || duplicate.value.DuplicateNickname? || duplicate.value.DuplicateEmail?;
        return Failure(Duplicate(duplicate.value));
      }
      var url := ProfileImageUrl(uuid, fileName);
      var user := Member(|users.rows| + 1, id, encodedPassword, nickname, email, isAdmin, Some(url), 0);
      CodedAppend(users.rows, MemberCodeOf, user);
      UniqueKeysAppend(users.rows, user);
      users.rows := users.rows + [user];
      return Success(user);
    }

    /** `login`. */
    method Login(id: string, password: string, matches: (string, string) -> bool,
                 accessToken: string, refreshToken: string)
      returns (r: Result<SignResponse>)
      modifies redis
      ensures (r, redis.store)
        == LoginOutcome(users.rows, old(redis.store), id, password, matches, accessToken, refreshToken)
    {
      var user := FindUser(users.rows, id);
      if user.None? {
        return Failure(MemberNotFound);
      }
      if !matches(password, user.value.password) {
        return Failure(PasswordNotMatched);
      }
      redis.SaveRefreshToken(user.value.id, refreshToken);
      return Success(SignResponse(accessToken, refreshToken));
    }

    /** `refreshTokens`, over the member table and the token store. */
    function RefreshTokens(refreshToken: string, jwtValid: bool, subject: string, newAccessToken: string)
      : (r: Result<string>)
      reads users, redis
      ensures r.Success? <==> jwtValid && IdTaken(users.rows, subject)
                              && redis.GetRefreshToken(subject) == Some(refreshToken)
      ensures r.Success? ==> r.value == newAccessToken
      ensures r.Failure? ==> r.error == ExpiredToken || r.error == MemberNotFound
    {
      RefreshOutcome(users.rows, redis.store, refreshToken, jwtValid, subject, newAccessToken)
    }

    /** `logout`. */
    method Logout(jwtValid: bool, subject: string) returns (r: Outcome)
      modifies redis
      ensures (r, redis.store) == LogoutOutcome(users.rows, old(redis.store), jwtValid, subject)
    {
      if !jwtValid {
        return Fail(ExpiredToken);
      }
      var user := FindUser(users.rows, subject);
      if user.None? {
        return Fail(MemberNotFound);
      }
      redis.DeleteRefreshToken(subject);
      return Done;
    }

    /** `updateUserInfo`. */
    method UpdateUserInfo(id: string, nickname: string, email: string, imageFile: Option<string>, uuid: string)
      returns (r: Outcome)
      requires Valid()
      modifies users
      ensures Valid()
      ensures (r, users.rows) == UpdateUserInfoOutcome(old(users.rows), id, nickname, email, imageFile, uuid)
    {
      if NicknameTaken(users.rows, nickname) {
        return Fail(Duplicate(DuplicateNickname));
      }
      if EmailTaken(users.rows, email) {
        return Fail(Duplicate(DuplicateEmail));
      }
      var user := FindUser(users.rows, id);
      if user.None? {
        return Fail(IllegalArgument(UnknownUserMessage));
      }
      if imageFile.None? || user.value.image.None? {
        return Fail(NullPointer);
      }
      var k := IndexIn(users.rows, user.value);
      var updated := user.value.(image := Some(ProfileImageUrl(uuid, imageFile.value)));
      updated := updated.(email := email);
      updated := updated.(nickname := nickname);
      CodedUpdate(users.rows, MemberCodeOf, updated);
      UniqueKeysReplace(users.rows, MemberIdOf, k, updated);
      users.rows := users.rows[k := updated];
      return Done;
    }
  }
}
