/** `CommunityLikeServiceImpl`: a member's like on a community post is a
    toggle, and a post's like count is the number of its active likes. */
module CommunityLikeService {
  import opened Common
  import opened Tables
  import opened Repositories

  /** `existsByMemberCodeAndCommunityPostCodeAndActiveTrue`. */
  predicate HasActiveLike(likes: seq<CommunityLike>, memberCode: int, postCode: int) {
    var row := Lookup(likes, CommunityLikeKey, (memberCode, postCode));
    row.Some? && row.value.active
  }

  /** The rows `findByCommunityPostCodeAndActiveTrue` selects. */
  function ActiveLikeOf(postCode: int): CommunityLike -> bool {
    (l: CommunityLike) => l.active && l.postCode == postCode
  }

  /** `addLike` as a function of the tables. The login must name a member,
      then the post must exist, in that order. The saved like carries the
      member's and the post's codes, is created now, and is active exactly
      when no active like of the pair existed: saving merges it over the
      pair's row. */
  function AddLikeOutcome(users: seq<Member>, posts: seq<CommunityPost>, likes: seq<CommunityLike>,
                          loginId: string, postCode: int, now: int): (Outcome, seq<CommunityLike>)
    requires Coded(posts, PostCodeOf)
  {
    var member := FindUser(users, loginId);
    if member.None? then (Fail(InvalidUser), likes)
    else
      var post := FindByCode(posts, PostCodeOf, postCode);
      if post.None? then (Fail(CommunityPostNotFound), likes)
      else
        var m := member.value.memberCode;
        var p := post.value.postCode;
        (Done, Upsert(likes, CommunityLikeKey, CommunityLike(m, p, now, !HasActiveLike(likes, m, p))))
  }

  /** A successful `addLike` flips the pair's like and leaves every other
      pair's as it was. */
  lemma {:induction false} AddLikeToggles(users: seq<Member>, posts: seq<CommunityPost>, likes: seq<CommunityLike>,
                                          loginId: string, postCode: int, now: int, m: int, p: int)
    requires Coded(posts, PostCodeOf)
    requires FindUser(users, loginId).Some? && FindByCode(posts, PostCodeOf, postCode).Some?
    ensures var after := AddLikeOutcome(users, posts, likes, loginId, postCode, now);
      var member := FindUser(users, loginId).value.memberCode;
      after.0 == Done
      && HasActiveLike(after.1, member, postCode) == !HasActiveLike(likes, member, postCode)
      && ((m, p) != (member, postCode) ==> HasActiveLike(after.1, m, p) == HasActiveLike(likes, m, p))
  {
  }

  /** Two `addLike` calls in a row give the pair back its like status: the
      like is a toggle. */
  lemma {:induction false} AddLikeTwice(users: seq<Member>, posts: seq<CommunityPost>, likes: seq<CommunityLike>,
                                        loginId: string, postCode: int, now: int, later: int)
    requires Coded(posts, PostCodeOf)
    requires FindUser(users, loginId).Some? && FindByCode(posts, PostCodeOf, postCode).Some?
    ensures var once := AddLikeOutcome(users, posts, likes, loginId, postCode, now).1;
      var twice := AddLikeOutcome(users, posts, once, loginId, postCode, later).1;
      var member := FindUser(users, loginId).value.memberCode;
      HasActiveLike(twice, member, postCode) == HasActiveLike(likes, member, postCode)
  {
    var once := AddLikeOutcome(users, posts, likes, loginId, postCode, now).1;
    AddLikeToggles(users, posts, likes, loginId, postCode, now, 0, 0);
    AddLikeToggles(users, posts, once, loginId, postCode, later, 0, 0);
  }

  /** A successful `addLike` moves the post's like count by exactly one, up
      when it likes and down when it unlikes, and leaves every other post's
      count as it was. */
  lemma {:induction false} AddLikeCount(users: seq<Member>, posts: seq<CommunityPost>, likes: seq<CommunityLike>,
                                        loginId: string, postCode: int, now: int, other: int)
    requires Coded(posts, PostCodeOf)
    requires FindUser(users, loginId).Some? && FindByCode(posts, PostCodeOf, postCode).Some?
    ensures var after := AddLikeOutcome(users, posts, likes, loginId, postCode, now).1;
      var member := FindUser(users, loginId).value.memberCode;
      |Filter(after, ActiveLikeOf(postCode))| ==
        |Filter(likes, ActiveLikeOf(postCode))| + (if HasActiveLike(likes, member, postCode) then -1 else 1)
      && (other != postCode ==> |Filter(after, ActiveLikeOf(other))| == |Filter(likes, ActiveLikeOf(other))|)
  {
    var member := FindUser(users, loginId).value.memberCode;
    var row := CommunityLike(member, postCode, now, !HasActiveLike(likes, member, postCode));
    FilterCountUpsert(likes, CommunityLikeKey, row, ActiveLikeOf(postCode));
    FilterCountUpsert(likes, CommunityLikeKey, row, ActiveLikeOf(other));
  }

  /** `CommunityLikeCountDTO`. */
  datatype LikeCount = LikeCount(postCode: int, likeCount: int)

  class CommunityLikeService {
    const users: UserRepository
    const posts: CommunityPostRepository
    const likes: CommunityLikeRepository

    constructor (users: UserRepository, posts: CommunityPostRepository, likes: CommunityLikeRepository)
      ensures this.users == users && this.posts == posts && this.likes == likes
    {
      this.users := users;
      this.posts := posts;
      this.likes := likes;
    }

    ghost predicate Valid() reads users, posts, likes {
      users.Valid() && posts.Valid() && likes.Valid()
    }

    /** `addLike`, over the repositories; it saves exactly what `AddLikeOutcome` describes. */
    method AddLike(loginId: string, postCode: int, now: int) returns (out: Outcome)
      requires Valid()
      modifies likes
      ensures Valid()
      ensures (out, likes.rows) == AddLikeOutcome(users.rows, posts.rows, old(likes.rows), loginId, postCode, now)
    {
      var member := FindUser(users.rows, loginId);
      if member.None? {
        return Fail(InvalidUser);
      }
      var post := FindByCode(posts.rows, PostCodeOf, postCode);
      if post.None? {
        return Fail(CommunityPostNotFound);
      }
      var added := CommunityLike(member.value.memberCode, post.value.postCode, now, true);
      if HasActiveLike(likes.rows, member.value.memberCode, post.value.postCode) {
        added := added.(active := false);
      }
      likes.rows := Upsert(likes.rows, CommunityLikeKey, added);
      return Done;
    }

    /** `countLike`: the post must exist; its active likes are counted one by one. */
    method CountLike(postCode: int) returns (r: Result<LikeCount>)
      requires Valid()
      ensures FindByCode(posts.rows, PostCodeOf, postCode).None? <==> r == Failure(CommunityPostNotFound)
      ensures r.Success? ==>
        r.value == LikeCount(postCode, |Filter(likes.rows, ActiveLikeOf(postCode))|)
    {
      var post := FindByCode(posts.rows, PostCodeOf, postCode);
      if post.None? {
        return Failure(CommunityPostNotFound);
      }
      var found := Filter(likes.rows, ActiveLikeOf(postCode));
      var likeCount := 0;
      var i := 0;
      while i < |found|
        invariant 0 <= i <= |found|
        invariant likeCount == i
      {
        likeCount := likeCount + 1;
        i := i + 1;
      }
      return Success(LikeCount(post.value.postCode, likeCount));
    }
  }
}
