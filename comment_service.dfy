/** `CommentServiceImpl`: comments on community posts, written, edited and
    soft-deleted by their authors, listed and counted per post. */
module CommentService {
  import opened Common
  import opened Tables
  import opened Repositories

  /** The comments `findByCommunityPostAndActiveTrue` selects. */
  function ActiveCommentOf(postCode: int): Comment -> bool {
    (c: Comment) => c.active && c.postCode == postCode
  }

  /** The number of active comments of a post. */
  function CommentCount(comments: seq<Comment>, postCode: int): nat {
    |Filter(comments, ActiveCommentOf(postCode))|
  }

  /** `createComment` as a function of the tables: the login must name a
      member, then the post must exist; the new comment is active, created now,
      with the given content, the member as author and the post as its post. */
  function CreateCommentOutcome(users: seq<Member>, posts: seq<CommunityPost>, comments: seq<Comment>,
                                loginId: string, postCode: int, content: string, now: int)
    : (r: (Outcome, seq<Comment>))
    requires Coded(posts, PostCodeOf) && Coded(comments, CommentCodeOf)
    ensures Coded(r.1, CommentCodeOf)
    ensures r.0 != Done ==> r.1 == comments
    ensures r.0 == Fail(InvalidUser) <==> FindUser(users, loginId).None?
    ensures r.0 == Fail(CommunityPostNotFound) <==>
      FindUser(users, loginId).Some? && FindByCode(posts, PostCodeOf, postCode).None?
    ensures r.0 == Done ==>
      |r.1| == |comments| + 1 && r.1[..|comments|] == comments
      && r.1[|comments|] == Comment(|comments| + 1, content, now, true, FindUser(users, loginId).value.memberCode, postCode)
  {
    var author := FindUser(users, loginId);
    if author.None? then (Fail(InvalidUser), comments)
    else
      var post := FindByCode(posts, PostCodeOf, postCode);
      if post.None? then (Fail(CommunityPostNotFound), comments)
      else
        var comment := Comment(|comments| + 1, content, now, true, author.value.memberCode, post.value.postCode);
        CodedAppend(comments, CommentCodeOf, comment);
        assert (comments + [comment])[..|comments|] == comments;
        (Done, comments + [comment])
  }

  /** `updateComment` as a function of the tables. The checks run in the
      order comment, post, member, author. The edited comment gets the new
      content, the member as author and the post named in the request as its
      post; nothing else changes. */
  function UpdateCommentOutcome(users: seq<Member>, posts: seq<CommunityPost>, comments: seq<Comment>,
                                loginId: string, postCode: int, commentCode: int, content: string)
    : (r: (Outcome, seq<Comment>))
    requires Coded(posts, PostCodeOf) && Coded(comments, CommentCodeOf)
    ensures Coded(r.1, CommentCodeOf)
    ensures r.0 != Done ==> r.1 == comments
    ensures r.0 == Done ==>
      1 <= commentCode <= |comments| && |r.1| == |comments|
      && (forall j :: 0 <= j < |comments| && j != commentCode - 1 ==> r.1[j] == comments[j])
      && var before := comments[commentCode - 1];
      r.1[commentCode - 1] == before.(content := content, postCode := postCode)
      && FindUser(users, loginId).Some? && before.memberCode == FindUser(users, loginId).value.memberCode
    ensures r.0 == Fail(CommentNotFound) <==> FindByCode(comments, CommentCodeOf, commentCode).None?
    ensures r.0 == Fail(CommunityPostNotFound) <==>
      FindByCode(comments, CommentCodeOf, commentCode).Some? && FindByCode(posts, PostCodeOf, postCode).None?
    ensures r.0 == Done <==>
      FindByCode(comments, CommentCodeOf, commentCode).Some? && FindByCode(posts, PostCodeOf, postCode).Some?
      && FindUser(users, loginId).Some?
      && FindByCode(comments, CommentCodeOf, commentCode).value.memberCode == FindUser(users, loginId).value.memberCode
  {
    var original := FindByCode(comments, CommentCodeOf, commentCode);
    if original.None? then (Fail(CommentNotFound), comments)
    else
      var post := FindByCode(posts, PostCodeOf, postCode);
      if post.None? then (Fail(CommunityPostNotFound), comments)
      else
        var author := FindUser(users, loginId);
        if author.None? then (Fail(InvalidUser), comments)
        else if original.value.memberCode != author.value.memberCode then (Fail(InvalidUser), comments)
        else
          var edited := original.value.(content := content, memberCode := author.value.memberCode,
                                        postCode := post.value.postCode);
          CodedUpdate(comments, CommentCodeOf, edited);
          (Done, comments[commentCode - 1 := edited])
  }

  /** `deleteComment` as a function of the tables. The checks run in the
      order comment, member, author; the post is not looked up. Only the
      comment's `active` changes, to false. */
  function DeleteCommentOutcome(users: seq<Member>, comments: seq<Comment>, loginId: string, commentCode: int)
    : (r: (Outcome, seq<Comment>))
    requires Coded(comments, CommentCodeOf)
    ensures Coded(r.1, CommentCodeOf)
    ensures r.0 != Done ==> r.1 == comments
    ensures r.0 == Done ==>
      1 <= commentCode <= |comments|
      && r.1 == comments[commentCode - 1 := comments[commentCode - 1].(active := false)]
      && FindUser(users, loginId).Some?
      && comments[commentCode - 1].memberCode == FindUser(users, loginId).value.memberCode
    ensures r.0 == Fail(CommentNotFound) <==> FindByCode(comments, CommentCodeOf, commentCode).None?
    ensures r.0 == Done <==>
      FindByCode(comments, CommentCodeOf, commentCode).Some? && FindUser(users, loginId).Some?
      && FindByCode(comments, CommentCodeOf, commentCode).value.memberCode == FindUser(users, loginId).value.memberCode
  {
    var found := FindByCode(comments, CommentCodeOf, commentCode);
    if found.None? then (Fail(CommentNotFound), comments)
    else
      var author := FindUser(users, loginId);
      if author.None? then (Fail(InvalidUser), comments)
      else if found.value.memberCode != author.value.memberCode then (Fail(InvalidUser), comments)
      else
        var deleted := found.value.(active := false);
        CodedUpdate(comments, CommentCodeOf, deleted);
        (Done, comments[commentCode - 1 := deleted])
  }

  /** A new comment adds one to its post's comment count and to no other's. */
  lemma {:induction false} CreateCommentCount(users: seq<Member>, posts: seq<CommunityPost>, comments: seq<Comment>,
                                              loginId: string, postCode: int, content: string, now: int, other: int)
    requires Coded(posts, PostCodeOf) && Coded(comments, CommentCodeOf)
    ensures var r := CreateCommentOutcome(users, posts, comments, loginId, postCode, content, now);
      r.0 == Done ==>
        CommentCount(r.1, postCode) == CommentCount(comments, postCode) + 1
        && (other != postCode ==> CommentCount(r.1, other) == CommentCount(comments, other))
  {
    var r := CreateCommentOutcome(users, posts, comments, loginId, postCode, content, now);
    if r.0 == Done {
      var comment := r.1[|comments|];
      assert r.1 == comments + [comment];
      FilterConcat(comments, [comment], ActiveCommentOf(postCode));
      FilterConcat(comments, [comment], ActiveCommentOf(other));
      assert [comment][1..] == [];
    }
  }

  /** Deleting an active comment takes one off its post's comment count;
      deleting it again changes no count. */
  lemma {:induction false} DeleteCommentCount(users: seq<Member>, comments: seq<Comment>, loginId: string,
                                              commentCode: int, postCode: int)
    requires Coded(comments, CommentCodeOf)
    ensures var r := DeleteCommentOutcome(users, comments, loginId, commentCode);
      r.0 == Done ==>
        var c := comments[commentCode - 1];
        CommentCount(r.1, postCode) ==
          CommentCount(comments, postCode) - (if c.active && c.postCode == postCode then 1 else 0)
  {
    var r := DeleteCommentOutcome(users, comments, loginId, commentCode);
    if r.0 == Done {
      var c := comments[commentCode - 1];
      FilterCountUpdate(comments, commentCode - 1, c.(active := false), ActiveCommentOf(postCode));
    }
  }

  /** Deleting is idempotent: a second delete by the author succeeds and
      changes nothing more. */
  lemma {:induction false} DeleteCommentTwice(users: seq<Member>, comments: seq<Comment>, loginId: string,
                                              commentCode: int)
    requires Coded(comments, CommentCodeOf)
    ensures var once := DeleteCommentOutcome(users, comments, loginId, commentCode);
      once.0 == Done ==> DeleteCommentOutcome(users, once.1, loginId, commentCode) == once
  {
    var once := DeleteCommentOutcome(users, comments, loginId, commentCode);
    if once.0 == Done {
      var deleted := comments[commentCode - 1].(active := false);
      assert once.1[commentCode - 1] == deleted;
      assert once.1[commentCode - 1 := deleted] == once.1;
    }
  }

  /** `CommentCountDTO`. */
  datatype CommentCountDto = CommentCountDto(postCode: int, commentCount: int)

  class CommentService {
    const users: UserRepository
    const posts: CommunityPostRepository
    const comments: CommentRepository

    constructor (users: UserRepository, posts: CommunityPostRepository, comments: CommentRepository)
      ensures this.users == users && this.posts == posts && this.comments == comments
    {
      this.users := users;
      this.posts := posts;
      this.comments := comments;
    }

    ghost predicate Valid() reads users, posts, comments {
      users.Valid() && posts.Valid() && comments.Valid()
    }

    /** `createComment`, over the repositories. */
    method CreateComment(loginId: string, postCode: int, content: string, now: int) returns (out: Outcome)
      requires Valid()
      modifies comments
      ensures Valid()
      ensures (out, comments.rows)
        == CreateCommentOutcome(users.rows, posts.rows, old(comments.rows), loginId, postCode, content, now)
    {
      var author := FindUser(users.rows, loginId);
      if author.None? {
        return Fail(InvalidUser);
      }
      var post := FindByCode(posts.rows, PostCodeOf, postCode);
      if post.None? {
        return Fail(CommunityPostNotFound);
      }
      var comment := Comment(|comments.rows| + 1, content, now, true, author.value.memberCode, post.value.postCode);
      CodedAppend(comments.rows, CommentCodeOf, comment);
      comments.rows := comments.rows + [comment];
      return Done;
    }

    /** `updateComment`, over the repositories. */
    method UpdateComment(loginId: string, postCode: int, commentCode: int, content: string) returns (out: Outcome)
      requires Valid()
      modifies comments
      ensures Valid()
      ensures (out, comments.rows)
        == UpdateCommentOutcome(users.rows, posts.rows, old(comments.rows), loginId, postCode, commentCode, content)
    {
      var original := FindByCode(comments.rows, CommentCodeOf, commentCode);
      if original.None? {
        return Fail(CommentNotFound);
      }
      var post := FindByCode(posts.rows, PostCodeOf, postCode);
      if post.None? {
        return Fail(CommunityPostNotFound);
      }
      var author := FindUser(users.rows, loginId);
      if author.None? {
        return Fail(InvalidUser);
      }
      if original.value.memberCode != author.value.memberCode {
        return Fail(InvalidUser);
      }
      var edited := original.value.(content := content, memberCode := author.value.memberCode,
                                    postCode := post.value.postCode);
      CodedUpdate(comments.rows, CommentCodeOf, edited);
      comments.rows := comments.rows[commentCode - 1 := edited];
      return Done;
    }

    /** `deleteComment`, over the repositories. */
    method DeleteComment(loginId: string, commentCode: int) returns (out: Outcome)
      requires Valid()
      modifies comments
      ensures Valid()
      ensures (out, comments.rows) == DeleteCommentOutcome(users.rows, old(comments.rows), loginId, commentCode)
    {
      var found := FindByCode(comments.rows, CommentCodeOf, commentCode);
      if found.None? {
        return Fail(CommentNotFound);
      }
      var author := FindUser(users.rows, loginId);
      if author.None? {
        return Fail(InvalidUser);
      }
      if found.value.memberCode != author.value.memberCode {
        return Fail(InvalidUser);
      }
      var deleted := found.value.(active := false);
      CodedUpdate(comments.rows, CommentCodeOf, deleted);
      comments.rows := comments.rows[commentCode - 1 := deleted];
      return Done;
    }

    /** `getAllCommentsOfPost`: the post must exist; then its active comments,
        in table order. */
    function AllCommentsOfPost(postCode: int): (r: Result<seq<Comment>>)
      reads posts, comments
      requires posts.Valid()
      ensures r.Failure? <==> FindByCode(posts.rows, PostCodeOf, postCode).None?
      ensures r.Failure? ==> r.error == CommunityPostNotFound
      ensures r.Success? ==>
        |r.value| == CommentCount(comments.rows, postCode)
        && forall c :: c in r.value <==> c in comments.rows && c.active && c.postCode == postCode
    {
      if FindByCode(posts.rows, PostCodeOf, postCode).None? then Failure(CommunityPostNotFound)
      else Success(Filter(comments.rows, ActiveCommentOf(postCode)))
    }

    /** `getCommentCount`: the post must exist; its active comments are
        counted one by one, and the requested code is echoed. */
    method GetCommentCount(postCode: int) returns (r: Result<CommentCountDto>)
      requires posts.Valid()
      ensures r.Failure? <==> FindByCode(posts.rows, PostCodeOf, postCode).None?
      ensures r.Failure? ==> r.error == CommunityPostNotFound
      ensures r.Success? ==> r.value == CommentCountDto(postCode, CommentCount(comments.rows, postCode))
    {
      var post := FindByCode(posts.rows, PostCodeOf, postCode);
      if post.None? {
        return Failure(CommunityPostNotFound);
      }
      var found := Filter(comments.rows, ActiveCommentOf(postCode));
      var commentCount := 0;
      var i := 0;
      while i < |found|
        invariant 0 <= i <= |found|
        invariant commentCount == i
      {
        commentCount := commentCount + 1;
        i := i + 1;
      }
      return Success(CommentCountDto(postCode, commentCount));
    }
  }
}
