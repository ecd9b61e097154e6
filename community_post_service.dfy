/** `CommunityPostServiceImpl`: members write community posts with images,
    edit and soft-delete their own posts, and list the active posts with
    whether they liked each one. */
module CommunityPostService {
  import opened Common
  import opened Tables
  import opened Sorting
  import opened Repositories
  import opened Uploads
  import opened CommunityLikeService

  /** `createPost` as a function of the tables. The login must name a member
      (else `MemberNotFound`). The post is saved active, created now, with the
      given title and content and the member as author. When images are given
      their file rows follow, owned by the new post; a file name without '.'
      fails the whole call, and the transaction leaves both tables as they
      were. */
  function CreatePostOutcome(users: seq<Member>, posts: seq<CommunityPost>, files: seq<FileRecord>,
                             loginId: string, title: string, content: string,
                             images: Option<seq<string>>, uuids: seq<string>, now: int)
    : (r: (Outcome, seq<CommunityPost>, seq<FileRecord>))
    requires Coded(posts, PostCodeOf) && Coded(files, FileCodeOf)
    requires images.Some? ==> |uuids| == |images.value|
    ensures Coded(r.1, PostCodeOf) && Coded(r.2, FileCodeOf)
    ensures r.0 != Done ==> r.1 == posts && r.2 == files
    ensures r.0 == Fail(MemberNotFound) <==> FindUser(users, loginId).None?
    ensures r.0 == Done ==>
      FindUser(users, loginId).Some?
      && |r.1| == |posts| + 1 && r.1[..|posts|] == posts
      && var post := r.1[|posts|];
      post.active && post.title == title && post.content == content && post.createdAt == now
      && post.memberCode == FindUser(users, loginId).value.memberCode
      && |files| <= |r.2| && r.2[..|files|] == files
      && (forall i :: |files| <= i < |r.2| ==> r.2[i].ownerCode == post.postCode && r.2[i].active)
      && (images.None? ==> r.2 == files)
  {
    var member := FindUser(users, loginId);
    if member.None? then (Fail(MemberNotFound), posts, files)
    else
      var post := CommunityPost(|posts| + 1, title, content, now, true, member.value.memberCode);
      CodedAppend(posts, PostCodeOf, post);
      assert (posts + [post])[..|posts|] == posts;
      if images.None? then (Done, posts + [post], files)
      else
        var urls := StemFileUrls(CommunityFilesPrefix, images.value, uuids);
        if urls.Failure? then (Fail(urls.error), posts, files)
        else
          var added := FileRows(|files|, urls.value, post.postCode, now);
          FileRowsCoded(files, urls.value, post.postCode, now);
          assert (files + added)[..|files|] == files;
          assert forall i :: |files| <= i < |files + added| ==> (files + added)[i] == added[i - |files|];
          (Done, posts + [post], files + added)
  }

  /** `updatePost` as a function of the table. The checks run in the order
      post (`CommunityPostNotFound`), login (`LoginRequired`), author
      (`InvalidUser`); a successful update changes only the title and the
      content. */
  function UpdatePostOutcome(users: seq<Member>, posts: seq<CommunityPost>, loginId: string,
                             postCode: int, title: string, content: string)
    : (r: (Outcome, seq<CommunityPost>))
    requires Coded(posts, PostCodeOf)
    ensures Coded(r.1, PostCodeOf)
    ensures r.0 != Done ==> r.1 == posts
    ensures r.0 == Fail(CommunityPostNotFound) <==> FindByCode(posts, PostCodeOf, postCode).None?
    ensures r.0 == Done ==>
      1 <= postCode <= |posts| && |r.1| == |posts|
      && (forall j :: 0 <= j < |posts| && j != postCode - 1 ==> r.1[j] == posts[j])
      && r.1[postCode - 1] == posts[postCode - 1].(title := title, content := content)
      && FindUser(users, loginId).Some?
      && posts[postCode - 1].memberCode == FindUser(users, loginId).value.memberCode
  {
    var found := FindByCode(posts, PostCodeOf, postCode);
    if found.None? then (Fail(CommunityPostNotFound), posts)
    else
      var author := FindUser(users, loginId);
      if author.None? then (Fail(LoginRequired), posts)
      else if found.value.memberCode != author.value.memberCode then (Fail(InvalidUser), posts)
      else
        var edited := found.value.(title := title, content := content);
        CodedUpdate(posts, PostCodeOf, edited);
        (Done, posts[postCode - 1 := edited])
  }

  /** The message `deletePost` throws for a missing post. */
  const PostMissingMessage := "존재하지 않는 게시글입니다."

  /** `deletePost` as a function of the table. The checks run in the order
      post (`EntityNotFound` with `PostMissingMessage`), login
      (`LoginRequired`), author (`InvalidUser`); success changes only the
      post's `active`, to false. */
  function DeletePostOutcome(users: seq<Member>, posts: seq<CommunityPost>, loginId: string, postCode: int)
    : (r: (Outcome, seq<CommunityPost>))
    requires Coded(posts, PostCodeOf)
    ensures Coded(r.1, PostCodeOf)
    ensures r.0 != Done ==> r.1 == posts
    ensures r.0 == Fail(EntityNotFound(PostMissingMessage)) <==> FindByCode(posts, PostCodeOf, postCode).None?
    ensures r.0 == Done ==>
      1 <= postCode <= |posts|
      && r.1 == posts[postCode - 1 := posts[postCode - 1].(active := false)]
      && FindUser(users, loginId).Some?
      && posts[postCode - 1].memberCode == FindUser(users, loginId).value.memberCode
  {
    var found := FindByCode(posts, PostCodeOf, postCode);
    if found.None? then (Fail(EntityNotFound(PostMissingMessage)), posts)
    else
      var author := FindUser(users, loginId);
      if author.None? then (Fail(LoginRequired), posts)
      else if found.value.memberCode != author.value.memberCode then (Fail(InvalidUser), posts)
      else
        var deleted := found.value.(active := false);
        CodedUpdate(posts, PostCodeOf, deleted);
        (Done, posts[postCode - 1 := deleted])
  }

  // ---------------------------------------------------------------------
  // Listing

  function IsActivePost(p: CommunityPost): bool { p.active }

  /** `Sort.by("createdAt").descending()`. */
  function NewestFirst(p: CommunityPost): Key { Key(-p.createdAt, 0) }

  /** `findByActiveTrue(Sort.by("createdAt").descending())`. */
  function ActivePosts(posts: seq<CommunityPost>): seq<CommunityPost> {
    Sort(Filter(posts, IsActivePost), NewestFirst)
  }

  /** The listed posts are exactly the active ones, newest first. */
  lemma ActivePostsMeaning(posts: seq<CommunityPost>)
    ensures var listed := ActivePosts(posts);
      |listed| == |Filter(posts, IsActivePost)|
      && (forall i :: 0 <= i < |listed| ==> listed[i] in posts && listed[i].active)
      && (forall i :: 0 < i < |listed| ==> listed[i - 1].createdAt >= listed[i].createdAt)
      && (forall p :: p in posts && p.active ==> p in listed)
  {
    var listed := ActivePosts(posts);
    forall i | 0 <= i < |listed| ensures listed[i] in posts && listed[i].active {
      assert listed[i] in multiset(Filter(posts, IsActivePost));
    }
    forall i | 0 < i < |listed| ensures listed[i - 1].createdAt >= listed[i].createdAt {
      assert KeyLe(NewestFirst(listed[i - 1]), NewestFirst(listed[i]));
    }
    forall p | p in posts && p.active ensures p in listed {
      assert p in multiset(Filter(posts, IsActivePost));
    }
  }

  /** `CommunityPostDTO`, without the author's nickname and profile image. */
  datatype PostDto = PostDto(postCode: int, title: string, content: string, createdAt: int,
                             memberCode: int, imageUrls: seq<string>, isLike: bool)

  /** `getAllPosts`: one DTO per active post, newest first. The login must
      name a member; `isLike` says whether that member has an active like on
      the post. */
  function AllPosts(users: seq<Member>, posts: seq<CommunityPost>, files: seq<FileRecord>,
                    likes: seq<CommunityLike>, loginId: string)
    : (r: Result<seq<PostDto>>)
    ensures r.Failure? <==> FindUser(users, loginId).None?
    ensures r.Failure? ==> r.error == MemberNotFound
    ensures r.Success? ==>
      var listed := ActivePosts(posts);
      var me := FindUser(users, loginId).value.memberCode;
      |r.value| == |listed| == |Filter(posts, IsActivePost)|
      && (forall i :: 0 <= i < |r.value| ==>
            listed[i] in posts && listed[i].active
            && r.value[i].postCode == listed[i].postCode
            && r.value[i].createdAt == listed[i].createdAt
            && r.value[i].isLike == HasActiveLike(likes, me, listed[i].postCode))
      && (forall i :: 0 < i < |r.value| ==> r.value[i - 1].createdAt >= r.value[i].createdAt)
      && (forall p :: p in posts && p.active ==> p in listed)
  {
    var member := FindUser(users, loginId);
    if member.None? then Failure(MemberNotFound)
    else
      var listed := ActivePosts(posts);
      var dtos := seq(|listed|, i requires 0 <= i < |listed| =>
        var p := listed[i];
        PostDto(p.postCode, p.title, p.content, p.createdAt, p.memberCode, FileUrlsOf(files, p.postCode),
                HasActiveLike(likes, member.value.memberCode, p.postCode)));
      ActivePostsMeaning(posts);
      Success(dtos)
  }

  /** A post created with success is among the listed posts. */
  lemma {:induction false} CreatedPostListed(users: seq<Member>, posts: seq<CommunityPost>, files: seq<FileRecord>,
                                             loginId: string, title: string, content: string,
                                             images: Option<seq<string>>, uuids: seq<string>, now: int)
    requires Coded(posts, PostCodeOf) && Coded(files, FileCodeOf)
    requires images.Some? ==> |uuids| == |images.value|
    ensures var r := CreatePostOutcome(users, posts, files, loginId, title, content, images, uuids, now);
      r.0 == Done ==> r.1[|posts|] in ActivePosts(r.1)
  {
    var r := CreatePostOutcome(users, posts, files, loginId, title, content, images, uuids, now);
    if r.0 == Done {
      assert r.1[|posts|] in r.1;
      assert r.1[|posts|] in multiset(ActivePosts(r.1));
    }
  }

  /** A post deleted with success is no longer listed. */
  lemma DeletedPostNotListed(users: seq<Member>, posts: seq<CommunityPost>, loginId: string, postCode: int)
    requires Coded(posts, PostCodeOf)
    ensures var r := DeletePostOutcome(users, posts, loginId, postCode);
      r.0 == Done ==> forall p :: p in ActivePosts(r.1) ==> p.postCode != postCode
  {
    var r := DeletePostOutcome(users, posts, loginId, postCode);
    if r.0 == Done {
      forall p | p in ActivePosts(r.1) ensures p.postCode != postCode {
        assert p in multiset(Filter(r.1, IsActivePost));
        var i := IndexIn(r.1, p);
        assert r.1[i].postCode == i + 1;
      }
    }
  }

  /** Deleting a post leaves every other listed post listed. */
  lemma OtherPostsStayListed(users: seq<Member>, posts: seq<CommunityPost>, loginId: string, postCode: int)
    requires Coded(posts, PostCodeOf)
    ensures var r := DeletePostOutcome(users, posts, loginId, postCode);
      forall p :: p in ActivePosts(posts) && p.postCode != postCode ==> p in ActivePosts(r.1)
  {
    var r := DeletePostOutcome(users, posts, loginId, postCode);
    forall p | p in ActivePosts(posts) && p.postCode != postCode ensures p in ActivePosts(r.1) {
      assert p in multiset(Filter(posts, IsActivePost));
      var i := IndexIn(posts, p);
      assert posts[i].postCode == i + 1 && r.1[i] == p;
      assert p in multiset(Filter(r.1, IsActivePost));
    }
  }

  class CommunityPostService {
    const users: UserRepository
    const posts: CommunityPostRepository
    const files: FileRepository
    const likes: CommunityLikeRepository

    constructor (users: UserRepository, posts: CommunityPostRepository, files: FileRepository,
                 likes: CommunityLikeRepository)
      ensures this.users == users && this.posts == posts && this.files == files && this.likes == likes
    {
      this.users := users;
      this.posts := posts;
      this.files := files;
      this.likes := likes;
    }

    ghost predicate Valid() reads users, posts, files, likes {
      users.Valid() && posts.Valid() && files.Valid() && likes.Valid()
    }

    /** `createPost`, over the repositories: the post is saved, then its
        images; when an image fails the transaction restores both tables. */
    method CreatePost(loginId: string, title: string, content: string,
                      images: Option<seq<string>>, uuids: seq<string>, now: int)
      returns (out: Outcome)
      requires Valid()
      requires images.Some? ==> |uuids| == |images.value|
      modifies posts, files
      ensures Valid()
      ensures (out, posts.rows, files.rows) == CreatePostOutcome(users.rows, old(posts.rows), old(files.rows),
                                                                loginId, title, content, images, uuids, now)
    {
      var member := FindUser(users.rows, loginId);
      if member.None? {
        return Fail(MemberNotFound);
      }
      var savedPosts := posts.rows;
      var savedFiles := files.rows;
      var post := CommunityPost(|posts.rows| + 1, title, content, now, true, member.value.memberCode);
      CodedAppend(posts.rows, PostCodeOf, post);
      posts.rows := posts.rows + [post];
      if images.Some? {
        out := SaveStemFiles(files, CommunityFilesPrefix, images.value, uuids, post.postCode, now);
        if out != Done {
          posts.rows := savedPosts;
          files.rows := savedFiles;
          return;
        }
      }
      return Done;
    }

    /** `updatePost`, over the repository; the images argument is ignored. */
    method UpdatePost(loginId: string, postCode: int, title: string, content: string) returns (out: Outcome)
      requires Valid()
      modifies posts
      ensures Valid()
      ensures (out, posts.rows) == UpdatePostOutcome(users.rows, old(posts.rows), loginId, postCode, title, content)
    {
      var found := FindByCode(posts.rows, PostCodeOf, postCode);
      if found.None? {
        return Fail(CommunityPostNotFound);
      }
      var author := FindUser(users.rows, loginId);
      if author.None? {
        return Fail(LoginRequired);
      }
      if found.value.memberCode != author.value.memberCode {
        return Fail(InvalidUser);
      }
      var edited := found.value.(title := title, content := content);
      CodedUpdate(posts.rows, PostCodeOf, edited);
      posts.rows := posts.rows[postCode - 1 := edited];
      return Done;
    }

    /** `deletePost`, over the repository. */
    method DeletePost(loginId: string, postCode: int) returns (out: Outcome)
      requires Valid()
      modifies posts
      ensures Valid()
      ensures (out, posts.rows) == DeletePostOutcome(users.rows, old(posts.rows), loginId, postCode)
    {
      var found := FindByCode(posts.rows, PostCodeOf, postCode);
      if found.None? {
        return Fail(EntityNotFound(PostMissingMessage));
      }
      var author := FindUser(users.rows, loginId);
      if author.None? {
        return Fail(LoginRequired);
      }
      if found.value.memberCode != author.value.memberCode {
        return Fail(InvalidUser);
      }
      var deleted := found.value.(active := false);
      CodedUpdate(posts.rows, PostCodeOf, deleted);
      posts.rows := posts.rows[postCode - 1 := deleted];
      return Done;
    }
  }
}
