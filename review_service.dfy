/** `ReviewServiceImpl`: writing and soft-deleting reviews, the like and
    unlike pair on a review, and the orders a theme's reviews are listed in. */
module ReviewService {
  import opened Common
  import opened Tables
  import opened Sorting
  import opened Repositories

  // ---------------------------------------------------------------------
  // Likes

  /** The review exists and has not been deleted. */
  predicate ReviewActive(reviews: seq<Review>, reviewCode: int)
    requires Coded(reviews, ReviewCodeOf)
  {
    var r := FindByCode(reviews, ReviewCodeOf, reviewCode);
    r.Some? && r.value.active
  }

  /** `findByMemberCodeAndReviewCode`: the pair's like, when both the like
      and the review are active. */
  function ActiveLike(likes: seq<ReviewLike>, reviews: seq<Review>, memberCode: int, reviewCode: int)
    : (r: Option<ReviewLike>)
    requires Coded(reviews, ReviewCodeOf) && UniqueKeys(likes, ReviewLikeKey)
    ensures r.Some? ==>
      r.value in likes && r.value.active && ReviewLikeKey(r.value) == (memberCode, reviewCode)
      && ReviewActive(reviews, reviewCode)
    ensures r.None? && ReviewActive(reviews, reviewCode) ==>
      forall j :: 0 <= j < |likes| && ReviewLikeKey(likes[j]) == (memberCode, reviewCode) ==> !likes[j].active
  {
    var row := Lookup(likes, ReviewLikeKey, (memberCode, reviewCode));
    if row.Some? && row.value.active && ReviewActive(reviews, reviewCode) then row
    else
      forall j | 0 <= j < |likes| && ReviewLikeKey(likes[j]) == (memberCode, reviewCode)
        ensures row == Some(likes[j])
      {
        LookupOnly(likes, ReviewLikeKey, (memberCode, reviewCode), j);
      }
      None
  }

  /** `likeReview` as a function of the tables. Without a visible like a new
      active like created now is saved (over an inactive row of the pair, if
      any); a visible like is refused. The lookup only returns active likes,
      so the source's branch that re-activates a found inactive like is never
      taken. */
  function LikeOutcome(likes: seq<ReviewLike>, reviews: seq<Review>, memberCode: int, reviewCode: int, now: int)
    : (Outcome, seq<ReviewLike>)
    requires Coded(reviews, ReviewCodeOf) && UniqueKeys(likes, ReviewLikeKey)
  {
    if ActiveLike(likes, reviews, memberCode, reviewCode).None? then
      (Done, Upsert(likes, ReviewLikeKey, ReviewLike(memberCode, reviewCode, now, true)))
    else
      (Fail(ReviewAlreadyLiked), likes)
  }

  /** `deleteLikeReview` as a function of the table: a visible like is saved
      inactive; anything else is refused. */
  function UnlikeOutcome(likes: seq<ReviewLike>, reviews: seq<Review>, memberCode: int, reviewCode: int)
    : (Outcome, seq<ReviewLike>)
    requires Coded(reviews, ReviewCodeOf) && UniqueKeys(likes, ReviewLikeKey)
  {
    var found := ActiveLike(likes, reviews, memberCode, reviewCode);
    if found.Some? && found.value.active then
      (Done, Upsert(likes, ReviewLikeKey, found.value.(active := false)))
    else
      (Fail(ReviewNotLiked), likes)
  }

  /** On an active review, a like followed by an unlike leaves the pair's row
      inactive, and a second unlike is refused and changes nothing: unlike is
      not idempotent. */
  lemma {:induction false} LikeThenUnlike(likes: seq<ReviewLike>, reviews: seq<Review>, memberCode: int,
                                          reviewCode: int, now: int)
    requires Coded(reviews, ReviewCodeOf) && UniqueKeys(likes, ReviewLikeKey)
    requires ReviewActive(reviews, reviewCode) && ActiveLike(likes, reviews, memberCode, reviewCode).None?
    ensures var liked := LikeOutcome(likes, reviews, memberCode, reviewCode, now);
      liked.0 == Done && UniqueKeys(liked.1, ReviewLikeKey)
      && var unliked := UnlikeOutcome(liked.1, reviews, memberCode, reviewCode);
      unliked.0 == Done && UniqueKeys(unliked.1, ReviewLikeKey)
      && Lookup(unliked.1, ReviewLikeKey, (memberCode, reviewCode)) == Some(ReviewLike(memberCode, reviewCode, now, false))
      && UnlikeOutcome(unliked.1, reviews, memberCode, reviewCode) == (Fail(ReviewNotLiked), unliked.1)
  {
    var row := ReviewLike(memberCode, reviewCode, now, true);
    var liked := Upsert(likes, ReviewLikeKey, row);
    assert ActiveLike(liked, reviews, memberCode, reviewCode) == Some(row);
    var unliked := Upsert(liked, ReviewLikeKey, row.(active := false));
    assert Lookup(unliked, ReviewLikeKey, (memberCode, reviewCode)) == Some(row.(active := false));
    assert ActiveLike(unliked, reviews, memberCode, reviewCode).None?;
  }

  /** On an active review, a second like is refused and changes nothing. */
  lemma {:induction false} LikeTwice(likes: seq<ReviewLike>, reviews: seq<Review>, memberCode: int,
                                     reviewCode: int, now: int, later: int)
    requires Coded(reviews, ReviewCodeOf) && UniqueKeys(likes, ReviewLikeKey)
    requires ReviewActive(reviews, reviewCode) && ActiveLike(likes, reviews, memberCode, reviewCode).None?
    ensures var liked := LikeOutcome(likes, reviews, memberCode, reviewCode, now);
      UniqueKeys(liked.1, ReviewLikeKey)
      && LikeOutcome(liked.1, reviews, memberCode, reviewCode, later) == (Fail(ReviewAlreadyLiked), liked.1)
  {
    var row := ReviewLike(memberCode, reviewCode, now, true);
    var liked := Upsert(likes, ReviewLikeKey, row);
    assert ActiveLike(liked, reviews, memberCode, reviewCode) == Some(row);
  }

  /** A like on a deleted review is saved but stays invisible to the lookup,
      so it can be sent again and again. */
  lemma {:induction false} LikeDeletedReview(likes: seq<ReviewLike>, reviews: seq<Review>, memberCode: int,
                                             reviewCode: int, now: int)
    requires Coded(reviews, ReviewCodeOf) && UniqueKeys(likes, ReviewLikeKey)
    requires !ReviewActive(reviews, reviewCode)
    ensures var liked := LikeOutcome(likes, reviews, memberCode, reviewCode, now);
      liked.0 == Done
      && Lookup(liked.1, ReviewLikeKey, (memberCode, reviewCode)) == Some(ReviewLike(memberCode, reviewCode, now, true))
      && UniqueKeys(liked.1, ReviewLikeKey)
      && ActiveLike(liked.1, reviews, memberCode, reviewCode).None?
  {
  }

  // ---------------------------------------------------------------------
  // Review files

  /** The stored URL of an uploaded review image: the UUID with its dashes
      removed, an underscore, then the original file name. */
  function ReviewFileUrl(uuid: string, fileName: string): (url: string)
    ensures StartsWith(url, "/uploadFiles/reviewFile/")
    ensures url[|"/uploadFiles/reviewFile/"|..] == RemoveChar(uuid, '-') + "_" + fileName
    ensures '-' !in url[|"/uploadFiles/reviewFile/"|..|url| - |fileName| - 1]
  {
    var url := "/uploadFiles/reviewFile/" + RemoveChar(uuid, '-') + "_" + fileName;
    assert url[|"/uploadFiles/reviewFile/"|..|url| - |fileName| - 1] == RemoveChar(uuid, '-');
    url
  }

  /** One URL per uploaded file, each with its own UUID. */
  function ReviewFileUrls(fileNames: seq<string>, uuids: seq<string>): (urls: seq<string>)
    requires |uuids| == |fileNames|
    ensures |urls| == |fileNames|
    ensures forall i :: 0 <= i < |urls| ==> urls[i] == ReviewFileUrl(uuids[i], fileNames[i])
  {
    seq(|fileNames|, i requires 0 <= i < |fileNames| => ReviewFileUrl(uuids[i], fileNames[i]))
  }

  // ---------------------------------------------------------------------
  // Listing orders

  /** The comparator `findReviewsWithFilters` picks (null is ""). */
  function ReviewSortKey(filter: Option<string>): Review -> Key {
    if filter == Some("highScore") then (r: Review) => Key(-r.totalScore, -r.createdAt)
    else if filter == Some("lowScore") then (r: Review) => Key(r.totalScore, -r.createdAt)
    else (r: Review) => Key(-r.createdAt, 0)
  }

  /** The order the filter names, on the reviews' fields. */
  predicate ReviewBefore(filter: Option<string>, a: Review, b: Review) {
    if filter == Some("highScore") then
      a.totalScore > b.totalScore || (a.totalScore == b.totalScore && a.createdAt >= b.createdAt)
    else if filter == Some("lowScore") then
      a.totalScore < b.totalScore || (a.totalScore == b.totalScore && a.createdAt >= b.createdAt)
    else
      a.createdAt >= b.createdAt
  }

  lemma ReviewSortKeyMeaning(filter: Option<string>, a: Review, b: Review)
    ensures KeyLe(ReviewSortKey(filter)(a), ReviewSortKey(filter)(b)) <==> ReviewBefore(filter, a, b)
  {
  }

  /** A list sorted by `ReviewSortKey` lists its reviews in the order the
      filter asks for. */
  lemma SortedReviews(filter: Option<string>, r: seq<Review>)
    requires SortedBy(r, ReviewSortKey(filter))
    ensures forall i :: 0 < i < |r| ==> ReviewBefore(filter, r[i - 1], r[i])
  {
    forall i | 0 < i < |r| ensures ReviewBefore(filter, r[i - 1], r[i]) {
      ReviewSortKeyMeaning(filter, r[i - 1], r[i]);
    }
  }

  /** A reordering of a page of a theme's reviews holds only active reviews of
      that theme. */
  lemma ReorderedThemePage(rows: seq<Review>, themeCode: int, pageNumber: nat, pageSize: nat, r: seq<Review>)
    requires multiset(r) == multiset(PageOf(ThemeReviews(rows, themeCode), pageNumber, pageSize))
    ensures forall x :: x in r ==> x in rows && x.active && x.themeCode == themeCode
  {
    var page := PageOf(ThemeReviews(rows, themeCode), pageNumber, pageSize);
    forall x | x in r ensures x in rows && x.active && x.themeCode == themeCode {
      assert x in multiset(r);
      assert x in page;
      var i :| 0 <= i < |page| && page[i] == x;
    }
  }

  /** `findByThemeCodeAndActiveTrueWithFetchJoin`, which `ReviewRepository`
      does not declare, read by its name: the theme's active reviews, in
      table order. */
  function ThemeReviews(rows: seq<Review>, themeCode: int): seq<Review> {
    Filter(rows, (r: Review) => r.active && r.themeCode == themeCode)
  }

  function NewestReviewFirst(r: Review): Key { Key(-r.createdAt, 0) }

  function OwnActiveReview(memberCode: int): Review -> bool {
    (r: Review) => r.active && r.memberCode == memberCode
  }

  /** `findByMemberCode`: the member's active reviews, newest first. */
  function MemberReviews(rows: seq<Review>, memberCode: int): seq<Review> {
    Sort(Filter(rows, OwnActiveReview(memberCode)), NewestReviewFirst)
  }

  /** The member's listing holds exactly the member's active reviews, each
      as often as the table does, newest first. */
  lemma MemberReviewsMeaning(rows: seq<Review>, memberCode: int)
    ensures var listed := MemberReviews(rows, memberCode);
      (forall x :: x in listed <==> x in rows && x.active && x.memberCode == memberCode)
      && (forall i :: 0 < i < |listed| ==> listed[i - 1].createdAt >= listed[i].createdAt)
  {
    var own := Filter(rows, OwnActiveReview(memberCode));
    var listed := MemberReviews(rows, memberCode);
    assert multiset(listed) == multiset(own);
    forall x ensures x in listed <==> x in rows && x.active && x.memberCode == memberCode {
      assert x in listed <==> x in multiset(listed);
      assert x in own <==> x in multiset(own);
    }
    forall i | 0 < i < |listed| ensures listed[i - 1].createdAt >= listed[i].createdAt {
      assert KeyLe(NewestReviewFirst(listed[i - 1]), NewestReviewFirst(listed[i]));
    }
  }

  /** `findReviewByMemberCode`: the requested page of the member's reviews,
      or null when that page is empty. */
  function FindReviewByMemberCode(rows: seq<Review>, memberCode: int, pageNumber: nat, pageSize: nat)
    : (r: Option<seq<Review>>)
    ensures r.None? <==> PageOf(MemberReviews(rows, memberCode), pageNumber, pageSize) == []
    ensures r.Some? ==> r.value == PageOf(MemberReviews(rows, memberCode), pageNumber, pageSize)
    ensures r.Some? ==> forall x :: x in r.value ==> x in rows && x.active && x.memberCode == memberCode
    ensures r.Some? ==> forall i :: 0 < i < |r.value| ==> r.value[i - 1].createdAt >= r.value[i].createdAt
  {
    var page := PageOf(MemberReviews(rows, memberCode), pageNumber, pageSize);
    MemberPageMeaning(rows, memberCode, pageNumber, pageSize);
    if page == [] then None else Some(page)
  }

  /** A page of the member's listing holds only the member's active reviews,
      newest first. */
  lemma MemberPageMeaning(rows: seq<Review>, memberCode: int, pageNumber: nat, pageSize: nat)
    ensures var page := PageOf(MemberReviews(rows, memberCode), pageNumber, pageSize);
      (forall x :: x in page ==> x in rows && x.active && x.memberCode == memberCode)
      && (forall i :: 0 < i < |page| ==> page[i - 1].createdAt >= page[i].createdAt)
  {
    var from, to := PageSlice(MemberReviews(rows, memberCode), pageNumber, pageSize);
    MemberSliceMeaning(rows, memberCode, from, to);
  }

  /** Any slice of the member's listing holds only the member's active
      reviews, newest first. */
  lemma MemberSliceMeaning(rows: seq<Review>, memberCode: int, from: nat, to: nat)
    requires from <= to <= |MemberReviews(rows, memberCode)|
    ensures var slice := MemberReviews(rows, memberCode)[from..to];
      (forall x :: x in slice ==> x in rows && x.active && x.memberCode == memberCode)
      && (forall i :: 0 < i < |slice| ==> slice[i - 1].createdAt >= slice[i].createdAt)
  {
    var listed := MemberReviews(rows, memberCode);
    var slice := listed[from..to];
    MemberReviewsMeaning(rows, memberCode);
    forall x | x in slice ensures x in listed {
      var i :| 0 <= i < |slice| && slice[i] == x;
      assert x == listed[from + i];
    }
    forall i | 0 < i < |slice| ensures slice[i - 1].createdAt >= slice[i].createdAt {
      assert slice[i - 1] == listed[from + i - 1] && slice[i] == listed[from + i];
    }
  }

  /** `ReviewReportDTO`: the member's average score and favourite genres. */
  datatype ReviewReport = ReviewReport(avgScore: int, genres: seq<string>)

  /** `findReviewReport`: null without an average score; otherwise the
      average with the first page of three of the member's top genres. */
  function FindReviewReport(avgScore: Option<int>, topGenres: seq<string>): (r: Option<ReviewReport>)
    ensures r.None? <==> avgScore.None?
    ensures r.Some? ==>
      r.value.avgScore == avgScore.value && |r.value.genres| == Min(3, |topGenres|)
      && r.value.genres == topGenres[..|r.value.genres|]
  {
    if avgScore.None? then None
    else
      var genres := PageOf(topGenres, 0, 3);
      assert genres == topGenres[..|genres|];
      Some(ReviewReport(avgScore.value, genres))
  }

  function Min(a: int, b: int): int { if a <= b then a else b }

  // ---------------------------------------------------------------------
  // The service

  class ReviewService {
    const themes: ThemeRepository
    const reviews: ReviewRepository
    const reviewFiles: FileRepository
    const likes: ReviewLikeRepository
    const users: UserRepository

    constructor (themes: ThemeRepository, reviews: ReviewRepository, reviewFiles: FileRepository,
                 likes: ReviewLikeRepository, users: UserRepository)
      ensures this.themes == themes && this.reviews == reviews && this.reviewFiles == reviewFiles
      ensures this.likes == likes && this.users == users
    {
      this.themes := themes;
      this.reviews := reviews;
      this.reviewFiles := reviewFiles;
      this.likes := likes;
      this.users := users;
    }

    ghost predicate Valid() reads themes, reviews, reviewFiles, likes, users {
      themes.Valid() && reviews.Valid() && reviewFiles.Valid() && likes.Valid() && users.Valid()
    }

    /** `createReview`. The theme must exist. The review is saved active,
        written now by the member; the image files are saved only when a list
        of images is given; the author gains 5 points. */
    method CreateReview(member: Member, themeCode: int, totalScore: int, content: string,
                        images: Option<seq<string>>, uuids: seq<string>, now: int)
      returns (out: Outcome)
      requires Valid() && member in users.rows
      requires images.Some? ==> |uuids| == |images.value|
      modifies reviews, reviewFiles, users
      ensures Valid()
      ensures FindByCode(themes.rows, ThemeCodeOf, themeCode).None? ==>
        out == Fail(ThemeNotFound) && unchanged(reviews, reviewFiles, users)
      ensures FindByCode(themes.rows, ThemeCodeOf, themeCode).Some? ==>
        var code := |old(reviews.rows)| + 1;
        out == Done
        && reviews.rows == old(reviews.rows) + [Review(code, member.memberCode, member.id, themeCode,
                                                       totalScore, content, now, true)]
        && reviewFiles.rows == old(reviewFiles.rows)
             + (if images.None? then []
                else FileRows(|old(reviewFiles.rows)|, ReviewFileUrls(images.value, uuids), code, now))
        && users.rows == old(users.rows)[member.memberCode - 1 := member.(point := member.point + 5)]
    {
      var theme := FindByCode(themes.rows, ThemeCodeOf, themeCode);
      if theme.None? {
        return Fail(ThemeNotFound);
      }
      var review := Review(|reviews.rows| + 1, member.memberCode, member.id, theme.value.themeCode,
                           totalScore, content, now, true);
      CodedAppend(reviews.rows, ReviewCodeOf, review);
      reviews.rows := reviews.rows + [review];
      if images.Some? {
        SaveReviewFiles(images.value, uuids, review.reviewCode, now);
      }
      MemberGetPoint(member, 5);
      return Done;
    }

    /** `saveReviewFile`: one active file row per image, in order. */
    method SaveReviewFiles(fileNames: seq<string>, uuids: seq<string>, reviewCode: int, now: int)
      requires reviewFiles.Valid() && |uuids| == |fileNames|
      modifies reviewFiles
      ensures reviewFiles.Valid()
      ensures reviewFiles.rows == old(reviewFiles.rows)
        + FileRows(|old(reviewFiles.rows)|, ReviewFileUrls(fileNames, uuids), reviewCode, now)
    {
      ghost var before := reviewFiles.rows;
      ghost var urls := ReviewFileUrls(fileNames, uuids);
      var i := 0;
      while i < |fileNames|
        invariant 0 <= i <= |fileNames|
        invariant |reviewFiles.rows| == |before| + i && reviewFiles.rows[..|before|] == before
        invariant forall j :: 0 <= j < i ==>
          reviewFiles.rows[|before| + j] == FileRecord(|before| + j + 1, urls[j], reviewCode, now, true)
      {
        var url := ReviewFileUrl(uuids[i], fileNames[i]);
        var row := FileRecord(|reviewFiles.rows| + 1, url, reviewCode, now, true);
        reviewFiles.rows := reviewFiles.rows + [row];
        i := i + 1;
      }
      FileRowsAppended(reviewFiles.rows, before, urls, reviewCode, now);
      FileRowsCoded(before, urls, reviewCode, now);
    }

    /** `memberGetPoint`: the member, with `point` more points, is saved over
        its row. */
    method MemberGetPoint(member: Member, point: int)
      requires users.Valid() && member in users.rows
      modifies users
      ensures users.Valid()
      ensures users.rows == old(users.rows)[member.memberCode - 1 := member.(point := member.point + point)]
    {
      var i := IndexIn(users.rows, member);
      assert users.rows[i].memberCode == i + 1;
      var updated := member.(point := member.point + point);
      CodedUpdate(users.rows, MemberCodeOf, updated);
      UniqueKeysReplace(users.rows, MemberIdOf, i, updated);
      users.rows := users.rows[i := updated];
    }

    /** `deleteReview`: any stored review, deleted or not, is saved inactive;
        nothing checks who asks. */
    method DeleteReview(reviewCode: int, memberCode: int) returns (out: Outcome)
      requires Valid()
      modifies reviews
      ensures Valid()
      ensures FindByCode(old(reviews.rows), ReviewCodeOf, reviewCode).None? ==>
        out == Fail(ReviewNotFound) && reviews.rows == old(reviews.rows)
      ensures FindByCode(old(reviews.rows), ReviewCodeOf, reviewCode).Some? ==>
        out == Done
        && reviews.rows == old(reviews.rows)[reviewCode - 1 := old(reviews.rows)[reviewCode - 1].(active := false)]
    {
      var existing := FindByCode(reviews.rows, ReviewCodeOf, reviewCode);
      if existing.None? {
        return Fail(ReviewNotFound);
      }
      var deleted := existing.value.(active := false);
      CodedUpdate(reviews.rows, ReviewCodeOf, deleted);
      reviews.rows := reviews.rows[reviewCode - 1 := deleted];
      return Done;
    }

    /** `likeReview`, over the repository; it saves exactly what `LikeOutcome` describes. */
    method LikeReview(reviewCode: int, memberCode: int, now: int) returns (out: Outcome)
      requires Valid()
      modifies likes
      ensures Valid()
      ensures (out, likes.rows) == LikeOutcome(old(likes.rows), reviews.rows, memberCode, reviewCode, now)
    {
      var found := ActiveLike(likes.rows, reviews.rows, memberCode, reviewCode);
      if found.None? {
        likes.rows := Upsert(likes.rows, ReviewLikeKey, ReviewLike(memberCode, reviewCode, now, true));
      } else if found.value.active {
        return Fail(ReviewAlreadyLiked);
      } else {
        assert false;
      }
      return Done;
    }

    /** `deleteLikeReview`, over the repository; it saves exactly what `UnlikeOutcome` describes. */
    method DeleteLikeReview(reviewCode: int, memberCode: int) returns (out: Outcome)
      requires Valid()
      modifies likes
      ensures Valid()
      ensures (out, likes.rows) == UnlikeOutcome(old(likes.rows), reviews.rows, memberCode, reviewCode)
    {
      var found := ActiveLike(likes.rows, reviews.rows, memberCode, reviewCode);
      if found.None? {
        return Fail(ReviewNotLiked);
      }
      var like := found.value;
      if like.active {
        likes.rows := Upsert(likes.rows, ReviewLikeKey, like.(active := false));
      } else {
        return Fail(ReviewNotLiked);
      }
      return Done;
    }

    /** `findReviewsWithFilters`: one page of the theme's active reviews,
        sorted in place in the order the filter names. */
    method FindReviewsWithFilters(themeCode: int, filter: Option<string>, pageNumber: nat, pageSize: nat)
      returns (r: seq<Review>)
      ensures forall i :: 0 < i < |r| ==> ReviewBefore(filter, r[i - 1], r[i])
      ensures multiset(r) == multiset(PageOf(ThemeReviews(reviews.rows, themeCode), pageNumber, pageSize))
      ensures forall x :: x in r ==> x in reviews.rows && x.active && x.themeCode == themeCode
    {
      var page := PageOf(ThemeReviews(reviews.rows, themeCode), pageNumber, pageSize);
      var a := new Review[|page|](i requires 0 <= i < |page| => page[i]);
      assert a[..] == page;
      SortInPlace(a, ReviewSortKey(filter));
      r := a[..];
      SortedReviews(filter, r);
      ReorderedThemePage(reviews.rows, themeCode, pageNumber, pageSize, r);
    }
  }
}
