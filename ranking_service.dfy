/** `RankingServiceImpl`: every week the five most liked reviews are ranked,
    their authors gain 50 points each, and the rankings of a day are listed
    most liked first. The weekly like counts come from a grouped SQL query,
    which this model takes as its input list of review codes. */
module RankingService {
  import opened Common
  import opened Tables
  import opened Sorting
  import opened Repositories

  /** The points an author gains per ranked review. */
  const RankingPoints := 50

  /** `reviewLikes.size() > 5 ? reviewLikes.subList(0, 5) : reviewLikes`. */
  function TopFive(ranked: seq<int>): (top: seq<int>)
    ensures |top| == if |ranked| > 5 then 5 else |ranked|
    ensures top == ranked[..|top|]
  {
    if |ranked| > 5 then ranked[..5] else ranked
  }

  /** The ranking rows a run appends, one per awarded review, numbered after
      the rows already stored. */
  function RankingRows(existing: nat, codes: seq<int>, now: int, date: string): (r: seq<ReviewRanking>)
    ensures |r| == |codes|
    ensures forall i :: 0 <= i < |r| ==> r[i] == ReviewRanking(existing + i + 1, codes[i], now, date, true)
    decreases |codes|
  {
    if codes == [] then []
    else [ReviewRanking(existing + 1, codes[0], now, date, true)] + RankingRows(existing + 1, codes[1..], now, date)
  }

  /** Appending the rows `RankingRows` numbers keeps the ranking table coded. */
  lemma {:induction false} RankingRowsCoded(rows: seq<ReviewRanking>, codes: seq<int>, now: int, date: string)
    requires Coded(rows, RankingCodeOf)
    ensures Coded(rows + RankingRows(|rows|, codes, now, date), RankingCodeOf)
  {
    var r := rows + RankingRows(|rows|, codes, now, date);
    forall i | 0 <= i < |r| ensures r[i].rankingCode == i + 1 {
      if i >= |rows| {
        assert r[i] == RankingRows(|rows|, codes, now, date)[i - |rows|];
      } else {
        assert r[i] == rows[i];
      }
    }
  }

  /** The member table after `member` gains `RankingPoints` and is saved
      over their row. */
  function Awarded(users: seq<Member>, member: Member): seq<Member>
    requires member in users
  {
    users[IndexIn(users, member) := member.(point := member.point + RankingPoints)]
  }

  /** The active ranking row a run appends for `review`. */
  function RankedRow(rankings: seq<ReviewRanking>, review: Review, now: int, date: string): ReviewRanking {
    ReviewRanking(|rankings| + 1, review.reviewCode, now, date, true)
  }

  /** The loop of `createReviewRanking` over the given review codes, in
      order: the review must exist, then its author (looked up by login id),
      else `NoSuchElement`; the author gains `RankingPoints` and is saved over
      their row, and an active ranking row for the review is appended. */
  function Award(reviews: seq<Review>, users: seq<Member>, rankings: seq<ReviewRanking>,
                 codes: seq<int>, now: int, date: string)
    : (Outcome, seq<Member>, seq<ReviewRanking>)
    requires Coded(reviews, ReviewCodeOf)
    decreases |codes|
  {
    if codes == [] then (Done, users, rankings)
    else
      var review := FindByCode(reviews, ReviewCodeOf, codes[0]);
      if review.None? then (Fail(NoSuchElement), users, rankings)
      else
        var member := FindUser(users, review.value.memberId);
        if member.None? then (Fail(NoSuchElement), users, rankings)
        else
          Award(reviews, Awarded(users, member.value), rankings + [RankedRow(rankings, review.value, now, date)],
                codes[1..], now, date)
  }

  /** Saving an awarded member over their row keeps the member table coded
      and keyed by login id, and touches no other member. */
  lemma AwardMember(users: seq<Member>, member: Member)
    requires Coded(users, MemberCodeOf) && UniqueKeys(users, MemberIdOf) && member in users
    ensures Coded(Awarded(users, member), MemberCodeOf) && UniqueKeys(Awarded(users, member), MemberIdOf)
  {
    var k := IndexIn(users, member);
    var awarded := member.(point := member.point + RankingPoints);
    assert member.memberCode == k + 1;
    CodedUpdate(users, MemberCodeOf, awarded);
    UniqueKeysReplace(users, MemberIdOf, k, awarded);
  }

  /** One step of `Award`: a found review and author are awarded, then the
      rest of the codes. */
  lemma AwardStep(reviews: seq<Review>, users: seq<Member>, rankings: seq<ReviewRanking>,
                  codes: seq<int>, now: int, date: string, review: Review, member: Member)
    requires Coded(reviews, ReviewCodeOf)
    requires codes != [] && FindByCode(reviews, ReviewCodeOf, codes[0]) == Some(review)
    requires FindUser(users, review.memberId) == Some(member)
    ensures Award(reviews, users, rankings, codes, now, date)
         == Award(reviews, Awarded(users, member), rankings + [RankedRow(rankings, review, now, date)],
                  codes[1..], now, date)
  {
  }

  /** `AwardStep` at position `i` of a list of codes: a run that awards
      `codes[i..]` also awards `codes[i + 1..]` after the first step. */
  lemma AwardStepAt(reviews: seq<Review>, users: seq<Member>, rankings: seq<ReviewRanking>,
                    codes: seq<int>, i: int, now: int, date: string, review: Review, member: Member,
                    run: (Outcome, seq<Member>, seq<ReviewRanking>))
    requires Coded(reviews, ReviewCodeOf)
    requires 0 <= i < |codes| && FindByCode(reviews, ReviewCodeOf, codes[i]) == Some(review)
    requires FindUser(users, review.memberId) == Some(member)
    requires run == Award(reviews, users, rankings, codes[i..], now, date)
    ensures run
         == Award(reviews, Awarded(users, member), rankings + [RankedRow(rankings, review, now, date)],
                  codes[i + 1..], now, date)
  {
    assert codes[i..][0] == codes[i] && codes[i..][1..] == codes[i + 1..];
    AwardStep(reviews, users, rankings, codes[i..], now, date, review, member);
  }

  /** A run stops at the first code whose review or author is missing. */
  lemma AwardStopsAt(reviews: seq<Review>, users: seq<Member>, rankings: seq<ReviewRanking>,
                     codes: seq<int>, i: int, now: int, date: string)
    requires Coded(reviews, ReviewCodeOf)
    requires 0 <= i < |codes|
    requires var review := FindByCode(reviews, ReviewCodeOf, codes[i]);
      review.None? || FindUser(users, review.value.memberId).None?
    ensures Award(reviews, users, rankings, codes[i..], now, date) == (Fail(NoSuchElement), users, rankings)
  {
    assert codes[i..][0] == codes[i];
  }

  /** A run keeps the member table coded and keyed by login id, with the
      same logins in the same rows; it fails only with `NoSuchElement`, and a
      successful run appends exactly one ranking row per code. */
  lemma {:induction false} AwardShape(reviews: seq<Review>, users: seq<Member>, rankings: seq<ReviewRanking>,
                                      codes: seq<int>, now: int, date: string)
    requires Coded(reviews, ReviewCodeOf)
    requires Coded(users, MemberCodeOf) && UniqueKeys(users, MemberIdOf)
    ensures var r := Award(reviews, users, rankings, codes, now, date);
      Coded(r.1, MemberCodeOf) && UniqueKeys(r.1, MemberIdOf)
      && |r.1| == |users| && (forall j :: 0 <= j < |users| ==> r.1[j].id == users[j].id)
      && (r.0 != Done ==> r.0 == Fail(NoSuchElement))
      && (r.0 == Done ==> r.2 == rankings + RankingRows(|rankings|, codes, now, date))
    decreases |codes|
  {
    if codes != [] {
      var review := FindByCode(reviews, ReviewCodeOf, codes[0]);
      if review.Some? {
        var member := FindUser(users, review.value.memberId);
        if member.Some? {
          AwardMember(users, member.value);
          var row := RankedRow(rankings, review.value, now, date);
          AwardShape(reviews, Awarded(users, member.value), rankings + [row], codes[1..], now, date);
          ConcatAssoc(rankings, [row], RankingRows(|rankings| + 1, codes[1..], now, date));
        }
      }
    }
  }

  /** `createReviewRanking` as a function of the tables: the first five
      entries at most are awarded; a missing review or author fails the
      whole run and the transaction leaves every table as it was. */
  function RankingOutcome(reviews: seq<Review>, users: seq<Member>, rankings: seq<ReviewRanking>,
                          ranked: seq<int>, now: int, date: string)
    : (r: (Outcome, seq<Member>, seq<ReviewRanking>))
    requires Coded(reviews, ReviewCodeOf)
    requires Coded(users, MemberCodeOf) && UniqueKeys(users, MemberIdOf) && Coded(rankings, RankingCodeOf)
    ensures Coded(r.1, MemberCodeOf) && UniqueKeys(r.1, MemberIdOf) && Coded(r.2, RankingCodeOf)
    ensures r.0 != Done ==> r == (Fail(NoSuchElement), users, rankings)
    ensures ranked == [] ==> r == (Done, users, rankings)
    ensures r.0 == Done ==>
      var top := TopFive(ranked);
      |r.2| == |rankings| + |top| <= |rankings| + 5 && r.2[..|rankings|] == rankings
      && forall i :: 0 <= i < |top| ==>
           r.2[|rankings| + i] == ReviewRanking(|rankings| + i + 1, ranked[i], now, date, true)
  {
    var top := TopFive(ranked);
    var awarded := Award(reviews, users, rankings, top, now, date);
    AwardShape(reviews, users, rankings, top, now, date);
    if awarded.0 != Done then (Fail(NoSuchElement), users, rankings)
    else
      RankingRowsCoded(rankings, top, now, date);
      assert (rankings + RankingRows(|rankings|, top, now, date))[..|rankings|] == rankings;
      assert forall i :: 0 <= i < |top| ==>
        awarded.2[|rankings| + i] == RankingRows(|rankings|, top, now, date)[i];
      if ranked == [] then
        assert awarded.2 == rankings;
        awarded
      else
        awarded
  }

  /** `RankingOutcome` is the run over the first five entries when it
      succeeds, and the unchanged tables otherwise. */
  lemma RankingOutcomeOfAward(reviews: seq<Review>, users: seq<Member>, rankings: seq<ReviewRanking>,
                              ranked: seq<int>, now: int, date: string)
    requires Coded(reviews, ReviewCodeOf)
    requires Coded(users, MemberCodeOf) && UniqueKeys(users, MemberIdOf) && Coded(rankings, RankingCodeOf)
    ensures var awarded := Award(reviews, users, rankings, TopFive(ranked), now, date);
      RankingOutcome(reviews, users, rankings, ranked, now, date)
        == if awarded.0 == Done then awarded else (Fail(NoSuchElement), users, rankings)
  {
  }

  /** A code the run can award: its review exists and so does its author. */
  predicate Awardable(reviews: seq<Review>, users: seq<Member>, code: int)
    requires Coded(reviews, ReviewCodeOf)
  {
    var review := FindByCode(reviews, ReviewCodeOf, code);
    review.Some? && FindUser(users, review.value.memberId).Some?
  }

  /** Awarding a member keeps every login in its row, so the same logins are
      found. */
  lemma AwardedKeepsLogins(users: seq<Member>, member: Member, id: string)
    requires member in users
    ensures FindUser(Awarded(users, member), id).Some? <==> FindUser(users, id).Some?
  {
    var awarded := Awarded(users, member);
    assert forall j :: 0 <= j < |users| ==> awarded[j].id == users[j].id;
  }

  /** A run succeeds exactly when every code is awardable. */
  lemma {:induction false} AwardDoneIff(reviews: seq<Review>, users: seq<Member>, rankings: seq<ReviewRanking>,
                                        codes: seq<int>, now: int, date: string)
    requires Coded(reviews, ReviewCodeOf)
    ensures Award(reviews, users, rankings, codes, now, date).0 == Done
        <==> forall i :: 0 <= i < |codes| ==> Awardable(reviews, users, codes[i])
    decreases |codes|
  {
    if codes != [] {
      var review := FindByCode(reviews, ReviewCodeOf, codes[0]);
      if review.Some? {
        var member := FindUser(users, review.value.memberId);
        if member.Some? {
          var awarded := Awarded(users, member.value);
          AwardDoneIff(reviews, awarded, rankings + [RankedRow(rankings, review.value, now, date)],
                       codes[1..], now, date);
          forall i | 1 <= i < |codes|
            ensures Awardable(reviews, awarded, codes[i]) <==> Awardable(reviews, users, codes[i])
          {
            var r := FindByCode(reviews, ReviewCodeOf, codes[i]);
            if r.Some? {
              AwardedKeepsLogins(users, member.value, r.value.memberId);
            }
          }
          assert forall i :: 1 <= i < |codes| ==> codes[1..][i - 1] == codes[i];
        }
      }
    }
  }

  /** `createReviewRanking` succeeds exactly when every one of the first
      five entries names an existing review whose author exists. */
  lemma RankingDoneIff(reviews: seq<Review>, users: seq<Member>, rankings: seq<ReviewRanking>,
                       ranked: seq<int>, now: int, date: string)
    requires Coded(reviews, ReviewCodeOf)
    requires Coded(users, MemberCodeOf) && UniqueKeys(users, MemberIdOf) && Coded(rankings, RankingCodeOf)
    ensures RankingOutcome(reviews, users, rankings, ranked, now, date).0 == Done
        <==> forall i :: 0 <= i < |TopFive(ranked)| ==> Awardable(reviews, users, ranked[i])
  {
    var top := TopFive(ranked);
    var awarded := Award(reviews, users, rankings, top, now, date);
    RankingOutcomeOfAward(reviews, users, rankings, ranked, now, date);
    AwardDoneIff(reviews, users, rankings, top, now, date);
    assert RankingOutcome(reviews, users, rankings, ranked, now, date).0 == Done <==> awarded.0 == Done;
    assert forall i :: 0 <= i < |top| ==> top[i] == ranked[i];
  }

  /** How many of the codes name a review written by the member with login
      `id`. */
  function AwardsOf(reviews: seq<Review>, codes: seq<int>, id: string): nat
    requires Coded(reviews, ReviewCodeOf)
    decreases |codes|
  {
    if codes == [] then 0
    else
      var review := FindByCode(reviews, ReviewCodeOf, codes[0]);
      (if review.Some? && review.value.memberId == id then 1 else 0) + AwardsOf(reviews, codes[1..], id)
  }

  /** The points the codes award the member with login `id`, review by review. */
  function PointsOf(reviews: seq<Review>, codes: seq<int>, id: string): int
    requires Coded(reviews, ReviewCodeOf)
    decreases |codes|
  {
    if codes == [] then 0
    else
      var review := FindByCode(reviews, ReviewCodeOf, codes[0]);
      (if review.Some? && review.value.memberId == id then RankingPoints else 0) + PointsOf(reviews, codes[1..], id)
  }

  /** The points come to `RankingPoints` per awarded review. */
  lemma {:induction false} PointsPerAward(reviews: seq<Review>, codes: seq<int>, id: string)
    requires Coded(reviews, ReviewCodeOf)
    ensures PointsOf(reviews, codes, id) == RankingPoints * AwardsOf(reviews, codes, id)
    decreases |codes|
  {
    if codes != [] {
      PointsPerAward(reviews, codes[1..], id);
    }
  }

  /** The points of member `j` after a successful run from `users`. */
  ghost predicate PointsAfter(reviews: seq<Review>, users: seq<Member>, rankings: seq<ReviewRanking>,
                              codes: seq<int>, now: int, date: string, j: int)
    requires Coded(reviews, ReviewCodeOf)
    requires 0 <= j < |users|
  {
    var r := Award(reviews, users, rankings, codes, now, date);
    r.0 == Done ==>
      |r.1| == |users| && r.1[j] == users[j].(point := users[j].point + PointsOf(reviews, codes, users[j].id))
  }

  /** The inductive step of `AwardPoints`: awarding the first review keeps
      the statement for member `j`. */
  lemma AwardPointsStep(reviews: seq<Review>, users: seq<Member>, rankings: seq<ReviewRanking>,
                        codes: seq<int>, now: int, date: string, j: int, review: Review, member: Member)
    requires Coded(reviews, ReviewCodeOf)
    requires UniqueKeys(users, MemberIdOf)
    requires 0 <= j < |users|
    requires codes != [] && FindByCode(reviews, ReviewCodeOf, codes[0]) == Some(review)
    requires FindUser(users, review.memberId) == Some(member)
    requires PointsAfter(reviews, Awarded(users, member), rankings + [RankedRow(rankings, review, now, date)],
                         codes[1..], now, date, j)
    ensures PointsAfter(reviews, users, rankings, codes, now, date, j)
  {
    var k := IndexIn(users, member);
    AwardStep(reviews, users, rankings, codes, now, date, review, member);
    var id := users[j].id;
    if j != k {
      assert users[j].id != users[k].id;
    }
    assert PointsOf(reviews, codes, id)
        == (if id == review.memberId then RankingPoints else 0) + PointsOf(reviews, codes[1..], id);
  }

  /** A successful run adds exactly `RankingPoints` per awarded review to
      each member, and changes nothing else about any member. */
  lemma {:induction false} AwardPoints(reviews: seq<Review>, users: seq<Member>, rankings: seq<ReviewRanking>,
                                       codes: seq<int>, now: int, date: string, j: int)
    requires Coded(reviews, ReviewCodeOf)
    requires UniqueKeys(users, MemberIdOf)
    requires 0 <= j < |users|
    ensures var r := Award(reviews, users, rankings, codes, now, date);
      r.0 == Done ==>
        |r.1| == |users| && r.1[j] == users[j].(point := users[j].point + PointsOf(reviews, codes, users[j].id))
    decreases |codes|
  {
    if codes != [] {
      var review := FindByCode(reviews, ReviewCodeOf, codes[0]);
      var member := if review.Some? then FindUser(users, review.value.memberId) else None;
      if member.Some? {
        var k := IndexIn(users, member.value);
        var awarded := member.value.(point := member.value.point + RankingPoints);
        UniqueKeysReplace(users, MemberIdOf, k, awarded);
        AwardPoints(reviews, Awarded(users, member.value),
                    rankings + [RankedRow(rankings, review.value, now, date)], codes[1..], now, date, j);
        AwardPointsStep(reviews, users, rankings, codes, now, date, j, review.value, member.value);
      }
    }
    assert PointsAfter(reviews, users, rankings, codes, now, date, j);
  }

  /** The whole run: each author gains `RankingPoints` times the number of
      their reviews among the first five entries. */
  lemma {:induction false} RankingPointsGained(reviews: seq<Review>, users: seq<Member>, rankings: seq<ReviewRanking>,
                                               ranked: seq<int>, now: int, date: string, j: int)
    requires Coded(reviews, ReviewCodeOf)
    requires Coded(users, MemberCodeOf) && UniqueKeys(users, MemberIdOf) && Coded(rankings, RankingCodeOf)
    requires 0 <= j < |users|
    ensures var r := RankingOutcome(reviews, users, rankings, ranked, now, date);
      r.0 == Done ==>
        |r.1| == |users|
        && r.1[j] == users[j].(point := users[j].point
                                        + RankingPoints * AwardsOf(reviews, TopFive(ranked), users[j].id))
  {
    AwardPoints(reviews, users, rankings, TopFive(ranked), now, date, j);
    PointsPerAward(reviews, TopFive(ranked), users[j].id);
  }

  // ---------------------------------------------------------------------
  // Listing

  /** `ReviewRankingDateDTO`. */
  datatype RankingDates = RankingDates(reviewRankingDates: seq<string>)

  /** `findReviewRankingDate`: null for no dates, else the dates unchanged. */
  function FindReviewRankingDate(dates: seq<string>): (r: Option<RankingDates>)
    ensures r.None? <==> dates == []
    ensures r.Some? ==> r.value.reviewRankingDates == dates
  {
    if dates == [] then None else Some(RankingDates(dates))
  }

  /** `ReviewRankingDTO`: a ranked review, its like count and the date asked for. */
  datatype RankingDto = RankingDto(reviewCode: int, likes: nat, rankingDate: string)

  /** The number of active likes of a review. */
  function LikesOf(likes: seq<ReviewLike>, reviewCode: int): nat {
    |Filter(likes, (l: ReviewLike) => l.active && l.reviewCode == reviewCode)|
  }

  /** `findReviewByCreatedAtDate(date)`: the active rankings of that day. */
  function RankingsOn(rankings: seq<ReviewRanking>, date: string): seq<ReviewRanking> {
    Filter(rankings, (rr: ReviewRanking) => rr.active && rr.rankingDate == date)
  }

  /** The rankings of the day mapped to DTOs, in table order. */
  function RankingDtos(likes: seq<ReviewLike>, ranked: seq<ReviewRanking>, date: string): (r: seq<RankingDto>)
    ensures |r| == |ranked|
    ensures forall i :: 0 <= i < |r| ==>
      r[i].reviewCode == ranked[i].reviewCode && r[i].likes == LikesOf(likes, ranked[i].reviewCode)
      && r[i].rankingDate == date
  {
    seq(|ranked|, i requires 0 <= i < |ranked| =>
      RankingDto(ranked[i].reviewCode, LikesOf(likes, ranked[i].reviewCode), date))
  }

  /** `Comparator.comparingInt(ReviewRankingDTO::getLikes).reversed()`. */
  function MostLikedFirst(d: RankingDto): Key { Key(-(d.likes as int), 0) }

  /** `findReviewRanking`. A missing date becomes the head of the current
      year's ranking dates, listed newest first (the latest date) (`NullPointer` when that year has none); the login
      must name a member (`NoSuchElement`); no active rankings that day give
      null; otherwise the day's ranked reviews, most liked first, each
      carrying the date. */
  function FindReviewRanking(users: seq<Member>, rankings: seq<ReviewRanking>, likes: seq<ReviewLike>,
                             date: Option<string>, currentYearDates: seq<string>, loginId: string)
    : (r: Result<Option<seq<RankingDto>>>)
    ensures date.None? && currentYearDates == [] ==> r == Failure(NullPointer)
    ensures (date.Some? || currentYearDates != []) && FindUser(users, loginId).None? ==> r == Failure(NoSuchElement)
    ensures r.Failure? ==> (date.None? && currentYearDates == []) || FindUser(users, loginId).None?
    ensures r.Success? ==>
      var day := if date.Some? then date.value else currentYearDates[0];
      (r.value.None? <==> RankingsOn(rankings, day) == [])
      && (r.value.Some? ==>
            SortedBy(r.value.value, MostLikedFirst)
            && multiset(r.value.value) == multiset(RankingDtos(likes, RankingsOn(rankings, day), day))
            && forall d :: d in r.value.value ==> d.rankingDate == day)
  {
    var dates := FindReviewRankingDate(currentYearDates);
    if date.None? && dates.None? then Failure(NullPointer)
    else
      var day := if date.Some? then date.value else dates.value.reviewRankingDates[0];
      if FindUser(users, loginId).None? then Failure(NoSuchElement)
      else
        var ranked := RankingsOn(rankings, day);
        if ranked == [] then Success(None)
        else
          var dtos := RankingDtos(likes, ranked, day);
          var sorted := Sort(dtos, MostLikedFirst);
          forall d | d in sorted ensures d.rankingDate == day {
            assert d in multiset(dtos);
          }
          Success(Some(sorted))
  }

  /** Asking without a date is asking for the head of the current year's
      ranking dates, which `findDistinctDatesByYear` lists newest first: the
      latest ranking date. */
  lemma NullDateIsLatestDate(users: seq<Member>, rankings: seq<ReviewRanking>, likes: seq<ReviewLike>,
                            currentYearDates: seq<string>, loginId: string)
    requires currentYearDates != []
    ensures FindReviewRanking(users, rankings, likes, None, currentYearDates, loginId)
         == FindReviewRanking(users, rankings, likes, Some(currentYearDates[0]), currentYearDates, loginId)
  {
  }

  class RankingService {
    const users: UserRepository
    const reviews: ReviewRepository
    const likes: ReviewLikeRepository
    const rankings: ReviewRankingRepository

    constructor (users: UserRepository, reviews: ReviewRepository, likes: ReviewLikeRepository,
                 rankings: ReviewRankingRepository)
      ensures this.users == users && this.reviews == reviews && this.likes == likes && this.rankings == rankings
    {
      this.users := users;
      this.reviews := reviews;
      this.likes := likes;
      this.rankings := rankings;
    }

    ghost predicate Valid() reads users, reviews, likes, rankings {
      users.Valid() && reviews.Valid() && likes.Valid() && rankings.Valid()
    }

    /** `createReviewRanking`, given the weekly like-count query's review
        codes (most liked first), the time of the run and its date. A review
        or author that cannot be found aborts the run and the transaction
        restores both tables. */
    method CreateReviewRanking(ranked: seq<int>, now: int, date: string) returns (out: Outcome)
      requires Valid()
      modifies users, rankings
      ensures Valid()
      ensures (out, users.rows, rankings.rows)
        == RankingOutcome(reviews.rows, old(users.rows), old(rankings.rows), ranked, now, date)
    {
      var top := if |ranked| > 5 then ranked[..5] else ranked;
      assert top == TopFive(ranked);
      var savedUsers := users.rows;
      var savedRankings := rankings.rows;
      RankingOutcomeOfAward(reviews.rows, savedUsers, savedRankings, ranked, now, date);
      AwardShape(reviews.rows, savedUsers, savedRankings, top, now, date);
      ghost var outcome := RankingOutcome(reviews.rows, savedUsers, savedRankings, ranked, now, date);
      out := AwardTop(top, now, date);
      if out != Done {
        users.rows := savedUsers;
        rankings.rows := savedRankings;
      }
      assert (out, users.rows, rankings.rows) == outcome;
    }

    /** The loop of `createReviewRanking`: each code's author gains the
        ranking points and a ranking row is saved, until a code's review or
        author is missing. */
    method AwardTop(top: seq<int>, now: int, date: string) returns (out: Outcome)
      requires reviews.Valid()
      modifies users, rankings
      ensures (out, users.rows, rankings.rows)
        == Award(reviews.rows, old(users.rows), old(rankings.rows), top, now, date)
    {
      var reviewRows := reviews.rows;
      ghost var target := Award(reviewRows, users.rows, rankings.rows, top, now, date);
      assert top[0..] == top;
      var i := 0;
      while i < |top|
        invariant 0 <= i <= |top|
        invariant target == Award(reviewRows, users.rows, rankings.rows, top[i..], now, date)
      {
        var review := FindByCode(reviewRows, ReviewCodeOf, top[i]);
        var member := if review.Some? then FindUser(users.rows, review.value.memberId) else None;
        if member.None? {
          AwardStopsAt(reviewRows, users.rows, rankings.rows, top, i, now, date);
          return Fail(NoSuchElement);
        }
        AwardStepAt(reviewRows, users.rows, rankings.rows, top, i, now, date, review.value, member.value, target);
        users.rows := Awarded(users.rows, member.value);
        rankings.rows := rankings.rows + [RankedRow(rankings.rows, review.value, now, date)];
        i := i + 1;
      }
      assert top[|top|..] == [];
      return Done;
    }
  }
}
