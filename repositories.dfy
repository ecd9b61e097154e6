/** The JPA entities the services read and write, as values, and one
    repository object per entity table. A repository holds its table as a
    sequence of rows; the services assign the sequence when they save.
    Timestamps (`LocalDateTime`) are integers that grow with time. */
module Repositories {
  import opened Common
  import opened Tables

  /** `Member`, keyed for lookups by its login `id`; `memberCode` is its IDENTITY code. */
  datatype Member = Member(
    memberCode: int,
    id: string,
    password: string,
    nickname: string,
    email: string,
    isAdmin: bool,
    image: Option<string>,
    point: int)

  datatype Theme = Theme(themeCode: int, active: bool, createdAt: int)

  /** `ReactionType`: what a member has done to a theme. */
  datatype ReactionType = Like | Scrap | ScrapLike

  /** `ThemeReaction`, keyed by (memberCode, themeCode). */
  datatype ThemeReaction = ThemeReaction(
    memberCode: int,
    themeCode: int,
    reaction: ReactionType,
    createdAt: int,
    active: bool)

  datatype Review = Review(
    reviewCode: int,
    memberCode: int,
    memberId: string,
    themeCode: int,
    totalScore: int,
    content: string,
    createdAt: int,
    active: bool)

  /** `ReviewLike`, keyed by (memberCode, reviewCode). */
  datatype ReviewLike = ReviewLike(memberCode: int, reviewCode: int, createdAt: int, active: bool)

  /** `ReviewRanking`; `rankingDate` is the calendar date of `createdAt`,
      which the ranking queries compare as a string. */
  datatype ReviewRanking = ReviewRanking(
    rankingCode: int,
    reviewCode: int,
    createdAt: int,
    rankingDate: string,
    active: bool)

  datatype CommunityPost = CommunityPost(
    postCode: int,
    title: string,
    content: string,
    createdAt: int,
    active: bool,
    memberCode: int)

  /** `CommunityLike`, keyed by `CommunityLikeId` = (memberCode, communityPostCode). */
  datatype CommunityLike = CommunityLike(memberCode: int, postCode: int, createdAt: int, active: bool)

  datatype Comment = Comment(
    commentCode: int,
    content: string,
    createdAt: int,
    active: bool,
    memberCode: int,
    postCode: int)

  /** `EventPost`; `themeCode` is `None` when the event names no existing theme. */
  datatype EventPost = EventPost(
    eventPostCode: int,
    title: string,
    content: string,
    category: string,
    createdAt: int,
    active: bool,
    memberCode: int,
    themeCode: Option<int>)

  datatype NoticePost = NoticePost(
    noticePostCode: int,
    title: string,
    content: string,
    createdAt: int,
    active: bool,
    memberCode: int)

  /** A `ReviewFile`, `CommunityFile`, `EventFile` or `NoticeFile`: an
      uploaded image's URL, attached to the row with code `ownerCode`. */
  datatype FileRecord = FileRecord(fileCode: int, url: string, ownerCode: int, createdAt: int, active: bool)

  /** The key functions the tables are coded or keyed by. */
  function MemberCodeOf(m: Member): int { m.memberCode }
  function MemberIdOf(m: Member): string { m.id }
  function ThemeCodeOf(t: Theme): int { t.themeCode }
  function ReviewCodeOf(r: Review): int { r.reviewCode }
  function RankingCodeOf(r: ReviewRanking): int { r.rankingCode }
  function PostCodeOf(p: CommunityPost): int { p.postCode }
  function CommentCodeOf(c: Comment): int { c.commentCode }
  function EventPostCodeOf(e: EventPost): int { e.eventPostCode }
  function NoticePostCodeOf(n: NoticePost): int { n.noticePostCode }
  function FileCodeOf(f: FileRecord): int { f.fileCode }
  function ThemeReactionKey(r: ThemeReaction): (int, int) { (r.memberCode, r.themeCode) }
  function ReviewLikeKey(l: ReviewLike): (int, int) { (l.memberCode, l.reviewCode) }
  function CommunityLikeKey(l: CommunityLike): (int, int) { (l.memberCode, l.postCode) }

  class UserRepository {
    var rows: seq<Member>
    constructor () ensures rows == [] { rows := []; }
    ghost predicate Valid() reads this {
      Coded(rows, MemberCodeOf) && UniqueKeys(rows, MemberIdOf)
    }
  }

  /** `userRepository.findById(loginId)`. */
  function FindUser(rows: seq<Member>, loginId: string): (r: Option<Member>)
    ensures r.None? <==> forall j :: 0 <= j < |rows| ==> rows[j].id != loginId
    ensures r.Some? ==> r.value in rows && r.value.id == loginId
  {
    Lookup(rows, MemberIdOf, loginId)
  }

  /** `userRepository.findByIdAndIsAdminTrue(loginId)`. */
  function FindAdmin(rows: seq<Member>, loginId: string): (r: Option<Member>)
    ensures r.Some? <==> FindUser(rows, loginId).Some? && FindUser(rows, loginId).value.isAdmin
    ensures r.Some? ==> r.value == FindUser(rows, loginId).value
  {
    var m := FindUser(rows, loginId);
    if m.Some? && m.value.isAdmin then m else None
  }

  class ThemeRepository {
    var rows: seq<Theme>
    constructor () ensures rows == [] { rows := []; }
    ghost predicate Valid() reads this { Coded(rows, ThemeCodeOf) }
  }

  class ThemeReactionRepository {
    var rows: seq<ThemeReaction>
    constructor () ensures rows == [] { rows := []; }
    ghost predicate Valid() reads this { UniqueKeys(rows, ThemeReactionKey) }
  }

  class ReviewRepository {
    var rows: seq<Review>
    constructor () ensures rows == [] { rows := []; }
    ghost predicate Valid() reads this { Coded(rows, ReviewCodeOf) }
  }

  class ReviewLikeRepository {
    var rows: seq<ReviewLike>
    constructor () ensures rows == [] { rows := []; }
    ghost predicate Valid() reads this { UniqueKeys(rows, ReviewLikeKey) }
  }

  class ReviewRankingRepository {
    var rows: seq<ReviewRanking>
    constructor () ensures rows == [] { rows := []; }
    ghost predicate Valid() reads this { Coded(rows, RankingCodeOf) }
  }

  class CommunityPostRepository {
    var rows: seq<CommunityPost>
    constructor () ensures rows == [] { rows := []; }
    ghost predicate Valid() reads this { Coded(rows, PostCodeOf) }
  }

  class CommunityLikeRepository {
    var rows: seq<CommunityLike>
    constructor () ensures rows == [] { rows := []; }
    ghost predicate Valid() reads this { UniqueKeys(rows, CommunityLikeKey) }
  }

  class CommentRepository {
    var rows: seq<Comment>
    constructor () ensures rows == [] { rows := []; }
    ghost predicate Valid() reads this { Coded(rows, CommentCodeOf) }
  }

  class EventPostRepository {
    var rows: seq<EventPost>
    constructor () ensures rows == [] { rows := []; }
    ghost predicate Valid() reads this { Coded(rows, EventPostCodeOf) }
  }

  class NoticePostRepository {
    var rows: seq<NoticePost>
    constructor () ensures rows == [] { rows := []; }
    ghost predicate Valid() reads this { Coded(rows, NoticePostCodeOf) }
  }

  class FileRepository {
    var rows: seq<FileRecord>
    constructor () ensures rows == [] { rows := []; }
    ghost predicate Valid() reads this { Coded(rows, FileCodeOf) }
  }

  /** The file rows `saveFiles` appends for one owner, one per URL, numbered
      after the rows already stored. */
  function FileRows(existing: nat, urls: seq<string>, ownerCode: int, now: int): (r: seq<FileRecord>)
    ensures |r| == |urls|
    ensures forall i :: 0 <= i < |r| ==>
      r[i] == FileRecord(existing + i + 1, urls[i], ownerCode, now, true)
    decreases |urls|
  {
    if urls == [] then []
    else [FileRecord(existing + 1, urls[0], ownerCode, now, true)]
         + FileRows(existing + 1, urls[1..], ownerCode, now)
  }

  /** Appending the rows `FileRows` numbers keeps a file table coded. */
  lemma {:induction false} FileRowsCoded(rows: seq<FileRecord>, urls: seq<string>, ownerCode: int, now: int)
    requires Coded(rows, FileCodeOf)
    ensures Coded(rows + FileRows(|rows|, urls, ownerCode, now), FileCodeOf)
  {
    var r := rows + FileRows(|rows|, urls, ownerCode, now);
    forall i | 0 <= i < |r| ensures r[i].fileCode == i + 1 {
      if i >= |rows| {
        assert r[i] == FileRows(|rows|, urls, ownerCode, now)[i - |rows|];
      } else {
        assert r[i] == rows[i];
      }
    }
  }

  /** A table that keeps its first rows and continues with the numbered
      rows of the URLs is those rows followed by `FileRows`. */
  lemma FileRowsAppended(rows: seq<FileRecord>, before: seq<FileRecord>, urls: seq<string>, ownerCode: int, now: int)
    requires |rows| == |before| + |urls| && rows[..|before|] == before
    requires forall j :: 0 <= j < |urls| ==>
      rows[|before| + j] == FileRecord(|before| + j + 1, urls[j], ownerCode, now, true)
    ensures rows == before + FileRows(|before|, urls, ownerCode, now)
  {
    var expected := before + FileRows(|before|, urls, ownerCode, now);
    forall i | 0 <= i < |rows| ensures rows[i] == expected[i] {
      if i < |before| {
        assert rows[i] == rows[..|before|][i];
      } else {
        assert rows[|before| + (i - |before|)] == rows[i];
      }
    }
  }
}
