/** `NoticePostServiceImpl`: administrators publish notices with images,
    edit and soft-delete their own, and visitors page through the active
    notices, newest first, with 1-based page numbers. */
module NoticePostService {
  import opened Common
  import opened Tables
  import opened Sorting
  import opened Repositories
  import opened Uploads

  /** `createNoticePost` as a function of the tables. Only an administrator
      may create (else `InvalidUser`, nothing saved). The notice is active,
      created now, copies title and content and is written by the
      administrator. Image rows follow; a file name without '.' fails the
      call and rolls both tables back. */
  function CreateNoticeOutcome(users: seq<Member>, notices: seq<NoticePost>, files: seq<FileRecord>,
                               userId: string, title: string, content: string,
                               images: Option<seq<string>>, uuids: seq<string>, now: int)
    : (r: (Outcome, seq<NoticePost>, seq<FileRecord>))
    requires Coded(notices, NoticePostCodeOf) && Coded(files, FileCodeOf)
    requires images.Some? ==> |uuids| == |images.value|
    ensures Coded(r.1, NoticePostCodeOf) && Coded(r.2, FileCodeOf)
    ensures r.0 != Done ==> r.1 == notices && r.2 == files
    ensures r.0 == Fail(InvalidUser) <==> FindAdmin(users, userId).None?
    ensures r.0 == Done ==>
      FindAdmin(users, userId).Some?
      && |r.1| == |notices| + 1 && r.1[..|notices|] == notices
      && var notice := r.1[|notices|];
      notice.active && notice.createdAt == now && notice.title == title && notice.content == content
      && notice.memberCode == FindAdmin(users, userId).value.memberCode
      && |files| <= |r.2| && r.2[..|files|] == files
      && (forall i :: |files| <= i < |r.2| ==> r.2[i].ownerCode == notice.noticePostCode && r.2[i].active)
      && (images.None? ==> r.2 == files)
  {
    var admin := FindAdmin(users, userId);
    if admin.None? then (Fail(InvalidUser), notices, files)
    else
      var notice := NoticePost(|notices| + 1, title, content, now, true, admin.value.memberCode);
      CodedAppend(notices, NoticePostCodeOf, notice);
      assert (notices + [notice])[..|notices|] == notices;
      if images.None? then (Done, notices + [notice], files)
      else
        var urls := StemFileUrls(NoticeFilesPrefix, images.value, uuids);
        if urls.Failure? then (Fail(urls.error), notices, files)
        else
          var added := FileRows(|files|, urls.value, notice.noticePostCode, now);
          FileRowsCoded(files, urls.value, notice.noticePostCode, now);
          assert (files + added)[..|files|] == files;
          assert forall i :: |files| <= i < |files + added| ==> (files + added)[i] == added[i - |files|];
          (Done, notices + [notice], files + added)
  }

  /** `updateNoticePost` as a function of the table. The checks run in the
      order notice (`NoticePostNotFound`), administrator (`InvalidUser`),
      author (`InvalidUser`); success changes only title and content. */
  function UpdateNoticeOutcome(users: seq<Member>, notices: seq<NoticePost>, userId: string,
                               noticePostCode: int, title: string, content: string)
    : (r: (Outcome, seq<NoticePost>))
    requires Coded(notices, NoticePostCodeOf)
    ensures Coded(r.1, NoticePostCodeOf)
    ensures r.0 != Done ==> r.1 == notices
    ensures r.0 == Fail(NoticePostNotFound) <==> FindByCode(notices, NoticePostCodeOf, noticePostCode).None?
    ensures r.0 == Done ==>
      1 <= noticePostCode <= |notices| && |r.1| == |notices|
      && (forall j :: 0 <= j < |notices| && j != noticePostCode - 1 ==> r.1[j] == notices[j])
      && r.1[noticePostCode - 1] == notices[noticePostCode - 1].(title := title, content := content)
      && FindAdmin(users, userId).Some?
      && notices[noticePostCode - 1].memberCode == FindAdmin(users, userId).value.memberCode
  {
    var found := FindByCode(notices, NoticePostCodeOf, noticePostCode);
    if found.None? then (Fail(NoticePostNotFound), notices)
    else
      var admin := FindAdmin(users, userId);
      if admin.None? then (Fail(InvalidUser), notices)
      else if found.value.memberCode != admin.value.memberCode then (Fail(InvalidUser), notices)
      else
        var edited := found.value.(title := title, content := content);
        CodedUpdate(notices, NoticePostCodeOf, edited);
        (Done, notices[noticePostCode - 1 := edited])
  }

  /** `deleteNoticePost` as a function of the table: the checks of the
      update, then only `active` changes, to false. */
  function DeleteNoticeOutcome(users: seq<Member>, notices: seq<NoticePost>, userId: string, noticePostCode: int)
    : (r: (Outcome, seq<NoticePost>))
    requires Coded(notices, NoticePostCodeOf)
    ensures Coded(r.1, NoticePostCodeOf)
    ensures r.0 != Done ==> r.1 == notices
    ensures r.0 == Fail(NoticePostNotFound) <==> FindByCode(notices, NoticePostCodeOf, noticePostCode).None?
    ensures r.0 == Done ==>
      1 <= noticePostCode <= |notices|
      && r.1 == notices[noticePostCode - 1 := notices[noticePostCode - 1].(active := false)]
      && FindAdmin(users, userId).Some?
      && notices[noticePostCode - 1].memberCode == FindAdmin(users, userId).value.memberCode
  {
    var found := FindByCode(notices, NoticePostCodeOf, noticePostCode);
    if found.None? then (Fail(NoticePostNotFound), notices)
    else
      var admin := FindAdmin(users, userId);
      if admin.None? then (Fail(InvalidUser), notices)
      else if found.value.memberCode != admin.value.memberCode then (Fail(InvalidUser), notices)
      else
        var deleted := found.value.(active := false);
        CodedUpdate(notices, NoticePostCodeOf, deleted);
        (Done, notices[noticePostCode - 1 := deleted])
  }

  // ---------------------------------------------------------------------
  // Paging

  /** The 0-based page index `PageRequest.of` receives for the requested
      1-based page: pages below 1 read as the first. */
  function PageIndex(pageNumber: int): (index: nat)
    ensures pageNumber >= 1 ==> index == pageNumber - 1
    ensures pageNumber <= 0 ==> index == 0
  {
    if pageNumber <= 0 then 0 else pageNumber - 1
  }

  /** The position in the listing of a page's first entry. */
  function PageStart(pageNumber: int, size: nat): nat {
    PageIndex(pageNumber) * size
  }

  /** `Page.getTotalPages()`: the fewest pages of `size` holding `total` rows. */
  function TotalPages(total: nat, size: nat): (pages: nat)
    requires size >= 1
    ensures (pages - 1) * size < total <= pages * size || (total == 0 && pages == 0)
  {
    (total + size - 1) / size
  }

  function IsActiveNotice(n: NoticePost): bool { n.active }

  function NewestNoticeFirst(n: NoticePost): Key { Key(-n.createdAt, 0) }

  /** `findByActiveTrue` ordered by `createdAt` descending, before paging. */
  function ActiveNotices(notices: seq<NoticePost>): seq<NoticePost> {
    Sort(Filter(notices, IsActiveNotice), NewestNoticeFirst)
  }

  /** `NoticePostDTO`, without the author's nickname. */
  datatype NoticeDto = NoticeDto(noticePostCode: int, title: string, content: string, createdAt: int,
                                 memberCode: int, imageUrls: seq<string>)

  /** `NoticePageResponse`. */
  datatype NoticePage = NoticePage(noticePosts: seq<NoticeDto>, currentPage: int, totalPages: nat, totalElements: nat)

  /** `getAllNotices`: the requested 1-based page of the active notices,
      newest first. The reported current page is the index used plus one, so
      it equals the request for requests of at least 1 and is 1 otherwise. */
  function AllNotices(notices: seq<NoticePost>, files: seq<FileRecord>, pageNumber: int, pageSize: nat)
    : (r: NoticePage)
    requires pageSize >= 1
    ensures r.currentPage == if pageNumber >= 1 then pageNumber else 1
    ensures r.totalElements == |ActiveNotices(notices)| == |Filter(notices, IsActiveNotice)|
    ensures r.totalPages == TotalPages(r.totalElements, pageSize)
    ensures |r.noticePosts| <= pageSize
    ensures forall i :: 0 <= i < |r.noticePosts| ==>
      var k := PageStart(pageNumber, pageSize) + i;
      k < |ActiveNotices(notices)|
      && r.noticePosts[i].noticePostCode == ActiveNotices(notices)[k].noticePostCode
      && r.noticePosts[i].createdAt == ActiveNotices(notices)[k].createdAt
  {
    var listed := ActiveNotices(notices);
    var index := PageIndex(pageNumber);
    var page := PageOf(listed, index, pageSize);
    assert |listed| == |Filter(notices, IsActiveNotice)|;
    assert PageStart(pageNumber, pageSize) == index * pageSize;
    var dtos := seq(|page|, i requires 0 <= i < |page| =>
      NoticeDto(page[i].noticePostCode, page[i].title, page[i].content, page[i].createdAt, page[i].memberCode,
                FileUrlsOf(files, page[i].noticePostCode)));
    NoticePage(dtos, index + 1, TotalPages(|listed|, pageSize), |listed|)
  }

  /** Every listed notice can be reached: the k-th active notice, counting
      from 0 newest first, is entry `k % size` of 1-based page `k / size + 1`. */
  lemma {:induction false} NoticeOnItsPage(notices: seq<NoticePost>, files: seq<FileRecord>, pageSize: nat, k: nat)
    requires pageSize >= 1 && k < |ActiveNotices(notices)|
    ensures var page := AllNotices(notices, files, k / pageSize + 1, pageSize);
      k % pageSize < |page.noticePosts|
      && page.noticePosts[k % pageSize].noticePostCode == ActiveNotices(notices)[k].noticePostCode
      && page.currentPage == k / pageSize + 1
  {
    var listed := ActiveNotices(notices);
    var number := k / pageSize;
    DivMod(k, pageSize);
    assert PageIndex(number + 1) == number;
    var page := AllNotices(notices, files, number + 1, pageSize);
    var taken := PageOf(listed, number, pageSize);
    assert number * pageSize < |listed|;
    assert |page.noticePosts| == |taken|;
    assert k % pageSize < |taken|;
  }

  lemma DivMod(k: nat, size: nat)
    requires size >= 1
    ensures (k / size) * size + k % size == k && k % size < size
  {
  }

  /** Every entry of every page is an active notice of the table, and the
      entries of a page are newest first. */
  lemma {:induction false} NoticePageActive(notices: seq<NoticePost>, files: seq<FileRecord>,
                                            pageNumber: int, pageSize: nat, i: nat)
    requires pageSize >= 1
    requires i < |AllNotices(notices, files, pageNumber, pageSize).noticePosts|
    ensures var page := AllNotices(notices, files, pageNumber, pageSize).noticePosts;
      var shown := ActiveNotices(notices)[PageStart(pageNumber, pageSize) + i];
      shown in notices && shown.active && shown.noticePostCode == page[i].noticePostCode
      && (i > 0 ==> page[i - 1].createdAt >= page[i].createdAt)
  {
    var listed := ActiveNotices(notices);
    var page := AllNotices(notices, files, pageNumber, pageSize).noticePosts;
    var base := PageStart(pageNumber, pageSize);
    var k := base + i;
    assert listed[k] in multiset(Filter(notices, IsActiveNotice));
    if i > 0 {
      assert base + (i - 1) == k - 1;
      assert page[i - 1].createdAt == listed[k - 1].createdAt;
      assert KeyLe(NewestNoticeFirst(listed[k - 1]), NewestNoticeFirst(listed[k]));
    }
  }

  class NoticePostService {
    const users: UserRepository
    const notices: NoticePostRepository
    const files: FileRepository

    constructor (users: UserRepository, notices: NoticePostRepository, files: FileRepository)
      ensures this.users == users && this.notices == notices && this.files == files
    {
      this.users := users;
      this.notices := notices;
      this.files := files;
    }

    ghost predicate Valid() reads users, notices, files {
      users.Valid() && notices.Valid() && files.Valid()
    }

    /** `createNoticePost`, over the repositories. */
    method CreateNoticePost(title: string, content: string, images: Option<seq<string>>, uuids: seq<string>,
                            userId: string, now: int)
      returns (out: Outcome)
      requires Valid()
      requires images.Some? ==> |uuids| == |images.value|
      modifies notices, files
      ensures Valid()
      ensures (out, notices.rows, files.rows)
        == CreateNoticeOutcome(users.rows, old(notices.rows), old(files.rows), userId, title, content,
                               images, uuids, now)
    {
      var admin := FindAdmin(users.rows, userId);
      if admin.None? {
        return Fail(InvalidUser);
      }
      var savedNotices := notices.rows;
      var savedFiles := files.rows;
      var notice := NoticePost(|notices.rows| + 1, title, content, now, true, admin.value.memberCode);
      CodedAppend(notices.rows, NoticePostCodeOf, notice);
      notices.rows := notices.rows + [notice];
      if images.Some? {
        out := SaveStemFiles(files, NoticeFilesPrefix, images.value, uuids, notice.noticePostCode, now);
        if out != Done {
          notices.rows := savedNotices;
          files.rows := savedFiles;
          return;
        }
      }
      return Done;
    }

    /** `updateNoticePost`, over the repository; the images argument is ignored. */
    method UpdateNoticePost(noticePostCode: int, title: string, content: string, userId: string)
      returns (out: Outcome)
      requires Valid()
      modifies notices
      ensures Valid()
      ensures (out, notices.rows)
        == UpdateNoticeOutcome(users.rows, old(notices.rows), userId, noticePostCode, title, content)
    {
      var found := FindByCode(notices.rows, NoticePostCodeOf, noticePostCode);
      if found.None? {
        return Fail(NoticePostNotFound);
      }
      var admin := FindAdmin(users.rows, userId);
      if admin.None? {
        return Fail(InvalidUser);
      }
      if found.value.memberCode != admin.value.memberCode {
        return Fail(InvalidUser);
      }
      var edited := found.value.(title := title, content := content);
      CodedUpdate(notices.rows, NoticePostCodeOf, edited);
      notices.rows := notices.rows[noticePostCode - 1 := edited];
      return Done;
    }

    /** `deleteNoticePost`, over the repository. */
    method DeleteNoticePost(noticePostCode: int, userId: string) returns (out: Outcome)
      requires Valid()
      modifies notices
      ensures Valid()
      ensures (out, notices.rows) == DeleteNoticeOutcome(users.rows, old(notices.rows), userId, noticePostCode)
    {
      var found := FindByCode(notices.rows, NoticePostCodeOf, noticePostCode);
      if found.None? {
        return Fail(NoticePostNotFound);
      }
      var admin := FindAdmin(users.rows, userId);
      if admin.None? {
        return Fail(InvalidUser);
      }
      if found.value.memberCode != admin.value.memberCode {
        return Fail(InvalidUser);
      }
      var deleted := found.value.(active := false);
      CodedUpdate(notices.rows, NoticePostCodeOf, deleted);
      notices.rows := notices.rows[noticePostCode - 1 := deleted];
      return Done;
    }
  }
}
