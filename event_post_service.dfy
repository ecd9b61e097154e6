/** `EventPostServiceImpl`: administrators publish event posts about themes,
    edit and soft-delete their own, and visitors see the latest "discount"
    and "newTheme" events. */
module EventPostService {
  import opened Common
  import opened Tables
  import opened Sorting
  import opened Repositories
  import opened Uploads

  /** `themeRepository.findById(code).orElse(null)`, as the theme code kept. */
  function SelectedTheme(themes: seq<Theme>, themeCode: int): (r: Option<int>)
    requires Coded(themes, ThemeCodeOf)
    ensures r.Some? <==> FindByCode(themes, ThemeCodeOf, themeCode).Some?
    ensures r.Some? ==> r.value == themeCode
  {
    var theme := FindByCode(themes, ThemeCodeOf, themeCode);
    if theme.None? then None else Some(theme.value.themeCode)
  }

  /** `createEventPost` as a function of the tables. Only an administrator
      may create (else `InvalidUser`, nothing saved). The event is active,
      created now, copies title, content and category, is written by the
      administrator, and refers to the theme only when that theme exists.
      Image rows follow as for community posts; a file name without '.'
      fails the call and rolls both tables back. */
  function CreateEventOutcome(users: seq<Member>, themes: seq<Theme>, events: seq<EventPost>,
                              files: seq<FileRecord>, loginId: string, title: string, content: string,
                              category: string, themeCode: int,
                              images: Option<seq<string>>, uuids: seq<string>, now: int)
    : (r: (Outcome, seq<EventPost>, seq<FileRecord>))
    requires Coded(themes, ThemeCodeOf) && Coded(events, EventPostCodeOf) && Coded(files, FileCodeOf)
    requires images.Some? ==> |uuids| == |images.value|
    ensures Coded(r.1, EventPostCodeOf) && Coded(r.2, FileCodeOf)
    ensures r.0 != Done ==> r.1 == events && r.2 == files
    ensures r.0 == Fail(InvalidUser) <==> FindAdmin(users, loginId).None?
    ensures r.0 == Done ==>
      FindAdmin(users, loginId).Some?
      && |r.1| == |events| + 1 && r.1[..|events|] == events
      && var event := r.1[|events|];
      event.active && event.createdAt == now
      && event.title == title && event.content == content && event.category == category
      && event.memberCode == FindAdmin(users, loginId).value.memberCode
      && (event.themeCode.Some? <==> FindByCode(themes, ThemeCodeOf, themeCode).Some?)
      && (event.themeCode.Some? ==> event.themeCode.value == themeCode)
      && |files| <= |r.2| && r.2[..|files|] == files
      && (forall i :: |files| <= i < |r.2| ==> r.2[i].ownerCode == event.eventPostCode && r.2[i].active)
      && (images.None? ==> r.2 == files)
  {
    var admin := FindAdmin(users, loginId);
    if admin.None? then (Fail(InvalidUser), events, files)
    else
      var event := EventPost(|events| + 1, title, content, category, now, true, admin.value.memberCode,
                             SelectedTheme(themes, themeCode));
      CodedAppend(events, EventPostCodeOf, event);
      assert (events + [event])[..|events|] == events;
      if images.None? then (Done, events + [event], files)
      else
        var urls := StemFileUrls(EventFilesPrefix, images.value, uuids);
        if urls.Failure? then (Fail(urls.error), events, files)
        else
          var added := FileRows(|files|, urls.value, event.eventPostCode, now);
          FileRowsCoded(files, urls.value, event.eventPostCode, now);
          assert (files + added)[..|files|] == files;
          assert forall i :: |files| <= i < |files + added| ==> (files + added)[i] == added[i - |files|];
          (Done, events + [event], files + added)
  }

  /** `updateEventPost` as a function of the tables. The checks run in the
      order event (`EventPostNotFound`), administrator (`InvalidUser`),
      author (`InvalidUser`). Success changes only title, content, category
      and theme; a theme code naming no theme clears the theme. */
  function UpdateEventOutcome(users: seq<Member>, themes: seq<Theme>, events: seq<EventPost>, loginId: string,
                              eventPostCode: int, title: string, content: string, category: string, themeCode: int)
    : (r: (Outcome, seq<EventPost>))
    requires Coded(themes, ThemeCodeOf) && Coded(events, EventPostCodeOf)
    ensures Coded(r.1, EventPostCodeOf)
    ensures r.0 != Done ==> r.1 == events
    ensures r.0 == Fail(EventPostNotFound) <==> FindByCode(events, EventPostCodeOf, eventPostCode).None?
    ensures r.0 == Done ==>
      1 <= eventPostCode <= |events| && |r.1| == |events|
      && (forall j :: 0 <= j < |events| && j != eventPostCode - 1 ==> r.1[j] == events[j])
      && r.1[eventPostCode - 1] == events[eventPostCode - 1].(title := title, content := content,
                                        category := category, themeCode := SelectedTheme(themes, themeCode))
      && FindAdmin(users, loginId).Some?
      && events[eventPostCode - 1].memberCode == FindAdmin(users, loginId).value.memberCode
  {
    var found := FindByCode(events, EventPostCodeOf, eventPostCode);
    if found.None? then (Fail(EventPostNotFound), events)
    else
      var admin := FindAdmin(users, loginId);
      if admin.None? then (Fail(InvalidUser), events)
      else if found.value.memberCode != admin.value.memberCode then (Fail(InvalidUser), events)
      else
        var edited := found.value.(title := title, content := content, category := category,
                                   themeCode := SelectedTheme(themes, themeCode));
        CodedUpdate(events, EventPostCodeOf, edited);
        (Done, events[eventPostCode - 1 := edited])
  }

  /** `deleteEventPost` as a function of the table: the checks of the update,
      then only `active` changes, to false. */
  function DeleteEventOutcome(users: seq<Member>, events: seq<EventPost>, loginId: string, eventPostCode: int)
    : (r: (Outcome, seq<EventPost>))
    requires Coded(events, EventPostCodeOf)
    ensures Coded(r.1, EventPostCodeOf)
    ensures r.0 != Done ==> r.1 == events
    ensures r.0 == Fail(EventPostNotFound) <==> FindByCode(events, EventPostCodeOf, eventPostCode).None?
    ensures r.0 == Done ==>
      1 <= eventPostCode <= |events|
      && r.1 == events[eventPostCode - 1 := events[eventPostCode - 1].(active := false)]
      && FindAdmin(users, loginId).Some?
      && events[eventPostCode - 1].memberCode == FindAdmin(users, loginId).value.memberCode
  {
    var found := FindByCode(events, EventPostCodeOf, eventPostCode);
    if found.None? then (Fail(EventPostNotFound), events)
    else
      var admin := FindAdmin(users, loginId);
      if admin.None? then (Fail(InvalidUser), events)
      else if found.value.memberCode != admin.value.memberCode then (Fail(InvalidUser), events)
      else
        var deleted := found.value.(active := false);
        CodedUpdate(events, EventPostCodeOf, deleted);
        (Done, events[eventPostCode - 1 := deleted])
  }

  /** An update or delete by anyone but an administrator fails with
      `InvalidUser` whenever the event exists, and changes nothing. */
  lemma {:induction false} OnlyAdminsEdit(users: seq<Member>, themes: seq<Theme>, events: seq<EventPost>,
                                          loginId: string, eventPostCode: int, title: string, content: string,
                                          category: string, themeCode: int)
    requires Coded(themes, ThemeCodeOf) && Coded(events, EventPostCodeOf)
    requires FindByCode(events, EventPostCodeOf, eventPostCode).Some?
    requires FindUser(users, loginId).None? || !FindUser(users, loginId).value.isAdmin
    ensures UpdateEventOutcome(users, themes, events, loginId, eventPostCode, title, content, category, themeCode)
            == (Fail(InvalidUser), events)
    ensures DeleteEventOutcome(users, events, loginId, eventPostCode) == (Fail(InvalidUser), events)
  {
    assert FindAdmin(users, loginId).None?;
  }

  // ---------------------------------------------------------------------
  // Listing

  /** `EventPostDTO` with its theme's code (`EventThemeDTO` without the store). */
  datatype EventDto = EventDto(eventPostCode: int, title: string, content: string, category: string,
                               createdAt: int, themeCode: int)

  /** `EventListDTO`: a category and its events. */
  datatype EventGroup = EventGroup(category: string, events: seq<EventDto>)

  function NewestEventFirst(e: EventPost): Key { Key(-e.createdAt, 0) }

  function InCategory(category: string): EventPost -> bool {
    (e: EventPost) => e.active && e.category == category
  }

  /** `findTop5ByActiveTrueAndCategoryEqualsOrderByCreatedAtDesc(category)`:
      the five newest active events of the category, or all of them when
      there are fewer; an active event of the category left out is no newer
      than the fifth one listed. */
  function LatestOfCategory(events: seq<EventPost>, category: string): (r: seq<EventPost>)
    ensures var matching := |Filter(events, InCategory(category))|;
      |r| == if matching < 5 then matching else 5
    ensures forall i :: 0 <= i < |r| ==> r[i] in events && r[i].active && r[i].category == category
    ensures forall i :: 0 < i < |r| ==> r[i - 1].createdAt >= r[i].createdAt
    ensures forall e :: e in events && e.active && e.category == category && e !in r ==>
      |r| == 5 && e.createdAt <= r[4].createdAt
  {
    LatestOfCategoryMeaning(events, category);
    PageOf(NewestOfCategory(events, category), 0, 5)
  }

  /** The facts `LatestOfCategory` promises, about the first page of the
      category's events sorted newest first. */
  lemma LatestOfCategoryMeaning(events: seq<EventPost>, category: string)
    ensures var matching := Filter(events, InCategory(category));
      var r := PageOf(NewestOfCategory(events, category), 0, 5);
      (|r| == if |matching| < 5 then |matching| else 5)
      && (forall i :: 0 <= i < |r| ==> r[i] in events && r[i].active && r[i].category == category)
      && (forall i :: 0 < i < |r| ==> r[i - 1].createdAt >= r[i].createdAt)
      && (forall e :: e in events && e.active && e.category == category && e !in r ==>
            |r| == 5 && e.createdAt <= r[4].createdAt)
  {
    var sorted := NewestOfCategory(events, category);
    var from, to := PageSlice(sorted, 0, 5);
    NewestOfCategoryMembers(events, category);
    NewestOfCategoryOrdered(events, category);
    NewestPrefixComplete(events, category, to);
  }

  /** The category's active events, newest first. */
  function NewestOfCategory(events: seq<EventPost>, category: string): seq<EventPost> {
    Sort(Filter(events, InCategory(category)), NewestEventFirst)
  }

  /** Every entry of the sorted list is an active event of the category. */
  lemma NewestOfCategoryMembers(events: seq<EventPost>, category: string)
    ensures var sorted := NewestOfCategory(events, category);
      forall i :: 0 <= i < |sorted| ==> sorted[i] in events && sorted[i].active && sorted[i].category == category
  {
    var matching := Filter(events, InCategory(category));
    var sorted := NewestOfCategory(events, category);
    forall i | 0 <= i < |sorted| ensures sorted[i] in events && sorted[i].active && sorted[i].category == category {
      assert sorted[i] in multiset(matching);
    }
  }

  /** The sorted list is newest first. */
  lemma NewestOfCategoryOrdered(events: seq<EventPost>, category: string)
    ensures var sorted := NewestOfCategory(events, category);
      forall i :: 0 < i < |sorted| ==> sorted[i - 1].createdAt >= sorted[i].createdAt
  {
    var sorted := NewestOfCategory(events, category);
    forall i | 0 < i < |sorted| ensures sorted[i - 1].createdAt >= sorted[i].createdAt {
      assert KeyLe(NewestEventFirst(sorted[i - 1]), NewestEventFirst(sorted[i]));
    }
  }

  /** An active event of the category missing from the first `n` of the
      sorted list, `n` at most five, is no newer than its fifth entry. */
  lemma NewestPrefixComplete(events: seq<EventPost>, category: string, n: nat)
    requires var count := |Filter(events, InCategory(category))|; n == if 5 <= count then 5 else count
    ensures var r := NewestOfCategory(events, category)[..n];
      forall e :: e in events && e.active && e.category == category && e !in r ==>
        |r| == 5 && e.createdAt <= r[4].createdAt
  {
    var matching := Filter(events, InCategory(category));
    var sorted := NewestOfCategory(events, category);
    var r := sorted[..n];
    forall e | e in events && e.active && e.category == category && e !in r
      ensures |r| == 5 && e.createdAt <= r[4].createdAt
    {
      assert e in multiset(sorted) by { assert e in matching; }
      var j :| 0 <= j < |sorted| && sorted[j] == e;
      assert j >= |r| by {
        assert forall k :: 0 <= k < |r| ==> r[k] == sorted[k] && r[k] in r;
      }
      assert r[4] == sorted[4];
      SortedPairwise(sorted, NewestEventFirst, 4, j);
    }
  }

  /** The stream map of one group: each event's theme is looked up; an event
      without a theme throws `NullPointer`, a theme that is gone
      `ThemeNotFound`, and the first such event decides the error. */
  function EventDtos(themes: seq<Theme>, selected: seq<EventPost>): (r: Result<seq<EventDto>>)
    requires Coded(themes, ThemeCodeOf)
    ensures r.Success? <==>
      forall i :: 0 <= i < |selected| ==>
        selected[i].themeCode.Some? && FindByCode(themes, ThemeCodeOf, selected[i].themeCode.value).Some?
    ensures r.Failure? ==> r.error == NullPointer || r.error == ThemeNotFound
    ensures r.Success? ==>
      |r.value| == |selected|
      && forall i :: 0 <= i < |selected| ==>
           r.value[i].eventPostCode == selected[i].eventPostCode
           && r.value[i].createdAt == selected[i].createdAt
           && Some(r.value[i].themeCode) == selected[i].themeCode
    decreases |selected|
  {
    if selected == [] then Success([])
    else
      var e := selected[0];
      if e.themeCode.None? then Failure(NullPointer)
      else
        var theme := FindByCode(themes, ThemeCodeOf, e.themeCode.value);
        if theme.None? then Failure(ThemeNotFound)
        else
          var rest := EventDtos(themes, selected[1..]);
          assert forall i :: 1 <= i < |selected| ==> selected[i] == selected[1..][i - 1];
          if rest.Failure? then rest
          else
            Success([EventDto(e.eventPostCode, e.title, e.content, e.category, e.createdAt, theme.value.themeCode)]
                    + rest.value)
  }

  /** A group lists the newest active events of its category, at most
      five, in that order. */
  predicate GroupOf(group: EventGroup, events: seq<EventPost>, category: string) {
    var latest := LatestOfCategory(events, category);
    group.category == category && |group.events| == |latest| <= 5
    && forall i :: 0 <= i < |latest| ==> group.events[i].eventPostCode == latest[i].eventPostCode
  }

  /** `getEventList`: exactly two groups, "discount" then "newTheme", each
      with at most five of its newest active events. */
  function EventList(themes: seq<Theme>, events: seq<EventPost>): (r: Result<seq<EventGroup>>)
    requires Coded(themes, ThemeCodeOf)
    ensures r.Success? <==>
      EventDtos(themes, LatestOfCategory(events, "discount")).Success?
      && EventDtos(themes, LatestOfCategory(events, "newTheme")).Success?
    ensures r.Success? ==>
      |r.value| == 2 && GroupOf(r.value[0], events, "discount") && GroupOf(r.value[1], events, "newTheme")
  {
    var discount := EventDtos(themes, LatestOfCategory(events, "discount"));
    if discount.Failure? then Failure(discount.error)
    else
      var newTheme := EventDtos(themes, LatestOfCategory(events, "newTheme"));
      if newTheme.Failure? then Failure(newTheme.error)
      else
        var groups := [EventGroup("discount", discount.value), EventGroup("newTheme", newTheme.value)];
        assert GroupOf(groups[0], events, "discount");
        assert GroupOf(groups[1], events, "newTheme");
        Success(groups)
  }

  class EventPostService {
    const users: UserRepository
    const themes: ThemeRepository
    const events: EventPostRepository
    const files: FileRepository

    constructor (users: UserRepository, themes: ThemeRepository, events: EventPostRepository, files: FileRepository)
      ensures this.users == users && this.themes == themes && this.events == events && this.files == files
    {
      this.users := users;
      this.themes := themes;
      this.events := events;
      this.files := files;
    }

    ghost predicate Valid() reads users, themes, events, files {
      users.Valid() && themes.Valid() && events.Valid() && files.Valid()
    }

    /** `createEventPost`, over the repositories. */
    method CreateEventPost(loginId: string, title: string, content: string, category: string, themeCode: int,
                           images: Option<seq<string>>, uuids: seq<string>, now: int)
      returns (out: Outcome)
      requires Valid()
      requires images.Some? ==> |uuids| == |images.value|
      modifies events, files
      ensures Valid()
      ensures (out, events.rows, files.rows)
        == CreateEventOutcome(users.rows, themes.rows, old(events.rows), old(files.rows), loginId, title, content,
                              category, themeCode, images, uuids, now)
    {
      var admin := FindAdmin(users.rows, loginId);
      if admin.None? {
        return Fail(InvalidUser);
      }
      var selectedTheme := SelectedTheme(themes.rows, themeCode);
      var savedEvents := events.rows;
      var savedFiles := files.rows;
      var event := EventPost(|events.rows| + 1, title, content, category, now, true, admin.value.memberCode,
                             selectedTheme);
      CodedAppend(events.rows, EventPostCodeOf, event);
      events.rows := events.rows + [event];
      if images.Some? {
        out := SaveStemFiles(files, EventFilesPrefix, images.value, uuids, event.eventPostCode, now);
        if out != Done {
          events.rows := savedEvents;
          files.rows := savedFiles;
          return;
        }
      }
      return Done;
    }

    /** `updateEventPost`, over the repository; the images argument is ignored. */
    method UpdateEventPost(loginId: string, eventPostCode: int, title: string, content: string,
                           category: string, themeCode: int)
      returns (out: Outcome)
      requires Valid()
      modifies events
      ensures Valid()
      ensures (out, events.rows) == UpdateEventOutcome(users.rows, themes.rows, old(events.rows), loginId,
                                                       eventPostCode, title, content, category, themeCode)
    {
      var found := FindByCode(events.rows, EventPostCodeOf, eventPostCode);
      if found.None? {
        return Fail(EventPostNotFound);
      }
      var admin := FindAdmin(users.rows, loginId);
      if admin.None? {
        return Fail(InvalidUser);
      }
      if found.value.memberCode != admin.value.memberCode {
        return Fail(InvalidUser);
      }
      var selectedTheme := SelectedTheme(themes.rows, themeCode);
      var edited := found.value.(title := title, content := content, category := category,
                                 themeCode := selectedTheme);
      CodedUpdate(events.rows, EventPostCodeOf, edited);
      events.rows := events.rows[eventPostCode - 1 := edited];
      return Done;
    }

    /** `deleteEventPost`, over the repository. */
    method DeleteEventPost(loginId: string, eventPostCode: int) returns (out: Outcome)
      requires Valid()
      modifies events
      ensures Valid()
      ensures (out, events.rows) == DeleteEventOutcome(users.rows, old(events.rows), loginId, eventPostCode)
    {
      var found := FindByCode(events.rows, EventPostCodeOf, eventPostCode);
      if found.None? {
        return Fail(EventPostNotFound);
      }
      var admin := FindAdmin(users.rows, loginId);
      if admin.None? {
        return Fail(InvalidUser);
      }
      if found.value.memberCode != admin.value.memberCode {
        return Fail(InvalidUser);
      }
      var deleted := found.value.(active := false);
      CodedUpdate(events.rows, EventPostCodeOf, deleted);
      events.rows := events.rows[eventPostCode - 1 := deleted];
      return Done;
    }
  }
}
