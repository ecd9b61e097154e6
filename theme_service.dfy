/** `ThemeServiceImpl`: a member's reaction to a theme (none, LIKE, SCRAP or
    SCRAPLIKE) moved by "like" and "scrap" requests, the theme cards built
    from the reaction tables, the most frequent genres of a list of themes,
    and the orders a list of theme cards can be sorted in. */
module ThemeService {
  import opened Common
  import opened Tables
  import opened Sorting
  import opened Repositories
  import opened ReactionMapper

  // ---------------------------------------------------------------------
  // The reaction state machine

  /** The two reactions a request can name. */
  datatype Kind = LikeKind | ScrapKind

  /** The request strings the service understands: exactly "like" and "scrap". */
  function ParseKind(request: string): (k: Option<Kind>)
    ensures k == Some(LikeKind) <==> request == "like"
    ensures k == Some(ScrapKind) <==> request == "scrap"
  {
    if request == "like" then Some(LikeKind)
    else if request == "scrap" then Some(ScrapKind)
    else None
  }

  /** The state (no reaction, or a reaction) includes the kind. */
  predicate Includes(state: Option<ReactionType>, k: Kind) {
    state.Some? && (if k.LikeKind? then MarksLike(state.value) else MarksScrap(state.value))
  }

  /** The reaction after adding `k`: the requested flag is raised and the
      other one kept. */
  function Added(state: Option<ReactionType>, k: Kind): (r: ReactionType)
    ensures MarksLike(r) <==> k == LikeKind || Includes(state, LikeKind)
    ensures MarksScrap(r) <==> k == ScrapKind || Includes(state, ScrapKind)
  {
    match state
    case None => if k.LikeKind? then Like else Scrap
    case Some(Like) => if k.LikeKind? then Like else ScrapLike
    case Some(Scrap) => if k.LikeKind? then ScrapLike else Scrap
    case Some(ScrapLike) => ScrapLike
  }

  /** The state after removing `k`: the requested flag is lowered and the
      other one kept; no flag left means no reaction. */
  function Removed(current: ReactionType, k: Kind): (r: Option<ReactionType>)
    ensures Includes(r, LikeKind) <==> k != LikeKind && MarksLike(current)
    ensures Includes(r, ScrapKind) <==> k != ScrapKind && MarksScrap(current)
    ensures r.None? <==> !Includes(r, LikeKind) && !Includes(r, ScrapKind)
  {
    match current
    case Like => if k.LikeKind? then None else Some(Like)
    case Scrap => if k.ScrapKind? then None else Some(Scrap)
    case ScrapLike => if k.LikeKind? then Some(Scrap) else Some(Like)
  }

  /** Adding a reaction that is already there changes nothing, so adding
      is idempotent. */
  lemma AddIdempotent(state: Option<ReactionType>, k: Kind)
    ensures Includes(state, k) ==> Some(Added(state, k)) == state
    ensures Added(Some(Added(state, k)), k) == Added(state, k)
  {
  }

  /** Whenever an add changes the state, removing the same kind restores it. */
  lemma AddThenRemove(state: Option<ReactionType>, k: Kind)
    ensures Some(Added(state, k)) != state <==> !Includes(state, k)
    ensures !Includes(state, k) ==> Removed(Added(state, k), k) == state
  {
  }

  /** Removing a kind the reaction includes and adding it back restores it. */
  lemma RemoveThenAdd(current: ReactionType, k: Kind)
    ensures Includes(Some(current), k) ==> Added(Removed(current, k), k) == current
  {
  }

  // ---------------------------------------------------------------------
  // Queries over the reaction and review tables

  /** `findReactionByThemeCodeAndMemberCode`: the pair's row, when it is active. */
  function ActiveReaction(rows: seq<ThemeReaction>, memberCode: int, themeCode: int): (r: Option<ThemeReaction>)
    requires UniqueKeys(rows, ThemeReactionKey)
    ensures r.Some? ==>
      r.value in rows && r.value.active && r.value.memberCode == memberCode && r.value.themeCode == themeCode
    ensures r.None? ==>
      forall j :: 0 <= j < |rows| && ThemeReactionKey(rows[j]) == (memberCode, themeCode) ==> !rows[j].active
  {
    var row := Lookup(rows, ThemeReactionKey, (memberCode, themeCode));
    if row.None? then None
    else if row.value.active then row
    else
      forall j | 0 <= j < |rows| && ThemeReactionKey(rows[j]) == (memberCode, themeCode)
        ensures !rows[j].active
      {
        LookupOnly(rows, ThemeReactionKey, (memberCode, themeCode), j);
      }
      None
  }

  /** The reaction type of an optional row. */
  function StateOf(row: Option<ThemeReaction>): Option<ReactionType> {
    if row.Some? then Some(row.value.reaction) else None
  }

  /** The member's current reaction to the theme: that of the active row, if any. */
  function ReactionOf(rows: seq<ThemeReaction>, memberCode: int, themeCode: int): Option<ReactionType>
    requires UniqueKeys(rows, ThemeReactionKey)
  {
    StateOf(ActiveReaction(rows, memberCode, themeCode))
  }

  /** The row `createThemeReaction` saves for kind `k`: the current active row
      with `k` added, or a new active row created now. */
  function ReactedRow(cur: Option<ThemeReaction>, memberCode: int, themeCode: int, k: Kind, now: int): ThemeReaction {
    ThemeReaction(memberCode, themeCode, Added(StateOf(cur), k),
                  if cur.None? then now else cur.value.createdAt, true)
  }

  /** `createThemeReaction` as a function of the tables: the outcome and the
      new reaction table. The theme must exist; a null request throws when it
      is compared. A request other than "like" or "scrap" saves nothing useful:
      without an active row the new row's NOT NULL reaction column stays empty
      and the database refuses it, and with one the row is saved unchanged.
      "like" and "scrap" save the pair's row with that kind added. */
  function CreateReaction(themeRows: seq<Theme>, rows: seq<ThemeReaction>, memberCode: int, themeCode: int,
                          request: Option<string>, now: int): (Outcome, seq<ThemeReaction>)
    requires Coded(themeRows, ThemeCodeOf) && UniqueKeys(rows, ThemeReactionKey)
  {
    if FindByCode(themeRows, ThemeCodeOf, themeCode).None? then (Fail(ThemeNotFound), rows)
    else if request.None? then (Fail(NullPointer), rows)
    else
      var cur := ActiveReaction(rows, memberCode, themeCode);
      match ParseKind(request.value)
      case None => (if cur.None? then Fail(NotNullViolation) else Done, rows)
      case Some(k) => (Done, Upsert(rows, ThemeReactionKey, ReactedRow(cur, memberCode, themeCode, k, now)))
  }

  /** `deleteThemeReaction` as a function of the table. Without an active row
      it fails before looking at the request; a request other than "like" or
      "scrap" (null included) is refused; otherwise the requested kind is
      removed, deleting the row when nothing is left. */
  function DeleteReaction(rows: seq<ThemeReaction>, memberCode: int, themeCode: int, request: Option<string>)
    : (Outcome, seq<ThemeReaction>)
    requires UniqueKeys(rows, ThemeReactionKey)
  {
    var cur := ActiveReaction(rows, memberCode, themeCode);
    if cur.None? then (Fail(ReactionNotFound), rows)
    else if request.None? || ParseKind(request.value).None? then (Fail(UnexpectedReactionType(request)), rows)
    else
      match Removed(cur.value.reaction, ParseKind(request.value).value)
      case None => (Done, Tables.Remove(rows, ThemeReactionKey, (memberCode, themeCode)))
      case Some(next) => (Done, Upsert(rows, ThemeReactionKey, cur.value.(reaction := next)))
  }

  /** Saving an active row makes it the pair's active reaction and leaves every
      other pair's reaction as it was. */
  lemma {:induction false} ReactionAfterSave(rows: seq<ThemeReaction>, row: ThemeReaction, memberCode: int, themeCode: int)
    requires UniqueKeys(rows, ThemeReactionKey) && row.active
    ensures ReactionOf(Upsert(rows, ThemeReactionKey, row), memberCode, themeCode) ==
      if (memberCode, themeCode) == ThemeReactionKey(row) then Some(row.reaction)
      else ReactionOf(rows, memberCode, themeCode)
  {
    var saved := Upsert(rows, ThemeReactionKey, row);
    assert Lookup(saved, ThemeReactionKey, (memberCode, themeCode)) ==
      if (memberCode, themeCode) == ThemeReactionKey(row) then Some(row)
      else Lookup(rows, ThemeReactionKey, (memberCode, themeCode));
  }

  /** Deleting a pair's row leaves it without a reaction and leaves every
      other pair's reaction as it was. */
  lemma {:induction false} ReactionAfterDelete(rows: seq<ThemeReaction>, key: (int, int), memberCode: int, themeCode: int)
    requires UniqueKeys(rows, ThemeReactionKey)
    ensures ReactionOf(Tables.Remove(rows, ThemeReactionKey, key), memberCode, themeCode) ==
      if (memberCode, themeCode) == key then None else ReactionOf(rows, memberCode, themeCode)
  {
    var kept := Tables.Remove(rows, ThemeReactionKey, key);
    assert Lookup(kept, ThemeReactionKey, (memberCode, themeCode)) ==
      if (memberCode, themeCode) == key then None
      else Lookup(rows, ThemeReactionKey, (memberCode, themeCode));
  }

  /** A successful "like" or "scrap" leaves the member with a reaction that
      includes that kind and keeps the other kind as it was; no other pair's
      reaction changes. */
  lemma {:induction false} CreateReactionEffect(themeRows: seq<Theme>, rows: seq<ThemeReaction>, memberCode: int,
                                                themeCode: int, request: string, now: int, m: int, t: int)
    requires Coded(themeRows, ThemeCodeOf) && UniqueKeys(rows, ThemeReactionKey)
    requires FindByCode(themeRows, ThemeCodeOf, themeCode).Some? && ParseKind(request).Some?
    ensures var after := CreateReaction(themeRows, rows, memberCode, themeCode, Some(request), now).1;
      var k := ParseKind(request).value;
      var other := if k.LikeKind? then ScrapKind else LikeKind;
      UniqueKeys(after, ThemeReactionKey)
      && Includes(ReactionOf(after, memberCode, themeCode), k)
      && (Includes(ReactionOf(after, memberCode, themeCode), other)
          <==> Includes(ReactionOf(rows, memberCode, themeCode), other))
      && ((m, t) != (memberCode, themeCode) ==> ReactionOf(after, m, t) == ReactionOf(rows, m, t))
  {
    var k := ParseKind(request).value;
    var row := ReactedRow(ActiveReaction(rows, memberCode, themeCode), memberCode, themeCode, k, now);
    ReactionAfterSave(rows, row, memberCode, themeCode);
    ReactionAfterSave(rows, row, m, t);
  }

  /** A successful removal leaves the member's reaction without that kind and
      keeps the other kind as it was; no other pair's reaction changes. */
  lemma {:induction false} DeleteReactionEffect(rows: seq<ThemeReaction>, memberCode: int, themeCode: int,
                                                request: string, m: int, t: int)
    requires UniqueKeys(rows, ThemeReactionKey)
    requires ReactionOf(rows, memberCode, themeCode).Some? && ParseKind(request).Some?
    ensures var after := DeleteReaction(rows, memberCode, themeCode, Some(request));
      var k := ParseKind(request).value;
      var other := if k.LikeKind? then ScrapKind else LikeKind;
      after.0 == Done && UniqueKeys(after.1, ThemeReactionKey)
      && !Includes(ReactionOf(after.1, memberCode, themeCode), k)
      && (Includes(ReactionOf(after.1, memberCode, themeCode), other)
          <==> Includes(ReactionOf(rows, memberCode, themeCode), other))
      && ((m, t) != (memberCode, themeCode) ==> ReactionOf(after.1, m, t) == ReactionOf(rows, m, t))
  {
    var cur := ActiveReaction(rows, memberCode, themeCode).value;
    var k := ParseKind(request).value;
    match Removed(cur.reaction, k)
    case None =>
      ReactionAfterDelete(rows, (memberCode, themeCode), memberCode, themeCode);
      ReactionAfterDelete(rows, (memberCode, themeCode), m, t);
    case Some(next) =>
      ReactionAfterSave(rows, cur.(reaction := next), memberCode, themeCode);
      ReactionAfterSave(rows, cur.(reaction := next), m, t);
  }

  /** Sending the same "like" or "scrap" twice saves the same table as once. */
  lemma {:induction false} CreateReactionIdempotent(themeRows: seq<Theme>, rows: seq<ThemeReaction>, memberCode: int,
                                                    themeCode: int, request: string, now: int)
    requires Coded(themeRows, ThemeCodeOf) && UniqueKeys(rows, ThemeReactionKey)
    requires FindByCode(themeRows, ThemeCodeOf, themeCode).Some? && ParseKind(request).Some?
    ensures var once := CreateReaction(themeRows, rows, memberCode, themeCode, Some(request), now).1;
      UniqueKeys(once, ThemeReactionKey)
      && CreateReaction(themeRows, once, memberCode, themeCode, Some(request), now).1 == once
  {
    var k := ParseKind(request).value;
    var cur := ActiveReaction(rows, memberCode, themeCode);
    var row := ReactedRow(cur, memberCode, themeCode, k, now);
    var once := Upsert(rows, ThemeReactionKey, row);
    assert Lookup(once, ThemeReactionKey, (memberCode, themeCode)) == Some(row);
    assert ActiveReaction(once, memberCode, themeCode) == Some(row);
    AddIdempotent(StateOf(cur), k);
    assert ReactedRow(Some(row), memberCode, themeCode, k, now) == row;
    UpsertUnchanged(once, ThemeReactionKey, row);
  }

  /** Adding a kind the member did not have and then removing it gives the
      member back the reaction they had: a like undone by an unlike. */
  lemma {:induction false} CreateThenDelete(themeRows: seq<Theme>, rows: seq<ThemeReaction>, memberCode: int,
                                            themeCode: int, request: string, now: int)
    requires Coded(themeRows, ThemeCodeOf) && UniqueKeys(rows, ThemeReactionKey)
    requires FindByCode(themeRows, ThemeCodeOf, themeCode).Some? && ParseKind(request).Some?
    requires !Includes(ReactionOf(rows, memberCode, themeCode), ParseKind(request).value)
    ensures var once := CreateReaction(themeRows, rows, memberCode, themeCode, Some(request), now).1;
      UniqueKeys(once, ThemeReactionKey)
      && var back := DeleteReaction(once, memberCode, themeCode, Some(request));
      back.0 == Done && UniqueKeys(back.1, ThemeReactionKey)
      && ReactionOf(back.1, memberCode, themeCode) == ReactionOf(rows, memberCode, themeCode)
  {
    var k := ParseKind(request).value;
    var cur := ActiveReaction(rows, memberCode, themeCode);
    var row := ReactedRow(cur, memberCode, themeCode, k, now);
    var once := Upsert(rows, ThemeReactionKey, row);
    ReactionAfterSave(rows, row, memberCode, themeCode);
    assert ActiveReaction(once, memberCode, themeCode) == Some(row);
    AddThenRemove(StateOf(cur), k);
    match Removed(row.reaction, k)
    case None =>
      ReactionAfterDelete(once, (memberCode, themeCode), memberCode, themeCode);
    case Some(next) =>
      ReactionAfterSave(once, row.(reaction := next), memberCode, themeCode);
  }

  /** Removing a kind the member had and then adding it back gives the member
      back the reaction they had. */
  lemma {:induction false} DeleteThenCreate(themeRows: seq<Theme>, rows: seq<ThemeReaction>, memberCode: int,
                                            themeCode: int, request: string, now: int)
    requires Coded(themeRows, ThemeCodeOf) && UniqueKeys(rows, ThemeReactionKey)
    requires FindByCode(themeRows, ThemeCodeOf, themeCode).Some? && ParseKind(request).Some?
    requires Includes(ReactionOf(rows, memberCode, themeCode), ParseKind(request).value)
    ensures var once := DeleteReaction(rows, memberCode, themeCode, Some(request)).1;
      UniqueKeys(once, ThemeReactionKey)
      && var back := CreateReaction(themeRows, once, memberCode, themeCode, Some(request), now);
      back.0 == Done && UniqueKeys(back.1, ThemeReactionKey)
      && ReactionOf(back.1, memberCode, themeCode) == ReactionOf(rows, memberCode, themeCode)
  {
    var k := ParseKind(request).value;
    var cur := ActiveReaction(rows, memberCode, themeCode).value;
    RemoveThenAdd(cur.reaction, k);
    var once := DeleteReaction(rows, memberCode, themeCode, Some(request)).1;
    match Removed(cur.reaction, k)
    case None =>
      ReactionAfterDelete(rows, (memberCode, themeCode), memberCode, themeCode);
      var row := ReactedRow(None, memberCode, themeCode, k, now);
      assert ActiveReaction(once, memberCode, themeCode) == None;
      ReactionAfterSave(once, row, memberCode, themeCode);
    case Some(next) =>
      ReactionAfterSave(rows, cur.(reaction := next), memberCode, themeCode);
      var mid := ActiveReaction(once, memberCode, themeCode);
      assert StateOf(mid) == Some(next);
      ReactionAfterSave(once, ReactedRow(mid, memberCode, themeCode, k, now), memberCode, themeCode);
  }

  /** The like count of `findThemeCountsByThemeCode`: active LIKE and SCRAPLIKE rows. */
  function LikeCount(rows: seq<ThemeReaction>, themeCode: int): nat {
    |Filter(rows, (r: ThemeReaction) => r.active && r.themeCode == themeCode && MarksLike(r.reaction))|
  }

  /** The scrap count: active SCRAP and SCRAPLIKE rows. */
  function ScrapCount(rows: seq<ThemeReaction>, themeCode: int): nat {
    |Filter(rows, (r: ThemeReaction) => r.active && r.themeCode == themeCode && MarksScrap(r.reaction))|
  }

  /** The review count: active reviews of the theme. */
  function ReviewCount(rows: seq<Review>, themeCode: int): nat {
    |Filter(rows, (r: Review) => r.active && r.themeCode == themeCode)|
  }

  /** A card of `findThemeByMemberReaction`. */
  datatype ReactionCard = ReactionCard(themeCode: int, isLike: bool, isScrap: bool)

  // ---------------------------------------------------------------------
  // Sort orders

  /** The comparator `sortThemeList` picks for a sort name (null is "NONE"):
      "like", "scrap" and "review" order by that count descending, then by
      creation time descending; anything else by creation time descending. */
  function ThemeSortKey(sort: Option<string>): ThemeDto -> Key {
    var name := if sort.None? then "NONE" else sort.value;
    if name == "like" then (d: ThemeDto) => Key(-d.likeCount, -d.createdAt)
    else if name == "scrap" then (d: ThemeDto) => Key(-d.scrapCount, -d.createdAt)
    else if name == "review" then (d: ThemeDto) => Key(-d.reviewCount, -d.createdAt)
    else (d: ThemeDto) => Key(-d.createdAt, -d.createdAt)
  }

  /** The order the source promises, stated on the cards' fields. */
  predicate ThemeBefore(sort: Option<string>, a: ThemeDto, b: ThemeDto) {
    if sort == Some("like") then
      a.likeCount > b.likeCount || (a.likeCount == b.likeCount && a.createdAt >= b.createdAt)
    else if sort == Some("scrap") then
      a.scrapCount > b.scrapCount || (a.scrapCount == b.scrapCount && a.createdAt >= b.createdAt)
    else if sort == Some("review") then
      a.reviewCount > b.reviewCount || (a.reviewCount == b.reviewCount && a.createdAt >= b.createdAt)
    else
      a.createdAt >= b.createdAt
  }

  lemma ThemeSortKeyMeaning(sort: Option<string>, a: ThemeDto, b: ThemeDto)
    ensures KeyLe(ThemeSortKey(sort)(a), ThemeSortKey(sort)(b)) <==> ThemeBefore(sort, a, b)
  {
  }

  // ---------------------------------------------------------------------
  // The service

  class ThemeService {
    const themes: ThemeRepository
    const reactions: ThemeReactionRepository
    const reviews: ReviewRepository

    constructor (themes: ThemeRepository, reactions: ThemeReactionRepository, reviews: ReviewRepository)
      ensures this.themes == themes && this.reactions == reactions && this.reviews == reviews
    {
      this.themes := themes;
      this.reactions := reactions;
      this.reviews := reviews;
    }

    ghost predicate Valid() reads themes, reactions, reviews {
      themes.Valid() && reactions.Valid() && reviews.Valid()
    }

    /** `createThemeReaction`, over the repositories; it saves exactly what
        `CreateReaction` describes. */
    method CreateThemeReaction(member: Member, themeCode: int, request: Option<string>, now: int)
      returns (out: Outcome)
      requires Valid()
      modifies reactions
      ensures Valid()
      ensures (out, reactions.rows)
        == CreateReaction(themes.rows, old(reactions.rows), member.memberCode, themeCode, request, now)
    {
      var theme := FindByCode(themes.rows, ThemeCodeOf, themeCode);
      if theme.None? {
        return Fail(ThemeNotFound);
      }
      var cur := ActiveReaction(reactions.rows, member.memberCode, themeCode);
      if request.None? {
        return Fail(NullPointer);
      }
      var req := request.value;
      var rows := reactions.rows;
      var row: ThemeReaction;
      if cur.None? {
        if req == "like" {
          row := ThemeReaction(member.memberCode, theme.value.themeCode, Like, now, true);
          assert row == ReactedRow(cur, member.memberCode, themeCode, LikeKind, now);
        } else if req == "scrap" {
          row := ThemeReaction(member.memberCode, theme.value.themeCode, Scrap, now, true);
          assert row == ReactedRow(cur, member.memberCode, themeCode, ScrapKind, now);
        } else {
          return Fail(NotNullViolation);
        }
      } else {
        row := cur.value;
        LookupOnly(rows, ThemeReactionKey, (member.memberCode, themeCode), IndexIn(rows, row));
        UpsertUnchanged(rows, ThemeReactionKey, row);
        if req == "like" {
          if row.reaction == Scrap {
            row := row.(reaction := ScrapLike);
            assert row == ReactedRow(cur, member.memberCode, themeCode, LikeKind, now);
          } else {
            assert cur.value == ReactedRow(cur, member.memberCode, themeCode, LikeKind, now);
            return Done;
          }
        } else if req == "scrap" {
          if row.reaction == Like {
            row := row.(reaction := ScrapLike);
            assert row == ReactedRow(cur, member.memberCode, themeCode, ScrapKind, now);
          } else {
            assert cur.value == ReactedRow(cur, member.memberCode, themeCode, ScrapKind, now);
            return Done;
          }
        }
      }
      reactions.rows := Upsert(rows, ThemeReactionKey, row);
      return Done;
    }

    /** `deleteThemeReaction`, over the repositories; it deletes or saves
        exactly what `DeleteReaction` describes. */
    method DeleteThemeReaction(memberCode: int, themeCode: int, request: Option<string>)
      returns (out: Outcome)
      requires Valid()
      modifies reactions
      ensures Valid()
      ensures (out, reactions.rows) == DeleteReaction(old(reactions.rows), memberCode, themeCode, request)
    {
      var cur := ActiveReaction(reactions.rows, memberCode, themeCode);
      if cur.None? {
        return Fail(ReactionNotFound);
      }
      var row := cur.value;
      LookupOnly(reactions.rows, ThemeReactionKey, (memberCode, themeCode), IndexIn(reactions.rows, row));
      UpsertUnchanged(reactions.rows, ThemeReactionKey, row);
      if request == Some("like") {
        if row.reaction == Like {
          reactions.rows := Tables.Remove(reactions.rows, ThemeReactionKey, (memberCode, themeCode));
        } else if row.reaction == ScrapLike {
          reactions.rows := Upsert(reactions.rows, ThemeReactionKey, row.(reaction := Scrap));
        }
      } else if request == Some("scrap") {
        if row.reaction == Scrap {
          reactions.rows := Tables.Remove(reactions.rows, ThemeReactionKey, (memberCode, themeCode));
        } else if row.reaction == ScrapLike {
          reactions.rows := Upsert(reactions.rows, ThemeReactionKey, row.(reaction := Like));
        }
      } else {
        return Fail(UnexpectedReactionType(request));
      }
      return Done;
    }
    /** The rows `findLikeReactionsByMemberCode` / `findScrapReactionsByMemberCode`
        select: the member's reactions of the kind on active themes, newest
        first. The query does not look at the reaction row's own `active`. */
    function ReactionsOfKind(memberCode: int, k: Kind): seq<ThemeReaction>
      reads themes, reactions
      requires themes.Valid()
    {
      var themeRows := themes.rows;
      var rows := Filter(reactions.rows, (r: ThemeReaction) =>
        r.memberCode == memberCode && Includes(Some(r.reaction), k)
        && var t := FindByCode(themeRows, ThemeCodeOf, r.themeCode); t.Some? && t.value.active);
      Sort(rows, (r: ThemeReaction) => Key(-r.createdAt, 0))
    }

    /** `findThemeByMemberReaction`: one card per selected reaction, in query
        order, each marked both liked and scrapped. */
    method FindThemeByMemberReaction(memberCode: int, reaction: Option<string>, pageNumber: nat, pageSize: nat)
      returns (r: Result<seq<ReactionCard>>)
      requires themes.Valid()
      ensures reaction.None? ==> r == Failure(NullPointer)
      ensures reaction.Some? && ParseKind(reaction.value).None? ==>
        r == Failure(UnexpectedReactionType(reaction))
      ensures reaction.Some? && ParseKind(reaction.value).Some? ==>
        var rows := PageOf(ReactionsOfKind(memberCode, ParseKind(reaction.value).value), pageNumber, pageSize);
        r.Success? && |r.value| == |rows|
        && forall i :: 0 <= i < |rows| ==> r.value[i] == ReactionCard(rows[i].themeCode, true, true)
    {
      if reaction.None? {
        return Failure(NullPointer);
      }
      var rows: seq<ThemeReaction>;
      if reaction.value == "like" {
        rows := PageOf(ReactionsOfKind(memberCode, LikeKind), pageNumber, pageSize);
      } else if reaction.value == "scrap" {
        rows := PageOf(ReactionsOfKind(memberCode, ScrapKind), pageNumber, pageSize);
      } else {
        return Failure(UnexpectedReactionType(reaction));
      }
      var result: seq<ReactionCard> := [];
      var i := 0;
      while i < |rows|
        invariant 0 <= i <= |rows|
        invariant |result| == i
        invariant forall j :: 0 <= j < i ==> result[j] == ReactionCard(rows[j].themeCode, true, true)
      {
        result := result + [ReactionCard(rows[i].themeCode, true, true)];
        i := i + 1;
      }
      return Success(result);
    }

    /** `createBaseThemeDTO`: a card carrying the theme's three counts, both
        flags false; the count query finds nothing for an inactive theme. */
    method CreateBaseThemeDto(theme: Theme) returns (r: Result<ThemeDto>)
      requires themes.Valid()
      ensures var t := FindByCode(themes.rows, ThemeCodeOf, theme.themeCode);
        r.Failure? <==> t.None? || !t.value.active
      ensures r.Failure? ==> r.error == ThemeNotFound
      ensures r.Success? ==> fresh(r.value)
      ensures r.Success? ==>
        r.value.themeCode == theme.themeCode && r.value.createdAt == theme.createdAt
        && r.value.likeCount == LikeCount(reactions.rows, theme.themeCode)
        && r.value.scrapCount == ScrapCount(reactions.rows, theme.themeCode)
        && r.value.reviewCount == ReviewCount(reviews.rows, theme.themeCode)
        && !r.value.isLike && !r.value.isScrap
    {
      var t := FindByCode(themes.rows, ThemeCodeOf, theme.themeCode);
      if t.None? || !t.value.active {
        return Failure(ThemeNotFound);
      }
      var dto := new ThemeDto(theme.themeCode, theme.createdAt,
        LikeCount(reactions.rows, theme.themeCode),
        ScrapCount(reactions.rows, theme.themeCode),
        ReviewCount(reviews.rows, theme.themeCode));
      return Success(dto);
    }

    /** `applyReaction`: the member's active reaction, if any, goes through
        the mapper. */
    method ApplyMemberReaction(themeCode: int, memberCode: int, dto: ThemeDto)
      requires reactions.Valid()
      modifies dto
      ensures var cur := ActiveReaction(reactions.rows, memberCode, themeCode);
        (dto.isLike, dto.isScrap) ==
          if cur.None? then (old(dto.isLike), old(dto.isScrap))
          else MappedFlags(old(dto.isLike), old(dto.isScrap), cur.value.reaction)
    {
      var cur := ActiveReaction(reactions.rows, memberCode, themeCode);
      if cur.Some? {
        ApplyReaction(dto, cur.value.reaction);
      }
    }

    /** `createThemeDTO`: the base card with the member's reaction applied,
        so its flags are exactly the member's active reaction. */
    method CreateThemeDto(theme: Theme, memberCode: int) returns (r: Result<ThemeDto>)
      requires Valid()
      ensures var t := FindByCode(themes.rows, ThemeCodeOf, theme.themeCode);
        r.Failure? <==> t.None? || !t.value.active
      ensures r.Success? ==> fresh(r.value)
      ensures r.Success? ==>
        var cur := ReactionOf(reactions.rows, memberCode, theme.themeCode);
        r.value.isLike == Includes(cur, LikeKind) && r.value.isScrap == Includes(cur, ScrapKind)
    {
      r := CreateBaseThemeDto(theme);
      if r.Success? {
        ApplyMemberReaction(theme.themeCode, memberCode, r.value);
      }
    }
  }


  // ---------------------------------------------------------------------
  // getGenreNameListByThemeCodeList

  /** `x` occurs at least as often in `s` as any element: a most frequent one. */
  ghost predicate IsMode(s: seq<int>, x: int) {
    x in s && forall y :: y in s ==> multiset(s)[y] <= multiset(s)[x]
  }

  /** The genre codes that occur most often in `genres`, each once: a count
      per code in insertion order, the largest count (from 0), then the codes
      with that count. */
  method MostFrequent(genres: seq<int>) returns (modes: seq<int>)
    ensures forall x :: x in modes <==> IsMode(genres, x)
    ensures Distinct(modes)
  {
    var keys, counts := CountGenres(genres);
    var maxCount, topCode := LargestCount(keys, counts);
    modes := CodesWithCount(keys, counts, maxCount);
    ModesOfCounts(genres, keys, counts, maxCount, topCode, modes);
  }

  /** The first loop: `countMap` holds each genre's number of occurrences,
      `keys` its keys in the order they were first put. */
  method CountGenres(genres: seq<int>) returns (keys: seq<int>, counts: map<int, int>)
    ensures forall x :: x in counts <==> x in genres
    ensures forall x :: x in counts ==> counts[x] == multiset(genres)[x]
    ensures forall x :: x in keys <==> x in counts
    ensures forall p :: 0 <= p < |keys| ==> keys[p] in counts && counts[keys[p]] > 0
    ensures Distinct(keys)
  {
    keys := [];
    counts := map[];
    var i := 0;
    while i < |genres|
      invariant 0 <= i <= |genres|
      invariant forall x :: x in counts <==> x in genres[..i]
      invariant forall x :: x in counts ==> counts[x] == multiset(genres[..i])[x]
      invariant forall x :: x in keys <==> x in counts
      invariant Distinct(keys)
    {
      var number := genres[i];
      assert genres[..i + 1] == genres[..i] + [number];
      if number !in counts {
        keys := keys + [number];
      }
      counts := counts[number := (if number in counts then counts[number] else 0) + 1];
      i := i + 1;
    }
    assert genres[..|genres|] == genres;
  }

  /** The second loop: the largest count, starting from 0, and a code that
      has it. */
  method LargestCount(keys: seq<int>, counts: map<int, int>) returns (maxCount: int, ghost topCode: int)
    requires forall p :: 0 <= p < |keys| ==> keys[p] in counts && counts[keys[p]] > 0
    ensures forall p :: 0 <= p < |keys| ==> counts[keys[p]] <= maxCount
    ensures |keys| > 0 ==> topCode in counts && counts[topCode] == maxCount
    ensures |keys| == 0 ==> maxCount == 0
  {
    maxCount := 0;
    topCode := 0;
    var j := 0;
    while j < |keys|
      invariant 0 <= j <= |keys|
      invariant forall p :: 0 <= p < j ==> counts[keys[p]] <= maxCount
      invariant j > 0 ==> topCode in counts && counts[topCode] == maxCount
      invariant j == 0 ==> maxCount == 0
    {
      if counts[keys[j]] > maxCount {
        maxCount := counts[keys[j]];
        topCode := keys[j];
      }
      j := j + 1;
    }
  }

  /** The third loop: the codes with the largest count, in key order. */
  method CodesWithCount(keys: seq<int>, counts: map<int, int>, maxCount: int) returns (modes: seq<int>)
    requires forall p :: 0 <= p < |keys| ==> keys[p] in counts
    requires Distinct(keys)
    ensures forall x :: x in modes <==> x in keys && counts[x] == maxCount
    ensures Distinct(modes)
  {
    modes := [];
    var m := 0;
    while m < |keys|
      invariant 0 <= m <= |keys|
      invariant forall x :: x in modes <==> x in keys[..m] && counts[x] == maxCount
      invariant Distinct(modes)
    {
      assert keys[..m + 1] == keys[..m] + [keys[m]];
      if counts[keys[m]] == maxCount {
        assert keys[m] !in keys[..m];
        modes := modes + [keys[m]];
      }
      m := m + 1;
    }
    assert keys[..|keys|] == keys;
  }

  /** The codes whose count is the largest are exactly the most frequent
      genres, given counts of every genre and the largest of them. */
  lemma ModesOfCounts(genres: seq<int>, keys: seq<int>, counts: map<int, int>, maxCount: int, topCode: int,
                      modes: seq<int>)
    requires forall x :: x in counts <==> x in genres
    requires forall x :: x in counts ==> counts[x] == multiset(genres)[x]
    requires forall x :: x in keys <==> x in counts
    requires forall p :: 0 <= p < |keys| ==> keys[p] in counts && counts[keys[p]] <= maxCount
    requires |keys| > 0 ==> topCode in counts && counts[topCode] == maxCount
    requires forall x :: x in modes <==> x in keys && counts[x] == maxCount
    ensures forall x :: x in modes <==> IsMode(genres, x)
  {
    forall x ensures x in modes <==> IsMode(genres, x) {
      if x in modes {
        forall y | y in genres ensures multiset(genres)[y] <= multiset(genres)[x] {
          var p := IndexIn(keys, y);
          assert counts[keys[p]] <= maxCount;
        }
      }
      if IsMode(genres, x) {
        var p := IndexIn(keys, x);
        assert counts[topCode] <= counts[x];
      }
    }
  }

  /** No code occurs twice. */
  predicate Distinct(s: seq<int>) {
    forall i, j :: 0 <= i < j < |s| ==> s[i] != s[j]
  }

  /** No genres, no most frequent genre. */
  method MostFrequentEmpty() returns (modes: seq<int>)
    ensures modes == []
  {
    modes := MostFrequent([]);
    forall x ensures multiset(modes)[x] == 0 {
      assert !IsMode([], x);
    }
    assert multiset(modes) == multiset{};
  }

  /** `sortThemeList`: sorts the cards in place in the order the sort name picks. */
  method SortThemeList(dtos: array<ThemeDto>, sort: Option<string>)
    modifies dtos
    ensures forall i :: 0 < i < dtos.Length ==> ThemeBefore(sort, dtos[i - 1], dtos[i])
    ensures multiset(dtos[..]) == multiset(old(dtos[..]))
  {
    SortInPlace(dtos, ThemeSortKey(sort));
    forall i | 0 < i < dtos.Length ensures ThemeBefore(sort, dtos[i - 1], dtos[i]) {
      assert KeyLe(ThemeSortKey(sort)(dtos[..][i - 1]), ThemeSortKey(sort)(dtos[..][i]));
      ThemeSortKeyMeaning(sort, dtos[i - 1], dtos[i]);
    }
  }
}
