# Bangflix backend services, in Dafny

Bangflix is a Spring Boot back end for an escape-room community. Members sign up, log in with JWT
access and refresh tokens, react to themes (like and scrap), write reviews and like them, and post
in the community, event and notice boards. Each week the five most-liked reviews are ranked and
their authors get points. This project models the service layer of that back end and proves
properties about it.

How the model is built:

- **Tables.** Every JPA table is a `seq` of rows held by a repository class that the services
  update in place.
- **Codes.** A table with an `IDENTITY` key is *coded*: row `i` carries code `i + 1`. A table with
  a composite key (theme reactions, review likes, community likes), and the members by login id,
  have *unique keys*. `save` replaces the row with the same key or appends a new one.
- **Soft deletes.** A delete sets `active` to false. A lookup that JPQL restricts to active rows
  sees only active rows.
- **Outcome functions.** Each service is a class over its repositories. Each state-changing method
  is proved equal to an *outcome function* of the old tables. That function states what the call
  does on every path: which error comes first, what is saved, and what stays unchanged. Lemmas
  relate the outcome functions to each other: idempotence, undo, counts, listing.
- **Transactions.** `@Transactional` rollback is modelled by the outcome: a failing call leaves
  every table as it was. A loop that fails half-way restores the tables it saved at its start.
- **Redis.** The store is a `map` from key to value. Refresh tokens live under `"TOKEN:" + id` and
  e-mail codes under `"REGISTER:" + email`.
- **Outside inputs.** Anything the services take from outside becomes a parameter: UUIDs, the
  current time, random draws, JWT validity and subject, password matching, mail delivery, store
  failure, and the result of a custom query.

Behaviour of the code that the model keeps as written:

- `updateUserInfo` compares the stored and the new image URL with `!=` on `String`, which compares
  references. The model treats the two as always different, so the new image is always taken.
- `updateUserInfo` checks the new nickname and e-mail against every member, the caller included.
  Resubmitting one's own nickname therefore fails as a duplicate (`OwnNicknameRejected`).
- `updateUserInfo` calls `imgFile.getOriginalFilename()` and `member.getImage()` before checking
  them. A call without a file, or by a member who signed up without a profile image, fails with a
  null-pointer error (`NoProfileNoUpdate`).
- `updateComment` writes the post named in the request onto the comment. `deleteComment` never
  looks the post up.
- `likeReview` has a branch for an existing inactive like. The lookup before it returns only active
  likes of active reviews, so an existing inactive like is never seen there and the branch is dead.
  A new like is saved under the pair's key and replaces any inactive row of the pair.
- `createThemeReaction` with an unknown reaction type and no active row would save a reaction with
  a null type. The column is `NOT NULL`, so the model fails it with `NotNullViolation`.
- `RankingServiceImpl` calls `reviewService.toReviewDTOList`, which `ReviewService` does not
  declare. The model builds the ranking entries directly.
- `ReviewServiceImpl` (lines 120 and 155) calls `findByThemeCodeAndActiveTrueWithFetchJoin`, which
  `ReviewRepository` does not declare. `ReviewService.ThemeReviews` reads it by its name: the
  theme's active reviews, in table order, then paged.
- `ReviewServiceImpl` calls `findTopGenresByMemberCode(memberCode, pageable)` (line 279) and
  `findByMemberCode(memberCode, pageable)` (line 287), while `ReviewRepository` (lines 107-121)
  declares both as `(Pageable, int)`. The model reads both calls as the declared queries with their
  arguments matched by name.

## Model

| member | source | states |
|---|---|---|
| Common.StemBeforeLastDot | backend/src/main/java/com/swcamp9th/bangflixbackend/domain/communityPost/service/CommunityPostServiceImpl.java:100-101 | a name with a '.' yields the part before its last '.', with no '.' after it; a name without one fails with `StringIndexOutOfBounds` |
| Common.RemoveChar | backend/src/main/java/com/swcamp9th/bangflixbackend/domain/user/service/UserServiceImpl.java:76 | every occurrence of the character, and only those, is removed; every other character keeps its multiplicity |
| Common.RemoveCharConcat | backend/src/main/java/com/swcamp9th/bangflixbackend/domain/user/service/UserServiceImpl.java:76 | removal works piece by piece: removing from a + b is removing from a, then from b, in that order |
| Common.RemoveAll | backend/src/main/java/com/swcamp9th/bangflixbackend/shared/filter/RequestFilter.java:24 | the result takes characters only from the input, never more of each than it had; an input that starts with a non-empty target loses at least the target's length |
| Common.RemoveAllAbsent | backend/src/main/java/com/swcamp9th/bangflixbackend/shared/filter/RequestFilter.java:24 | a non-empty target that does not occur leaves the input unchanged |
| Common.RemoveAllLeadingPrefix | backend/src/main/java/com/swcamp9th/bangflixbackend/shared/filter/RequestFilter.java:24 | removing every occurrence of the prefix from prefix + token gives back the token when the prefix does not occur in it |
| Common.TrimEmptyIffBlank | backend/src/main/java/com/swcamp9th/bangflixbackend/domain/user/service/UserServiceImpl.java:176-178 | `trim()` is empty exactly when every character is at most U+0020 |
| Tables.Upsert | backend/src/main/java/com/swcamp9th/bangflixbackend/domain/theme/entity/ThemeReaction.java:28-34 | after saving under a composite key the row is found under its key, every other key finds what it found before, and unique keys stay unique |
| Tables.PageOf | backend/src/main/java/com/swcamp9th/bangflixbackend/domain/noticepost/service/NoticePostServiceImpl.java:168-170 | a page skips number * size rows and keeps at most size of the rest, in order |
| Repositories.FindUser | backend/src/main/java/com/swcamp9th/bangflixbackend/domain/user/service/UserServiceImpl.java:104-105 | no member is found exactly when no row has the login id; a found member is a row with that id |
| Repositories.FindAdmin | backend/src/main/java/com/swcamp9th/bangflixbackend/domain/eventPost/service/EventPostServiceImpl.java:57-58 | finds a member exactly when the login's member exists and is an administrator |
| Repositories.FileRowsAppended | backend/src/main/java/com/swcamp9th/bangflixbackend/domain/communityPost/service/CommunityPostServiceImpl.java:98-108 | file rows saved one by one after the stored ones are those rows followed by the numbered rows of the URLs |
| Sorting.Sort | backend/src/main/java/com/swcamp9th/bangflixbackend/domain/theme/service/ThemeServiceImpl.java:413-441 | the result is sorted by the comparator's key and is a permutation of the input |
| Sorting.SortInPlace | backend/src/main/java/com/swcamp9th/bangflixbackend/domain/theme/service/ThemeServiceImpl.java:413-441 | the array ends sorted by the comparator's key and holds the same multiset of elements |
| Sorting.InsertSorted | backend/src/main/java/com/swcamp9th/bangflixbackend/domain/theme/service/ThemeServiceImpl.java:413-441 | inserting into a sorted sequence keeps it sorted |
| Sorting.SortedPairwise | backend/src/main/java/com/swcamp9th/bangflixbackend/domain/ranking/service/RankingServiceImpl.java:104-121 | in a sorted sequence every earlier key is at most every later one |
| ReactionMapper.FlagsDetermineReaction | backend/src/main/java/com/swcamp9th/bangflixbackend/domain/theme/dto/mapper/ReactionMapper.java:9-14 | the two flags of the four reaction types differ pairwise, so the flags decide the reaction |
| ReactionMapper.MappedFlags | backend/src/main/java/com/swcamp9th/bangflixbackend/domain/theme/dto/mapper/ReactionMapper.java:8-15 | LIKE raises `isLike` only, SCRAP `isScrap` only, SCRAPLIKE both; no flag is ever lowered |
| ReactionMapper.MappedFlagsIdempotent | backend/src/main/java/com/swcamp9th/bangflixbackend/domain/theme/dto/mapper/ReactionMapper.java:8-15 | applying the same reaction twice gives the flags of applying it once |
| ReactionMapper.MappedFlagsFromFresh | backend/src/main/java/com/swcamp9th/bangflixbackend/domain/theme/dto/mapper/ReactionMapper.java:8-15 | on a card with both flags false the flags are exactly the reaction's |
| ReactionMapper.ApplyReaction | backend/src/main/java/com/swcamp9th/bangflixbackend/domain/theme/dto/mapper/ReactionMapper.java:8-15 | the card's flags become `MappedFlags` of their old values and nothing else changes |
| ReactionMapper.ThemeDto.constructor | backend/src/main/java/com/swcamp9th/bangflixbackend/domain/theme/service/ThemeServiceImpl.java:387-398 | a new card carries the counts given and both flags false |
| ThemeService.ParseKind | backend/src/main/java/com/swcamp9th/bangflixbackend/domain/theme/service/ThemeServiceImpl.java:162-193 | only "like" and "scrap" are understood, and each names its own kind |
| ThemeService.Added | backend/src/main/java/com/swcamp9th/bangflixbackend/domain/theme/service/ThemeServiceImpl.java:162-193 | after adding a kind the reaction includes it and keeps the other kind as it was |
| ThemeService.Removed | backend/src/main/java/com/swcamp9th/bangflixbackend/domain/theme/service/ThemeServiceImpl.java:211-234 | after removing a kind the reaction lacks it and keeps the other; no kind left means the row is deleted |
| ThemeService.AddIdempotent | backend/src/main/java/com/swcamp9th/bangflixbackend/domain/theme/service/ThemeServiceImpl.java:177-193 | adding a kind the reaction already includes leaves it unchanged |
| ThemeService.AddThenRemove | backend/src/main/java/com/swcamp9th/bangflixbackend/domain/theme/service/ThemeServiceImpl.java:162-193 | whenever an add changed the state, removing the same kind restores the state before |
| ThemeService.RemoveThenAdd | backend/src/main/java/com/swcamp9th/bangflixbackend/domain/theme/service/ThemeServiceImpl.java:211-234 | removing an included kind and adding it back restores the reaction |
| ThemeService.ActiveReaction | backend/src/main/java/com/swcamp9th/bangflixbackend/domain/theme/repository/ThemeReactionRepository.java:20 | finds the pair's row only when it is active; otherwise every row of the pair is inactive |
| ThemeService.ReactionAfterSave | backend/src/main/java/com/swcamp9th/bangflixbackend/domain/theme/service/ThemeServiceImpl.java:162-193 | saving an active row sets that pair's reaction and no other pair's |
| ThemeService.ReactionAfterDelete | backend/src/main/java/com/swcamp9th/bangflixbackend/domain/theme/service/ThemeServiceImpl.java:211-234 | deleting a pair's row leaves it without a reaction and no other pair's changes |
| ThemeService.CreateReactionEffect | backend/src/main/java/com/swcamp9th/bangflixbackend/domain/theme/service/ThemeServiceImpl.java:150-195 | a successful like/scrap leaves the pair's reaction including that kind, the other kind unchanged, and every other pair unchanged |
| ThemeService.DeleteReactionEffect | backend/src/main/java/com/swcamp9th/bangflixbackend/domain/theme/service/ThemeServiceImpl.java:199-238 | a successful removal leaves the pair's reaction without that kind, the other kind unchanged, and every other pair unchanged |
| ThemeService.CreateReactionIdempotent | backend/src/main/java/com/swcamp9th/bangflixbackend/domain/theme/service/ThemeServiceImpl.java:177-193 | sending the same like/scrap twice saves the same table as once |
| ThemeService.CreateThenDelete | backend/src/main/java/com/swcamp9th/bangflixbackend/domain/theme/service/ThemeServiceImpl.java:150-238 | adding a kind the member lacked and removing it gives back the member's previous reaction |
| ThemeService.DeleteThenCreate | backend/src/main/java/com/swcamp9th/bangflixbackend/domain/theme/service/ThemeServiceImpl.java:150-238 | removing a kind the member had and adding it back gives back the member's previous reaction |
| ThemeService.ThemeSortKeyMeaning | backend/src/main/java/com/swcamp9th/bangflixbackend/domain/theme/service/ThemeServiceImpl.java:413-441 | "like", "scrap", "review" order by that count descending then createdAt descending; any other name or null by createdAt descending |
| ThemeService.ThemeService.CreateThemeReaction | backend/src/main/java/com/swcamp9th/bangflixbackend/domain/theme/service/ThemeServiceImpl.java:150-195 | missing theme fails with `ThemeNotFound` and saves nothing; null request `NullPointer`; the new table is exactly `CreateReaction`'s |
| ThemeService.ThemeService.DeleteThemeReaction | backend/src/main/java/com/swcamp9th/bangflixbackend/domain/theme/service/ThemeServiceImpl.java:199-238 | no active row fails with `ReactionNotFound` before the request is read; an unknown request `UnexpectedReactionType`; the new table is exactly `DeleteReaction`'s |
| ThemeService.ThemeService.FindThemeByMemberReaction | backend/src/main/java/com/swcamp9th/bangflixbackend/domain/theme/service/ThemeServiceImpl.java:242-273 | an unknown reaction name fails; one card per selected reaction of the member, in query order, each with both flags raised |
| ThemeService.ThemeService.CreateBaseThemeDto | backend/src/main/java/com/swcamp9th/bangflixbackend/domain/theme/service/ThemeServiceImpl.java:387-398 | the card carries the theme's like, scrap and review counts over active rows and both flags false |
| ThemeService.ThemeService.ApplyMemberReaction | backend/src/main/java/com/swcamp9th/bangflixbackend/domain/theme/service/ThemeServiceImpl.java:404-411 | the member's active reaction, if any, goes through the mapper; without one the card is unchanged |
| ThemeService.ThemeService.CreateThemeDto | backend/src/main/java/com/swcamp9th/bangflixbackend/domain/theme/service/ThemeServiceImpl.java:378-385 | the card's flags are exactly the member's active reaction |
| ThemeService.MostFrequent | backend/src/main/java/com/swcamp9th/bangflixbackend/domain/theme/service/ThemeServiceImpl.java:323-347 | the result holds exactly the codes whose count is the largest, each once; empty input gives empty output |
| ThemeService.CountGenres | backend/src/main/java/com/swcamp9th/bangflixbackend/domain/theme/service/ThemeServiceImpl.java:326-331 | the map counts every code's occurrences and its keys are the distinct codes |
| ThemeService.LargestCount | backend/src/main/java/com/swcamp9th/bangflixbackend/domain/theme/service/ThemeServiceImpl.java:333-338 | the result is the largest count, from 0, and some code has it |
| ThemeService.CodesWithCount | backend/src/main/java/com/swcamp9th/bangflixbackend/domain/theme/service/ThemeServiceImpl.java:340-345 | the result holds exactly the keys with the given count, without repeats |
| ThemeService.ModesOfCounts | backend/src/main/java/com/swcamp9th/bangflixbackend/domain/theme/service/ThemeServiceImpl.java:323-347 | codes of the largest count are exactly the most frequent codes |
| ThemeService.MostFrequentEmpty | backend/src/main/java/com/swcamp9th/bangflixbackend/domain/theme/service/ThemeServiceImpl.java:323-347 | for no genres the result is empty |
| ThemeService.SortThemeList | backend/src/main/java/com/swcamp9th/bangflixbackend/domain/theme/service/ThemeServiceImpl.java:413-441 | the cards end ordered as `ThemeBefore` says for the sort name, and are a permutation of the old ones |
| ReviewService.ActiveLike | backend/src/main/java/com/swcamp9th/bangflixbackend/domain/review/repository/ReviewLikeRepository.java:21 | the pair's like is found only when it and the review are active |
| ReviewService.LikeThenUnlike | backend/src/main/java/com/swcamp9th/bangflixbackend/domain/review/service/ReviewServiceImpl.java:309-344 | on an active review, like then unlike leaves the pair inactive and a second unlike fails with `ReviewNotLiked` and changes nothing |
| ReviewService.LikeTwice | backend/src/main/java/com/swcamp9th/bangflixbackend/domain/review/service/ReviewServiceImpl.java:322-328 | a second like of an active review fails with `ReviewAlreadyLiked` and changes nothing |
| ReviewService.LikeDeletedReview | backend/src/main/java/com/swcamp9th/bangflixbackend/domain/review/service/ReviewServiceImpl.java:314-320 | a like of a deleted review is saved but stays invisible, so liking again succeeds |
| ReviewService.ReviewFileUrl | backend/src/main/java/com/swcamp9th/bangflixbackend/domain/review/service/ReviewServiceImpl.java:351-353 | the URL is the review-file prefix, the UUID without dashes, '_' and the original name |
| ReviewService.ReviewFileUrls | backend/src/main/java/com/swcamp9th/bangflixbackend/domain/review/service/ReviewServiceImpl.java:346-369 | one URL per file, the i-th from the i-th UUID and name |
| ReviewService.ReviewSortKeyMeaning | backend/src/main/java/com/swcamp9th/bangflixbackend/domain/review/service/ReviewServiceImpl.java:120-141 | "highScore" orders by score descending, "lowScore" ascending, both then createdAt descending; other or null by createdAt descending |
| ReviewService.SortedReviews | backend/src/main/java/com/swcamp9th/bangflixbackend/domain/review/service/ReviewServiceImpl.java:120-141 | a list sorted by the filter's key lists adjacent reviews in the filter's order |
| ReviewService.ReorderedThemePage | backend/src/main/java/com/swcamp9th/bangflixbackend/domain/review/service/ReviewServiceImpl.java:112-144 | a reordering of a page of the theme's reviews holds only active reviews of that theme |
| ReviewService.FindReviewByMemberCode | backend/src/main/java/com/swcamp9th/bangflixbackend/domain/review/service/ReviewServiceImpl.java:286-292 | null exactly when the requested page is empty; otherwise exactly that page of the member's active reviews, newest first |
| ReviewService.MemberReviewsMeaning | backend/src/main/java/com/swcamp9th/bangflixbackend/domain/review/service/ReviewServiceImpl.java:286-292 | the member's listing holds exactly the member's active reviews, newest first |
| ReviewService.MemberPageMeaning | backend/src/main/java/com/swcamp9th/bangflixbackend/domain/review/service/ReviewServiceImpl.java:286-292 | every entry of a page of the listing is an active review of the member, and the page is newest first |
| ReviewService.FindReviewReport | backend/src/main/java/com/swcamp9th/bangflixbackend/domain/review/service/ReviewServiceImpl.java:272-282 | no average gives null; otherwise the average with the member's first three top genres |
| ReviewService.ReviewService.CreateReview | backend/src/main/java/com/swcamp9th/bangflixbackend/domain/review/service/ReviewServiceImpl.java:73-96 | missing theme fails and saves nothing; otherwise an active review by the member is appended, files only when images are given, and the author gains exactly 5 points |
| ReviewService.ReviewService.SaveReviewFiles | backend/src/main/java/com/swcamp9th/bangflixbackend/domain/review/service/ReviewServiceImpl.java:346-369 | appends exactly one active numbered file row per image, in order, and keeps the table coded |
| ReviewService.ReviewService.MemberGetPoint | backend/src/main/java/com/swcamp9th/bangflixbackend/domain/user/service/UserServiceImpl.java:267-271 | the member's row is replaced by the member with `point` more points; nothing else changes |
| ReviewService.ReviewService.DeleteReview | backend/src/main/java/com/swcamp9th/bangflixbackend/domain/review/service/ReviewServiceImpl.java:100-108 | unknown code fails with `ReviewNotFound`; otherwise only that review's `active` becomes false; the caller is not checked |
| ReviewService.ReviewService.LikeReview | backend/src/main/java/com/swcamp9th/bangflixbackend/domain/review/service/ReviewServiceImpl.java:309-330 | saves exactly what `LikeOutcome` describes: a new active like when none is visible, `ReviewAlreadyLiked` otherwise, errors unchanged |
| ReviewService.ReviewService.DeleteLikeReview | backend/src/main/java/com/swcamp9th/bangflixbackend/domain/review/service/ReviewServiceImpl.java:334-344 | a visible like becomes inactive; absent or inactive fails with `ReviewNotLiked` and changes nothing |
| ReviewService.ReviewService.FindReviewsWithFilters | backend/src/main/java/com/swcamp9th/bangflixbackend/domain/review/service/ReviewServiceImpl.java:112-144 | the result is a permutation of the page of the theme's active reviews, ordered as the filter names |
| CommunityLikeService.AddLikeToggles | backend/src/main/java/com/swcamp9th/bangflixbackend/domain/communityPost/service/CommunityLikeServiceImpl.java:45-70 | a successful `addLike` flips the pair's active like and leaves every other pair's as it was |
| CommunityLikeService.AddLikeTwice | backend/src/main/java/com/swcamp9th/bangflixbackend/domain/communityPost/service/CommunityLikeServiceImpl.java:60-69 | two calls in a row restore the pair's original like status |
| CommunityLikeService.AddLikeCount | backend/src/main/java/com/swcamp9th/bangflixbackend/domain/communityPost/service/CommunityLikeServiceImpl.java:60-69 | a successful call moves that post's like count by exactly one and no other post's |
| CommunityLikeService.CommunityLikeService.AddLike | backend/src/main/java/com/swcamp9th/bangflixbackend/domain/communityPost/service/CommunityLikeServiceImpl.java:45-70 | unknown login fails with `InvalidUser`, then unknown post `CommunityPostNotFound`, saving nothing; otherwise saves exactly `AddLikeOutcome`'s row |
| CommunityLikeService.CommunityLikeService.CountLike | backend/src/main/java/com/swcamp9th/bangflixbackend/domain/communityPost/service/CommunityLikeServiceImpl.java:74-91 | unknown post fails; otherwise the count is the number of the post's active likes |
| CommentService.CreateCommentOutcome | backend/src/main/java/com/swcamp9th/bangflixbackend/domain/comment/service/CommentServiceImpl.java:50-72 | unknown login `InvalidUser`, then missing post `CommunityPostNotFound`, neither saving anything; success appends exactly the active comment with the content, now, the member and the post |
| CommentService.UpdateCommentOutcome | backend/src/main/java/com/swcamp9th/bangflixbackend/domain/comment/service/CommentServiceImpl.java:76-103 | missing comment `CommentNotFound`, then missing post `CommunityPostNotFound`; success exactly when comment, post and member exist and the member wrote it, changing only that comment's content and post |
| CommentService.DeleteCommentOutcome | backend/src/main/java/com/swcamp9th/bangflixbackend/domain/comment/service/CommentServiceImpl.java:107-126 | missing comment `CommentNotFound`; success exactly when the comment and member exist and the member wrote it; only its `active` changes, to false; the post is not looked up |
| CommentService.CreateCommentCount | backend/src/main/java/com/swcamp9th/bangflixbackend/domain/comment/service/CommentServiceImpl.java:151-166 | a new comment adds one to its post's count and none to others |
| CommentService.DeleteCommentCount | backend/src/main/java/com/swcamp9th/bangflixbackend/domain/comment/service/CommentServiceImpl.java:107-126 | deleting an active comment takes one off its post's count; a second delete changes no count |
| CommentService.DeleteCommentTwice | backend/src/main/java/com/swcamp9th/bangflixbackend/domain/comment/service/CommentServiceImpl.java:107-126 | a second delete by the author succeeds and changes nothing more |
| CommentService.CommentService.CreateComment | backend/src/main/java/com/swcamp9th/bangflixbackend/domain/comment/service/CommentServiceImpl.java:50-72 | the new tables are exactly `CreateCommentOutcome`'s |
| CommentService.CommentService.UpdateComment | backend/src/main/java/com/swcamp9th/bangflixbackend/domain/comment/service/CommentServiceImpl.java:76-103 | the new tables are exactly `UpdateCommentOutcome`'s |
| CommentService.CommentService.DeleteComment | backend/src/main/java/com/swcamp9th/bangflixbackend/domain/comment/service/CommentServiceImpl.java:107-126 | the new tables are exactly `DeleteCommentOutcome`'s |
| CommentService.CommentService.AllCommentsOfPost | backend/src/main/java/com/swcamp9th/bangflixbackend/domain/comment/service/CommentServiceImpl.java:130-147 | unknown post fails; otherwise exactly the post's active comments |
| CommentService.CommentService.GetCommentCount | backend/src/main/java/com/swcamp9th/bangflixbackend/domain/comment/service/CommentServiceImpl.java:151-166 | unknown post fails; otherwise the number of active comments and the post code echoed |
| CommunityPostService.CreatePostOutcome | backend/src/main/java/com/swcamp9th/bangflixbackend/domain/communityPost/service/CommunityPostServiceImpl.java:63-89 | unknown login fails with `MemberNotFound`; otherwise an active post with title, content and author is appended, with file rows when images are given |
| CommunityPostService.UpdatePostOutcome | backend/src/main/java/com/swcamp9th/bangflixbackend/domain/communityPost/service/CommunityPostServiceImpl.java:135-158 | checks post, login, author in that order; success changes only title and content |
| CommunityPostService.DeletePostOutcome | backend/src/main/java/com/swcamp9th/bangflixbackend/domain/communityPost/service/CommunityPostServiceImpl.java:162-178 | missing post fails with `EntityNotFound("존재하지 않는 게시글입니다.")`, then login, author; success changes only `active`, to false |
| CommunityPostService.ActivePostsMeaning | backend/src/main/java/com/swcamp9th/bangflixbackend/domain/communityPost/service/CommunityPostServiceImpl.java:182-208 | the listed posts are exactly the active ones, newest first |
| CommunityPostService.AllPosts | backend/src/main/java/com/swcamp9th/bangflixbackend/domain/communityPost/service/CommunityPostServiceImpl.java:182-208 | one DTO per active post, newest first, `isLike` exactly when the member has an active like on it |
| CommunityPostService.CreatedPostListed | backend/src/main/java/com/swcamp9th/bangflixbackend/domain/communityPost/service/CommunityPostServiceImpl.java:63-89 | a created post is listed |
| CommunityPostService.DeletedPostNotListed | backend/src/main/java/com/swcamp9th/bangflixbackend/domain/communityPost/service/CommunityPostServiceImpl.java:162-178 | a deleted post is no longer listed |
| CommunityPostService.OtherPostsStayListed | backend/src/main/java/com/swcamp9th/bangflixbackend/domain/communityPost/service/CommunityPostServiceImpl.java:162-178 | every other listed post stays listed |
| CommunityPostService.CommunityPostService.CreatePost | backend/src/main/java/com/swcamp9th/bangflixbackend/domain/communityPost/service/CommunityPostServiceImpl.java:63-89 | the new tables are exactly `CreatePostOutcome`'s; a failing image restores both tables |
| CommunityPostService.CommunityPostService.UpdatePost | backend/src/main/java/com/swcamp9th/bangflixbackend/domain/communityPost/service/CommunityPostServiceImpl.java:135-158 | the new table is exactly `UpdatePostOutcome`'s; images are ignored |
| CommunityPostService.CommunityPostService.DeletePost | backend/src/main/java/com/swcamp9th/bangflixbackend/domain/communityPost/service/CommunityPostServiceImpl.java:162-178 | the new table is exactly `DeletePostOutcome`'s |
| Uploads.StemFileUrl | backend/src/main/java/com/swcamp9th/bangflixbackend/domain/communityPost/service/CommunityPostServiceImpl.java:98-108 | the URL is the prefix, the UUID, then the name before its last '.'; no '.' fails with `StringIndexOutOfBounds` |
| Uploads.StemFileUrls | backend/src/main/java/com/swcamp9th/bangflixbackend/domain/communityPost/service/CommunityPostServiceImpl.java:91-131 | all URLs exist exactly when every name has a '.'; the i-th URL is the i-th name's |
| Uploads.SaveStemFiles | backend/src/main/java/com/swcamp9th/bangflixbackend/domain/communityPost/service/CommunityPostServiceImpl.java:91-131 | on success exactly one active numbered file row per image is appended; a dotless name fails with `StringIndexOutOfBounds` |
| Uploads.StemFileUrlsOf | backend/src/main/java/com/swcamp9th/bangflixbackend/domain/communityPost/service/CommunityPostServiceImpl.java:91-131 | URLs each computed from their own name are the list's URLs |
| Uploads.FileUrlsOf | backend/src/main/java/com/swcamp9th/bangflixbackend/domain/communityPost/service/CommunityPostServiceImpl.java:190-196 | one URL per file of the owner, each the URL of an owner's file, and every file of the owner contributes its URL; other rows' files contribute nothing |
| EventPostService.SelectedTheme | backend/src/main/java/com/swcamp9th/bangflixbackend/domain/eventPost/service/EventPostServiceImpl.java:60 | null exactly when the theme is not found, otherwise its code |
| EventPostService.CreateEventOutcome | backend/src/main/java/com/swcamp9th/bangflixbackend/domain/eventPost/service/EventPostServiceImpl.java:54-79 | non-admin or unknown user fails with `InvalidUser` and saves nothing; the event is active and copies title, content, category |
| EventPostService.UpdateEventOutcome | backend/src/main/java/com/swcamp9th/bangflixbackend/domain/eventPost/service/EventPostServiceImpl.java:121-145 | checks event, admin, author; success changes only title, content, category and theme |
| EventPostService.DeleteEventOutcome | backend/src/main/java/com/swcamp9th/bangflixbackend/domain/eventPost/service/EventPostServiceImpl.java:149-164 | checks event, admin, author; success changes only `active`, to false |
| EventPostService.OnlyAdminsEdit | backend/src/main/java/com/swcamp9th/bangflixbackend/domain/eventPost/service/EventPostServiceImpl.java:124-134 | an update or delete by a non-administrator fails with `InvalidUser` whenever the event exists |
| EventPostService.LatestOfCategory | backend/src/main/java/com/swcamp9th/bangflixbackend/domain/eventPost/service/EventPostServiceImpl.java:168-209 | the five newest active events of the category, or all of them when fewer, newest first; an active event of the category that is left out is no newer than the fifth |
| EventPostService.NewestPrefixComplete | backend/src/main/java/com/swcamp9th/bangflixbackend/domain/eventPost/service/EventPostServiceImpl.java:168-209 | taking the first min(5, n) of the category's n active events, newest first, leaves an event out only when five were taken and it is no newer than the fifth |
| EventPostService.LatestOfCategoryMeaning | backend/src/main/java/com/swcamp9th/bangflixbackend/domain/eventPost/service/EventPostServiceImpl.java:168-209 | the first page of five of the category's active events, newest first, has min(5, n) entries, all active events of the category in newest-first order, and leaves out none newer than the fifth |
| EventPostService.EventDtos | backend/src/main/java/com/swcamp9th/bangflixbackend/domain/eventPost/service/EventPostServiceImpl.java:168-209 | succeeds exactly when every event has a theme that still exists; the DTOs follow the events |
| EventPostService.EventList | backend/src/main/java/com/swcamp9th/bangflixbackend/domain/eventPost/service/EventPostServiceImpl.java:202-208 | exactly two groups, "discount" then "newTheme", each its category's latest events |
| EventPostService.EventPostService.CreateEventPost | backend/src/main/java/com/swcamp9th/bangflixbackend/domain/eventPost/service/EventPostServiceImpl.java:54-79 | the new tables are exactly `CreateEventOutcome`'s |
| EventPostService.EventPostService.UpdateEventPost | backend/src/main/java/com/swcamp9th/bangflixbackend/domain/eventPost/service/EventPostServiceImpl.java:121-145 | the new table is exactly `UpdateEventOutcome`'s |
| EventPostService.EventPostService.DeleteEventPost | backend/src/main/java/com/swcamp9th/bangflixbackend/domain/eventPost/service/EventPostServiceImpl.java:149-164 | the new table is exactly `DeleteEventOutcome`'s |
| NoticePostService.CreateNoticeOutcome | backend/src/main/java/com/swcamp9th/bangflixbackend/domain/noticepost/service/NoticePostServiceImpl.java:56-78 | non-admin fails with `InvalidUser` and saves nothing; the notice is active with title, content and the admin as author |
| NoticePostService.UpdateNoticeOutcome | backend/src/main/java/com/swcamp9th/bangflixbackend/domain/noticepost/service/NoticePostServiceImpl.java:120-143 | checks notice, admin, author; success changes only title and content |
| NoticePostService.DeleteNoticeOutcome | backend/src/main/java/com/swcamp9th/bangflixbackend/domain/noticepost/service/NoticePostServiceImpl.java:147-163 | checks notice, admin, author; success changes only `active`, to false |
| NoticePostService.PageIndex | backend/src/main/java/com/swcamp9th/bangflixbackend/domain/noticepost/service/NoticePostServiceImpl.java:168-170 | page p maps to index 0 for p <= 0 and to p - 1 otherwise |
| NoticePostService.TotalPages | backend/src/main/java/com/swcamp9th/bangflixbackend/domain/noticepost/service/NoticePostServiceImpl.java:167-193 | the fewest pages of the size holding all rows |
| NoticePostService.AllNotices | backend/src/main/java/com/swcamp9th/bangflixbackend/domain/noticepost/service/NoticePostServiceImpl.java:167-193 | the page is the active notices at the index, newest first; currentPage is p for p >= 1 and 1 otherwise |
| NoticePostService.NoticeOnItsPage | backend/src/main/java/com/swcamp9th/bangflixbackend/domain/noticepost/service/NoticePostServiceImpl.java:167-193 | the k-th active notice is entry k % size of page k / size + 1 |
| NoticePostService.NoticePageActive | backend/src/main/java/com/swcamp9th/bangflixbackend/domain/noticepost/service/NoticePostServiceImpl.java:167-193 | every entry of every page is an active notice, newest first |
| NoticePostService.NoticePostService.CreateNoticePost | backend/src/main/java/com/swcamp9th/bangflixbackend/domain/noticepost/service/NoticePostServiceImpl.java:56-78 | the new tables are exactly `CreateNoticeOutcome`'s |
| NoticePostService.NoticePostService.UpdateNoticePost | backend/src/main/java/com/swcamp9th/bangflixbackend/domain/noticepost/service/NoticePostServiceImpl.java:120-143 | the new table is exactly `UpdateNoticeOutcome`'s |
| NoticePostService.NoticePostService.DeleteNoticePost | backend/src/main/java/com/swcamp9th/bangflixbackend/domain/noticepost/service/NoticePostServiceImpl.java:147-163 | the new table is exactly `DeleteNoticeOutcome`'s |
| RankingService.TopFive | backend/src/main/java/com/swcamp9th/bangflixbackend/domain/ranking/service/RankingServiceImpl.java:65 | at most the first five entries, a prefix of the list |
| RankingService.RankingRowsCoded | backend/src/main/java/com/swcamp9th/bangflixbackend/domain/ranking/service/RankingServiceImpl.java:72-76 | appending the numbered ranking rows keeps the table coded |
| RankingService.AwardMember | backend/src/main/java/com/swcamp9th/bangflixbackend/domain/ranking/service/RankingServiceImpl.java:67-71 | saving the awarded member keeps members coded and unique by login and touches no one else |
| RankingService.AwardStep | backend/src/main/java/com/swcamp9th/bangflixbackend/domain/ranking/service/RankingServiceImpl.java:66-77 | a found review and author are awarded, then the rest of the codes |
| RankingService.AwardStopsAt | backend/src/main/java/com/swcamp9th/bangflixbackend/domain/ranking/service/RankingServiceImpl.java:67-68 | a run stops with `NoSuchElement` at the first code whose review or author is missing |
| RankingService.AwardShape | backend/src/main/java/com/swcamp9th/bangflixbackend/domain/ranking/service/RankingServiceImpl.java:66-77 | a run keeps members coded and unique, fails only with `NoSuchElement`, and on success appends one ranking row per code |
| RankingService.RankingOutcome | backend/src/main/java/com/swcamp9th/bangflixbackend/domain/ranking/service/RankingServiceImpl.java:60-81 | failure leaves every table unchanged; an empty list saves nothing; success appends one active row per processed entry, at most five |
| RankingService.RankingOutcomeOfAward | backend/src/main/java/com/swcamp9th/bangflixbackend/domain/ranking/service/RankingServiceImpl.java:60-81 | the outcome is the run over the first five entries when it succeeds, else the unchanged tables |
| RankingService.AwardDoneIff | backend/src/main/java/com/swcamp9th/bangflixbackend/domain/ranking/service/RankingServiceImpl.java:60-81 | a run over the codes succeeds exactly when every code names an existing review whose author exists |
| RankingService.RankingDoneIff | backend/src/main/java/com/swcamp9th/bangflixbackend/domain/ranking/service/RankingServiceImpl.java:60-81 | `createReviewRanking` succeeds exactly when each of the first five entries names an existing review whose author exists |
| RankingService.PointsPerAward | backend/src/main/java/com/swcamp9th/bangflixbackend/domain/ranking/service/RankingServiceImpl.java:67-71 | the points awarded come to 50 per awarded review |
| RankingService.AwardPoints | backend/src/main/java/com/swcamp9th/bangflixbackend/domain/ranking/service/RankingServiceImpl.java:67-71 | a successful run adds exactly 50 per awarded review to each member and changes nothing else about any member |
| RankingService.RankingPointsGained | backend/src/main/java/com/swcamp9th/bangflixbackend/domain/ranking/service/RankingServiceImpl.java:60-81 | each author gains 50 times the number of their reviews among the first five entries |
| RankingService.FindReviewRankingDate | backend/src/main/java/com/swcamp9th/bangflixbackend/domain/ranking/service/RankingServiceImpl.java:86-90 | null for no dates, else the list unchanged |
| RankingService.RankingDtos | backend/src/main/java/com/swcamp9th/bangflixbackend/domain/ranking/service/RankingServiceImpl.java:104-121 | one DTO per ranking of the day, each dated with the requested date |
| RankingService.FindReviewRanking | backend/src/main/java/com/swcamp9th/bangflixbackend/domain/ranking/service/RankingServiceImpl.java:96-122 | no date and no ranking date this year gives `NullPointer`, an unknown login `NoSuchElement`, and nothing else fails; otherwise null exactly when the day has no rankings, else the day's rankings sorted by likes descending, every entry dated with the requested date |
| RankingService.NullDateIsLatestDate | backend/src/main/java/com/swcamp9th/bangflixbackend/domain/ranking/service/RankingServiceImpl.java:98-99 | asking without a date is asking for the head of the current year's ranking dates, which come newest first: the latest ranking date |
| RankingService.RankingService.CreateReviewRanking | backend/src/main/java/com/swcamp9th/bangflixbackend/domain/ranking/service/RankingServiceImpl.java:60-81 | the new tables are exactly `RankingOutcome`'s, restored on failure |
| RankingService.RankingService.AwardTop | backend/src/main/java/com/swcamp9th/bangflixbackend/domain/ranking/service/RankingServiceImpl.java:66-77 | the loop's tables and outcome are exactly `Award`'s over the codes |
| UserService.ProfileImageUrl | backend/src/main/java/com/swcamp9th/bangflixbackend/domain/user/service/UserServiceImpl.java:76-78 | the URL starts with "/uploadFiles/profileFile/" followed by the UUID without dashes, '_' and the file name |
| UserService.SignupOutcome | backend/src/main/java/com/swcamp9th/bangflixbackend/domain/user/service/UserServiceImpl.java:38-100 | first taken of id, nickname, email names the `Duplicate` error and saves nothing; otherwise the member is appended with no points and found by id |
| UserService.LoginOutcome | backend/src/main/java/com/swcamp9th/bangflixbackend/domain/user/service/UserServiceImpl.java:102-118 | unknown id `MemberNotFound`, wrong password `PasswordNotMatched`, both leaving the store; success stores the refresh token under the id alone, leaving other tokens and every e-mail code unchanged |
| UserService.RefreshOutcome | backend/src/main/java/com/swcamp9th/bangflixbackend/domain/user/service/UserServiceImpl.java:120-140 | invalid token `ExpiredToken`, then unknown subject `MemberNotFound`, then token not stored `ExpiredToken`; success exactly when all pass |
| UserService.LoginThenRefresh | backend/src/main/java/com/swcamp9th/bangflixbackend/domain/user/service/UserServiceImpl.java:102-140 | a refresh token handed out at login refreshes |
| UserService.LogoutOutcome | backend/src/main/java/com/swcamp9th/bangflixbackend/domain/user/service/UserServiceImpl.java:142-157 | validity, then member lookup; success deletes the subject's token and changes no other entry |
| UserService.LogoutThenRefresh | backend/src/main/java/com/swcamp9th/bangflixbackend/domain/user/service/UserServiceImpl.java:120-157 | after logout the same refresh token fails with `ExpiredToken` |
| UserService.FindUserInfo | backend/src/main/java/com/swcamp9th/bangflixbackend/domain/user/service/UserServiceImpl.java:159-171 | unknown id `MemberNotFound`; otherwise that member's id, nickname, admin flag and image |
| UserService.FindMyPageInfo | backend/src/main/java/com/swcamp9th/bangflixbackend/domain/user/service/UserServiceImpl.java:243-252 | unknown id `IllegalArgument`; otherwise the member's nickname, points and image |
| UserService.FindId | backend/src/main/java/com/swcamp9th/bangflixbackend/domain/user/service/UserServiceImpl.java:173-180 | true exactly when the id is not blank and a member has it |
| UserService.FindNickName | backend/src/main/java/com/swcamp9th/bangflixbackend/domain/user/service/UserServiceImpl.java:182-189 | true exactly when the nickname is not blank and a member has it |
| UserService.UpdateUserInfoOutcome | backend/src/main/java/com/swcamp9th/bangflixbackend/domain/user/service/UserServiceImpl.java:191-241 | dup nickname, then dup email, then unknown user, then null file or image, each changing nothing; success sets image, email and nickname of that member only |
| UserService.OwnNicknameRejected | backend/src/main/java/com/swcamp9th/bangflixbackend/domain/user/service/UserServiceImpl.java:195-197 | asking for one's own current nickname fails as a duplicate |
| UserService.NoProfileNoUpdate | backend/src/main/java/com/swcamp9th/bangflixbackend/domain/user/service/UserServiceImpl.java:55 | a member signed up without a profile image can never update their info |
| UserService.UniqueKeysAppend | backend/src/main/java/com/swcamp9th/bangflixbackend/domain/user/service/UserServiceImpl.java:41-58 | appending a member with an unused login keeps logins unique |
| UserService.UserService.CheckDuplicates | backend/src/main/java/com/swcamp9th/bangflixbackend/domain/user/service/UserServiceImpl.java:41-47 | names the first of id, nickname, email already taken, in that order |
| UserService.UserService.SignupWithoutProfile | backend/src/main/java/com/swcamp9th/bangflixbackend/domain/user/service/UserServiceImpl.java:38-61 | the new table is exactly `SignupOutcome`'s with a null image |
| UserService.UserService.Signup | backend/src/main/java/com/swcamp9th/bangflixbackend/domain/user/service/UserServiceImpl.java:63-100 | the new table is exactly `SignupOutcome`'s with the profile URL |
| UserService.UserService.Login | backend/src/main/java/com/swcamp9th/bangflixbackend/domain/user/service/UserServiceImpl.java:102-118 | result and store are exactly `LoginOutcome`'s |
| UserService.UserService.RefreshTokens | backend/src/main/java/com/swcamp9th/bangflixbackend/domain/user/service/UserServiceImpl.java:120-140 | succeeds exactly when the token is valid, its subject a member and the stored token equal |
| UserService.UserService.Logout | backend/src/main/java/com/swcamp9th/bangflixbackend/domain/user/service/UserServiceImpl.java:142-157 | result and store are exactly `LogoutOutcome`'s |
| UserService.UserService.UpdateUserInfo | backend/src/main/java/com/swcamp9th/bangflixbackend/domain/user/service/UserServiceImpl.java:191-241 | the new table is exactly `UpdateUserInfoOutcome`'s |
| EmailService.CodeChar | backend/src/main/java/com/swcamp9th/bangflixbackend/domain/user/service/EmailService.java:44-46 | kind 0 gives a-z, kind 1 A-Z, kind 2 a digit |
| EmailService.CodeOf | backend/src/main/java/com/swcamp9th/bangflixbackend/domain/user/service/EmailService.java:39-47 | one character per draw, in order |
| EmailService.DrawFor | backend/src/main/java/com/swcamp9th/bangflixbackend/domain/user/service/EmailService.java:44-46 | every letter or digit has a draw in range that produces it |
| EmailService.EveryAlphanumericCodeReachable | backend/src/main/java/com/swcamp9th/bangflixbackend/domain/user/service/EmailService.java:39-47 | every 8-character alphanumeric string can be produced |
| EmailService.CreateNumber | backend/src/main/java/com/swcamp9th/bangflixbackend/domain/user/service/EmailService.java:34-49 | exactly 8 characters, each a-z, A-Z or 0-9, the ones the draws pick |
| EmailService.SendOutcome | backend/src/main/java/com/swcamp9th/bangflixbackend/domain/user/service/EmailService.java:67-83 | refused mail fails with `EmailSend` and stores nothing; otherwise the code is stored under the address and returned |
| EmailService.FindEmailCodeOutcome | backend/src/main/java/com/swcamp9th/bangflixbackend/domain/user/service/EmailService.java:85-105 | store failure and missing code give `InvalidEmailCode` with their messages, and every other call succeeds; true exactly when the typed code equals the stored one |
| EmailService.SentCodeVerifies | backend/src/main/java/com/swcamp9th/bangflixbackend/domain/user/service/EmailService.java:67-105 | the code just sent verifies and no other typed code does |
| EmailService.RefusedMailKeepsCode | backend/src/main/java/com/swcamp9th/bangflixbackend/domain/user/service/EmailService.java:72-77 | a refused mail leaves the earlier code in force |
| EmailService.EmailService.SendSimpleMessage | backend/src/main/java/com/swcamp9th/bangflixbackend/domain/user/service/EmailService.java:67-83 | result and store are exactly `SendOutcome`'s |
| EmailService.EmailService.FindEmailCode | backend/src/main/java/com/swcamp9th/bangflixbackend/domain/user/service/EmailService.java:85-105 | true exactly when the store works and holds the typed code; errors are `InvalidEmailCode` |
| RedisService.KeysDisjoint | backend/src/main/java/com/swcamp9th/bangflixbackend/security/service/RedisService.java:18-19 | no token key equals an e-mail key |
| RedisService.TokenKeyInjective | backend/src/main/java/com/swcamp9th/bangflixbackend/security/service/RedisService.java:19 | distinct logins have distinct token keys |
| RedisService.EmailKeyInjective | backend/src/main/java/com/swcamp9th/bangflixbackend/security/service/RedisService.java:18 | distinct addresses have distinct e-mail keys |
| RedisService.Get | backend/src/main/java/com/swcamp9th/bangflixbackend/security/service/RedisService.java:31-33 | absent key gives null; otherwise the stored value |
| RedisService.WithToken | backend/src/main/java/com/swcamp9th/bangflixbackend/security/service/RedisService.java:27-29 | the token is read back for the login; no other token and no e-mail code changes |
| RedisService.WithoutToken | backend/src/main/java/com/swcamp9th/bangflixbackend/security/service/RedisService.java:35-37 | the login has no token; nothing else changes |
| RedisService.WithEmailCode | backend/src/main/java/com/swcamp9th/bangflixbackend/security/service/RedisService.java:46-48 | the code is read back for the address; no other code and no token changes |
| RedisService.WithoutEmailCode | backend/src/main/java/com/swcamp9th/bangflixbackend/security/service/RedisService.java:54-56 | the address has no code; nothing else changes |
| RedisService.TokenValid | backend/src/main/java/com/swcamp9th/bangflixbackend/security/service/RedisService.java:40-43 | true exactly when the token is not null and equals the stored one |
| RedisService.SavedTokenValid | backend/src/main/java/com/swcamp9th/bangflixbackend/security/service/RedisService.java:27-43 | after a save exactly the saved token is valid |
| RedisService.DeletedTokenInvalid | backend/src/main/java/com/swcamp9th/bangflixbackend/security/service/RedisService.java:35-43 | after a delete no token is valid |
| RedisService.RedisService.SaveRefreshToken | backend/src/main/java/com/swcamp9th/bangflixbackend/security/service/RedisService.java:27-29 | the store becomes `WithToken` of the old store |
| RedisService.RedisService.GetRefreshToken | backend/src/main/java/com/swcamp9th/bangflixbackend/security/service/RedisService.java:31-33 | the value under "TOKEN:" + id, or null |
| RedisService.RedisService.DeleteRefreshToken | backend/src/main/java/com/swcamp9th/bangflixbackend/security/service/RedisService.java:35-37 | the store becomes `WithoutToken` of the old store |
| RedisService.RedisService.IsRefreshTokenValid | backend/src/main/java/com/swcamp9th/bangflixbackend/security/service/RedisService.java:40-43 | true exactly when the token is not null and equals the stored one |
| RedisService.RedisService.SaveEmailCode | backend/src/main/java/com/swcamp9th/bangflixbackend/security/service/RedisService.java:46-48 | the store becomes `WithEmailCode` of the old store |
| RedisService.RedisService.GetEmailCode | backend/src/main/java/com/swcamp9th/bangflixbackend/security/service/RedisService.java:50-52 | the value under "REGISTER:" + email, or null |
| RedisService.RedisService.DeleteEmailCode | backend/src/main/java/com/swcamp9th/bangflixbackend/security/service/RedisService.java:54-56 | the store becomes `WithoutEmailCode` of the old store |
| RequestFilter.LoginIdFor | backend/src/main/java/com/swcamp9th/bangflixbackend/shared/filter/RequestFilter.java:23-31 | a bearer header gives its token's subject, a missing header "user1", any other header nothing |
| RequestFilter.BearerTokenSubject | backend/src/main/java/com/swcamp9th/bangflixbackend/shared/filter/RequestFilter.java:23-28 | prefix + token, the prefix not in the token, yields exactly that token's subject |
| RequestFilter.AnonymousOnlyWithoutHeader | backend/src/main/java/com/swcamp9th/bangflixbackend/shared/filter/RequestFilter.java:29-30 | "user1" is set only for a missing header or a token whose subject is "user1" |
| RequestFilter.DoFilter | backend/src/main/java/com/swcamp9th/bangflixbackend/shared/filter/RequestFilter.java:19-35 | only the "loginId" attribute changes, as `LoginIdFor` says, and the chain receives the request exactly once |
| RequestFilter.FilterChain.DoFilter | backend/src/main/java/com/swcamp9th/bangflixbackend/shared/filter/RequestFilter.java:33 | the request is appended to the forwarded ones |

## Left out

- SQL and JPQL queries are modelled as filters and sorts over the tables, except four whose
  results are inputs (grouping and counting queries, and queries over tables outside this model):
  - the week's most-liked review codes (`findTop5ReviewCodes`, ReviewLikeRepository.java lines
    39-47), taken by `CreateReviewRanking`;
  - the current year's ranking dates (`findDistinctDatesByYear`), taken by `FindReviewRanking`;
  - the member's genres, most frequent first (`findTopGenresByMemberCode`, ReviewRepository.java
    lines 99-110), taken by `ReviewService.FindReviewReport` as `topGenres`;
  - the member's average score (`findAvgScoreByMemberCode`), taken by `FindReviewReport` as
    `avgScore`.
- Paging keeps the query's order, and `Pageable` is a page number and size.
- ModelMapper mappings are modelled as field copies on the DTO datatypes.
- File storage is left out: `transferTo`, the directories, and the `FileUploadException` on an I/O
  error. Only the URLs and file rows saved are modelled.
- `UUID.randomUUID`, `LocalDateTime.now`, `Random` and `LocalDate.now` become parameters.
- `JwtUtil` is not part of this model. The bearer prefix, token validity, the token's subject and
  newly issued tokens are parameters.
- `PasswordEncoder` is left out. `encode` is a parameter, and `matches` is a flag.
- `JavaMailSender` and `createMail` are left out. Whether the message went out is a flag; the
  message text is not modelled.
- Redis expiry times are left out: an entry stays until it is overwritten or deleted. A Redis
  failure in `findEmailCode` is a flag.
- `HashMap` iteration order is left out. `MostFrequent` returns each most frequent genre code once;
  the model leaves their order unconstrained.
- Sorting: stability of `Sorting.Sort` and `Sorting.SortInPlace` is not proved. The model proves
  only that the result is sorted by the comparator's key and is a permutation. Where the model
  lists a filtered table, the order among rows with equal keys is therefore not stated.
- `RankingService.FindReviewRanking` takes the current year's ranking dates as an input, listed
  newest first as `findDistinctDatesByYear` orders them (`ORDER BY rr.createdAt DESC`). The query
  itself is left out.
- `RankingService.RankingService.CreateReviewRanking` takes the week's most-liked review codes as
  its input. The `findTop5ReviewCodes` query that counts and orders them is left out.
- `ReviewService.ActiveLike` does not check that the liking member is active. The query behind it
  also requires `m.active = true`, but the member's `active` flag is not modelled, so a like by an
  inactive member is still found.
- `Member.java` and `UserRepository.java` are not part of this model. A new member starts with 0
  points, and members are found by login id.
- Review statistics (the floating-point average score) are left out. `FindReviewReport` takes the
  rounded average as an input.
- Controllers, request validation, Swagger configuration, security configuration and
  `StoreServiceImpl` are left out. They hold no logic of the modelled services.
- `memberGetPoint` in `UserServiceImpl` is modelled once, as
  `ReviewService.ReviewService.MemberGetPoint`, which is what `createReview` calls.
- `UserService.UserService.RefreshTokens` is a function of the store and names only the success
  condition and the error kinds. The full error order is stated by `UserService.RefreshOutcome`.
- `EmailService.EmailService.FindEmailCode` states only the success condition and that every
  failure is `InvalidEmailCode`. The messages are in `EmailService.FindEmailCodeOutcome`.
- Concurrency is left out. Two requests are never interleaved; every call runs alone.
