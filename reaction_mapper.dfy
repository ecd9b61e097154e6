/** `ThemeDTO` and `ReactionMapper`: the theme card a member sees, and the
    mapping from the member's stored reaction to its two flags. */
module ReactionMapper {
  import opened Repositories

  /** The reaction includes a like. */
  predicate MarksLike(r: ReactionType) { r == Like || r == ScrapLike }

  /** The reaction includes a scrap. */
  predicate MarksScrap(r: ReactionType) { r == Scrap || r == ScrapLike }

  /** The four reaction states and their flags are in one-to-one
      correspondence: the flags decide the reaction. */
  lemma FlagsDetermineReaction(a: ReactionType, b: ReactionType)
    ensures MarksLike(a) == MarksLike(b) && MarksScrap(a) == MarksScrap(b) ==> a == b
  {
  }

  /** `ThemeDTO`. The counts and the creation time are fixed when the card is
      built; the two flags are what the mapper changes. */
  class ThemeDto {
    const themeCode: int
    const createdAt: int
    const likeCount: int
    const scrapCount: int
    const reviewCount: int
    var isLike: bool
    var isScrap: bool

    /** `createBaseThemeDTO`'s last steps: both flags start false. */
    constructor (themeCode: int, createdAt: int, likeCount: int, scrapCount: int, reviewCount: int)
      ensures this.themeCode == themeCode && this.createdAt == createdAt
      ensures this.likeCount == likeCount && this.scrapCount == scrapCount
      ensures this.reviewCount == reviewCount
      ensures !isLike && !isScrap
    {
      this.themeCode := themeCode;
      this.createdAt := createdAt;
      this.likeCount := likeCount;
      this.scrapCount := scrapCount;
      this.reviewCount := reviewCount;
      isLike := false;
      isScrap := false;
    }
  }

  /** The flags after the mapper has seen `r`: a flag is raised when the
      reaction includes it and is never lowered. */
  function MappedFlags(isLike: bool, isScrap: bool, r: ReactionType): (f: (bool, bool))
    ensures f.0 <==> isLike || MarksLike(r)
    ensures f.1 <==> isScrap || MarksScrap(r)
  {
    (if r == Like || r == ScrapLike then true else isLike,
     if r == Scrap || r == ScrapLike then true else isScrap)
  }

  /** Mapping the same reaction again changes nothing. */
  lemma MappedFlagsIdempotent(isLike: bool, isScrap: bool, r: ReactionType)
    ensures var f := MappedFlags(isLike, isScrap, r); MappedFlags(f.0, f.1, r) == f
  {
  }

  /** On a fresh card the flags are exactly the reaction's. */
  lemma MappedFlagsFromFresh(r: ReactionType)
    ensures MappedFlags(false, false, r) == (MarksLike(r), MarksScrap(r))
  {
  }

  /** `ReactionMapper.applyReaction`: raises `isLike` for LIKE and SCRAPLIKE
      and `isScrap` for SCRAP and SCRAPLIKE, in place. */
  method ApplyReaction(dto: ThemeDto, r: ReactionType)
    modifies dto
    ensures (dto.isLike, dto.isScrap) == MappedFlags(old(dto.isLike), old(dto.isScrap), r)
  {
    if r == Like || r == ScrapLike {
      dto.isLike := true;
    }
    if r == Scrap || r == ScrapLike {
      dto.isScrap := true;
    }
  }
}
