/** The request and response shapes of the games endpoints, without their validation decorators. */
module GameDtos {
  import opened Wrappers
  import opened GameReactionEntity

  /** The body of a create request; `rating` is not modelled. */
  datatype CreateGameDto = CreateGameDto(
    title: string,
    description: string,
    icon: Option<string>,
    video: Option<string>,
    url: Option<string>,
    publishStatus: Option<bool>,
    categoryIds: Option<seq<nat>>)

  /** The body of an update request: every field of a create request, each optional. */
  datatype UpdateGameDto = UpdateGameDto(
    title: Option<string>,
    description: Option<string>,
    icon: Option<string>,
    video: Option<string>,
    url: Option<string>,
    publishStatus: Option<bool>,
    categoryIds: Option<seq<nat>>)

  /** The answer to like, dislike and remove-reaction; `None` is the JSON `null`. */
  datatype ReactionResponse = ReactionResponse(message: string, reactionType: Option<ReactionType>)

  /** The JSON form of a reported reaction: `'like'`, `'dislike'` or `null`, read back by the column's parse. */
  function WireReactionType(r: Option<ReactionType>): (s: Option<string>)
    ensures s.None? <==> r.None?
    ensures s.Some? ==> ParseReactionType(s.value) == r && s.value in ["like", "dislike"]
  {
    match r
    case None => None
    case Some(k) => Some(k.Value())
  }

  /** The answer to a statistics request. */
  datatype GameReactionStats = GameReactionStats(likeCount: nat, dislikeCount: nat, userReaction: Option<ReactionType>)
}
