/**
 * Whole-service runs of the reaction endpoints, each stated as the responses
 * and reaction statistics a client sees.
 */
module Scenarios {
  import opened Wrappers
  import opened GameReactionEntity
  import opened GameDtos
  import opened Games

  function SampleGame(): CreateGameDto {
    CreateGameDto("Ducky Dash", "A racing game", None, None, None, Some(true), None)
  }

  /** A fresh service holding one created game and no reactions. */
  method Setup() returns (service: GamesService, g: nat)
    ensures fresh(service) && service.Valid()
    ensures g in service.games && service.reactions == []
  {
    service := new GamesService();
    var game := service.Create(SampleGame());
    g := game.id;
  }

  /** The first half of the run: a like, then a dislike by the same user, on an empty table. */
  method LikeThenDislike(service: GamesService, g: nat) returns (liked: Result<ReactionResponse>, disliked: Result<ReactionResponse>)
    requires service.Valid() && g in service.games && service.reactions == []
    modifies service
    ensures service.Valid() && g in service.games
    ensures service.reactions == [GameReaction(old(service.nextId), "u1", g, Dislike)]
    ensures liked == Ok(ReactionResponse("Game liked successfully", Some(Like)))
    ensures disliked == Ok(ReactionResponse("Reaction updated to dislike", Some(Dislike)))
  {
    var id := service.nextId;
    liked := service.LikeGame(g, "u1");
    assert service.reactions == [GameReaction(id, "u1", g, Like)];
    disliked := service.DislikeGame(g, "u1");
  }

  /** Like, switch to dislike, read the statistics, remove, read them again. */
  method LikeDislikeRemove() returns (
    liked: Result<ReactionResponse>, disliked: Result<ReactionResponse>, during: Result<GameReactionStats>,
    removed: Result<ReactionResponse>, after: Result<GameReactionStats>)
    ensures liked == Ok(ReactionResponse("Game liked successfully", Some(Like)))
    ensures disliked == Ok(ReactionResponse("Reaction updated to dislike", Some(Dislike)))
    ensures during == Ok(GameReactionStats(0, 1, Some(Dislike)))
    ensures removed == Ok(ReactionResponse("Reaction removed successfully", None))
    ensures after == Ok(GameReactionStats(0, 0, None))
  {
    var service, g := Setup();
    liked, disliked := LikeThenDislike(service, g);
    during := service.GetGameReactionStats(g, Some("u1"));
    removed := service.RemoveReaction(g, "u1");
    assert service.reactions == [];
    after := service.GetGameReactionStats(g, Some("u1"));
  }

  /** A repeated like is answered as such and writes nothing. */
  method LikeTwice() returns (first: Result<ReactionResponse>, again: Result<ReactionResponse>, stats: Result<GameReactionStats>)
    ensures first == Ok(ReactionResponse("Game liked successfully", Some(Like)))
    ensures again == Ok(ReactionResponse("Game already liked", Some(Like)))
    ensures stats == Ok(GameReactionStats(1, 0, Some(Like)))
  {
    var service, g := Setup();
    first := service.LikeGame(g, "u1");
    var table := service.reactions;
    again := service.LikeGame(g, "u1");
    assert service.reactions == table;
    stats := service.GetGameReactionStats(g, Some("u1"));
  }

  /**
   * A first reaction of `user` to `g`: one more of `kind`. `seen` holds every
   * user who has reacted to `g` so far, and `user` is not among them.
   */
  method ReactFirst(service: GamesService, g: nat, user: string, kind: ReactionType, ghost seen: set<string>)
    requires service.Valid() && g in service.games
    requires forall v :: ReactionOf(service.reactions, g, v).Some? ==> v in seen
    requires user !in seen
    modifies service
    ensures service.Valid() && service.games == old(service.games)
    ensures forall k :: CountKind(service.reactions, g, k)
                          == CountKind(old(service.reactions), g, k) + (if k == kind then 1 else 0)
    ensures forall v :: ReactionOf(service.reactions, g, v).Some? ==> v in seen + {user}
  {
    var r := service.ApplyReaction(g, user, kind);
  }

  /** First reactions of two different users to `g`. */
  method ReactTwice(service: GamesService, g: nat, u1: string, k1: ReactionType, u2: string, k2: ReactionType,
                    ghost seen: set<string>)
    requires service.Valid() && g in service.games
    requires forall v :: ReactionOf(service.reactions, g, v).Some? ==> v in seen
    requires u1 !in seen && u2 !in seen && u1 != u2
    modifies service
    ensures service.Valid() && service.games == old(service.games)
    ensures forall k :: CountKind(service.reactions, g, k)
                          == CountKind(old(service.reactions), g, k) + (if k == k1 then 1 else 0) + (if k == k2 then 1 else 0)
    ensures forall v :: ReactionOf(service.reactions, g, v).Some? ==> v in seen + {u1} + {u2}
  {
    ReactFirst(service, g, u1, k1, seen);
    ReactFirst(service, g, u2, k2, seen + {u1});
  }

  /** Three users like a game and one dislikes it; an anonymous caller sees no reaction of their own. */
  method ThreeLikesOneDislike() returns (stats: Result<GameReactionStats>)
    ensures stats == Ok(GameReactionStats(3, 1, None))
  {
    var service, g := Setup();
    ReactTwice(service, g, "u1", Like, "u2", Like, {});
    ReactTwice(service, g, "u3", Like, "u4", Dislike, {} + {"u1"} + {"u2"});
    stats := service.GetGameReactionStats(g, None);
  }

  /** A repeated dislike is answered as such and writes nothing. */
  method DislikeTwice() returns (first: Result<ReactionResponse>, again: Result<ReactionResponse>)
    ensures first == Ok(ReactionResponse("Game disliked successfully", Some(Dislike)))
    ensures again == Ok(ReactionResponse("Game already disliked", Some(Dislike)))
  {
    var service, g := Setup();
    first := service.DislikeGame(g, "u1");
    again := service.DislikeGame(g, "u1");
  }

  /** Disliking and then liking flips the one row's kind and keeps its id. */
  method FlipKeepsRow() returns (r1: Result<ReactionResponse>, r2: Result<ReactionResponse>,
                                 disliked: GameReaction, liked: GameReaction, count: nat)
    ensures r1 == Ok(ReactionResponse("Game disliked successfully", Some(Dislike)))
    ensures r2 == Ok(ReactionResponse("Reaction updated to like", Some(Like)))
    ensures disliked.reactionType == Dislike && liked == disliked.(reactionType := Like)
    ensures count == 1
  {
    var service, g := Setup();
    r1 := service.DislikeGame(g, "u1");
    disliked := service.reactions[0];
    r2 := service.LikeGame(g, "u1");
    liked := service.reactions[0];
    count := |service.reactions|;
  }

  /** Reacting to a game that does not exist, or was removed, is NotFound and leaves the table alone. */
  method MissingGame() returns (before: Result<ReactionResponse>, after: Result<ReactionResponse>, nothing: Result<ReactionResponse>)
    ensures before == NotFound && after == NotFound
    ensures nothing == Ok(ReactionResponse("No reaction to remove", None))
  {
    var service := new GamesService();
    before := service.LikeGame(0, "u1");
    var game := service.Create(SampleGame());
    nothing := service.RemoveReaction(game.id, "u1");
    var removal := service.Remove(game.id);
    after := service.DislikeGame(game.id, "u1");
  }
}
