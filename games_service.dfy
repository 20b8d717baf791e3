/**
 * The games service over an in-memory model of its three tables: games,
 * category links and reactions. Every reaction operation and the statistics
 * query first checks that the game exists and answers `NotFound` otherwise.
 */
module Games {
  import opened Wrappers
  import opened Seqs
  import opened GameReactionEntity
  import opened GameEntity
  import opened GameDtos
  import opened ReactionToggle

  /** A result, or the service's `NotFoundException('Game not found')`. */
  datatype Result<T> = Ok(value: T) | NotFound

  /** A game with its loaded `gameCategories` relation. */
  datatype GameDetail = GameDetail(game: Game, gameCategories: seq<GameCategory>)

  /** A new game row from a create request, with the column defaults filled in. */
  function NewGame(id: nat, dto: CreateGameDto): (g: Game)
    ensures g.id == id && g.title == dto.title && g.description == dto.description
    ensures g.icon == dto.icon && g.video == dto.video && g.url == dto.url
    ensures g.publishStatus == dto.publishStatus.GetOr(false)
    ensures !g.isTrending && g.playCount == 0
  {
    Game(id, dto.title, dto.description, dto.icon, dto.video, dto.url, dto.publishStatus.GetOr(false), false, 0)
  }

  /** Every field an update request carries overwrites the game's; absent fields keep theirs. */
  function Assign(game: Game, dto: UpdateGameDto): (g: Game)
    ensures g.id == game.id && g.isTrending == game.isTrending && g.playCount == game.playCount
    ensures dto.title.Some? ==> g.title == dto.title.value
    ensures dto.title.None? ==> g.title == game.title
    ensures dto.description.Some? ==> g.description == dto.description.value
    ensures dto.description.None? ==> g.description == game.description
    ensures dto.icon.Some? ==> g.icon == dto.icon
    ensures dto.icon.None? ==> g.icon == game.icon
    ensures dto.video.Some? ==> g.video == dto.video
    ensures dto.video.None? ==> g.video == game.video
    ensures dto.url.Some? ==> g.url == dto.url
    ensures dto.url.None? ==> g.url == game.url
    ensures dto.publishStatus.Some? ==> g.publishStatus == dto.publishStatus.value
    ensures dto.publishStatus.None? ==> g.publishStatus == game.publishStatus
  {
    game.(
      title := dto.title.GetOr(game.title),
      description := dto.description.GetOr(game.description),
      icon := if dto.icon.Some? then dto.icon else game.icon,
      video := if dto.video.Some? then dto.video else game.video,
      url := if dto.url.Some? then dto.url else game.url,
      publishStatus := dto.publishStatus.GetOr(game.publishStatus))
  }

  /** Applying the same update twice is applying it once, and an empty update changes nothing. */
  lemma AssignIdempotent(game: Game, dto: UpdateGameDto)
    ensures Assign(Assign(game, dto), dto) == Assign(game, dto)
    ensures dto == UpdateGameDto(None, None, None, None, None, None, dto.categoryIds) ==> Assign(game, dto) == game
  {
  }

  /** The category ids a create request links; absent and empty both mean none. */
  function CategoryList(categoryIds: Option<seq<nat>>): (r: seq<nat>)
    ensures r == [] <==> categoryIds.None? || categoryIds.value == []
    ensures categoryIds.Some? ==> r == categoryIds.value
  {
    categoryIds.GetOr([])
  }

  /** After a change to one pair's row, the counts of that pair's game shift by the change and every other game's counts stay. */
  lemma CountsAfter(rows: seq<GameReaction>, rows': seq<GameReaction>, gameId: nat, userId: string)
    requires UniqueKeys(rows) && UniqueKeys(rows')
    requires forall g, u :: !(g == gameId && u == userId) ==> RowOf(rows', g, u) == RowOf(rows, g, u)
    ensures forall k :: CountKind(rows', gameId, k) == CountKind(rows, gameId, k)
              + Shift(ReactionOf(rows, gameId, userId), ReactionOf(rows', gameId, userId), k)
    ensures forall g, k :: g != gameId ==> CountKind(rows', g, k) == CountKind(rows, g, k)
  {
    forall k ensures CountKind(rows', gameId, k) == CountKind(rows, gameId, k)
               + Shift(ReactionOf(rows, gameId, userId), ReactionOf(rows', gameId, userId), k)
    {
      CountShift(rows, rows', gameId, userId, k);
    }
    forall g, k | g != gameId ensures CountKind(rows', g, k) == CountKind(rows, g, k) {
      CountShift(rows, rows', g, userId, k);
    }
  }

  /** The keys and foreign keys of the three tables, with every id in use below `nextId`. */
  ghost predicate Tables(games: map<nat, Game>, links: seq<GameCategory>, reactions: seq<GameReaction>, nextId: nat) {
    && (forall id :: id in games ==> games[id].id == id && id < nextId)
    && (forall l :: l in links ==> l.gameId in games && l.id < nextId)
    && Pairwise(links, LinkIdsDistinct)
    && UniqueKeys(reactions)
    && (forall x :: x in reactions ==> x.gameId in games && x.id < nextId)
  }

  /**
   * What a reaction request does to the reaction table, for the pair it
   * names: the pair's state follows the toggle transition and the response
   * reports it, no other pair's row changes, and the game's counts move by
   * the pair's change while every other game's counts stay.
   */
  ghost predicate Reacted(rows: seq<GameReaction>, rows': seq<GameReaction>, gameId: nat, userId: string,
                          action: Action, response: ReactionResponse)
  {
    var t := Step(ReactionOf(rows, gameId, userId), action);
    && ReactionOf(rows', gameId, userId) == t.next && response == Respond(action, t.effect)
    && (forall g, u :: !(g == gameId && u == userId) ==> RowOf(rows', g, u) == RowOf(rows, g, u))
    && (forall k :: CountKind(rows', gameId, k) == CountKind(rows, gameId, k)
          + Shift(ReactionOf(rows, gameId, userId), ReactionOf(rows', gameId, userId), k))
    && (forall g, k :: g != gameId ==> CountKind(rows', g, k) == CountKind(rows, g, k))
  }

  /** A first like or dislike inserts a row with a fresh id, and that is `Reacted` with the insert's response. */
  lemma InsertReacts(rows: seq<GameReaction>, row: GameReaction)
    requires UniqueKeys(rows) && RowOf(rows, row.gameId, row.userId) == None
    requires forall y :: y in rows ==> y.id != row.id
    ensures UniqueKeys(rows + [row])
    ensures Reacted(rows, rows + [row], row.gameId, row.userId, React(row.reactionType), Respond(React(row.reactionType), Inserted))
  {
    InsertLookup(rows, row);
    CountsAfter(rows, rows + [row], row.gameId, row.userId);
  }

  /** The opposite kind re-saves the pair's row with that kind, and that is `Reacted` with the update's response. */
  lemma RekindReacts(rows: seq<GameReaction>, i: nat, kind: ReactionType)
    requires UniqueKeys(rows) && i < |rows| && rows[i].reactionType != kind
    ensures UniqueKeys(rows[i := rows[i].(reactionType := kind)])
    ensures Reacted(rows, rows[i := rows[i].(reactionType := kind)], rows[i].gameId, rows[i].userId, React(kind),
                    Respond(React(kind), Updated))
  {
    RekindLookup(rows, i, kind);
    RowOfUnique(rows, rows[i].gameId, rows[i].userId, rows[i]);
    CountsAfter(rows, rows[i := rows[i].(reactionType := kind)], rows[i].gameId, rows[i].userId);
  }

  /** The kind already stored writes nothing, and that is `Reacted` with the no-op's response. */
  lemma SameKindReacts(rows: seq<GameReaction>, gameId: nat, userId: string, kind: ReactionType)
    requires ReactionOf(rows, gameId, userId) == Some(kind)
    ensures Reacted(rows, rows, gameId, userId, React(kind), Respond(React(kind), Unchanged))
  {
  }

  /** Deleting the pair's row is `Reacted` with the response the number of deleted rows selects. */
  lemma RemoveReacts(rows: seq<GameReaction>, gameId: nat, userId: string)
    requires UniqueKeys(rows)
    ensures UniqueKeys(WithoutPair(rows, gameId, userId))
    ensures Reacted(rows, WithoutPair(rows, gameId, userId), gameId, userId, Unreact,
                    Respond(Unreact, if |rows| - |WithoutPair(rows, gameId, userId)| == 0 then NothingRemoved else Deleted))
  {
    WithoutPairLookup(rows, gameId, userId);
    WithoutPairAffected(rows, gameId, userId);
    CountsAfter(rows, WithoutPair(rows, gameId, userId), gameId, userId);
  }

  /** Adding a game under the next id, with links numbered after it, keeps the tables' keys. */
  lemma CreateKeepsTables(games: map<nat, Game>, links: seq<GameCategory>, reactions: seq<GameReaction>, nextId: nat,
                          game: Game, categoryIds: seq<nat>)
    requires Tables(games, links, reactions, nextId) && game.id == nextId
    ensures nextId !in games
    ensures Tables(games[nextId := game], links + NewLinks(nextId, categoryIds, nextId + 1), reactions, nextId + 1 + |categoryIds|)
    ensures forall l :: l in links ==> l.gameId != nextId
  {
    var added := NewLinks(nextId, categoryIds, nextId + 1);
    assert forall l :: l in links ==> l.gameId != nextId;
    assert forall x, y :: x in links && y in added ==> LinkIdsDistinct(x, y);
    PairwiseConcat(links, added, LinkIdsDistinct);
  }

  /** Inserting a reaction row with the next id, for an existing game and a pair without a row, keeps the tables' keys. */
  lemma InsertKeepsTables(games: map<nat, Game>, links: seq<GameCategory>, reactions: seq<GameReaction>, nextId: nat,
                          row: GameReaction)
    requires Tables(games, links, reactions, nextId)
    requires row.id == nextId && row.gameId in games && RowOf(reactions, row.gameId, row.userId) == None
    ensures Tables(games, links, reactions + [row], nextId + 1)
  {
    InsertLookup(reactions, row);
  }

  /** Changing the kind of one reaction row in place keeps the tables' keys. */
  lemma RekindKeepsTables(games: map<nat, Game>, links: seq<GameCategory>, reactions: seq<GameReaction>, nextId: nat,
                          i: nat, kind: ReactionType)
    requires Tables(games, links, reactions, nextId) && i < |reactions|
    ensures Tables(games, links, reactions[i := reactions[i].(reactionType := kind)], nextId)
  {
    RekindLookup(reactions, i, kind);
    assert forall x :: x in reactions[i := reactions[i].(reactionType := kind)] ==> x == reactions[i].(reactionType := kind) || x in reactions;
  }

  /** Deleting the reaction rows a condition drops keeps the tables' keys. */
  lemma FilterKeepsTables(games: map<nat, Game>, links: seq<GameCategory>, reactions: seq<GameReaction>, nextId: nat,
                          keep: GameReaction -> bool)
    requires Tables(games, links, reactions, nextId)
    ensures Tables(games, links, Filter(reactions, keep), nextId)
  {
    FilterPairwise(reactions, keep, KeysDistinct);
  }

  class GamesService {
    var games: map<nat, Game>
    var links: seq<GameCategory>
    var reactions: seq<GameReaction>
    /** The next unused id; stands in for the database's uuid generator. */
    var nextId: nat

    /** The tables' keys and foreign keys. */
    ghost predicate Valid()
      reads this
    {
      Tables(games, links, reactions, nextId)
    }

    constructor ()
      ensures Valid()
      ensures games == map[] && links == [] && reactions == []
    {
      games, links, reactions, nextId := map[], [], [], 0;
    }

    /** The existence gate: the game with its category links, or NotFound. */
    function FindOne(id: nat): (r: Result<GameDetail>)
      reads this
      requires Valid()
      ensures r.NotFound? <==> id !in games
      ensures r.Ok? ==> r.value.game == games[id] && r.value.game.id == id
      ensures r.Ok? ==> forall l :: l in r.value.gameCategories <==> l in links && l.gameId == id
    {
      if id in games then Ok(GameDetail(games[id], LinksOf(links, id))) else NotFound
    }

    /** Inserts a game and one link per given category id. */
    method Create(dto: CreateGameDto) returns (game: Game)
      requires Valid()
      modifies this
      ensures Valid()
      ensures game == NewGame(old(nextId), dto) && old(nextId) !in old(games)
      ensures games == old(games)[old(nextId) := game]
      ensures links == old(links) + NewLinks(old(nextId), CategoryList(dto.categoryIds), old(nextId) + 1)
      ensures LinkedExactly(old(links), links, old(nextId), CategoryList(dto.categoryIds))
      ensures reactions == old(reactions)
    {
      var id := nextId;
      var categoryIds := CategoryList(dto.categoryIds);
      var added := NewLinks(id, categoryIds, id + 1);
      game := NewGame(id, dto);
      // With no category ids the service saves nothing, and `added` is empty.
      games, links, nextId := games[id := game], links + added, id + 1 + |categoryIds|;
      assert links == old(links) + NewLinks(old(nextId), CategoryList(dto.categoryIds), old(nextId) + 1);
      CreateKeepsTables(old(games), old(links), old(reactions), id, game, categoryIds);
      AppendLinks(old(links), id, categoryIds, id + 1);
    }

    /** Overwrites the fields the request carries and, when it carries categoryIds, replaces the game's links. */
    method Update(id: nat, dto: UpdateGameDto) returns (r: Result<GameDetail>)
      requires Valid()
      modifies this
      ensures Valid()
      ensures r.NotFound? <==> id !in old(games)
      ensures r.NotFound? ==> games == old(games) && links == old(links) && nextId == old(nextId)
      ensures r.Ok? ==> games == old(games)[id := Assign(old(games)[id], dto)]
      ensures r.Ok? && dto.categoryIds.None? ==> links == old(links)
      ensures r.Ok? && dto.categoryIds.Some? ==>
                links == OtherLinks(old(links), id) + NewLinks(id, dto.categoryIds.value, old(nextId))
                && LinkedExactly(old(links), links, id, dto.categoryIds.value)
      ensures forall g :: g != id ==> LinksOf(links, g) == LinksOf(old(links), g)
      ensures reactions == old(reactions)
      ensures r.Ok? ==> r == FindOne(id)
    {
      if id !in games {
        return NotFound;
      }
      games := games[id := Assign(games[id], dto)];
      if dto.categoryIds.Some? {
        var categoryIds := dto.categoryIds.value;
        var rest := OtherLinks(links, id);
        var added := NewLinks(id, categoryIds, nextId);
        FilterPairwise(links, NotOfGame(id), LinkIdsDistinct);
        PairwiseConcat(rest, added, LinkIdsDistinct);
        ReplaceLinks(links, id, categoryIds, nextId);
        links := rest + added;
        nextId := nextId + |categoryIds|;
      }
      r := FindOne(id);
    }

    /** Deletes a game; the database cascades the deletion to its links and its reactions. */
    method Remove(id: nat) returns (r: Result<()>)
      requires Valid()
      modifies this
      ensures Valid()
      ensures r.NotFound? <==> id !in old(games)
      ensures games == old(games) - {id}
      ensures r.NotFound? ==> links == old(links) && reactions == old(reactions)
      ensures r.Ok? ==> links == OtherLinks(old(links), id) && reactions == WithoutGame(old(reactions), id)
      ensures forall u :: RowOf(reactions, id, u) == None
      ensures forall g, u :: g != id ==> RowOf(reactions, g, u) == RowOf(old(reactions), g, u)
      ensures forall g :: g != id ==> LinksOf(links, g) == LinksOf(old(links), g)
      ensures nextId == old(nextId)
    {
      var affected := if id in games then 1 else 0;
      if affected == 1 {
        GameDeletionCascade(reactions, id);
        FilterPairwise(links, NotOfGame(id), LinkIdsDistinct);
        forall g | g != id ensures Filter(OtherLinks(links, id), OfGame(g)) == LinksOf(links, g) {
          FilterOfFilter(links, id, g);
        }
        FilterKeepsAll(OtherLinks(links, id), NotOfGame(id));
        games := games - {id};
        links := OtherLinks(links, id);
        reactions := WithoutGame(reactions, id);
      }
      if affected == 0 {
        return NotFound;
      }
      r := Ok(());
    }

    /**
     * What every reaction request promises: the game gate, no change to the
     * games and links, and, for an existing game, `Reacted`.
     */
    twostate predicate Applied(gameId: nat, userId: string, action: Action, new r: Result<ReactionResponse>)
      reads this
    {
      && games == old(games) && links == old(links)
      && (r.NotFound? <==> gameId !in games)
      && (r.NotFound? ==> reactions == old(reactions) && nextId == old(nextId))
      && (r.Ok? ==> Reacted(old(reactions), reactions, gameId, userId, action, r.value))
    }

    /**
     * The table after a like or dislike of `kind`: a pair without a row gets
     * a new row with a fresh id; a pair with a row keeps that row, with the
     * same id, now holding `kind`.
     */
    twostate predicate Stored(gameId: nat, userId: string, kind: ReactionType, new r: Result<ReactionResponse>)
      reads this
    {
      r.Ok? ==>
        match RowOf(old(reactions), gameId, userId)
        case None =>
          && reactions == old(reactions) + [GameReaction(old(nextId), userId, gameId, kind)]
          && nextId == old(nextId) + 1
        case Some(row) =>
          && nextId == old(nextId)
          && reactions == old(reactions)[FindRow(old(reactions), gameId, userId).value := row.(reactionType := kind)]
          && RowOf(reactions, gameId, userId) == Some(row.(reactionType := kind))
          && (row.reactionType == kind ==> reactions == old(reactions))
    }

    /** Like or dislike, shared by `LikeGame` and `DislikeGame`. */
    method ApplyReaction(gameId: nat, userId: string, kind: ReactionType) returns (r: Result<ReactionResponse>)
      requires Valid()
      modifies this
      ensures Valid()
      ensures Applied(gameId, userId, React(kind), r)
      ensures Stored(gameId, userId, kind, r)
    {
      if gameId !in games {
        return NotFound;
      }
      var found := FindRow(reactions, gameId, userId);
      if found.Some? {
        var i := found.value;
        RowOfUnique(reactions, gameId, userId, reactions[i]);
        if reactions[i].reactionType == kind {
          SameKindReacts(reactions, gameId, userId, kind);
          r := Ok(Respond(React(kind), Unchanged));
        } else {
          reactions := reactions[i := reactions[i].(reactionType := kind)];
          assert reactions == old(reactions)[i := old(reactions)[i].(reactionType := kind)];
          RekindReacts(old(reactions), i, kind);
          RekindKeepsTables(games, links, old(reactions), nextId, i, kind);
          r := Ok(Respond(React(kind), Updated));
        }
      } else {
        var row := GameReaction(nextId, userId, gameId, kind);
        reactions, nextId := reactions + [row], nextId + 1;
        assert reactions == old(reactions) + [row];
        InsertReacts(old(reactions), row);
        InsertKeepsTables(games, links, old(reactions), old(nextId), row);
        r := Ok(Respond(React(kind), Inserted));
      }
    }

    method LikeGame(gameId: nat, userId: string) returns (r: Result<ReactionResponse>)
      requires Valid()
      modifies this
      ensures Valid()
      ensures Applied(gameId, userId, React(Like), r)
      ensures Stored(gameId, userId, Like, r)
    {
      r := ApplyReaction(gameId, userId, Like);
    }

    method DislikeGame(gameId: nat, userId: string) returns (r: Result<ReactionResponse>)
      requires Valid()
      modifies this
      ensures Valid()
      ensures Applied(gameId, userId, React(Dislike), r)
      ensures Stored(gameId, userId, Dislike, r)
    {
      r := ApplyReaction(gameId, userId, Dislike);
    }

    /** Deletes the pair's row; finding none is an answer, not an error. */
    method RemoveReaction(gameId: nat, userId: string) returns (r: Result<ReactionResponse>)
      requires Valid()
      modifies this
      ensures Valid()
      ensures Applied(gameId, userId, Unreact, r)
      ensures r.Ok? ==> reactions == WithoutPair(old(reactions), gameId, userId) && nextId == old(nextId)
      ensures |old(reactions)| - |reactions| <= 1
    {
      if gameId !in games {
        return NotFound;
      }
      var before := |reactions|;
      RemoveReacts(reactions, gameId, userId);
      WithoutPairAffected(reactions, gameId, userId);
      FilterKeepsTables(games, links, reactions, nextId, NotPair(gameId, userId));
      reactions := WithoutPair(reactions, gameId, userId);
      var affected := before - |reactions|;
      if affected == 0 {
        r := Ok(Respond(Unreact, NothingRemoved));
      } else {
        r := Ok(Respond(Unreact, Deleted));
      }
    }

    /** The caller's own reaction to a game; this query does not check that the game exists. */
    function GetUserReaction(gameId: nat, userId: string): (r: Option<ReactionType>)
      reads this
      requires Valid()
      ensures r.None? <==> forall x :: x in reactions ==> !SamePair(x, gameId, userId)
      ensures forall x :: x in reactions && SamePair(x, gameId, userId) ==> r == Some(x.reactionType)
    {
      var r := ReactionOf(reactions, gameId, userId);
      assert forall x :: x in reactions && SamePair(x, gameId, userId) ==> r == Some(x.reactionType) by {
        forall x | x in reactions && SamePair(x, gameId, userId) ensures r == Some(x.reactionType) {
          RowOfUnique(reactions, gameId, userId, x);
        }
      }
      r
    }

    /**
     * The like and dislike counts of a game and, when a non-empty userId is
     * given, that user's reaction; read-only.
     */
    function GetGameReactionStats(gameId: nat, userId: Option<string>): (r: Result<GameReactionStats>)
      reads this
      requires Valid()
      ensures r.NotFound? <==> gameId !in games
      ensures r.Ok? ==>
                r.value.likeCount == CountKind(reactions, gameId, Like)
                && r.value.dislikeCount == CountKind(reactions, gameId, Dislike)
      ensures r.Ok? ==>
                r.value.likeCount == |UsersWith(reactions, gameId, Like)|
                && r.value.dislikeCount == |UsersWith(reactions, gameId, Dislike)|
      ensures r.Ok? ==>
                r.value.userReaction
                == if userId.Some? && userId.value != "" then ReactionOf(reactions, gameId, userId.value) else None
    {
      if gameId !in games then NotFound
      else
        CountIsUsers(reactions, gameId, Like);
        CountIsUsers(reactions, gameId, Dislike);
        var userReaction := if userId.Some? && userId.value != "" then GetUserReaction(gameId, userId.value) else None;
        Ok(GameReactionStats(CountKind(reactions, gameId, Like), CountKind(reactions, gameId, Dislike), userReaction))
    }
  }
}
