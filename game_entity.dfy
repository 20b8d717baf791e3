/**
 * The `games` and `game_categories` tables. A game's categories are link
 * rows (id, gameId, categoryId); the table has no uniqueness constraint, so a
 * game may be linked to the same category twice.
 */
module GameEntity {
  import opened Wrappers
  import opened Seqs

  /** A game row. `rating` (a decimal) and the timestamps are not modelled. */
  datatype Game = Game(
    id: nat,
    title: string,
    description: string,
    icon: Option<string>,
    video: Option<string>,
    url: Option<string>,
    publishStatus: bool,
    isTrending: bool,
    playCount: nat)

  /** A link row of `game_categories`. */
  datatype GameCategory = GameCategory(id: nat, gameId: nat, categoryId: nat)

  /** The primary key of `game_categories`. */
  predicate LinkIdsDistinct(a: GameCategory, b: GameCategory) {
    a.id != b.id
  }

  function OfGame(gameId: nat): GameCategory -> bool {
    (l: GameCategory) => l.gameId == gameId
  }

  function NotOfGame(gameId: nat): GameCategory -> bool {
    (l: GameCategory) => l.gameId != gameId
  }

  /** The `gameCategories` relation of one game, in table order. */
  function LinksOf(links: seq<GameCategory>, gameId: nat): seq<GameCategory> {
    Filter(links, OfGame(gameId))
  }

  /** Deleting a game's links by gameId; also the cascade of deleting the game. */
  function OtherLinks(links: seq<GameCategory>, gameId: nat): seq<GameCategory> {
    Filter(links, NotOfGame(gameId))
  }

  /** The category ids a game is linked to, in table order. */
  function CategoryIdsOf(links: seq<GameCategory>, gameId: nat): seq<nat> {
    var ls := LinksOf(links, gameId);
    seq(|ls|, i requires 0 <= i < |ls| => ls[i].categoryId)
  }

  /** One new link per category id, in the given order, with ids drawn from `firstId` on. */
  function NewLinks(gameId: nat, categoryIds: seq<nat>, firstId: nat): (r: seq<GameCategory>)
    ensures |r| == |categoryIds|
    ensures forall l :: l in r ==> l.gameId == gameId && firstId <= l.id < firstId + |categoryIds|
    ensures Pairwise(r, LinkIdsDistinct)
  {
    seq(|categoryIds|, i requires 0 <= i < |categoryIds| => GameCategory(firstId + i, gameId, categoryIds[i]))
  }

  /** After a change to the link table, `gameId` is linked to exactly `categoryIds`, in order, and every other game's links are as they were. */
  ghost predicate LinkedExactly(links: seq<GameCategory>, links': seq<GameCategory>, gameId: nat, categoryIds: seq<nat>) {
    && CategoryIdsOf(links', gameId) == categoryIds
    && (forall g :: g != gameId ==> LinksOf(links', g) == LinksOf(links, g))
  }

  /**
   * Deleting a game's links and saving one new link per given category id
   * leaves that game linked to exactly the given ids, in the given order, and
   * every other game's links as they were.
   */
  lemma ReplaceLinks(links: seq<GameCategory>, gameId: nat, categoryIds: seq<nat>, firstId: nat)
    ensures LinkedExactly(links, OtherLinks(links, gameId) + NewLinks(gameId, categoryIds, firstId), gameId, categoryIds)
  {
    var added := NewLinks(gameId, categoryIds, firstId);
    var links' := OtherLinks(links, gameId) + added;
    LinksOfReplaced(links, gameId, added);
    assert CategoryIdsOf(links', gameId) == categoryIds;
    forall g | g != gameId
      ensures LinksOf(links', g) == LinksOf(links, g)
    {
      OtherLinksKept(links, gameId, added, g);
    }
  }

  /** After the replacement the game's own links are exactly the added ones. */
  lemma LinksOfReplaced(links: seq<GameCategory>, gameId: nat, added: seq<GameCategory>)
    requires forall l :: l in added ==> l.gameId == gameId
    ensures LinksOf(OtherLinks(links, gameId) + added, gameId) == added
  {
    var rest := OtherLinks(links, gameId);
    FilterConcat(rest, added, OfGame(gameId));
    FilterDropsAll(rest, OfGame(gameId));
    FilterKeepsAll(added, OfGame(gameId));
  }

  /** The replacement leaves the links of every other game as they were. */
  lemma OtherLinksKept(links: seq<GameCategory>, gameId: nat, added: seq<GameCategory>, g: nat)
    requires forall l :: l in added ==> l.gameId == gameId
    requires g != gameId
    ensures LinksOf(OtherLinks(links, gameId) + added, g) == LinksOf(links, g)
  {
    FilterConcat(OtherLinks(links, gameId), added, OfGame(g));
    FilterDropsAll(added, OfGame(g));
    FilterOfFilter(links, gameId, g);
  }

  /** Keeping the other games' links and then one game's links is keeping that game's links. */
  lemma {:induction false} FilterOfFilter(links: seq<GameCategory>, gameId: nat, g: nat)
    requires g != gameId
    ensures Filter(OtherLinks(links, gameId), OfGame(g)) == LinksOf(links, g)
    decreases |links|
  {
    if links != [] {
      FilterOfFilter(links[1..], gameId, g);
    }
  }

  /** A game none of whose links exist yet gets exactly the new links. */
  lemma AppendLinks(links: seq<GameCategory>, gameId: nat, categoryIds: seq<nat>, firstId: nat)
    requires forall l :: l in links ==> l.gameId != gameId
    ensures LinkedExactly(links, links + NewLinks(gameId, categoryIds, firstId), gameId, categoryIds)
  {
    FilterKeepsAll(links, NotOfGame(gameId));
    ReplaceLinks(links, gameId, categoryIds, firstId);
  }
}
