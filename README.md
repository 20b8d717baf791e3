# Game reactions and game records: a Dafny model

This project models the games service of the Gaming Ducky backend (a NestJS and
TypeORM application), centred on its reaction ledger. A user may like or dislike
a game. The `game_reactions` table holds at most one row per (userId, gameId)
pair. A like or dislike for a pair that has no row inserts a row. A request of
the kind already stored changes nothing. The opposite kind switches the row's
kind in place, and its id is kept. Removing a reaction deletes the pair's row,
and finding no row there is a normal answer, not an error. Every reaction
operation and the statistics query first check that the game exists. Otherwise
they answer `NotFound` and change nothing. The statistics count a game's likes
and dislikes and, when a caller id is given, report that caller's reaction.

The model also covers the rest of the service's state: creating, updating and
deleting games, with their category links (`game_categories`). It covers the
two cascades the reaction entity declares. From the admin listing it covers the
paging arithmetic and the sort-column whitelist.

Layout:

- `wrappers.dfy`: `Option`.
- `seqs.dfy`: tables as sequences. `Filter` models a `DELETE`/`SELECT ... WHERE` that keeps row order. `Pairwise` models a table-wide key constraint.
- `game_reaction_entity.dfy`: the reaction enum and row; the primary key and the (userId, gameId) unique constraint (`UniqueKeys`); lookup by pair; the per-kind count and its reference meaning as a set of users; lemmas about insert, in-place update, delete and the cascades.
- `game_entity.dfy`: game rows and category-link rows, and lemmas about replacing and appending a game's links.
- `game_dtos.dfy`: request and response shapes.
- `reaction_toggle.dfy`: the per-pair state machine (no row, like, dislike) and the response each transition answers with.
- `admin_listing.dfy`: `skip = (page - 1) * limit` and the `ORDER BY` column whitelist.
- `games_service.dfy`: class `GamesService`. Its fields are the three tables and an id counter. It has one method or function per service operation. Each reaction method is specified twice. `Applied` gives the abstract toggle semantics and the count movement. The concrete new table is given by `Stored` for like and dislike, and by `reactions == WithoutPair(...)` for removing a reaction.
- `scenarios.dfy`: whole-service runs. Each is stated as the responses and statistics a client sees.

Modelling choices:

- The database's uuids for games, reactions and links are `nat`s drawn from one counter, `nextId`. `userId` is an opaque string, as in the `character varying` column.
- The link and reaction tables are sequences of rows; the games table is a map keyed by id.
- The class invariant `Valid` holds the keys and the foreign keys. Every method preserves it. In particular, at most one reaction row exists per (userId, gameId) pair at any time.
- `likeGame` and `dislikeGame` are the same code with the kind swapped. Both delegate to `GamesService.ApplyReaction`.
- JavaScript truthiness is modelled where the service relies on it. In `getGameReactionStats`, `if (userId)` treats an empty userId like an absent one. In `update`, `if (categoryIds)` is true for an empty array, so `categoryIds: []` removes all of a game's links.

## Model

| member | source | states |
|---|---|---|
| GameReactionEntity.ParseReactionType | src/modules/games/entities/game-reaction.entity.ts:5-8 | The column admits exactly the two enum strings: a parsed value prints back to the input, and each enum's string parses to that enum |
| GameDtos.WireReactionType | src/modules/games/dto/reaction.dto.ts:24-27 | A reported reaction is sent as `'like'`, `'dislike'` or null: null exactly for no reaction, and a sent string parses back to the reported kind |
| GameReactionEntity.FindRow | src/modules/games/games.service.ts:146-148 | The lookup by (gameId, userId) returns the position of a row for that pair, and returns none exactly when no row for the pair exists |
| GameReactionEntity.RowOf | src/modules/games/games.service.ts:213-215 | The row found for a pair is in the table and belongs to the pair; none is found exactly when the pair has no row |
| GameReactionEntity.RowOfUnique | src/modules/games/entities/game-reaction.entity.ts:11 | Under the unique (userId, gameId) constraint, any row of a pair is the row the lookup finds |
| GameReactionEntity.CountKind | src/modules/games/games.service.ts:225-231 | The count of a kind for a game is at most the table size, and is zero exactly when no row of that game holds that kind |
| GameReactionEntity.CountIsUsers | src/modules/games/games.service.ts:225-231 | Under the unique constraint, the count of a kind equals the number of distinct users whose reaction to the game is that kind |
| GameReactionEntity.UsersWithIff | src/modules/games/entities/game-reaction.entity.ts:11 | A user is among a kind's reacting users exactly when that user's looked-up reaction is that kind |
| GameReactionEntity.CountShift | src/modules/games/games.service.ts:141-210 | When two tables agree on every user's reaction to a game but one, the counts differ by exactly that user's change (+1, -1 or 0 per kind) |
| GameReactionEntity.FilterLookup | src/modules/games/games.service.ts:203 | Deleting rows by a condition keeps the keys unique, and each pair's row survives exactly when the condition keeps it |
| GameReactionEntity.WithoutPairLookup | src/modules/games/games.service.ts:203 | Deleting by (gameId, userId) leaves that pair without a row and every other pair's row as it was |
| GameReactionEntity.WithoutPairAffected | src/modules/games/games.service.ts:203-207 | The delete affects one row if the pair had a row and zero otherwise |
| GameReactionEntity.GameDeletionCascade | src/modules/games/entities/game-reaction.entity.ts:32-34 | Deleting a game removes every reaction to it and keeps every other game's reactions |
| GameReactionEntity.UserDeletionCascade | src/modules/games/entities/game-reaction.entity.ts:28-30 | Deleting a user removes every reaction by that user and keeps every other user's reactions |
| GameReactionEntity.InsertLookup | src/modules/games/games.service.ts:161-166 | Inserting a row with a fresh id for a pair with no row keeps both keys unique, gives the pair exactly that row, and leaves other pairs alone |
| GameReactionEntity.RekindLookup | src/modules/games/games.service.ts:155-156 | Re-saving the found row with another kind keeps both keys unique, keeps the row's id and pair, and leaves other pairs alone |
| GameEntity.NewLinks | src/modules/games/games.service.ts:31-33 | One link per given category id, each for the game, with pairwise distinct fresh ids |
| GameEntity.ReplaceLinks | src/modules/games/games.service.ts:121-130 | After deleting a game's links and saving new ones, the game is linked to exactly the given category ids in order, and other games' links are unchanged |
| GameEntity.LinksOfReplaced | src/modules/games/games.service.ts:121-130 | After deleting a game's links and appending links of that game, the game's links are exactly the appended ones |
| GameEntity.OtherLinksKept | src/modules/games/games.service.ts:121-130 | Deleting one game's links and appending links of that game leaves every other game's links as they were |
| GameEntity.AppendLinks | src/modules/games/games.service.ts:30-35 | For a game with no links yet, saving new links links it to exactly the given ids and leaves other games' links unchanged |
| ReactionToggle.Step | src/modules/games/games.service.ts:141-210 | The transitions: a row is written exactly when the state changes; like/dislike ends in their kind and removal ends with no row; an insert happens exactly on a reaction to a pair without a row, a delete exactly on a removal from a pair with one |
| ReactionToggle.StepIdempotent | src/modules/games/games.service.ts:150-152 | Repeating any request leaves the same state, and the repetition writes nothing |
| ReactionToggle.OppositeFlips | src/modules/games/games.service.ts:154-157 | The opposite kind on a reacted pair is an in-place update, not an insert |
| ReactionToggle.Message | src/modules/games/games.service.ts:199-209 | A removal answers "No reaction to remove" exactly when there was no row, and "Reaction removed successfully" exactly when a row was deleted |
| ReactionToggle.MessageTemplates | src/modules/games/games.service.ts:150-196 | A like or dislike answers "Game liked/disliked successfully" on an insert, "Reaction updated to like/dislike" (the kind's column string) on an in-place update, and "Game already liked/disliked" when nothing changes |
| ReactionToggle.Respond | src/modules/games/games.service.ts:152-209 | For an effect the request can have, the response carries the requested kind for like or dislike and null for a removal |
| ReactionToggle.ResponseReportsState | src/modules/games/games.service.ts:199-210 | The response's reactionType is the pair's state after the request |
| ReactionToggle.MessagesTellOutcomes | src/modules/games/games.service.ts:150-209 | Different outcomes of the same request answer with different messages |
| AdminListing.Skip | src/modules/games/games.service.ts:60 | The offset of a page is never negative for page >= 1 and a non-negative limit, and page 1 starts at row 0; PagesPartitionRows and PagesAreAdjacent give its window meaning |
| AdminListing.PagesPartitionRows | src/modules/games/games.service.ts:60 | With a positive page size, each row position lies on exactly one page, page position / limit + 1 |
| AdminListing.PagesAreAdjacent | src/modules/games/games.service.ts:60 | Page 1 starts at row 0, and each page starts where the previous page's window ends |
| AdminListing.SortField | src/modules/games/games.service.ts:71-72 | The ORDER BY column is always `game.` plus a whitelisted name: the requested one when whitelisted, otherwise createdAt |
| Games.NewGame | src/modules/games/entities/game.entity.ts:16-43 | A created game carries the request's title, description, icon, video and url; publishStatus defaults to false, isTrending to false and playCount to 0 |
| Games.Assign | src/modules/games/games.service.ts:117 | Each field the request carries (title, description, icon, video, url, publishStatus) overwrites the game's, each field it leaves out keeps its value, and the id, isTrending and playCount are kept |
| Games.CategoryList | src/modules/games/games.service.ts:30 | A create request links nothing exactly when categoryIds is absent or empty, and otherwise links the given ids as given |
| Games.AssignIdempotent | src/modules/games/games.service.ts:117 | Applying an update twice equals applying it once, and an update with no fields changes nothing |
| Games.CountsAfter | src/modules/games/games.service.ts:225-231 | After a change to one pair's row, that game's counts move by the pair's change and every other game's counts are unchanged |
| Games.InsertReacts | src/modules/games/games.service.ts:160-167 | A first like or dislike, inserted as a row with a fresh id, keeps the keys unique; the pair now holds that kind, the answer is the insert's; no other pair changes; the game's count of that kind grows by one and other games' counts stay |
| Games.RekindReacts | src/modules/games/games.service.ts:154-157 | Re-saving the pair's row with the opposite kind keeps the keys unique; the pair now holds the new kind, the answer is the update's; no other pair changes; one count moves from the old kind to the new one |
| Games.RemoveReacts | src/modules/games/games.service.ts:203-209 | Deleting the pair's rows keeps the keys unique and leaves the pair without a row; the answer is "No reaction to remove" exactly when zero rows were deleted; no other pair changes; the count of the removed kind drops by one |
| Games.CreateKeepsTables | src/modules/games/games.service.ts:27-35 | Adding a game under a fresh id with fresh link ids keeps every key and foreign key of the tables, and no existing link already belongs to the new game |
| Games.InsertKeepsTables | src/modules/games/games.service.ts:161-166 | Inserting a reaction with a fresh id for an existing game and a pair without a row keeps the tables' keys, the unique constraint and the foreign keys |
| Games.RekindKeepsTables | src/modules/games/games.service.ts:155-156 | Changing one reaction row's kind in place keeps the tables' keys, the unique constraint and the foreign keys |
| Games.FilterKeepsTables | src/modules/games/games.service.ts:203 | Deleting reaction rows by any condition keeps the tables' keys, the unique constraint and the foreign keys |
| Games.GamesService.constructor | src/modules/games/games.service.ts:12-20 | The service starts with empty tables that satisfy the invariant |
| Games.GamesService.FindOne | src/modules/games/games.service.ts:102-109 | NotFound exactly when no game has the id; otherwise the game together with exactly its category links |
| Games.GamesService.Create | src/modules/games/games.service.ts:22-38 | Adds a game with a fresh id, links it to exactly the given categories in order (none when absent or empty), leaves other games' links and all reactions unchanged, and keeps the invariant |
| Games.GamesService.Update | src/modules/games/games.service.ts:111-133 | NotFound with no change when the game is absent. Otherwise the fields are overwritten; links are replaced by exactly the given ids when categoryIds is present, even if empty, and kept otherwise; other games' links and reactions are unchanged; the result is the reloaded game |
| Games.GamesService.Remove | src/modules/games/games.service.ts:135-138 | NotFound exactly when no row was affected. Otherwise the game is gone and the cascades delete its links and reactions; other games keep theirs |
| Games.GamesService.ApplyReaction | src/modules/games/games.service.ts:141-197 | NotFound with no change when the game is absent. Otherwise the pair's state follows the transition, the response matches it, no other pair changes, the counts move by the pair's change, and the table gets one new row or the same row with the new kind |
| Games.GamesService.LikeGame | src/modules/games/games.service.ts:141-168 | As ApplyReaction, for a like |
| Games.GamesService.DislikeGame | src/modules/games/games.service.ts:170-197 | As ApplyReaction, for a dislike |
| Games.GamesService.RemoveReaction | src/modules/games/games.service.ts:199-210 | NotFound with no change when the game is absent. Otherwise the pair's row is deleted (at most one row); the answer is "No reaction to remove" exactly when there was none; other pairs and counts follow as for ApplyReaction |
| Games.GamesService.GetUserReaction | src/modules/games/games.service.ts:212-218 | null exactly when the pair has no row; otherwise the kind the pair's row holds. The game's existence is not checked |
| Games.GamesService.GetGameReactionStats | src/modules/games/games.service.ts:220-244 | NotFound exactly when the game is absent. The counts are the game's like and dislike rows, equal to the number of distinct users of each kind. userReaction is the caller's reaction when a non-empty userId is given, and null otherwise |
| Scenarios.LikeDislikeRemove | src/modules/games/games.service.ts:141-244 | Like, then dislike, gives stats {0, 1, dislike}; removing then gives "Reaction removed successfully" and stats {0, 0, null} |
| Scenarios.DislikeTwice | src/modules/games/games.service.ts:179-196 | A first dislike answers "Game disliked successfully", and a second answers "Game already disliked" |
| Scenarios.LikeTwice | src/modules/games/games.service.ts:150-152 | A second like answers "Game already liked", and the stats still count one like |
| Scenarios.ThreeLikesOneDislike | src/modules/games/games.service.ts:225-231 | Three users' likes and a fourth user's dislike give stats {3, 1, null} for an anonymous caller |
| Scenarios.FlipKeepsRow | src/modules/games/games.service.ts:154-196 | A first dislike is an insert answered "Game disliked successfully" (:189-196); the like that follows flips the row in place (:154-157), answers "Reaction updated to like", and leaves one row with the same id, now holding like |
| Scenarios.MissingGame | src/modules/games/games.service.ts:141-143 | Reacting to a game that never existed, or that was removed, is NotFound; removing an absent reaction from an existing game is "No reaction to remove" |

## Left out

- `findAll`, `findNew`, `findTrending` and the search and `total` parts of `findAllAdmin` are SQL queries: text matching with `ILIKE`, ordering by timestamps, and relation joins. Only the paging arithmetic and the sort whitelist of `findAllAdmin` are modelled.
- AdminListing.SortField: `sortOrder` is passed to the query builder unchecked, and the model does not include it.
- `src/modules/games/dto/game-query.dto.ts` is not part of this model. The defaults of `page` and `limit` are therefore not modelled, and `Skip` takes them as given.
- The `rating` decimal, `publishedAt`, and the `createdAt`/`updatedAt` timestamps are not modelled. Neither are the `categories` table and the loading of each link's `category`.
- Category ids are not checked against a categories table. A link to an unknown category, which the database would reject, is accepted by the model.
- `create`'s transaction, and the separate statements of `update`, are modelled as one atomic step each. A failure part-way is not modelled.
- Concurrency: the read-then-write race of two identical like requests is not modelled. The model runs one request at a time. The unique constraint, which would reject the second insert, is the invariant `UniqueKeys`.
- Games.Assign: a request field explicitly set to `null`, which `Object.assign` would copy over the column, is not modelled. Each field of an update request is either absent or a value.
- Games.GamesService.Update: the cascade save of the loaded `gameCategories` relation by `gamesRepository.save(game)` is not modelled. It re-saves the links just loaded, and the delete and insert that follow decide the final links.
- GameReactionEntity.UserDeletionCascade: the entity declares `ON DELETE CASCADE` for users, but the `game_reactions` migration creates only the games foreign key. The users table is not in the model. So the user cascade is a lemma about the table, not a service operation.
- The controllers, the optional-JWT and admin guards, and the check that a reaction request carries a `userId` are outside the service. The identity of the caller is a parameter.
- Malformed ids: the service takes game ids as strings and compares them with a `uuid` column, so a string that is not a uuid makes the database raise an error rather than answer `NotFound`. Ids are `nat` here, every id is well formed, and `NotFound` exactly when the id is absent covers every input of the model.
- Games.NewGame, Games.Assign: both the create and the update copy every key of the request body onto the game. That isTrending and playCount keep their defaults or values holds only when request validation strips keys the request shapes do not declare. That setting lives in the application bootstrap, which is not part of this model, so the model assumes it.
- uuid generation, the database connection and the HTTP layer are replaced by the `nextId` counter and the in-memory tables.
