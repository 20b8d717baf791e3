/**
 * The `game_reactions` table: one row per (userId, gameId) pair holding that
 * user's current opinion of that game, `like` or `dislike`.
 */
module GameReactionEntity {
  import opened Wrappers
  import opened Seqs

  /** The stored kinds of reaction. There is no neutral value: absence of a row is "no reaction". */
  datatype ReactionType = Like | Dislike {

    /** The string the enum stands for in the `reactionType` column and in responses. */
    function Value(): string {
      match this
      case Like => "like"
      case Dislike => "dislike"
    }
  }

  /**
   * Reads a `reactionType` column value. The column's CHECK constraint admits
   * exactly the enum's two strings, and so does this parse.
   */
  function ParseReactionType(s: string): (r: Option<ReactionType>)
    ensures r.Some? ==> r.value.Value() == s
    ensures forall k: ReactionType :: k.Value() == s ==> r == Some(k)
  {
    if s == "like" then Some(Like)
    else if s == "dislike" then Some(Dislike)
    else None
  }

  /** One row. The timestamps are not modelled. */
  datatype GameReaction = GameReaction(id: nat, userId: string, gameId: nat, reactionType: ReactionType)

  predicate SamePair(x: GameReaction, gameId: nat, userId: string) {
    x.gameId == gameId && x.userId == userId
  }

  /** Two rows differ in their primary key and in their (userId, gameId) pair. */
  predicate KeysDistinct(x: GameReaction, y: GameReaction) {
    x.id != y.id && !(x.userId == y.userId && x.gameId == y.gameId)
  }

  /** The primary key and the unique constraint on (userId, gameId), over the whole table. */
  predicate UniqueKeys(rows: seq<GameReaction>) {
    Pairwise(rows, KeysDistinct)
  }

  /** The position of the row for a pair, as the repository's lookup by (gameId, userId) finds it. */
  function FindRow(rows: seq<GameReaction>, gameId: nat, userId: string): (i: Option<nat>)
    ensures i.Some? ==> i.value < |rows| && SamePair(rows[i.value], gameId, userId)
    ensures i.None? <==> forall x :: x in rows ==> !SamePair(x, gameId, userId)
    decreases |rows|
  {
    if rows == [] then None
    else if SamePair(rows[0], gameId, userId) then Some(0)
    else match FindRow(rows[1..], gameId, userId)
      case None => None
      case Some(j) => Some(j + 1)
  }

  /** The row for a pair, if any. */
  function RowOf(rows: seq<GameReaction>, gameId: nat, userId: string): (r: Option<GameReaction>)
    ensures r.Some? ==> r.value in rows && SamePair(r.value, gameId, userId)
    ensures r.None? <==> forall x :: x in rows ==> !SamePair(x, gameId, userId)
  {
    match FindRow(rows, gameId, userId)
    case Some(i) => Some(rows[i])
    case None => None
  }

  /** The kind stored for a pair, or None when the pair has no row (the NONE state). */
  function ReactionOf(rows: seq<GameReaction>, gameId: nat, userId: string): Option<ReactionType> {
    match RowOf(rows, gameId, userId)
    case Some(x) => Some(x.reactionType)
    case None => None
  }

  /** Under the unique constraint, the row a lookup finds is the one row of that pair. */
  lemma RowOfUnique(rows: seq<GameReaction>, gameId: nat, userId: string, x: GameReaction)
    requires UniqueKeys(rows)
    requires x in rows && SamePair(x, gameId, userId)
    ensures RowOf(rows, gameId, userId) == Some(x)
  {
    var i := FindRow(rows, gameId, userId).value;
    var j :| 0 <= j < |rows| && rows[j] == x;
    forall a, b | 0 <= a < b < |rows|
      ensures !(SamePair(rows[a], gameId, userId) && SamePair(rows[b], gameId, userId))
    {
      assert KeysDistinct(rows[a], rows[b]);
    }
  }

  /** The number of rows for `gameId` that hold `kind`. */
  function CountKind(rows: seq<GameReaction>, gameId: nat, kind: ReactionType): (n: nat)
    ensures n <= |rows|
    ensures n == 0 <==> forall x :: x in rows ==> !(x.gameId == gameId && x.reactionType == kind)
    decreases |rows|
  {
    if rows == [] then 0
    else (if rows[0].gameId == gameId && rows[0].reactionType == kind then 1 else 0)
         + CountKind(rows[1..], gameId, kind)
  }

  /** The users whose row for `gameId` holds `kind`: the reference meaning of a count. */
  ghost function UsersWith(rows: seq<GameReaction>, gameId: nat, kind: ReactionType): set<string> {
    set x | x in rows && x.gameId == gameId && x.reactionType == kind :: x.userId
  }

  lemma UsersWithIff(rows: seq<GameReaction>, gameId: nat, kind: ReactionType, userId: string)
    requires UniqueKeys(rows)
    ensures userId in UsersWith(rows, gameId, kind) <==> ReactionOf(rows, gameId, userId) == Some(kind)
  {
    if userId in UsersWith(rows, gameId, kind) {
      var x :| x in rows && x.gameId == gameId && x.reactionType == kind && x.userId == userId;
      RowOfUnique(rows, gameId, userId, x);
    }
  }

  lemma UsersWithCons(rows: seq<GameReaction>, gameId: nat, kind: ReactionType)
    requires rows != []
    ensures UsersWith(rows, gameId, kind)
         == UsersWith(rows[1..], gameId, kind)
            + (if rows[0].gameId == gameId && rows[0].reactionType == kind then {rows[0].userId} else {})
  {
    assert rows == [rows[0]] + rows[1..];
  }

  lemma HeadDistinct(rows: seq<GameReaction>)
    requires UniqueKeys(rows) && rows != []
    ensures forall y :: y in rows[1..] ==> KeysDistinct(rows[0], y)
  {
    forall y | y in rows[1..] ensures KeysDistinct(rows[0], y) {
      var k :| 0 <= k < |rows[1..]| && rows[1..][k] == y;
      assert rows[k + 1] == y;
    }
  }

  /** Under the unique constraint a count of rows is a count of distinct users. */
  lemma {:induction false} CountIsUsers(rows: seq<GameReaction>, gameId: nat, kind: ReactionType)
    requires UniqueKeys(rows)
    ensures CountKind(rows, gameId, kind) == |UsersWith(rows, gameId, kind)|
    decreases |rows|
  {
    if rows != [] {
      var h, t := rows[0], rows[1..];
      assert rows == [h] + t;
      PairwiseTail(rows, KeysDistinct);
      CountIsUsers(t, gameId, kind);
      var ut := UsersWith(t, gameId, kind);
      UsersWithCons(rows, gameId, kind);
      if h.gameId == gameId && h.reactionType == kind {
        HeadDistinct(rows);
        assert h.userId !in ut;
      }
    }
  }

  /** How a change of one user's reaction moves the count of `kind`: +1, -1 or 0. */
  function Shift(before: Option<ReactionType>, after: Option<ReactionType>, kind: ReactionType): int {
    (if after == Some(kind) then 1 else 0) - (if before == Some(kind) then 1 else 0)
  }

  /**
   * When two tables agree on every user's reaction to a game except one
   * user's, their counts for that game differ exactly by that user's change.
   */
  lemma CountShift(rows: seq<GameReaction>, rows': seq<GameReaction>, gameId: nat, userId: string, kind: ReactionType)
    requires UniqueKeys(rows) && UniqueKeys(rows')
    requires forall v :: v != userId ==> ReactionOf(rows', gameId, v) == ReactionOf(rows, gameId, v)
    ensures CountKind(rows', gameId, kind)
         == CountKind(rows, gameId, kind) + Shift(ReactionOf(rows, gameId, userId), ReactionOf(rows', gameId, userId), kind)
  {
    CountIsUsers(rows, gameId, kind);
    CountIsUsers(rows', gameId, kind);
    UsersAgreeExcept(rows, rows', gameId, userId, kind);
    UsersWithIff(rows, gameId, kind, userId);
    UsersWithIff(rows', gameId, kind, userId);
    CardExcept(UsersWith(rows, gameId, kind), userId);
    CardExcept(UsersWith(rows', gameId, kind), userId);
  }

  lemma UsersAgreeExcept(rows: seq<GameReaction>, rows': seq<GameReaction>, gameId: nat, userId: string, kind: ReactionType)
    requires UniqueKeys(rows) && UniqueKeys(rows')
    requires forall v :: v != userId ==> ReactionOf(rows', gameId, v) == ReactionOf(rows, gameId, v)
    ensures UsersWith(rows, gameId, kind) - {userId} == UsersWith(rows', gameId, kind) - {userId}
  {
    var a, b := UsersWith(rows, gameId, kind), UsersWith(rows', gameId, kind);
    forall v | v != userId ensures v in a <==> v in b {
      UsersWithIff(rows, gameId, kind, v);
      UsersWithIff(rows', gameId, kind, v);
    }
  }

  lemma CardExcept(a: set<string>, x: string)
    ensures |a| == |a - {x}| + (if x in a then 1 else 0)
  {
    if x in a {
      assert a == (a - {x}) + {x};
    } else {
      assert a == a - {x};
    }
  }

  // Deletions of rows, each a filter over the table.

  function NotPair(gameId: nat, userId: string): GameReaction -> bool {
    (x: GameReaction) => !SamePair(x, gameId, userId)
  }

  function NotOnGame(gameId: nat): GameReaction -> bool {
    (x: GameReaction) => x.gameId != gameId
  }

  function NotByUser(userId: string): GameReaction -> bool {
    (x: GameReaction) => x.userId != userId
  }

  /** Deleting by (gameId, userId). */
  function WithoutPair(rows: seq<GameReaction>, gameId: nat, userId: string): seq<GameReaction> {
    Filter(rows, NotPair(gameId, userId))
  }

  /** The ON DELETE CASCADE of the gameId foreign key when a game row is deleted. */
  function WithoutGame(rows: seq<GameReaction>, gameId: nat): seq<GameReaction> {
    Filter(rows, NotOnGame(gameId))
  }

  /** The ON DELETE CASCADE of the userId relation when a user row is deleted. */
  function WithoutUser(rows: seq<GameReaction>, userId: string): seq<GameReaction> {
    Filter(rows, NotByUser(userId))
  }

  /** A looked-up row that survives a deletion filter. */
  function Kept(r: Option<GameReaction>, keep: GameReaction -> bool): Option<GameReaction> {
    if r.Some? && keep(r.value) then r else None
  }

  /** Deleting rows keeps the keys unique, and every surviving pair keeps its row. */
  lemma FilterLookup(rows: seq<GameReaction>, keep: GameReaction -> bool)
    requires UniqueKeys(rows)
    ensures UniqueKeys(Filter(rows, keep))
    ensures forall gameId, userId ::
              RowOf(Filter(rows, keep), gameId, userId) == Kept(RowOf(rows, gameId, userId), keep)
  {
    var f := Filter(rows, keep);
    FilterPairwise(rows, keep, KeysDistinct);
    forall gameId, userId
      ensures RowOf(f, gameId, userId) == Kept(RowOf(rows, gameId, userId), keep)
    {
      match RowOf(rows, gameId, userId)
      case Some(x) =>
        if keep(x) {
          RowOfUnique(f, gameId, userId, x);
        } else {
          forall y | y in f ensures !SamePair(y, gameId, userId) {
            if SamePair(y, gameId, userId) {
              RowOfUnique(rows, gameId, userId, y);
            }
          }
        }
      case None =>
    }
  }

  /** Deleting by (gameId, userId) removes that one pair's row and no other. */
  lemma WithoutPairLookup(rows: seq<GameReaction>, gameId: nat, userId: string)
    requires UniqueKeys(rows)
    ensures UniqueKeys(WithoutPair(rows, gameId, userId))
    ensures RowOf(WithoutPair(rows, gameId, userId), gameId, userId) == None
    ensures forall g, u :: !(g == gameId && u == userId) ==>
              RowOf(WithoutPair(rows, gameId, userId), g, u) == RowOf(rows, g, u)
  {
    FilterLookup(rows, NotPair(gameId, userId));
  }

  /** The number of rows the delete by (gameId, userId) affects: one if the pair has a row, else zero. */
  lemma {:induction false} WithoutPairAffected(rows: seq<GameReaction>, gameId: nat, userId: string)
    requires UniqueKeys(rows)
    ensures |rows| - |WithoutPair(rows, gameId, userId)| == if RowOf(rows, gameId, userId).Some? then 1 else 0
    decreases |rows|
  {
    if rows != [] {
      var h, t := rows[0], rows[1..];
      assert forall x :: x in rows <==> x == h || x in t;
      PairwiseTail(rows, KeysDistinct);
      WithoutPairAffected(t, gameId, userId);
      if SamePair(h, gameId, userId) {
        HeadDistinct(rows);
        assert forall y :: y in t ==> !SamePair(y, gameId, userId);
        FilterKeepsAll(t, NotPair(gameId, userId));
      }
    }
  }

  /** Deleting a game deletes every reaction to it and leaves the other games' reactions alone. */
  lemma GameDeletionCascade(rows: seq<GameReaction>, gameId: nat)
    requires UniqueKeys(rows)
    ensures UniqueKeys(WithoutGame(rows, gameId))
    ensures forall u :: RowOf(WithoutGame(rows, gameId), gameId, u) == None
    ensures forall g, u :: g != gameId ==> RowOf(WithoutGame(rows, gameId), g, u) == RowOf(rows, g, u)
  {
    FilterLookup(rows, NotOnGame(gameId));
  }

  /** Deleting a user deletes every reaction by that user and leaves the other users' reactions alone. */
  lemma UserDeletionCascade(rows: seq<GameReaction>, userId: string)
    requires UniqueKeys(rows)
    ensures UniqueKeys(WithoutUser(rows, userId))
    ensures forall g :: RowOf(WithoutUser(rows, userId), g, userId) == None
    ensures forall g, u :: u != userId ==> RowOf(WithoutUser(rows, userId), g, u) == RowOf(rows, g, u)
  {
    FilterLookup(rows, NotByUser(userId));
  }

  /** Inserting a row with a fresh id for a pair that has none keeps the keys unique and affects only that pair. */
  lemma InsertLookup(rows: seq<GameReaction>, x: GameReaction)
    requires UniqueKeys(rows)
    requires RowOf(rows, x.gameId, x.userId) == None
    requires forall y :: y in rows ==> y.id != x.id
    ensures UniqueKeys(rows + [x])
    ensures RowOf(rows + [x], x.gameId, x.userId) == Some(x)
    ensures forall g, u :: !(g == x.gameId && u == x.userId) ==> RowOf(rows + [x], g, u) == RowOf(rows, g, u)
  {
    PairwiseConcat(rows, [x], KeysDistinct);
    var r := rows + [x];
    assert r[|rows|] == x;
    RowOfUnique(r, x.gameId, x.userId, x);
    forall g, u | !(g == x.gameId && u == x.userId)
      ensures RowOf(r, g, u) == RowOf(rows, g, u)
    {
      match RowOf(rows, g, u)
      case Some(y) => RowOfUnique(r, g, u, y);
      case None =>
    }
  }

  /** Changing the kind of the row at `i` in place keeps its id and pair and affects no other pair. */
  lemma RekindLookup(rows: seq<GameReaction>, i: nat, kind: ReactionType)
    requires UniqueKeys(rows) && i < |rows|
    ensures UniqueKeys(rows[i := rows[i].(reactionType := kind)])
    ensures RowOf(rows[i := rows[i].(reactionType := kind)], rows[i].gameId, rows[i].userId)
         == Some(rows[i].(reactionType := kind))
    ensures forall g, u :: !(g == rows[i].gameId && u == rows[i].userId) ==>
              RowOf(rows[i := rows[i].(reactionType := kind)], g, u) == RowOf(rows, g, u)
  {
    var x := rows[i].(reactionType := kind);
    var r := rows[i := x];
    assert r[i] == x;
    forall a, b | 0 <= a < b < |r| ensures KeysDistinct(r[a], r[b]) {
      assert KeysDistinct(rows[a], rows[b]);
    }
    RowOfUnique(r, x.gameId, x.userId, x);
    forall g, u | !(g == x.gameId && u == x.userId)
      ensures RowOf(r, g, u) == RowOf(rows, g, u)
    {
      match RowOf(rows, g, u)
      case Some(y) =>
        var j :| 0 <= j < |rows| && rows[j] == y;
        assert j != i && r[j] == y;
        RowOfUnique(r, g, u, y);
      case None =>
        forall y | y in r ensures !SamePair(y, g, u) {
          var j :| 0 <= j < |r| && r[j] == y;
          assert j != i ==> y == rows[j];
        }
    }
  }
}
