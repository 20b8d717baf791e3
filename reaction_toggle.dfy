/**
 * The per-(user, game) toggle state machine that the reaction operations
 * follow. A pair's state is `None` (no row), `Some(Like)` or `Some(Dislike)`.
 */
module ReactionToggle {
  import opened Wrappers
  import opened GameReactionEntity
  import opened GameDtos

  /** A like or dislike request, or a request to remove the reaction. */
  datatype Action = React(kind: ReactionType) | Unreact

  /** What the request does to the pair's row. */
  datatype Effect = Inserted | Updated | Unchanged | Deleted | NothingRemoved

  datatype Transition = Transition(next: Option<ReactionType>, effect: Effect)

  /** A row is written exactly for these effects. */
  predicate Writes(effect: Effect) {
    effect == Inserted || effect == Updated || effect == Deleted
  }

  /** The effects a request can have: like and dislike insert, update or leave the row; removal deletes it or finds none. */
  predicate Fits(action: Action, effect: Effect) {
    if action.React? then effect == Inserted || effect == Updated || effect == Unchanged
    else effect == Deleted || effect == NothingRemoved
  }

  /** The transition from the pair's current state under one request. */
  function Step(current: Option<ReactionType>, action: Action): (t: Transition)
    ensures Fits(action, t.effect)
    ensures Writes(t.effect) <==> t.next != current
    ensures t.next == if action.React? then Some(action.kind) else None
    ensures t.effect == Inserted <==> action.React? && current == None
    ensures t.effect == Deleted <==> action.Unreact? && current != None
  {
    match action
    case React(k) =>
      if current == None then Transition(Some(k), Inserted)
      else if current == Some(k) then Transition(current, Unchanged)
      else Transition(Some(k), Updated)
    case Unreact =>
      if current == None then Transition(None, NothingRemoved)
      else Transition(None, Deleted)
  }

  /** Repeating a request changes nothing: the second time no row is written. */
  lemma StepIdempotent(current: Option<ReactionType>, action: Action)
    ensures Step(Step(current, action).next, action).next == Step(current, action).next
    ensures !Writes(Step(Step(current, action).next, action).effect)
  {
  }

  /** From a liked or disliked state, the opposite request flips the row in place rather than inserting. */
  lemma OppositeFlips(kind: ReactionType, other: ReactionType)
    requires kind != other
    ensures Step(Some(kind), React(other)) == Transition(Some(other), Updated)
  {
  }

  /** The past tense a message uses for a kind: "liked", "disliked". */
  function Past(kind: ReactionType): string {
    match kind
    case Like => "liked"
    case Dislike => "disliked"
  }

  /**
   * The message each request answers with, for each effect it can have; a
   * removal says whether there was a reaction to remove.
   */
  function Message(action: Action, effect: Effect): (m: string)
    requires Fits(action, effect)
    ensures action.Unreact? ==> (m == "No reaction to remove" <==> effect == NothingRemoved)
    ensures action.Unreact? ==> (m == "Reaction removed successfully" <==> effect == Deleted)
  {
    match action
    case React(Like) =>
      (match effect
       case Inserted => "Game liked successfully"
       case Updated => "Reaction updated to like"
       case Unchanged => "Game already liked"
       case Deleted | NothingRemoved => assert false; "")
    case React(Dislike) =>
      (match effect
       case Inserted => "Game disliked successfully"
       case Updated => "Reaction updated to dislike"
       case Unchanged => "Game already disliked"
       case Deleted | NothingRemoved => assert false; "")
    case Unreact =>
      (match effect
       case NothingRemoved => "No reaction to remove"
       case Deleted => "Reaction removed successfully"
       case Inserted | Updated | Unchanged => assert false; "")
  }

  /** A like or dislike names its kind in one of three sentences, one per effect. */
  lemma {:induction false} MessageTemplates(kind: ReactionType, effect: Effect)
    requires Fits(React(kind), effect)
    ensures effect == Inserted ==> Message(React(kind), effect) == "Game " + Past(kind) + " successfully"
    ensures effect == Updated ==> Message(React(kind), effect) == "Reaction updated to " + kind.Value()
    ensures effect == Unchanged ==> Message(React(kind), effect) == "Game already " + Past(kind)
  {
    match (kind, effect)
    case (Like, Inserted) => assert "Game " + "liked" + " successfully" == "Game liked successfully";
    case (Like, Updated) => assert "Reaction updated to " + "like" == "Reaction updated to like";
    case (Like, Unchanged) => assert "Game already " + "liked" == "Game already liked";
    case (Dislike, Inserted) => assert "Game " + "disliked" + " successfully" == "Game disliked successfully";
    case (Dislike, Updated) => assert "Reaction updated to " + "dislike" == "Reaction updated to dislike";
    case (Dislike, Unchanged) => assert "Game already " + "disliked" == "Game already disliked";
    case _ =>
  }

  /** The response body: the message and the request's kind (`null` for a removal). */
  function Respond(action: Action, effect: Effect): (r: ReactionResponse)
    requires Fits(action, effect)
    ensures r.reactionType == if action.React? then Some(action.kind) else None
  {
    ReactionResponse(Message(action, effect), if action.React? then Some(action.kind) else None)
  }

  /** The response's reactionType is the pair's state after the request. */
  lemma ResponseReportsState(current: Option<ReactionType>, action: Action)
    ensures Respond(action, Step(current, action).effect).reactionType == Step(current, action).next
  {
  }

  /** Different outcomes of the same request answer with different messages. */
  lemma MessagesTellOutcomes(current: Option<ReactionType>, current': Option<ReactionType>, action: Action)
    requires Step(current, action).effect != Step(current', action).effect
    ensures Message(action, Step(current, action).effect) != Message(action, Step(current', action).effect)
  {
  }
}
