/** The record shapes the pages and components share (src/types/types.ts). */
module Types {

  /** A value that may be absent: JavaScript's `undefined` / `null`. */
  datatype Option<+T> = None | Some(value: T) {

    /** The value if present, else `default`. */
    function GetOr(default: T): T {
      match this
      case Some(v) => v
      case None => default
    }
  }

  /** An initiative card as the main page holds it.
      `id` is the store's `_id`. The optional numeric `id` is never read by
      the core and is not modelled; `isWinner` lives on leaderboard entries.
      JavaScript numbers are modelled as integers. */
  datatype Card = Card(
    id: string,
    name: string,
    description: string,
    upvotes: int,
    storypoints: int,
    media: seq<string>)

  /** Sum of the upvotes of `cards`. */
  function TotalUpvotes(cards: seq<Card>): int {
    if cards == [] then 0 else cards[0].upvotes + TotalUpvotes(cards[1..])
  }

  /** Number of cards in `cards` whose id is `id`. */
  function Occurrences(cards: seq<Card>, id: string): nat {
    if cards == [] then 0
    else (if cards[0].id == id then 1 else 0) + Occurrences(cards[1..], id)
  }
}
