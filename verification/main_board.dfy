/** The main page's vote ledger and card list (src/pages/MainPage.tsx):
    what an upvote and a newly created card do to the page state. The writes
    to the store are recorded as data; the HTTP calls are not modelled. */
module MainBoard {
  import opened Types

  /** The page state an upvote reads and changes. `keyId` stays "" until the
      admin key has been fetched. */
  datatype Board = Board(
    cards: seq<Card>,
    viewing: Option<Card>,
    availableVotes: int,
    keyId: string)

  /** A write sent to the store after the optimistic update. */
  datatype Write =
    | IncrementUpvotes(cardId: string)
    | SetKeyVotes(keyId: string, votes: int)

  /** Outcome of one call of the upvote handler: refused before anything
      changes, or the next state together with the writes it sends. */
  datatype UpvoteOutcome = NoVotes | Accepted(next: Board, writes: seq<Write>)

  /** A sequence of upvote calls: the state they leave and how many were accepted. */
  datatype Run = Run(final: Board, accepted: nat)

  /** The card the page asks the store to create. */
  datatype CardDraft = CardDraft(
    name: string,
    description: string,
    storypoints: int,
    media: seq<string>)

  /** True when `after` is `before` with `delta` more upvotes and nothing else changed. */
  predicate Raised(before: Card, after: Card, delta: int) {
    after.upvotes == before.upvotes + delta && after.(upvotes := before.upvotes) == before
  }

  function Bump(c: Card): Card {
    c.(upvotes := c.upvotes + 1)
  }

  /** The optimistic update of the card list: each card carrying `id` gains
      one upvote; every other card, the length and the order stay. */
  function BumpMatching(cards: seq<Card>, id: string): (r: seq<Card>)
    ensures |r| == |cards|
    ensures forall i :: 0 <= i < |cards| ==>
      Raised(cards[i], r[i], if cards[i].id == id then 1 else 0)
  {
    if cards == [] then []
    else [if cards[0].id == id then Bump(cards[0]) else cards[0]] + BumpMatching(cards[1..], id)
  }

  /** The upvote handler. With no votes left it refuses and changes nothing.
      Otherwise the list, the open card (when it is the voted one) and the
      vote count move together, and the store is told to increment the card
      and, once a key is known, to store the decremented count. */
  function Upvote(b: Board, id: string): (r: UpvoteOutcome)
    ensures r.NoVotes? <==> b.availableVotes <= 0
    ensures r.Accepted? ==>
      && r.next.availableVotes == b.availableVotes - 1
      && r.next.keyId == b.keyId
    ensures r.Accepted? ==>
      && |r.next.cards| == |b.cards|
      && forall i :: 0 <= i < |b.cards| ==>
           Raised(b.cards[i], r.next.cards[i], if b.cards[i].id == id then 1 else 0)
    ensures r.Accepted? ==>
      && r.next.viewing.Some? == b.viewing.Some?
      && (b.viewing.Some? ==>
            Raised(b.viewing.value, r.next.viewing.value, if b.viewing.value.id == id then 1 else 0))
    ensures r.Accepted? ==> |r.writes| == (if b.keyId != "" then 2 else 1)
    ensures r.Accepted? ==> r.writes[0] == IncrementUpvotes(id)
    ensures r.Accepted? ==>
      (SetKeyVotes(b.keyId, r.next.availableVotes) in r.writes <==> b.keyId != "")
    ensures r.Accepted? ==> forall w :: w in r.writes && w.SetKeyVotes? ==>
      w.keyId == b.keyId && w.votes == r.next.availableVotes
  {
    if b.availableVotes <= 0 then NoVotes
    else
      var viewing := match b.viewing
        case Some(c) => if c.id == id then Some(Bump(c)) else Some(c)
        case None => None;
      var next := Board(BumpMatching(b.cards, id), viewing, b.availableVotes - 1, b.keyId);
      var keyWrite := if b.keyId != "" then [SetKeyVotes(b.keyId, b.availableVotes - 1)] else [];
      Accepted(next, [IncrementUpvotes(id)] + keyWrite)
  }

  /** The state after one call of the upvote handler. */
  function Apply(b: Board, id: string): Board {
    match Upvote(b, id)
    case NoVotes => b
    case Accepted(next, _) => next
  }

  /** One upvote call per element of `ids`, in order. */
  function Replay(b: Board, ids: seq<string>): Run
    decreases |ids|
  {
    if ids == [] then Run(b, 0)
    else
      var rest := Replay(Apply(b, ids[0]), ids[1..]);
      Run(rest.final, rest.accepted + (if b.availableVotes > 0 then 1 else 0))
  }

  function Min(a: int, b: int): int {
    if a <= b then a else b
  }

  lemma {:induction false} BumpMatchingTotal(cards: seq<Card>, id: string)
    ensures TotalUpvotes(BumpMatching(cards, id)) == TotalUpvotes(cards) + Occurrences(cards, id)
  {
    if cards != [] {
      BumpMatchingTotal(cards[1..], id);
      assert BumpMatching(cards, id)[1..] == BumpMatching(cards[1..], id);
    }
  }

  lemma {:induction false} BumpMatchingKeepsIds(cards: seq<Card>, id: string, x: string)
    ensures Occurrences(BumpMatching(cards, id), x) == Occurrences(cards, x)
  {
    if cards != [] {
      BumpMatchingKeepsIds(cards[1..], id, x);
      assert BumpMatching(cards, id)[1..] == BumpMatching(cards[1..], id);
    }
  }

  /** An accepted upvote moves one vote from the key's balance to the card
      list for every card carrying `id`: when exactly one card does, the sum
      of the balance and all upvotes is unchanged; when none does, the vote
      is spent and no card gains it. */
  lemma UpvoteMovesOneVote(b: Board, id: string)
    requires Upvote(b, id).Accepted?
    ensures var next := Upvote(b, id).next;
      TotalUpvotes(next.cards) + next.availableVotes
        == TotalUpvotes(b.cards) + b.availableVotes + Occurrences(b.cards, id) - 1
  {
    BumpMatchingTotal(b.cards, id);
  }

  /** Starting from a balance n >= 0, a sequence of upvote calls accepts
      exactly min(n, calls) of them, the balance drops by that many and
      never goes negative, and the card list keeps its length. */
  lemma {:induction false} ReplaySpendsAtMostBalance(b: Board, ids: seq<string>)
    requires b.availableVotes >= 0
    ensures Replay(b, ids).accepted == Min(|ids|, b.availableVotes)
    ensures Replay(b, ids).final.availableVotes == b.availableVotes - Replay(b, ids).accepted >= 0
    ensures |Replay(b, ids).final.cards| == |b.cards|
    decreases |ids|
  {
    if ids != [] {
      ReplaySpendsAtMostBalance(Apply(b, ids[0]), ids[1..]);
    }
  }

  /** When every voted id names exactly one card, no vote is created or
      lost across a session: balance plus total upvotes is constant. */
  lemma {:induction false} ReplayConservesVotes(b: Board, ids: seq<string>)
    requires forall k :: 0 <= k < |ids| ==> Occurrences(b.cards, ids[k]) == 1
    ensures TotalUpvotes(Replay(b, ids).final.cards) + Replay(b, ids).final.availableVotes
      == TotalUpvotes(b.cards) + b.availableVotes
    decreases |ids|
  {
    if ids != [] {
      var b' := Apply(b, ids[0]);
      if b.availableVotes > 0 {
        UpvoteMovesOneVote(b, ids[0]);
        forall k | 0 <= k < |ids[1..]|
          ensures Occurrences(b'.cards, ids[1..][k]) == 1
        {
          BumpMatchingKeepsIds(b.cards, ids[0], ids[1..][k]);
          assert ids[1..][k] == ids[k + 1];
        }
      } else {
        forall k | 0 <= k < |ids[1..]|
          ensures Occurrences(b'.cards, ids[1..][k]) == 1
        {
          assert ids[1..][k] == ids[k + 1];
        }
      }
      ReplayConservesVotes(b', ids[1..]);
    }
  }

  /** Two upvotes on a fresh balance of two are accepted and leave it at
      zero; a third is refused. */
  lemma TwoVotesThenRefused(cards: seq<Card>, keyId: string, id: string)
    ensures var after := Replay(Board(cards, None, 2, keyId), [id, id]);
      && after.accepted == 2
      && after.final.availableVotes == 0
      && Upvote(after.final, id).NoVotes?
  {
    ReplaySpendsAtMostBalance(Board(cards, None, 2, keyId), [id, id]);
  }

  /** Whether the vote buttons are enabled: a member with votes left. */
  function CanUpvote(memberState: bool, availableVotes: int): (ok: bool)
    ensures ok <==> memberState && availableVotes >= 1
  {
    memberState && availableVotes > 0
  }

  /** The buttons are enabled exactly when a member's upvote would be
      accepted: an enabled button never reaches the "no votes" refusal. */
  lemma EnabledExactlyWhenAccepted(memberState: bool, b: Board, id: string)
    ensures CanUpvote(memberState, b.availableVotes) <==> memberState && Upvote(b, id).Accepted?
  {
  }

  /** The member flag the page reads from the navigation state; a visit
      without one (a direct link) is a guest visit. */
  function ArrivalMemberState(navigation: Option<bool>): (member: bool)
    ensures member <==> navigation == Some(true)
  {
    navigation.GetOr(false)
  }

  /** The record the page sends to the store for a new card: the form's
      name, description and media, always with zero story points. */
  function NewCardDraft(name: string, description: string, media: seq<string>): (d: CardDraft)
    ensures d.storypoints == 0
    ensures d.name == name && d.description == description && d.media == media
  {
    CardDraft(name, description, 0, media)
  }

  /** The card list after a create call: the card the store returned is
      appended after all existing ones; a failed call changes nothing. */
  function AddCreated(b: Board, created: Option<Card>): (r: Board)
    ensures |b.cards| <= |r.cards| && r.cards[..|b.cards|] == b.cards
    ensures created.Some? ==> |r.cards| == |b.cards| + 1 && r.cards[|b.cards|] == created.value
    ensures created.None? ==> r == b
    ensures r == b.(cards := r.cards)
  {
    match created
    case Some(c) => b.(cards := b.cards + [c])
    case None => b
  }
}
