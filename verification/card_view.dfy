/** What one card shows and does (src/components/Card.tsx): the media
    strip, the pending-estimation overlay, the stripped tooltip and the
    vote button. Markup and styling are not modelled. */
module CardView {
  import opened Types
  import TagStrip
  import MainBoard
  import Leaderboard

  /** At most this many thumbnails are shown. */
  const MaxThumbnails: nat := 4

  /** The thumbnails shown and the "+k" badge, present only when some media is hidden. */
  datatype MediaStrip = MediaStrip(thumbnails: seq<string>, badge: Option<nat>)

  /** What the card renders. */
  datatype CardFace = CardFace(
    pending: bool,
    tooltip: string,
    media: MediaStrip,
    voteEnabled: bool)

  /** The first min(4, |media|) items as thumbnails, and a badge counting
      the rest when there are any. The thumbnails are the
      leading media in order, and thumbnails plus the badge's count account
      for every item exactly once. */
  function MediaPreview(media: seq<string>): (r: MediaStrip)
    ensures |r.thumbnails| == if |media| < MaxThumbnails then |media| else MaxThumbnails
    ensures r.thumbnails == media[..|r.thumbnails|]
    ensures r.badge.Some? <==> |media| > MaxThumbnails
    ensures r.badge.Some? ==> r.badge.value > 0
    ensures |r.thumbnails| + r.badge.GetOr(0) == |media|
  {
    var maxMedia := if |media| < MaxThumbnails then |media| else MaxThumbnails;
    MediaStrip(media[..maxMedia], if |media| > maxMedia then Some(|media| - maxMedia) else None)
  }

  /** The card as rendered with the page's `canUpvote`: the overlay shows
      exactly for cards not yet estimated, and the tooltip is the
      description with every tag gone and nothing else altered. */
  function Render(c: Card, canUpvote: bool): (f: CardFace)
    ensures f.pending <==> c.storypoints == 0
    ensures f.tooltip == TagStrip.StripTags(c.description)
    ensures TagStrip.NoTags(f.tooltip)
    ensures TagStrip.IsSubsequence(f.tooltip, c.description)
    ensures f.media == MediaPreview(c.media)
    ensures f.voteEnabled == canUpvote
  {
    TagStrip.StripTagsLeavesNoTags(c.description);
    TagStrip.StripTagsSubsequence(c.description);
    CardFace(
      c.storypoints == 0,
      TagStrip.StripTags(c.description),
      MediaPreview(c.media),
      canUpvote)
  }

  /** The vote button's click: it reaches the page's handler, with this
      card's id, only when voting is enabled. */
  function ClickVote(c: Card, canUpvote: bool): (sent: Option<string>)
    ensures sent.Some? <==> Render(c, canUpvote).voteEnabled
    ensures sent.Some? ==> sent.value == c.id
  {
    if canUpvote then Some(c.id) else None
  }

  /** A click on a card of the page's list that gets through the button is
      never refused by the handler: it comes from a member, and it gives
      that card one more upvote. */
  lemma ClickedVoteIsAccepted(memberState: bool, b: MainBoard.Board, i: nat)
    requires i < |b.cards|
    requires ClickVote(b.cards[i], MainBoard.CanUpvote(memberState, b.availableVotes)).Some?
    ensures memberState
    ensures MainBoard.Upvote(b, b.cards[i].id).Accepted?
    ensures MainBoard.Upvote(b, b.cards[i].id).next.cards[i].upvotes == b.cards[i].upvotes + 1
  {
  }

  /** The overlay says "pending estimation", yet on the leaderboard every
      such card is marked a winner. */
  lemma PendingCardsWin(cards: seq<Card>, i: nat, canUpvote: bool)
    requires i < |cards|
    ensures Render(Leaderboard.Leaderboard(cards).board[i].card, canUpvote).pending ==>
      Leaderboard.Leaderboard(cards).board[i].isWinner
  {
    Leaderboard.LeaderboardWinners(cards, i);
  }
}
