/** The leaderboard of the main page (src/pages/MainPage.tsx): cards ranked
    by descending upvotes with a stable sort, then a greedy pass over the
    team capacity that marks each card a winner or not. */
module Leaderboard {
  import opened Types

  /** The team capacity the page allocates. */
  const TotalCapacity: int := 100

  /** A leaderboard row: the card, unchanged, plus its `isWinner` flag. */
  datatype Entry = Entry(card: Card, isWinner: bool)

  /** The rows and the capacity left over, shown as remaining/total. */
  datatype Allocation = Allocation(board: seq<Entry>, remaining: int)

  /** Non-increasing by upvotes. */
  predicate Ranked(s: seq<Card>) {
    forall i, j :: 0 <= i < j < |s| ==> s[i].upvotes >= s[j].upvotes
  }

  /** The cards of `s` that have exactly `v` upvotes, in their order in `s`. */
  function WithVotes(s: seq<Card>, v: int): seq<Card> {
    if s == [] then []
    else (if s[0].upvotes == v then [s[0]] else []) + WithVotes(s[1..], v)
  }

  /** Puts `c` before the first card of `s` that has no more upvotes than
      `c`: after every card with more, before every card with as many. */
  function Insert(c: Card, s: seq<Card>): (r: seq<Card>)
    ensures multiset(r) == multiset(s) + multiset{c}
  {
    if s == [] || s[0].upvotes <= c.upvotes then [c] + s
    else
      assert s == [s[0]] + s[1..];
      [s[0]] + Insert(c, s[1..])
  }

  /** Among cards with any given vote count, the inserted card comes first
      and the others keep their order. */
  lemma {:induction false} InsertWithVotes(c: Card, s: seq<Card>)
    ensures forall v :: WithVotes(Insert(c, s), v) == (if c.upvotes == v then [c] else []) + WithVotes(s, v)
  {
    if s != [] && s[0].upvotes > c.upvotes {
      var rest := Insert(c, s[1..]);
      InsertWithVotes(c, s[1..]);
      assert Insert(c, s) == [s[0]] + rest;
      assert ([s[0]] + rest)[1..] == rest;
    } else {
      assert ([c] + s)[1..] == s;
    }
  }

  /** No card of `s` has more than `u` upvotes. */
  predicate AtMost(s: seq<Card>, u: int) {
    forall k :: 0 <= k < |s| ==> s[k].upvotes <= u
  }

  lemma {:induction false} InsertAtMost(c: Card, s: seq<Card>, u: int)
    requires AtMost(s, u) && c.upvotes <= u
    ensures AtMost(Insert(c, s), u)
  {
    if s != [] && s[0].upvotes > c.upvotes {
      InsertAtMost(c, s[1..], u);
      assert Insert(c, s) == [s[0]] + Insert(c, s[1..]);
    }
  }

  /** Inserting into a ranked list keeps it ranked. */
  lemma {:induction false} InsertRanked(c: Card, s: seq<Card>)
    requires Ranked(s)
    ensures Ranked(Insert(c, s))
  {
    if s != [] && s[0].upvotes > c.upvotes {
      var rest := Insert(c, s[1..]);
      InsertRanked(c, s[1..]);
      InsertAtMost(c, s[1..], s[0].upvotes);
      var r := [s[0]] + rest;
      assert Insert(c, s) == r;
      forall i, j | 0 <= i < j < |r|
        ensures r[i].upvotes >= r[j].upvotes
      {
        if i > 0 {
          assert r[i] == rest[i - 1] && r[j] == rest[j - 1];
        } else {
          assert r[j] == rest[j - 1];
        }
      }
    }
  }

  /** A copy of the cards sorted by descending upvotes. ECMAScript 2019
      onward requires Array.prototype.sort to be stable, so cards with equal
      upvotes keep their input order; this is insertion sort. */
  function Rank(cards: seq<Card>): (r: seq<Card>)
    ensures multiset(r) == multiset(cards)
    ensures Ranked(r)
    ensures forall v :: WithVotes(r, v) == WithVotes(cards, v)
  {
    if cards == [] then []
    else
      assert cards == [cards[0]] + cards[1..];
      InsertRanked(cards[0], Rank(cards[1..]));
      InsertWithVotes(cards[0], Rank(cards[1..]));
      Insert(cards[0], Rank(cards[1..]))
  }

  /** A list that is already ranked comes back unchanged. */
  lemma {:induction false} RankOfRanked(s: seq<Card>)
    requires Ranked(s)
    ensures Rank(s) == s
  {
    if s != [] {
      assert Ranked(s[1..]);
      RankOfRanked(s[1..]);
    }
  }

  /** Ranking twice is ranking once. */
  lemma RankIdempotent(cards: seq<Card>)
    ensures Rank(Rank(cards)) == Rank(cards)
  {
    RankOfRanked(Rank(cards));
  }

  /** Story points taken by the winners among `board`. */
  function WinnerCost(board: seq<Entry>): int {
    if board == [] then 0
    else (if board[0].isWinner then board[0].card.storypoints else 0) + WinnerCost(board[1..])
  }

  /** The cards of a leaderboard, in row order. */
  function Cards(board: seq<Entry>): (r: seq<Card>)
    ensures |r| == |board|
    ensures forall i :: 0 <= i < |board| ==> r[i] == board[i].card
  {
    seq(|board|, i requires 0 <= i < |board| => board[i].card)
  }

  /** What a greedy allocation of `capacity` over `ranked` is: one row per
      card, same card, same order; a card wins exactly when its story points
      fit in what the winners before it have left; what is left at the end
      is the capacity minus the winners' story points. */
  ghost predicate Greedy(ranked: seq<Card>, capacity: int, a: Allocation) {
    && |a.board| == |ranked|
    && (forall i :: 0 <= i < |ranked| ==> a.board[i].card == ranked[i])
    && (forall i :: 0 <= i < |ranked| ==>
          (a.board[i].isWinner <==> ranked[i].storypoints <= capacity - WinnerCost(a.board[..i])))
    && a.remaining == capacity - WinnerCost(a.board)
  }

  /** The pass over the ranked cards: a card that fits is a winner and its story
      points are subtracted; one that does not fit is skipped and costs
      nothing, so a later, cheaper card can still win. */
  function Allocate(ranked: seq<Card>, capacity: int): (r: Allocation)
    ensures Greedy(ranked, capacity, r)
  {
    if ranked == [] then Allocation([], capacity)
    else
      var c := ranked[0];
      var wins := capacity >= c.storypoints;
      var rest := Allocate(ranked[1..], if wins then capacity - c.storypoints else capacity);
      var board := [Entry(c, wins)] + rest.board;
      assert board[1..] == rest.board;
      assert forall i :: 1 <= i <= |board| ==> board[..i][1..] == rest.board[..i - 1];
      Allocation(board, rest.remaining)
  }

  /** The leaderboard the page renders, with the capacity shown beside it. */
  function Leaderboard(cards: seq<Card>): (r: Allocation)
    ensures |r.board| == |cards|
    ensures multiset(Cards(r.board)) == multiset(cards)
    ensures Ranked(Cards(r.board))
    ensures forall v :: WithVotes(Cards(r.board), v) == WithVotes(cards, v)
    ensures Greedy(Cards(r.board), TotalCapacity, r)
  {
    var ranked := Rank(cards);
    var r := Allocate(ranked, TotalCapacity);
    assert |multiset(ranked)| == |multiset(cards)|;
    assert Cards(r.board) == ranked;
    r
  }

  /** Capacity still available when row `i` is reached. */
  function Left(a: Allocation, capacity: int, i: nat): int
    requires i <= |a.board|
  {
    capacity - WinnerCost(a.board[..i])
  }

  predicate NonNegativeCosts(cards: seq<Card>) {
    forall i :: 0 <= i < |cards| ==> cards[i].storypoints >= 0
  }

  lemma {:induction false} WinnerCostSnoc(board: seq<Entry>, i: nat)
    requires i < |board|
    ensures WinnerCost(board[..i + 1])
      == WinnerCost(board[..i]) + (if board[i].isWinner then board[i].card.storypoints else 0)
  {
    if i > 0 {
      WinnerCostSnoc(board[1..], i - 1);
      assert board[..i + 1][1..] == board[1..][..i];
      assert board[..i][1..] == board[1..][..i - 1];
    }
  }

  /** A row that does not win leaves the running capacity as it was; a row
      that wins takes exactly its story points from it. */
  lemma SkipCostsNothing(ranked: seq<Card>, capacity: int, a: Allocation, i: nat)
    requires Greedy(ranked, capacity, a)
    requires i < |ranked|
    ensures !a.board[i].isWinner ==> Left(a, capacity, i + 1) == Left(a, capacity, i)
    ensures a.board[i].isWinner ==>
      Left(a, capacity, i + 1) == Left(a, capacity, i) - ranked[i].storypoints >= 0
  {
    WinnerCostSnoc(a.board, i);
  }

  /** From a non-negative capacity the running capacity never goes below
      zero; with non-negative story points it never rises above the start. */
  lemma {:induction false} LeftBounds(ranked: seq<Card>, capacity: int, a: Allocation, i: nat)
    requires Greedy(ranked, capacity, a)
    requires i <= |ranked|
    ensures capacity >= 0 ==> Left(a, capacity, i) >= 0
    ensures NonNegativeCosts(ranked) ==> Left(a, capacity, i) <= capacity
  {
    if i > 0 {
      LeftBounds(ranked, capacity, a, i - 1);
      SkipCostsNothing(ranked, capacity, a, i - 1);
    }
  }

  /** What is left after allocation lies between zero and the capacity,
      given a non-negative capacity and non-negative story points. */
  lemma AllocationWithinCapacity(ranked: seq<Card>, capacity: int, a: Allocation)
    requires Greedy(ranked, capacity, a)
    ensures capacity >= 0 ==> a.remaining >= 0
    ensures NonNegativeCosts(ranked) ==> a.remaining <= capacity
  {
    LeftBounds(ranked, capacity, a, |ranked|);
    assert a.board[..|ranked|] == a.board;
  }

  /** A card with zero story points, the "pending estimation" ones, always
      wins when the capacity is non-negative: nothing excludes it. */
  lemma ZeroCostAlwaysWins(ranked: seq<Card>, capacity: int, a: Allocation, i: nat)
    requires Greedy(ranked, capacity, a)
    requires capacity >= 0 && i < |ranked| && ranked[i].storypoints == 0
    ensures a.board[i].isWinner
  {
    LeftBounds(ranked, capacity, a, i);
  }

  /** With non-negative story points, a card costing more than the whole
      capacity never wins, whatever its rank. */
  lemma OverCapacityNeverWins(ranked: seq<Card>, capacity: int, a: Allocation, i: nat)
    requires Greedy(ranked, capacity, a)
    requires NonNegativeCosts(ranked) && i < |ranked| && ranked[i].storypoints > capacity
    ensures !a.board[i].isWinner
  {
    LeftBounds(ranked, capacity, a, i);
  }

  /** The greedy description leaves no choice: two allocations of the same
      ranked list and capacity that both satisfy it are equal. */
  lemma GreedyUnique(ranked: seq<Card>, capacity: int, a: Allocation, b: Allocation)
    requires Greedy(ranked, capacity, a) && Greedy(ranked, capacity, b)
    ensures a == b
  {
    GreedyPrefixesAgree(ranked, capacity, a, b, |ranked|);
    assert a.board == a.board[..|ranked|];
    assert b.board == b.board[..|ranked|];
  }

  lemma {:induction false} GreedyPrefixesAgree(ranked: seq<Card>, capacity: int, a: Allocation, b: Allocation, i: nat)
    requires Greedy(ranked, capacity, a) && Greedy(ranked, capacity, b)
    requires i <= |ranked|
    ensures a.board[..i] == b.board[..i]
  {
    if i > 0 {
      GreedyPrefixesAgree(ranked, capacity, a, b, i - 1);
      assert a.board[i - 1] == b.board[i - 1];
      assert a.board[..i] == a.board[..i - 1] + [a.board[i - 1]];
      assert b.board[..i] == b.board[..i - 1] + [b.board[i - 1]];
    }
  }

  /** Skip and continue: with capacity 5 and ranked costs 6 then 3, the
      first card is skipped and the second still wins, leaving 2. With costs
      4 then 3, the first wins and leaves 1, too little for the second. */
  lemma SkipAndContinue(x: Card, y: Card)
    ensures x.storypoints == 6 && y.storypoints == 3 ==>
      var r := Allocate([x, y], 5);
      !r.board[0].isWinner && r.board[1].isWinner && r.remaining == 2
    ensures x.storypoints == 4 && y.storypoints == 3 ==>
      var r := Allocate([x, y], 5);
      r.board[0].isWinner && !r.board[1].isWinner && r.remaining == 1
  {
  }

  /** On the page: every card awaiting estimation is marked a winner, a
      card costing more than the team capacity never is, and the capacity
      shown stays within 0..100 when story points are non-negative. */
  lemma LeaderboardWinners(cards: seq<Card>, i: nat)
    requires i < |cards|
    ensures Leaderboard(cards).board[i].card.storypoints == 0 ==> Leaderboard(cards).board[i].isWinner
    ensures NonNegativeCosts(cards) ==>
      && (Leaderboard(cards).board[i].card.storypoints > TotalCapacity ==> !Leaderboard(cards).board[i].isWinner)
      && 0 <= Leaderboard(cards).remaining <= TotalCapacity
  {
    var r := Leaderboard(cards);
    var ranked := Cards(r.board);
    if r.board[i].card.storypoints == 0 {
      ZeroCostAlwaysWins(ranked, TotalCapacity, r, i);
    }
    if NonNegativeCosts(cards) {
      forall k | 0 <= k < |ranked|
        ensures ranked[k].storypoints >= 0
      {
        assert ranked[k] in multiset(cards);
      }
      AllocationWithinCapacity(ranked, TotalCapacity, r);
      if r.board[i].card.storypoints > TotalCapacity {
        OverCapacityNeverWins(ranked, TotalCapacity, r, i);
      }
    }
  }
}
