# glass-log: the decision logic of an idea-voting board, in Dafny

glass-log is a browser board where members enter one of a fixed list of
codes, browse initiative cards, upvote them and submit new cards. The vote
balance they spend is not tied to the code entered: it is the balance of the
store key whose `client` is "admin", shared by every member. A leaderboard ranks the cards by votes and greedily spends a team
capacity of 100 story points on them. All of this logic lives inside React
components. This project pulls out the pure parts and states them as Dafny
functions with contracts and lemmas:

- `Types` (types.dfy): the `Card` record and an `Option` type.
- `MainBoard` (main_board.dfy): the upvote handler as a state transition.
  It covers the card list, the open card, the vote count and the writes
  sent to the store. It also covers the voting gate, the member flag read
  on arrival, and the add-card step of the main page.
- `Leaderboard` (leaderboard.dfy): the stable ranking by descending upvotes,
  and the greedy skip-and-continue capacity allocation with its
  `isWinner` flags.
- `Countdown` (countdown.dfy) and `Decimal` (decimal.dfy): the clamped
  countdown tick and `formatTime`'s h:mm:ss rendering.
- `CardView` (card_view.dfy): the media strip with its "+k" badge, the
  pending-estimation overlay and the gated vote click.
- `TagStrip` (tag_strip.dfy): the tooltip's `replace(/<[^>]+>/g, "")`.
- `AddCardForm` (add_card_form.dfy): submit validation with
  ECMAScript `trim`, the URL fallback, removing an attachment, and
  appending upload results.
- `MemberGate` (member_gate.dfy): the three-way key check and the guest
  entry.

Clocks, HTTP calls and the upload are parameters: a tick takes `now`, a
create takes the card the store returned (or none on failure), and a drop
takes what the upload call returned. JavaScript numbers are modelled as
unbounded integers.

Three behaviours of the code are worth knowing, and the model keeps them
as written:

- A card with zero story points is always a winner on the leaderboard
  (src/pages/MainPage.tsx:136), because the running capacity never drops
  below zero. This holds even though the card view labels such a card as
  pending estimation. `Leaderboard.ZeroCostAlwaysWins` and
  `CardView.PendingCardsWin` state this.
- The upvote handler does not check that a card carries the id. While votes
  remain it spends one whatever the id, and `MainBoard.UpvoteMovesOneVote`
  shows the vote is lost when no card carries it. The card increment and
  the key update are two separate writes. The model records them as data
  and does not perform them.
- Every member spends the same balance, the admin key's
  (src/pages/MainPage.tsx:41-46), whatever code they entered at the gate.
  When the store holds no admin key the balance stays at its initial 0 and
  every upvote is refused. In the model the balance is the `availableVotes`
  of the board state.
- The key's quota is only displayed. Nothing bounds the balance by it.

## Model

| member | source | states |
|---|---|---|
| MainBoard.BumpMatching | src/pages/MainPage.tsx:86-90 | each card carrying the id gains exactly one upvote; every other card, the length and the order are unchanged |
| MainBoard.Upvote | src/pages/MainPage.tsx:79-107 | refused, with nothing changed, exactly when `availableVotes <= 0`; when accepted, the matching cards and the open card gain one upvote, the count drops by one, and exactly one card increment is sent first, followed by one key write carrying the new count exactly when a key id is known |
| MainBoard.UpvoteMovesOneVote | src/pages/MainPage.tsx:86-96 | an accepted upvote changes balance plus total upvotes by (cards carrying the id − 1): unchanged for one such card, and one vote lost when none carries it |
| MainBoard.ReplaySpendsAtMostBalance | src/pages/MainPage.tsx:80-96 | starting from balance n ≥ 0, a sequence of calls accepts exactly min(n, calls), the balance ends at n minus that and never goes negative, and the card list keeps its length |
| MainBoard.ReplayConservesVotes | src/pages/MainPage.tsx:86-96 | when every voted id names exactly one card, balance plus total upvotes is constant across a session |
| MainBoard.TwoVotesThenRefused | src/pages/MainPage.tsx:80-96 | from balance 2, two upvotes are accepted and leave 0, and a third is refused |
| MainBoard.CanUpvote | src/pages/MainPage.tsx:163 | the vote buttons are enabled only for a member, and for a member exactly while at least one vote is left |
| MainBoard.EnabledExactlyWhenAccepted | src/pages/MainPage.tsx:163 | the vote buttons are enabled exactly when a member's upvote would be accepted by the handler |
| MainBoard.ArrivalMemberState | src/pages/MainPage.tsx:16 | a visit counts as a member's exactly when the navigation state carries `MemberState: true`; no state means guest |
| MainBoard.AddCreated | src/pages/MainPage.tsx:121-126 | the created card is appended after the existing ones, which are unchanged, and the rest of the page state (votes, open card, key id) stays; a failed create changes nothing |
| Leaderboard.Insert | src/pages/MainPage.tsx:133 | insertion adds exactly the one card: the multiset grows by it and nothing else changes |
| Leaderboard.InsertWithVotes | src/pages/MainPage.tsx:133 | among cards with any given vote count, the inserted card comes first and the others keep their order |
| Leaderboard.InsertRanked | src/pages/MainPage.tsx:133 | inserting into a ranked list keeps it non-increasing by upvotes |
| Leaderboard.Rank | src/pages/MainPage.tsx:133 | the ranking is a permutation of the cards, non-increasing by upvotes, and stable: for every vote count, cards with that count keep their input order |
| Leaderboard.RankOfRanked | src/pages/MainPage.tsx:133 | an already ranked list is returned unchanged |
| Leaderboard.RankIdempotent | src/pages/MainPage.tsx:133 | ranking twice equals ranking once |
| Leaderboard.Allocate | src/pages/MainPage.tsx:134-141 | one row per ranked card, same card and order; a card wins iff its story points fit the capacity the earlier winners left; what is left is the capacity minus the winners' story points |
| Leaderboard.SkipCostsNothing | src/pages/MainPage.tsx:136-140 | a non-winner leaves the running capacity unchanged, and a winner takes exactly its story points from it, never going below zero |
| Leaderboard.LeftBounds | src/pages/MainPage.tsx:134-141 | with non-negative capacity the running capacity stays ≥ 0; with non-negative story points it never exceeds the starting capacity |
| Leaderboard.AllocationWithinCapacity | src/pages/MainPage.tsx:134-141 | the capacity left lies between 0 and the total, under the same conditions |
| Leaderboard.ZeroCostAlwaysWins | src/pages/MainPage.tsx:136-138 | a zero-story-point card is always a winner when the capacity is non-negative |
| Leaderboard.OverCapacityNeverWins | src/pages/MainPage.tsx:136-140 | with non-negative story points, a card costing more than the total capacity is never a winner |
| Leaderboard.GreedyUnique | src/pages/MainPage.tsx:134-141 | the greedy description determines the allocation: two allocations meeting it are equal |
| Leaderboard.SkipAndContinue | src/pages/MainPage.tsx:136-140 | with capacity 5, costs [6, 3] give [skip, win] leaving 2, and costs [4, 3] give [win, skip] leaving 1 |
| Leaderboard.Leaderboard | src/pages/MainPage.tsx:133-141 | the rendered leaderboard is a stable non-increasing permutation of the cards, allocated greedily against 100 |
| Leaderboard.LeaderboardWinners | src/pages/MainPage.tsx:133-141 | on the page, zero-point cards always win, cards over 100 never win, and the shown capacity stays in 0..100 when story points are non-negative |
| Countdown.OnTick | src/pages/MainPage.tsx:56-64 | a tick stops the timer exactly when the end has passed; it then stores 0, and otherwise stores the exact time to go |
| Countdown.CountdownNeverIncreases | src/pages/MainPage.tsx:56-64 | later ticks never show more time, and once one stops the timer every later one would stop it too |
| Countdown.SessionCountdown | src/pages/MainPage.tsx:26 | with the end set one hour after mount, every tick shows at most the hour, shows the exact time to go until the end, and stops the timer from the end on; the full hour prints as "1:00:00" |
| Countdown.Clock | src/pages/MainPage.tsx:70-73 | hours are in 0..23, and minutes and seconds in 0..59 |
| Countdown.ClockDenotes | src/pages/MainPage.tsx:70-73 | hours·3600 + minutes·60 + seconds equals the whole seconds of the time modulo one day |
| Countdown.HourText | src/pages/MainPage.tsx:71-74 | an hour count below 24 prints as digits that read back as the count, with no leading zero: one digit exactly below 10, two otherwise |
| Countdown.TwoDigits | src/pages/MainPage.tsx:72-76 | a minute or second count below 60 prints, after padding, as exactly two digits that read back as the count |
| Countdown.FaceText | src/pages/MainPage.tsx:74-76 | a clock face prints as 7 or 8 characters, with ':' at the sixth and third positions from the end, and 7 exactly when the hours are below 10 (the hours are not padded) |
| Countdown.FaceTextRoundTrip | src/pages/MainPage.tsx:74-76 | parsing a printed clock face gives back that face |
| Countdown.FormatTime | src/pages/MainPage.tsx:70-77 | the text has 7 or 8 characters, with ':' at the sixth and third positions from the end, and 7 exactly when the hours are below 10 (so "5:07:09", never "05:07:09") |
| Countdown.FormatTimeRoundTrip | src/pages/MainPage.tsx:70-77 | parsing the formatted text gives back exactly the hours, minutes and seconds |
| Countdown.FormatTimeSameExactly | src/pages/MainPage.tsx:70-77 | two times print the same exactly when they agree in whole seconds modulo one day |
| Decimal.Show | src/pages/MainPage.tsx:74-76 | `toString` of a natural is a non-empty run of digits, one digit exactly below 10, at most two below 100 |
| Decimal.PadStart2 | src/pages/MainPage.tsx:74-76 | `padStart(2, "0")` gives at least two characters, ends with the input, and is preceded only by '0's |
| Decimal.ReadShow | src/pages/MainPage.tsx:74-76 | reading the digits back gives the number |
| Decimal.ReadPadStart2 | src/pages/MainPage.tsx:74-76 | zero padding does not change the number read |
| TagStrip.FirstClose | src/components/Card.tsx:59 | finds the first '>' at or after a position, or reports that there is none |
| TagStrip.TagEnd | src/components/Card.tsx:59 | a match starts at the head exactly when some prefix is a tag; it is then the only such prefix, ending at the first '>' |
| TagStrip.StripTags | src/components/Card.tsx:59 | the result is never longer than the input, and text without '<' is unchanged (what is kept and removed is pinned by `TagIsRemoved` and `UnmatchedHeadKept`) |
| TagStrip.StripTagsSubsequence | src/components/Card.tsx:59 | the result is a subsequence of the input |
| TagStrip.StripTagsLeavesNoTags | src/components/Card.tsx:59 | no match of the pattern starts anywhere in the result |
| TagStrip.StripTagsOfNoTags | src/components/Card.tsx:59 | text in which no match starts is returned unchanged |
| TagStrip.StripTagsIdempotent | src/components/Card.tsx:59 | stripping twice equals stripping once |
| TagStrip.StripTagsFixedExactly | src/components/Card.tsx:59 | a string is unchanged by stripping iff no match starts anywhere in it |
| TagStrip.TagIsRemoved | src/components/Card.tsx:59 | a tag at the head is removed whole and scanning resumes right after it |
| TagStrip.UnmatchedHeadKept | src/components/Card.tsx:59 | when no prefix of the text is a tag, its first character is kept and scanning resumes right after it, whatever follows; with TagIsRemoved this determines the result through `IsTag` alone |
| TagStrip.PlainPrefixKept | src/components/Card.tsx:59 | text containing no '<' is kept whole in front of the stripped rest |
| TagStrip.Examples | src/components/Card.tsx:59 | "<>" and "a<b" are kept, and "<i>x" becomes "x" |
| TagStrip.TextAroundTagKept | src/components/Card.tsx:59 | "a<i>b" becomes "ab": the text on both sides of a tag stays |
| TagStrip.EmptyBracketsBeforeTagKept | src/components/Card.tsx:59 | "<><i>" becomes "<>": a bare "<>" is kept even when a tag follows it |
| CardView.MediaPreview | src/components/Card.tsx:66-78 | exactly min(4, number of media) thumbnails, which are the leading media in order; the badge appears iff there are more than 4, and then shows the number of media − 4, so thumbnails and badge account for every item |
| CardView.Render | src/components/Card.tsx:31-61 | the pending overlay shows iff story points are 0; the tooltip is the description with the pattern's matches removed, so it contains no tag and is a subsequence of the description; the media strip is the preview of the card's media |
| CardView.ClickVote | src/components/Card.tsx:89-96 | a click reaches the handler, with the card's id, only when voting is enabled |
| CardView.ClickedVoteIsAccepted | src/components/Card.tsx:89-96 | a click that gets through the gate comes from a member, is accepted, and gives that card one upvote |
| CardView.PendingCardsWin | src/components/Card.tsx:31-40 | every card showing the pending overlay is a leaderboard winner |
| AddCardForm.TrimStart | src/components/AddCardModal.tsx:66 | removes exactly the leading whitespace: what remains is a suffix that does not start with whitespace |
| AddCardForm.TrimEnd | src/components/AddCardModal.tsx:66 | removes exactly the trailing whitespace: what remains is a prefix that does not end with whitespace |
| AddCardForm.TrimEmptyExactly | src/components/AddCardModal.tsx:66 | trimming leaves nothing iff every character is ECMAScript whitespace |
| AddCardForm.Trim | src/components/AddCardModal.tsx:66 | the trimmed text is empty or starts and ends with a non-whitespace character |
| AddCardForm.TrimIsInner | src/components/AddCardModal.tsx:66 | the trimmed text is the run of the input that starts right after its leading whitespace, and everything cut off on either side is whitespace |
| AddCardForm.MediaUrl | src/components/AddCardModal.tsx:71 | `url \|\| preview`: the stored URL when it is present and non-empty, otherwise the preview |
| AddCardForm.MediaUrls | src/components/AddCardModal.tsx:71 | one URL per attachment in order: the stored URL if non-empty, else the preview |
| AddCardForm.Submit | src/components/AddCardModal.tsx:65-74 | refused iff name or description is blank; otherwise passes both untrimmed, the attachment URLs and 0 story points |
| AddCardForm.BlankNameRefused | src/components/AddCardModal.tsx:65-69 | an empty or whitespace-only name is refused whatever else is filled in |
| AddCardForm.RemoveMedia | src/components/AddCardModal.tsx:60-62 | an in-range index removes exactly that item and keeps the rest in order; any other index changes nothing |
| AddCardForm.NewItems | src/components/AddCardModal.tsx:45-48 | pairs path k with preview k; more paths than previews is a failure |
| AddCardForm.OnDrop | src/components/AddCardModal.tsx:30-57 | `uploading` ends false; the old attachments are a prefix of the new; on failure the alert is raised and the attachments are unchanged, otherwise exactly the new items follow |
| AddCardForm.SubmitCreatesUnestimatedCard | src/components/AddCardModal.tsx:65-73 | a non-blank form is submitted, and the card the page then asks for carries the form's name, description and attachment URLs, with 0 story points |
| AddCardForm.RemoveUndoesUpload | src/components/AddCardModal.tsx:45-62 | removing the item a one-file upload appended restores the earlier attachments |
| MemberGate.CodeSubmit | src/pages/HomePage.tsx:17-29 | empty code shows the "enter a key" error; navigation happens iff the code is in the key list, always as a member; any other code shows "invalid key" |
| MemberGate.Explore | src/pages/HomePage.tsx:12-15 | the guest entry navigates to the main page without the member flag |
| MemberGate.MatchingIsExact | src/pages/HomePage.tsx:5-25 | "123" enters, but " 123" and "MEMBER123" are refused |
| MemberGate.MemberFlagGatesVoting | src/pages/HomePage.tsx:12-25 | entering through "explore" never enables voting; entering by code enables it iff the code is listed and the admin key's shared balance (`availableVotes`) is positive |

## Left out

- HTTP clients (src/api/*.ts) and the initial fetch of cards and keys in the main page's effect are I/O and are not modelled.
- The choice of balance in that fetch is a decision the model does not make: src/pages/MainPage.tsx:41-46 takes the key whose `client` is "admin" and copies its votes, quota and id into the page state, leaving 0 votes and an empty key id when there is none. The model takes `availableVotes` and `keyId` as given board state.
- The store writes of the upvote handler are recorded as data but not performed. Their failure, the missing rollback, and the stale `availableVotes` captured across overlapping clicks are asynchronous effects and are not modelled.
- The interval and the clock are not modelled. A tick is a function of `(voteEnd, now)`. The initial `remainingTime`, read before any tick, is not modelled.
- Countdown.Clock: is defined only for non-negative whole milliseconds, because the page only formats clamped values. Negative or fractional times are not modelled.
- The upload request itself is a parameter. src/api/mediaApi.ts:7 takes a `File` and returns one string, but the form calls it with a `FormData` and maps over the result. When that result is a string, the call throws, and the model's failure path covers it.
- JavaScript numbers are modelled as integers. `NaN`, fractions and overflow of the sort comparator `b.upvotes - a.upvotes` are not modelled.
- The quota (`maxQuota`) is only displayed and is not modelled.
- Opening and closing modals, viewing a card, routing, the card list, the view modal, and all markup, styling, rich-text editing and drag-and-drop are rendering, and are not modelled.
- Alert texts and the gate's two error strings are represented by constructors, not by their text.
