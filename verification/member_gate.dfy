/** The home page's key gate (src/pages/HomePage.tsx): an entered code is
    refused when empty, accepted when it is one of the fixed keys (the user
    enters as a member), and refused otherwise; "explore" always enters as
    a guest. Routing itself is not modelled. */
module MemberGate {
  import opened Types
  import MainBoard

  /** The fixed list of member keys. */
  const Keys: seq<string> := ["member123", "key456", "example789", "123"]

  /** The two messages the gate can show: "enter a key" and "invalid key". */
  datatype GateError = EnterKey | InvalidKey

  /** Navigation to the main page with a member flag, or an error shown in place. */
  datatype Gate = Navigate(memberState: bool) | ShowError(error: GateError)

  /** `handleCodeSubmit`. Matching is exact: no trimming, no case folding. */
  function CodeSubmit(code: string): (r: Gate)
    ensures r == ShowError(EnterKey) <==> code == ""
    ensures r.Navigate? <==> code in Keys
    ensures r.Navigate? ==> r.memberState
    ensures r.ShowError? && code != "" ==> r.error == InvalidKey
  {
    if code == "" then ShowError(EnterKey)
    else if code in Keys then Navigate(true)
    else ShowError(InvalidKey)
  }

  /** `handleExploreInitiatives`. */
  function Explore(): (r: Gate)
    ensures r.Navigate? && !r.memberState
  {
    Navigate(false)
  }

  /** A key must match character for character. */
  lemma MatchingIsExact()
    ensures CodeSubmit("123") == Navigate(true)
    ensures CodeSubmit(" 123") == ShowError(InvalidKey)
    ensures CodeSubmit("MEMBER123") == ShowError(InvalidKey)
  {
  }

  /** Arriving through "explore" never enables voting; arriving through the
      code form enables it exactly for a listed key with votes left. */
  lemma MemberFlagGatesVoting(code: string, availableVotes: int)
    ensures !MainBoard.CanUpvote(MainBoard.ArrivalMemberState(Some(Explore().memberState)), availableVotes)
    ensures CodeSubmit(code).Navigate? ==>
      var member := MainBoard.ArrivalMemberState(Some(CodeSubmit(code).memberState));
      (MainBoard.CanUpvote(member, availableVotes) <==> code in Keys && availableVotes > 0)
  {
  }
}
