/**
 * The button's prediction against the endpoint's effect: when the vote the
 * button shows is the one stored, the vote stored after the request is the
 * one the button predicted.
 */
module VoteSync {
  import opened Wrappers
  import VoteRoute
  import VoteButton

  /** A click's request, applied to a table holding at most one vote of the
      user on the target, stores the vote the button shows (0 meaning none). */
  lemma ServerAgreesWithButton(rows: seq<VoteRoute.VoteRow>, userId: VoteRoute.UserId, postId: Option<string>, commentId: Option<string>, shown: VoteButton.VoteState, value: int)
    requires VoteRoute.Truthy(postId) || VoteRoute.Truthy(commentId)
    requires VoteRoute.AtMostOneVote(rows, userId, VoteButton.RequestBody(postId, commentId, value))
    requires VoteRoute.ServerVote(rows, userId, VoteButton.RequestBody(postId, commentId, value)) == shown.vote
    ensures var req := VoteButton.RequestBody(postId, commentId, value);
      VoteRoute.ServerVote(VoteRoute.Respond(rows, Some(userId), req).1, userId, req) == VoteButton.Predict(shown, value).vote
  {
    var req := VoteButton.RequestBody(postId, commentId, value);
    VoteRoute.RespondToggles(rows, userId, req);
  }
}
