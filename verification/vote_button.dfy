/**
 * The vote arrows (src/components/VoteButton.tsx): a click predicts the
 * next (vote, count) at once, sends the vote, and rolls the prediction
 * back if the request fails.
 *
 * The asynchronous click handler is split at its `await`: Begin is the part
 * before the request, Settle the part after it, and HandleVote runs both
 * with the request's outcome given as a parameter.
 */
module VoteButton {
  import opened Wrappers
  import VoteRoute

  /** What the arrows show: the user's vote (-1, 0 or 1) and the score. */
  datatype VoteState = VoteState(vote: int, count: int)

  /** The optimistic transition (lines 27-42): clicking the arrow already
      chosen withdraws the vote; any other click sets it. */
  function Predict(s: VoteState, value: int): (r: VoteState)
    ensures r.count - r.vote == s.count - s.vote
    ensures r.vote == 0 || r.vote == value
    ensures value != 0 ==> (r.vote == 0 <==> s.vote == value)
    ensures -1 <= s.vote <= 1 && (value == 1 || value == -1) ==> -1 <= r.vote <= 1
  {
    if s.vote == value then VoteState(0, s.count - value)
    else VoteState(value, s.count + (value - s.vote))
  }

  /** Clicking the same arrow twice, starting with no vote or with that
      arrow already chosen, restores the state. */
  lemma PredictTwice(s: VoteState, value: int)
    requires s.vote == 0 || s.vote == value
    ensures Predict(Predict(s, value), value) == s
  {
  }

  /** The body sent to the vote endpoint (lines 49-51): the post when postId
      is truthy, the comment otherwise. */
  function RequestBody(postId: Option<string>, commentId: Option<string>, value: int): (req: VoteRoute.VoteRequest)
    ensures req.value == value
    ensures VoteRoute.Truthy(postId) ==> req.postId == postId && req.commentId.None?
    ensures !VoteRoute.Truthy(postId) ==> req.postId.None? && req.commentId == commentId
  {
    if VoteRoute.Truthy(postId) then VoteRoute.VoteRequest(postId, None, value)
    else VoteRoute.VoteRequest(None, commentId, value)
  }

  /** One pair of arrows with its component state. */
  class VoteButton {
    const postId: Option<string>
    const commentId: Option<string>
    var vote: int
    var count: int
    var loading: bool

    /** Lines 13-17: a missing or zero initial vote starts at 0. */
    constructor(postId: Option<string>, commentId: Option<string>, initialCount: int, initialUserVote: Option<int>)
      ensures this.postId == postId && this.commentId == commentId
      ensures vote == initialUserVote.GetOr(0) && count == initialCount && !loading
    {
      this.postId := postId;
      this.commentId := commentId;
      vote := initialUserVote.GetOr(0);
      count := initialCount;
      loading := false;
    }

    function State(): VoteState
      reads this
    {
      VoteState(vote, count)
    }

    /** Lines 19-46: without a session or while a request is pending, nothing
        changes; otherwise the prediction is shown, loading is set, and the
        state to roll back to is returned. */
    method Begin(signedIn: bool, value: int) returns (saved: Option<VoteState>)
      modifies this
      ensures !signedIn || old(loading) ==> saved.None? && State() == old(State()) && loading == old(loading)
      ensures signedIn && !old(loading) ==> saved == Some(old(State())) && State() == Predict(old(State()), value) && loading
    {
      if !signedIn {
        return None;
      }
      if loading {
        return None;
      }
      var oldVote := vote;
      var oldCount := count;
      var newVote := value;
      var newCount := count;
      if oldVote == value {
        newVote := 0;
        newCount := newCount - value;
      } else {
        newVote := value;
        newCount := newCount + (value - oldVote);
      }
      vote := newVote;
      count := newCount;
      loading := true;
      saved := Some(VoteState(oldVote, oldCount));
    }

    /** Lines 59-67: a failed request restores the saved state; either way
        loading ends. */
    method Settle(saved: VoteState, ok: bool)
      modifies this
      ensures !loading
      ensures State() == if ok then old(State()) else saved
    {
      if !ok {
        vote := saved.vote;
        count := saved.count;
      }
      loading := false;
    }

    /** handleVote (lines 19-68) for one click, with `ok` the outcome of the
        request; returns the body sent, if any. */
    method HandleVote(signedIn: bool, value: int, ok: bool) returns (request: Option<VoteRoute.VoteRequest>)
      modifies this
      ensures count - vote == old(count - vote)
      ensures !signedIn || old(loading) ==> request.None? && State() == old(State()) && loading == old(loading)
      ensures signedIn && !old(loading) ==>
        && request == Some(RequestBody(postId, commentId, value))
        && !loading
        && State() == if ok then Predict(old(State()), value) else old(State())
    {
      var saved := Begin(signedIn, value);
      if saved.None? {
        return None;
      }
      request := Some(RequestBody(postId, commentId, value));
      Settle(saved.value, ok);
    }
  }
}
