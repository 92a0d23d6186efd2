/**
 * The vote endpoint (src/app/api/vote/route.ts): a signed-in user's vote
 * on a post or a comment is created, changed, or toggled off.
 *
 * The vote table is a sequence of rows in the order the database returns
 * them, so `findFirst` is the first matching row. A row is deleted or
 * updated by its id; ids are unique, so that is the row at the found index.
 */
module VoteRoute {
  import opened Wrappers

  type UserId = string

  /** One stored vote: the voter, its post or comment, and +1 / -1. */
  datatype VoteRow = VoteRow(userId: UserId, postId: Option<string>, commentId: Option<string>, value: int)

  /** The JSON body the client posts; a missing or null key is None. */
  datatype VoteRequest = VoteRequest(postId: Option<string>, commentId: Option<string>, value: int)

  /** The endpoint's answers: 401, 400, and the three 200 statuses. */
  datatype Response = Unauthorized | MissingTarget | Removed | Updated | Created

  /** The HTTP status of a response. */
  function StatusCode(r: Response): int
  {
    match r
    case Unauthorized => 401
    case MissingTarget => 400
    case _ => 200
  }

  /** JavaScript truthiness of an optional id: absent, null and "" are false. */
  predicate Truthy(id: Option<string>)
  {
    id.Some? && id.value != ""
  }

  /** The lookup filter of line 31: the user's vote on the post when the
      request's postId is truthy, otherwise the user's vote on the comment. */
  predicate Targets(row: VoteRow, userId: UserId, req: VoteRequest)
    ensures Truthy(req.postId) ==> (Targets(row, userId, req) <==> row.userId == userId && row.postId == req.postId)
    ensures !Truthy(req.postId) ==> (Targets(row, userId, req) <==> row.userId == userId && row.commentId == req.commentId)
  {
    row.userId == userId &&
    if Truthy(req.postId) then row.postId == req.postId else row.commentId == req.commentId
  }

  /** `prisma.vote.findFirst` (lines 30-32): the index of the first row the
      lookup matches, if any. */
  function FindFirst(rows: seq<VoteRow>, userId: UserId, req: VoteRequest): (r: Option<nat>)
    ensures r.Some? ==> r.value < |rows| && Targets(rows[r.value], userId, req)
    ensures r.Some? ==> forall j :: 0 <= j < r.value ==> !Targets(rows[j], userId, req)
    ensures r.None? ==> forall j :: 0 <= j < |rows| ==> !Targets(rows[j], userId, req)
  {
    if |rows| == 0 then None
    else if Targets(rows[0], userId, req) then Some(0)
    else match FindFirst(rows[1..], userId, req)
      case None => None
      case Some(i) => Some(i + 1)
  }

  /** The request's response and the table after it (lines 8-60). */
  function Respond(rows: seq<VoteRow>, session: Option<UserId>, req: VoteRequest): (r: (Response, seq<VoteRow>))
    ensures r.0 == Unauthorized <==> session.None?
    ensures r.0 == MissingTarget <==> session.Some? && !Truthy(req.postId) && !Truthy(req.commentId)
    ensures r.0 == Unauthorized || r.0 == MissingTarget ==> r.1 == rows
    ensures StatusCode(r.0) == 401 <==> session.None?
    ensures StatusCode(r.0) == 400 <==> session.Some? && !Truthy(req.postId) && !Truthy(req.commentId)
    ensures StatusCode(r.0) == 200 <==> session.Some? && (Truthy(req.postId) || Truthy(req.commentId))
  {
    if session.None? then (Unauthorized, rows)
    else if !Truthy(req.postId) && !Truthy(req.commentId) then (MissingTarget, rows)
    else match FindFirst(rows, session.value, req)
      case Some(i) =>
        if rows[i].value == req.value then (Removed, rows[..i] + rows[i + 1..])
        else (Updated, rows[i := rows[i].(value := req.value)])
      case None => (Created, rows + [VoteRow(session.value, req.postId, req.commentId, req.value)])
  }

  /** The user's current vote on the request's target: the found row's value, 0 when there is none. */
  function ServerVote(rows: seq<VoteRow>, userId: UserId, req: VoteRequest): int
  {
    match FindFirst(rows, userId, req)
    case None => 0
    case Some(i) => rows[i].value
  }

  /** At most one row is the user's vote on the target, as the table's
      unique (userId, postId) and (userId, commentId) keys guarantee. */
  predicate AtMostOneVote(rows: seq<VoteRow>, userId: UserId, req: VoteRequest)
  {
    forall i, j :: 0 <= i < |rows| && 0 <= j < |rows| && Targets(rows[i], userId, req) && Targets(rows[j], userId, req) ==> i == j
  }

  /** The rows that are not the user's vote on the target, in order. */
  function OtherVotes(rows: seq<VoteRow>, userId: UserId, req: VoteRequest): seq<VoteRow>
  {
    if |rows| == 0 then []
    else
      var last := rows[|rows| - 1];
      OtherVotes(rows[..|rows| - 1], userId, req) + (if Targets(last, userId, req) then [] else [last])
  }

  lemma {:induction false} OtherVotesConcat(a: seq<VoteRow>, b: seq<VoteRow>, userId: UserId, req: VoteRequest)
    ensures OtherVotes(a + b, userId, req) == OtherVotes(a, userId, req) + OtherVotes(b, userId, req)
    decreases |b|
  {
    if |b| > 0 {
      var n := |b| - 1;
      assert (a + b)[..|a + b| - 1] == a + b[..n];
      OtherVotesConcat(a, b[..n], userId, req);
    } else {
      assert a + b == a;
    }
  }

  /** A single row is another vote exactly when it does not match. */
  lemma OtherVotesOne(row: VoteRow, userId: UserId, req: VoteRequest)
    ensures OtherVotes([row], userId, req) == if Targets(row, userId, req) then [] else [row]
  {
    assert [row][..0] == [];
  }

  /** Dropping a matching row keeps the other votes. */
  lemma OtherVotesDrop(rows: seq<VoteRow>, userId: UserId, req: VoteRequest, i: nat)
    requires i < |rows| && Targets(rows[i], userId, req)
    ensures OtherVotes(rows[..i] + rows[i + 1..], userId, req) == OtherVotes(rows, userId, req)
  {
    var pre, post := rows[..i], rows[i + 1..];
    assert rows == (pre + [rows[i]]) + post;
    calc {
      OtherVotes(rows, userId, req);
      { OtherVotesConcat(pre + [rows[i]], post, userId, req); }
      OtherVotes(pre + [rows[i]], userId, req) + OtherVotes(post, userId, req);
      { OtherVotesConcat(pre, [rows[i]], userId, req); OtherVotesOne(rows[i], userId, req); }
      OtherVotes(pre, userId, req) + OtherVotes(post, userId, req);
      { OtherVotesConcat(pre, post, userId, req); }
      OtherVotes(pre + post, userId, req);
    }
  }

  /** Putting a matching row in place of a matching row keeps the other votes. */
  lemma OtherVotesReplace(rows: seq<VoteRow>, userId: UserId, req: VoteRequest, i: nat, row: VoteRow)
    requires i < |rows| && Targets(rows[i], userId, req) && Targets(row, userId, req)
    ensures OtherVotes(rows[i := row], userId, req) == OtherVotes(rows, userId, req)
  {
    var pre, post := rows[..i], rows[i + 1..];
    OtherVotesOne(row, userId, req);
    assert rows[i := row] == (pre + [row]) + post;
    OtherVotesConcat(pre + [row], post, userId, req);
    OtherVotesConcat(pre, [row], userId, req);
    OtherVotesDrop(rows, userId, req, i);
    OtherVotesConcat(pre, post, userId, req);
  }

  /** Lines 30-59 leave alone every vote by another user or on another
      target, and keep their order. */
  lemma RespondKeepsOthers(rows: seq<VoteRow>, userId: UserId, req: VoteRequest)
    ensures OtherVotes(Respond(rows, Some(userId), req).1, userId, req) == OtherVotes(rows, userId, req)
  {
    var r := Respond(rows, Some(userId), req);
    if r.0 != MissingTarget {
      match FindFirst(rows, userId, req)
      case Some(i) =>
        OtherVotesDrop(rows, userId, req, i);
        OtherVotesReplace(rows, userId, req, i, rows[i].(value := req.value));
      case None =>
        var row := VoteRow(userId, req.postId, req.commentId, req.value);
        OtherVotesConcat(rows, [row], userId, req);
        OtherVotesOne(row, userId, req);
    }
  }

  /** Removing the only matching row leaves no match. */
  lemma RemoveOnlyMatch(rows: seq<VoteRow>, userId: UserId, req: VoteRequest, i: nat, rest: seq<VoteRow>)
    requires i < |rows| && Targets(rows[i], userId, req) && AtMostOneVote(rows, userId, req)
    requires rest == rows[..i] + rows[i + 1..]
    ensures forall j :: 0 <= j < |rest| ==> !Targets(rest[j], userId, req)
  {
    forall j | 0 <= j < |rest|
      ensures !Targets(rest[j], userId, req)
    {
      if j < i {
        assert rest[j] == rows[j];
      } else {
        assert rest[j] == rows[j + 1];
      }
    }
  }

  /** The toggle rule (lines 34-59): with one vote at most per user and
      target, the same value removes the vote and any other value is
      stored; there is still one vote at most. */
  lemma RespondToggles(rows: seq<VoteRow>, userId: UserId, req: VoteRequest)
    requires Truthy(req.postId) || Truthy(req.commentId)
    requires AtMostOneVote(rows, userId, req)
    ensures var r := Respond(rows, Some(userId), req);
      && ServerVote(r.1, userId, req) == (if ServerVote(rows, userId, req) == req.value then 0 else req.value)
      && AtMostOneVote(r.1, userId, req)
  {
    var r := Respond(rows, Some(userId), req);
    match FindFirst(rows, userId, req)
    case Some(i) =>
      if rows[i].value == req.value {
        RemoveOnlyMatch(rows, userId, req, i, r.1);
      } else {
        assert r.1 == rows[i := rows[i].(value := req.value)];
        forall j | 0 <= j < |r.1| && j != i
          ensures !Targets(r.1[j], userId, req)
        {
          assert r.1[j] == rows[j];
        }
        assert Targets(r.1[i], userId, req);
        assert FindFirst(r.1, userId, req) == Some(i);
      }
    case None =>
      var row := VoteRow(userId, req.postId, req.commentId, req.value);
      assert r.1[|rows|] == row;
      assert forall j :: 0 <= j < |rows| ==> r.1[j] == rows[j];
  }

  /** The status of a signed-in request naming a target says what happened:
      Created when the user had no vote on it (the new row goes last),
      Removed when the stored vote had the same value (one row fewer),
      Updated otherwise (as many rows, in place, only the found row's
      value changed). */
  lemma RespondStatus(rows: seq<VoteRow>, userId: UserId, req: VoteRequest)
    requires Truthy(req.postId) || Truthy(req.commentId)
    ensures var r := Respond(rows, Some(userId), req);
      && (r.0 == Created <==> FindFirst(rows, userId, req).None?)
      && (r.0 == Removed <==> FindFirst(rows, userId, req).Some? && ServerVote(rows, userId, req) == req.value)
      && (r.0 == Updated <==> FindFirst(rows, userId, req).Some? && ServerVote(rows, userId, req) != req.value)
    ensures var r := Respond(rows, Some(userId), req);
      && (r.0 == Created ==> |r.1| == |rows| + 1 && r.1[|rows|] == VoteRow(userId, req.postId, req.commentId, req.value))
      && (r.0 == Removed ==> |r.1| == |rows| - 1)
      && (r.0 == Updated ==> |r.1| == |rows|)
    ensures var r := Respond(rows, Some(userId), req);
      r.0 == Updated ==> forall j :: 0 <= j < |rows| ==>
        && r.1[j].userId == rows[j].userId && r.1[j].postId == rows[j].postId && r.1[j].commentId == rows[j].commentId
        && (r.1[j].value == rows[j].value || (j == FindFirst(rows, userId, req).value && r.1[j].value == req.value))
  {
  }

  /** The vote table, updated in place by the endpoint. */
  class VoteStore {
    var rows: seq<VoteRow>

    constructor(rows: seq<VoteRow>)
      ensures this.rows == rows
    {
      this.rows := rows;
    }

    /** POST /api/vote (lines 8-60); the session is the signed-in user's id. */
    method Post(session: Option<UserId>, req: VoteRequest) returns (response: Response)
      modifies this
      ensures (response, rows) == Respond(old(rows), session, req)
    {
      if session.None? {
        return Unauthorized;
      }
      var userId := session.value;
      if !Truthy(req.postId) && !Truthy(req.commentId) {
        return MissingTarget;
      }
      var existing := FindFirst(rows, userId, req);
      if existing.Some? {
        var i := existing.value;
        if rows[i].value == req.value {
          rows := rows[..i] + rows[i + 1..];
          return Removed;
        } else {
          rows := rows[i := rows[i].(value := req.value)];
          return Updated;
        }
      }
      rows := rows + [VoteRow(userId, req.postId, req.commentId, req.value)];
      response := Created;
    }
  }
}
