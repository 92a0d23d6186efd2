/** The data side of the user-clustering job (scripts/cluster.ts): the
    configuration, the vote snapshot, per-topic slicing and the activity
    filters, the matrix columns and the matrix cells. */
module ClusterData {
  import opened Wrappers
  import Seqs

  /** Fewest votes a user needs to take part in global clustering. */
  const MIN_VOTES_GLOBAL: nat := 3
  /** Fewest votes on a topic a user needs to take part in that topic's clustering. */
  const MIN_VOTES_TOPIC: nat := 2
  /** The topic scopes, clustered in this order after the global scope. */
  const TOPICS: seq<string> := ["Tech", "Startup", "Policy", "Science", "News"]
  /** Fewest votes in the last hour for the job to run at all. */
  const MIN_NEW_VOTES: int := 10
  /** Fewest users a scope needs to be clustered. */
  const MIN_USERS: nat := 5
  /** The number of clusters asked of k-means before clamping. */
  const WANTED_CLUSTERS: int := 3
  /** The scope whose assignments go to the scalar cluster fields. */
  const GLOBAL_SCOPE: string := "global"

  type UserId = string
  type PostId = string

  /** A vote as the job reads it: the post voted on (absent for a vote on a
      comment), the stored value, and the tag names of that post (none when
      there is no post). */
  datatype Vote = Vote(postId: Option<PostId>, value: int, tagNames: seq<string>)

  /** A user of the snapshot with the votes considered in the current scope. */
  datatype User = User(id: UserId, votes: seq<Vote>)

  /** `vote.postId` is truthy: present and not the empty string. */
  predicate HasPost(v: Vote) {
    v.postId.Some? && v.postId.value != ""
  }

  /** A vote counts for column `p` when its post id is truthy and equals `p`. */
  predicate VotesOn(v: Vote, p: PostId) {
    HasPost(v) && v.postId.value == p
  }

  /** The vote is on a post that has a tag named `topic`. */
  predicate OnTopic(v: Vote, topic: string) {
    topic in v.tagNames
  }

  /** The user's votes on posts tagged `topic`, in their original order. */
  function TopicVotes(votes: seq<Vote>, topic: string): seq<Vote>
  {
    Seqs.Filter(votes, (v: Vote) => OnTopic(v, topic))
  }

  /** The users of a topic scope (lines 52-55): every user with the votes cut
      down to the topic, then only those left with at least MIN_VOTES_TOPIC
      votes, in snapshot order. */
  function SliceTopic(users: seq<User>, topic: string): (r: seq<User>)
    ensures |r| <= |users|
  {
    if |users| == 0 then []
    else
      var u := User(users[0].id, TopicVotes(users[0].votes, topic));
      (if |u.votes| >= MIN_VOTES_TOPIC then [u] else []) + SliceTopic(users[1..], topic)
  }

  /** Every user of a topic scope has at least MIN_VOTES_TOPIC votes, all of
      them one source user's votes on the topic. */
  lemma {:induction false} SliceTopicSound(users: seq<User>, topic: string, i: nat)
    requires i < |SliceTopic(users, topic)|
    ensures |SliceTopic(users, topic)[i].votes| >= MIN_VOTES_TOPIC
    ensures exists u :: u in users && SliceTopic(users, topic)[i] == User(u.id, TopicVotes(u.votes, topic))
  {
    var head := User(users[0].id, TopicVotes(users[0].votes, topic));
    var off := if |head.votes| >= MIN_VOTES_TOPIC then 1 else 0;
    if i < off {
      assert SliceTopic(users, topic)[i] == head && users[0] in users;
    } else {
      assert SliceTopic(users, topic)[i] == SliceTopic(users[1..], topic)[i - off];
      SliceTopicSound(users[1..], topic, i - off);
      var u :| u in users[1..] && SliceTopic(users[1..], topic)[i - off] == User(u.id, TopicVotes(u.votes, topic));
      assert u in users;
    }
  }

  /** Every user with at least MIN_VOTES_TOPIC votes on the topic is in the
      topic scope, with exactly those votes. */
  lemma {:induction false} SliceTopicComplete(users: seq<User>, topic: string, u: User)
    requires u in users && |TopicVotes(u.votes, topic)| >= MIN_VOTES_TOPIC
    ensures User(u.id, TopicVotes(u.votes, topic)) in SliceTopic(users, topic)
  {
    if u != users[0] {
      assert u in users[1..];
      SliceTopicComplete(users[1..], topic, u);
    }
  }

  /** Slicing is done user by user: the sliced users keep their snapshot order. */
  lemma {:induction false} SliceTopicConcat(a: seq<User>, b: seq<User>, topic: string)
    ensures SliceTopic(a + b, topic) == SliceTopic(a, topic) + SliceTopic(b, topic)
  {
    if |a| == 0 {
      assert a + b == b;
    } else {
      var u := User(a[0].id, TopicVotes(a[0].votes, topic));
      var h := if |u.votes| >= MIN_VOTES_TOPIC then [u] else [];
      assert (a + b)[0] == a[0];
      assert (a + b)[1..] == a[1..] + b;
      SliceTopicConcat(a[1..], b, topic);
      calc {
        SliceTopic(a + b, topic);
        h + SliceTopic(a[1..] + b, topic);
        h + (SliceTopic(a[1..], topic) + SliceTopic(b, topic));
        (h + SliceTopic(a[1..], topic)) + SliceTopic(b, topic);
      }
    }
  }

  /** The users with at least `minVotes` votes in the scope (line 69). */
  function ActiveUsers(users: seq<User>, minVotes: int): (r: seq<User>)
    ensures |r| <= |users|
    ensures forall u :: u in r <==> u in users && |u.votes| >= minVotes
  {
    Seqs.Filter(users, (u: User) => |u.votes| >= minVotes)
  }

  /** A topic scope's users all pass its own activity filter again, so
      runClustering's filter keeps every one of them. */
  lemma TopicUsersStayActive(users: seq<User>, topic: string)
    ensures ActiveUsers(SliceTopic(users, topic), MIN_VOTES_TOPIC) == SliceTopic(users, topic)
  {
    var s := SliceTopic(users, topic);
    forall u | u in s
      ensures |u.votes| >= MIN_VOTES_TOPIC
    {
      var i :| 0 <= i < |s| && s[i] == u;
      SliceTopicSound(users, topic, i);
    }
    Seqs.FilterKeepsAll(s, (u: User) => |u.votes| >= MIN_VOTES_TOPIC);
  }

  /** The user ids, row by row. */
  function Ids(users: seq<User>): (ids: seq<UserId>)
    ensures |ids| == |users|
    ensures forall i :: 0 <= i < |users| ==> ids[i] == users[i].id
  {
    if |users| == 0 then [] else Ids(users[..|users| - 1]) + [users[|users| - 1].id]
  }

  /** The truthy post ids of a user's votes, in vote order. */
  function VotePostIds(votes: seq<Vote>): seq<PostId>
  {
    if |votes| == 0 then []
    else
      var last := votes[|votes| - 1];
      VotePostIds(votes[..|votes| - 1]) + (if HasPost(last) then [last.postId.value] else [])
  }

  /** The truthy post ids of all votes of the users, user by user (lines 78-80). */
  function PostIdsOf(users: seq<User>): seq<PostId>
  {
    if |users| == 0 then [] else PostIdsOf(users[..|users| - 1]) + VotePostIds(users[|users| - 1].votes)
  }

  /** A user's post ids are exactly the posts of the user's votes with a truthy post id. */
  lemma {:induction false} VotePostIdsExact(votes: seq<Vote>)
    ensures forall k :: 0 <= k < |votes| && HasPost(votes[k]) ==> votes[k].postId.value in VotePostIds(votes)
    ensures forall p :: p in VotePostIds(votes) ==> exists k :: 0 <= k < |votes| && VotesOn(votes[k], p)
  {
    if |votes| > 0 {
      var front := votes[..|votes| - 1];
      VotePostIdsExact(front);
      assert forall k :: 0 <= k < |front| ==> front[k] == votes[k];
    }
  }

  /** The scope's post ids are exactly the posts its users voted on with a
      truthy post id; so the columns hold each such post once and no other. */
  lemma {:induction false} PostIdsOfExact(users: seq<User>)
    ensures forall i, k :: 0 <= i < |users| && 0 <= k < |users[i].votes| && HasPost(users[i].votes[k]) ==>
      users[i].votes[k].postId.value in PostIdsOf(users)
    ensures forall p :: p in PostIdsOf(users) ==>
      exists i, k :: 0 <= i < |users| && 0 <= k < |users[i].votes| && VotesOn(users[i].votes[k], p)
  {
    if |users| > 0 {
      var front := users[..|users| - 1];
      PostIdsOfExact(front);
      VotePostIdsExact(users[|users| - 1].votes);
      assert forall i :: 0 <= i < |front| ==> front[i] == users[i];
    }
  }

  /** `postIndexMap` (line 82): each column post id mapped to its column; a
      later duplicate would overwrite an earlier entry, as `new Map` does. */
  function PostIndexMap(columns: seq<PostId>): (index: map<PostId, nat>)
    ensures forall p :: p in index <==> p in columns
    ensures forall p :: p in index ==> index[p] < |columns| && columns[index[p]] == p
  {
    if |columns| == 0 then map[]
    else
      var front := columns[..|columns| - 1];
      assert columns == front + [columns[|columns| - 1]];
      PostIndexMap(front)[columns[|columns| - 1] := |columns| - 1]
  }

  /** Over distinct columns the index map inverts the column order. */
  lemma PostIndexMapInverts(columns: seq<PostId>, j: nat)
    requires Seqs.Distinct(columns) && j < |columns|
    ensures columns[j] in PostIndexMap(columns) && PostIndexMap(columns)[columns[j]] == j
  {
  }

  /** The matrix cell of a user and a column post: the value of the user's
      last vote on that post, or 0 when the user did not vote on it. A
      nonzero cell is the value of one of the user's votes on that post: no
      cell holds a value nobody voted. */
  function Cell(votes: seq<Vote>, p: PostId): (r: int)
    ensures r != 0 ==> exists k :: 0 <= k < |votes| && VotesOn(votes[k], p) && votes[k].value == r
  {
    if |votes| == 0 then 0
    else if VotesOn(votes[|votes| - 1], p) then votes[|votes| - 1].value
    else
      var front := votes[..|votes| - 1];
      assert forall k :: 0 <= k < |front| ==> front[k] == votes[k];
      Cell(front, p)
  }

  /** A cell holds the value of the last vote on its post. */
  lemma {:induction false} CellIsLastVote(votes: seq<Vote>, p: PostId, k: nat)
    requires k < |votes| && VotesOn(votes[k], p)
    requires forall k' :: k < k' < |votes| ==> !VotesOn(votes[k'], p)
    ensures Cell(votes, p) == votes[k].value
  {
    if k < |votes| - 1 {
      CellIsLastVote(votes[..|votes| - 1], p, k);
    }
  }

  /** A post the user never voted on leaves the cell 0. */
  lemma {:induction false} CellWithoutVote(votes: seq<Vote>, p: PostId)
    requires forall k :: 0 <= k < |votes| ==> !VotesOn(votes[k], p)
    ensures Cell(votes, p) == 0
  {
    if |votes| > 0 {
      CellWithoutVote(votes[..|votes| - 1], p);
    }
  }

  /** With every vote +1 or -1, every cell is +1, -1 or 0. */
  lemma {:induction false} CellIsSign(votes: seq<Vote>, p: PostId)
    requires forall k :: 0 <= k < |votes| ==> votes[k].value == 1 || votes[k].value == -1
    ensures Cell(votes, p) in {-1, 0, 1}
  {
    if |votes| > 0 && !VotesOn(votes[|votes| - 1], p) {
      CellIsSign(votes[..|votes| - 1], p);
    }
  }

  /** The columns of a scope: each truthy post id of the active users' votes,
      once, in first-seen order (`Array.from` of the Set, line 81). */
  function Columns(active: seq<User>): (r: seq<PostId>)
    ensures Seqs.Distinct(r)
    ensures forall p :: p in r <==> p in PostIdsOf(active)
  {
    Seqs.Dedup(PostIdsOf(active))
  }

  /** The vote matrix of a scope as rows: `|active|` rows, one column per
      column post, cell (i, j) as Cell gives it. */
  function VoteMatrix(active: seq<User>, columns: seq<PostId>): (r: seq<seq<int>>)
    ensures |r| == |active| && forall i :: 0 <= i < |r| ==> |r[i]| == |columns|
  {
    seq(|active|, i requires 0 <= i < |active| =>
      seq(|columns|, j requires 0 <= j < |columns| => Cell(active[i].votes, columns[j])))
  }

  /** The cluster count (line 106): min(3, m - 1), never more than requested
      and never as many as there are users; with the 5-user minimum it is 3. */
  function ClusterCount(m: int): (k: int)
    ensures k <= WANTED_CLUSTERS && k < m
    ensures k == WANTED_CLUSTERS || k == m - 1
    ensures m >= MIN_USERS ==> k == WANTED_CLUSTERS
  {
    if WANTED_CLUSTERS < m - 1 then WANTED_CLUSTERS else m - 1
  }
}
