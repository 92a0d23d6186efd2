/** The clustering job itself (scripts/cluster.ts): `main` with its activity
    gate and topic loop (lines 14-66) and `runClustering` (lines 68-143). The
    singular value decomposition and k-means (lines 100-107) are the
    `partition` parameter; the database is a UserStore. */
module ClusterJob {
  import opened Wrappers
  import Seqs
  import opened ClusterData
  import opened ClusterStore

  /** SVD followed by k-means, seen from the job: given a matrix and a cluster
      count k with 1 <= k < rows, one raw cluster id per row, each in [0, k). */
  type Partitioner = (seq<seq<int>>, int) -> seq<int>

  ghost predicate IsPartitioner(partition: Partitioner)
  {
    forall rows: seq<seq<int>>, k: int {:trigger partition(rows, k)} :: 1 <= k < |rows| ==>
      && |partition(rows, k)| == |rows|
      && forall i :: 0 <= i < |rows| ==> 0 <= partition(rows, k)[i] < k
  }

  /** The stored ids: each raw k-means id plus one (line 112). */
  function OneBased(raw: seq<int>): (r: seq<int>)
    ensures |r| == |raw| && forall i :: 0 <= i < |raw| ==> r[i] == raw[i] + 1
  {
    seq(|raw|, i requires 0 <= i < |raw| => raw[i] + 1)
  }

  /** Raw ids in [0, k) become stored ids in [1, k]; none is 0. */
  lemma OneBasedInRange(raw: seq<int>, k: int, i: nat)
    requires forall j :: 0 <= j < |raw| ==> 0 <= raw[j] < k
    requires i < |raw|
    ensures 1 <= OneBased(raw)[i] <= k && OneBased(raw)[i] != 0
  {
  }

  /** The rows of a matrix as sequences. */
  function Rows(matrix: array2<int>): seq<seq<int>>
    reads matrix
  {
    seq(matrix.Length0, i requires 0 <= i < matrix.Length0 reads matrix =>
      seq(matrix.Length1, j requires 0 <= j < matrix.Length1 reads matrix => matrix[i, j]))
  }

  /** One more vote extends the vote's post ids by at most its own. */
  lemma VotePostIdsSnoc(votes: seq<Vote>, k: nat)
    requires k < |votes|
    ensures VotePostIds(votes[..k + 1]) ==
      VotePostIds(votes[..k]) + (if HasPost(votes[k]) then [votes[k].postId.value] else [])
  {
    assert votes[..k + 1][..k] == votes[..k];
  }

  /** One more user extends the post ids by that user's. */
  lemma PostIdsOfSnoc(active: seq<User>, i: nat)
    requires i < |active|
    ensures PostIdsOf(active[..i + 1]) == PostIdsOf(active[..i]) + VotePostIds(active[i].votes)
  {
    assert active[..i + 1][..i] == active[..i];
  }

  /** The columns seen after one more vote: its post id appended when it is
      truthy and new, otherwise the same. */
  lemma SeenStep(done: seq<PostId>, votes: seq<Vote>, k: nat)
    requires k < |votes|
    ensures Seqs.Dedup(done + VotePostIds(votes[..k + 1])) ==
      var before := Seqs.Dedup(done + VotePostIds(votes[..k]));
      if HasPost(votes[k]) && votes[k].postId.value !in before then before + [votes[k].postId.value] else before
  {
    var seen := done + VotePostIds(votes[..k]);
    VotePostIdsSnoc(votes, k);
    if HasPost(votes[k]) {
      assert done + VotePostIds(votes[..k + 1]) == seen + [votes[k].postId.value];
      Seqs.DedupSnoc(seen, votes[k].postId.value);
    } else {
      assert done + VotePostIds(votes[..k + 1]) == seen;
    }
  }

  /** The inner `forEach` of lines 78-80 for one user: each truthy post id of
      the user's votes added to the Set, whose insertion order is `order`. */
  method AddVotePostIds(votes: seq<Vote>, postIds: set<PostId>, order: seq<PostId>, ghost done: seq<PostId>)
    returns (postIds': set<PostId>, order': seq<PostId>)
    requires order == Seqs.Dedup(done)
    requires forall p :: p in postIds <==> p in order
    ensures order' == Seqs.Dedup(done + VotePostIds(votes))
    ensures forall p :: p in postIds' <==> p in order'
  {
    postIds', order' := postIds, order;
    var k := 0;
    assert done + VotePostIds(votes[..0]) == done;
    while k < |votes|
      invariant 0 <= k <= |votes|
      invariant order' == Seqs.Dedup(done + VotePostIds(votes[..k]))
      invariant forall p :: p in postIds' <==> p in order'
    {
      var vote := votes[k];
      SeenStep(done, votes, k);
      if HasPost(vote) {
        var id := vote.postId.value;
        if id !in postIds' {
          order' := order' + [id];
        }
        postIds' := postIds' + {id};
      }
      k := k + 1;
    }
    assert votes[..|votes|] == votes;
  }

  /** The column post ids (lines 77-81): a Set filled vote by vote with each
      truthy post id, read back in insertion order. */
  method CollectColumns(active: seq<User>) returns (postArray: seq<PostId>)
    ensures postArray == Columns(active)
    ensures Seqs.Distinct(postArray)
  {
    var postIds: set<PostId> := {};
    var order: seq<PostId> := [];
    var i := 0;
    while i < |active|
      invariant 0 <= i <= |active|
      invariant order == Seqs.Dedup(PostIdsOf(active[..i]))
      invariant forall p :: p in postIds <==> p in order
    {
      postIds, order := AddVotePostIds(active[i].votes, postIds, order, PostIdsOf(active[..i]));
      PostIdsOfSnoc(active, i);
      i := i + 1;
    }
    assert active[..|active|] == active;
    postArray := order;
  }

  /** One vote of a user row (lines 94-96): a vote with a truthy, indexed
      post id sets the cell of that post's column to its value; no other
      cell changes. */
  method ApplyVote(matrix: array2<int>, i: nat, vote: Vote, postArray: seq<PostId>, postIndexMap: map<PostId, nat>)
    requires Seqs.Distinct(postArray) && postIndexMap == PostIndexMap(postArray)
    requires i < matrix.Length0 && matrix.Length1 == |postArray|
    modifies matrix
    ensures forall c :: 0 <= c < |postArray| ==>
      matrix[i, c] == if VotesOn(vote, postArray[c]) then vote.value else old(matrix[i, c])
    ensures forall r, c :: 0 <= r < matrix.Length0 && r != i && 0 <= c < |postArray| ==> matrix[r, c] == old(matrix[r, c])
  {
    if HasPost(vote) && vote.postId.value in postIndexMap {
      var col := postIndexMap[vote.postId.value];
      matrix[i, col] := vote.value;
      forall c | 0 <= c < |postArray| && c != col
        ensures postArray[c] != vote.postId.value
      {
        PostIndexMapInverts(postArray, c);
      }
    }
  }

  /** One user row of the vote matrix (lines 92-97): starting from zeros, the
      row holds each column post's cell, the last vote on it winning; the
      other rows are left as they are. */
  method FillRow(matrix: array2<int>, i: nat, votes: seq<Vote>, postArray: seq<PostId>, postIndexMap: map<PostId, nat>)
    requires Seqs.Distinct(postArray) && postIndexMap == PostIndexMap(postArray)
    requires i < matrix.Length0 && matrix.Length1 == |postArray|
    requires forall c :: 0 <= c < |postArray| ==> matrix[i, c] == 0
    modifies matrix
    ensures forall c :: 0 <= c < |postArray| ==> matrix[i, c] == Cell(votes, postArray[c])
    ensures forall r, c :: 0 <= r < matrix.Length0 && r != i && 0 <= c < |postArray| ==> matrix[r, c] == old(matrix[r, c])
  {
    var k := 0;
    while k < |votes|
      invariant 0 <= k <= |votes|
      invariant forall c :: 0 <= c < |postArray| ==> matrix[i, c] == Cell(votes[..k], postArray[c])
      invariant forall r, c :: 0 <= r < matrix.Length0 && r != i && 0 <= c < |postArray| ==> matrix[r, c] == old(matrix[r, c])
    {
      assert votes[..k + 1][..k] == votes[..k];
      ApplyVote(matrix, i, votes[k], postArray, postIndexMap);
      k := k + 1;
    }
    assert votes[..|votes|] == votes;
  }

  /** The vote matrix (lines 90-98): all zeros, then filled row by row, one
      row per active user and one column per column post. */
  method BuildMatrix(active: seq<User>, postArray: seq<PostId>, postIndexMap: map<PostId, nat>) returns (matrix: array2<int>)
    requires Seqs.Distinct(postArray) && postIndexMap == PostIndexMap(postArray)
    ensures matrix.Length0 == |active| && matrix.Length1 == |postArray|
    ensures forall i, j :: 0 <= i < |active| && 0 <= j < |postArray| ==>
      matrix[i, j] == Cell(active[i].votes, postArray[j])
  {
    var m, n := |active|, |postArray|;
    matrix := new int[m, n]((i, j) => 0);
    var i := 0;
    while i < m
      invariant 0 <= i <= m
      invariant forall r, c :: 0 <= r < i && 0 <= c < n ==> matrix[r, c] == Cell(active[r].votes, postArray[c])
      invariant forall r, c :: i <= r < m && 0 <= c < n ==> matrix[r, c] == 0
    {
      FillRow(matrix, i, active[i].votes, postArray, postIndexMap);
      i := i + 1;
    }
  }

  /** How one scope ends: skipped for too few active users, clustered, or
      stopped by the write that threw for `user`. */
  datatype ScopeOutcome = Skipped | Clustered(users: nat, posts: nat, clusters: int) | Aborted(user: UserId)

  /** The one-based ids written for a scope are all in [1, k]. */
  lemma ScopeIdsInRange(raw: seq<int>, k: int)
    requires forall i :: 0 <= i < |raw| ==> 0 <= raw[i] < k
    ensures forall i :: 0 <= i < |OneBased(raw)| ==> 1 <= OneBased(raw)[i] <= k
  {
    forall i | 0 <= i < |OneBased(raw)|
      ensures 1 <= OneBased(raw)[i] <= k
    {
      OneBasedInRange(raw, k, i);
    }
  }

  /** The save phase of a scope (lines 109-141) given the raw k-means ids of
      its active users: the writes, and how the scope ends. */
  function ScopeWrite(records: map<UserId, UserRecord>, active: seq<User>, scope: string, raw: seq<int>, posts: nat, k: int): (r: (ScopeOutcome, map<UserId, UserRecord>))
    requires |raw| == |active|
    ensures !r.0.Skipped?
    ensures r.0.Clustered? ==> r.0.users == |active| && r.0.posts == posts && r.0.clusters == k
    ensures r.0.Aborted? ==> r.0.user !in records && exists i :: 0 <= i < |active| && active[i].id == r.0.user
    ensures r.1.Keys == records.Keys
  {
    var w := WriteAll(records, scope, Ids(active), OneBased(raw));
    WriteAllFailedMissing(records, scope, Ids(active), OneBased(raw));
    match w.failedAt
    case Some(f) => (Aborted(active[f].id), w.records)
    case None => (Clustered(|active|, posts, k), w.records)
  }

  /** The effect of runClustering on the user rows (lines 68-143). */
  function ScopeRun(records: map<UserId, UserRecord>, users: seq<User>, scope: string, minVotes: int, partition: Partitioner): (r: (ScopeOutcome, map<UserId, UserRecord>))
    requires IsPartitioner(partition)
    ensures r.0.Skipped? <==> |ActiveUsers(users, minVotes)| < MIN_USERS
    ensures r.0.Skipped? ==> r.1 == records
    ensures r.0.Clustered? ==> r.0.users == |ActiveUsers(users, minVotes)| && r.0.clusters == WANTED_CLUSTERS
    ensures r.1.Keys == records.Keys
  {
    var active := ActiveUsers(users, minVotes);
    if |active| < MIN_USERS then (Skipped, records)
    else
      var columns := Columns(active);
      var k := ClusterCount(|active|);
      ScopeWrite(records, active, scope, partition(VoteMatrix(active, columns), k), |columns|, k)
  }

  /** The rows of a matrix built cell by cell are the specified vote matrix. */
  lemma RowsAreVoteMatrix(matrix: array2<int>, active: seq<User>, columns: seq<PostId>)
    requires matrix.Length0 == |active| && matrix.Length1 == |columns|
    requires forall i, j :: 0 <= i < |active| && 0 <= j < |columns| ==>
      matrix[i, j] == Cell(active[i].votes, columns[j])
    ensures Rows(matrix) == VoteMatrix(active, columns)
  {
    var a, b := Rows(matrix), VoteMatrix(active, columns);
    forall i | 0 <= i < |active|
      ensures a[i] == b[i]
    {
    }
  }

  /** One more row written: the result extends the previous one by that write. */
  lemma WriteAllSnoc(records: map<UserId, UserRecord>, scope: string, ids: seq<UserId>, clusterIds: seq<int>, i: nat, current: map<UserId, UserRecord>)
    requires |ids| == |clusterIds| && i < |ids|
    requires WriteAll(records, scope, ids[..i], clusterIds[..i]) == Written(current, None)
    ensures WriteAll(records, scope, ids[..i + 1], clusterIds[..i + 1]) ==
      match WriteOne(current, scope, ids[i], clusterIds[i])
      case None => Written(current, Some(i))
      case Some(r) => Written(r, None)
  {
    assert ids[..i + 1][..i] == ids[..i] && clusterIds[..i + 1][..i] == clusterIds[..i];
  }

  /** The save loop's next step: a write that throws ends the whole loop
      there; one that succeeds extends the rows written so far. */
  lemma WriteAllNext(records: map<UserId, UserRecord>, scope: string, ids: seq<UserId>, clusterIds: seq<int>, i: nat, current: map<UserId, UserRecord>)
    requires |ids| == |clusterIds| && i < |ids|
    requires WriteAll(records, scope, ids[..i], clusterIds[..i]) == Written(current, None)
    ensures WriteOne(current, scope, ids[i], clusterIds[i]).None? ==>
      WriteAll(records, scope, ids, clusterIds) == Written(current, Some(i))
    ensures WriteOne(current, scope, ids[i], clusterIds[i]).Some? ==>
      WriteAll(records, scope, ids[..i + 1], clusterIds[..i + 1]) == Written(WriteOne(current, scope, ids[i], clusterIds[i]).value, None)
  {
    WriteAllSnoc(records, scope, ids, clusterIds, i, current);
    if WriteOne(current, scope, ids[i], clusterIds[i]).None? {
      WriteAllStops(records, scope, ids, clusterIds, i);
    }
  }

  /** One user's write (lines 114-140): a global assignment, or a merge into
      the topic map; `ok` is false when the update throws. */
  method SaveUser(store: UserStore, id: UserId, scope: string, clusterId: int) returns (ok: bool)
    modifies store
    ensures ok == WriteOne(old(store.records), scope, id, clusterId).Some?
    ensures ok ==> store.records == WriteOne(old(store.records), scope, id, clusterId).value
    ensures !ok ==> store.records == old(store.records)
  {
    if scope == GLOBAL_SCOPE {
      ok := store.SetGlobal(id, clusterId);
    } else {
      ok := store.MergeTopic(id, scope, clusterId);
    }
  }

  /** The save loop (lines 110-141): row by row, the raw id plus one written
      as a global assignment or merged into the topic map; a write that
      throws ends the loop, and the writes before it stay. */
  method SaveResults(store: UserStore, activeUsers: seq<User>, scope: string, clusters: seq<int>) returns (failedAt: Option<nat>)
    requires |clusters| == |activeUsers|
    modifies store
    ensures Written(store.records, failedAt) == WriteAll(old(store.records), scope, Ids(activeUsers), OneBased(clusters))
  {
    ghost var ids, clusterIds := Ids(activeUsers), OneBased(clusters);
    ghost var before := store.records;
    var m := |activeUsers|;
    var i := 0;
    while i < m
      invariant 0 <= i <= m
      invariant WriteAll(before, scope, ids[..i], clusterIds[..i]) == Written(store.records, None)
    {
      var user := activeUsers[i];
      var clusterId := clusters[i] + 1;
      WriteAllNext(before, scope, ids, clusterIds, i, store.records);
      var ok := SaveUser(store, user.id, scope, clusterId);
      if !ok {
        return Some(i);
      }
      i := i + 1;
    }
    assert ids[..m] == ids && clusterIds[..m] == clusterIds;
    failedAt := None;
  }

  /** runClustering (lines 68-143), with the store standing for the database. */
  method RunClustering(store: UserStore, users: seq<User>, scope: string, minVotes: int, partition: Partitioner) returns (outcome: ScopeOutcome)
    requires IsPartitioner(partition)
    modifies store
    ensures (outcome, store.records) == ScopeRun(old(store.records), users, scope, minVotes, partition)
  {
    var activeUsers := ActiveUsers(users, minVotes);
    if |activeUsers| < MIN_USERS {
      return Skipped;
    }
    var postArray := CollectColumns(activeUsers);
    var postIndexMap := PostIndexMap(postArray);
    var m, n := |activeUsers|, |postArray|;
    var matrix := BuildMatrix(activeUsers, postArray, postIndexMap);
    RowsAreVoteMatrix(matrix, activeUsers, postArray);
    var k := ClusterCount(m);
    var clusters := partition(Rows(matrix), k);
    var failedAt := SaveResults(store, activeUsers, scope, clusters);
    match failedAt
    case Some(f) =>
      outcome := Aborted(activeUsers[f].id);
    case None =>
      outcome := Clustered(m, n, k);
  }

  /** Once a write throws, later rows change nothing: the run's result is the
      one at the failing row. */
  lemma {:induction false} WriteAllStops(records: map<UserId, UserRecord>, scope: string, ids: seq<UserId>, clusterIds: seq<int>, f: nat)
    requires |ids| == |clusterIds| && f < |ids|
    requires WriteAll(records, scope, ids[..f + 1], clusterIds[..f + 1]).failedAt == Some(f)
    ensures WriteAll(records, scope, ids, clusterIds) == WriteAll(records, scope, ids[..f + 1], clusterIds[..f + 1])
    decreases |ids|
  {
    if |ids| > f + 1 {
      var n := |ids| - 1;
      assert ids[..n][..f + 1] == ids[..f + 1] && clusterIds[..n][..f + 1] == clusterIds[..f + 1];
      WriteAllStops(records, scope, ids[..n], clusterIds[..n], f);
    } else {
      assert ids[..f + 1] == ids && clusterIds[..f + 1] == clusterIds;
    }
  }

  /** The save phase changes rows only in the scope's field, each changed row
      holding an id in [1, k]. */
  lemma ScopeWriteEffect(records: map<UserId, UserRecord>, active: seq<User>, scope: string, raw: seq<int>, posts: nat, k: int)
    requires |raw| == |active|
    requires forall i :: 0 <= i < |raw| ==> 0 <= raw[i] < k
    ensures ChangesWithin(records, ScopeWrite(records, active, scope, raw, posts, k).1, scope, k)
  {
    ScopeWriteWrites(records, active, scope, raw, posts, k);
    ScopeIdsInRange(raw, k);
    WriteAllChanges(records, scope, Ids(active), OneBased(raw), k);
  }

  /** When the save phase goes through, every active user holds an id in
      [1, k] for the scope. */
  lemma ScopeWriteHolds(records: map<UserId, UserRecord>, active: seq<User>, scope: string, raw: seq<int>, posts: nat, k: int, u: User)
    requires |raw| == |active|
    requires forall i :: 0 <= i < |raw| ==> 0 <= raw[i] < k
    requires ScopeWrite(records, active, scope, raw, posts, k).0.Clustered? && u in active
    ensures var r := ScopeWrite(records, active, scope, raw, posts, k).1;
      u.id in r && HoldsScopeId(r[u.id], scope, k)
  {
    ScopeWriteWrites(records, active, scope, raw, posts, k);
    ScopeIdsInRange(raw, k);
    var i :| 0 <= i < |active| && active[i] == u;
    assert Ids(active)[i] == u.id;
    WriteAllHoldsEvery(records, scope, Ids(active), OneBased(raw), k, u.id);
  }

  /** When user ids are distinct and the save phase goes through, the user of
      row i holds exactly the raw id of row i plus one. */
  lemma ScopeWriteAssigns(records: map<UserId, UserRecord>, active: seq<User>, scope: string, raw: seq<int>, posts: nat, k: int, i: nat)
    requires |raw| == |active|
    requires ScopeWrite(records, active, scope, raw, posts, k).0.Clustered?
    requires Seqs.Distinct(Ids(active)) && i < |active|
    ensures active[i].id in records
    ensures ScopeWrite(records, active, scope, raw, posts, k).1[active[i].id] == Assigned(records[active[i].id], scope, raw[i] + 1)
  {
    ScopeWriteWrites(records, active, scope, raw, posts, k);
    WriteAllAssignsAt(records, scope, Ids(active), OneBased(raw), i, active[i].id, raw[i] + 1);
  }

  /** The save phase's rows are those of writing the stored ids, and it ends
      clustered exactly when no write throws. This unfolds ScopeWrite once,
      so that the lemmas about the save phase stay small proofs. */
  lemma ScopeWriteWrites(records: map<UserId, UserRecord>, active: seq<User>, scope: string, raw: seq<int>, posts: nat, k: int)
    requires |raw| == |active|
    ensures var w := WriteAll(records, scope, Ids(active), OneBased(raw));
      && ScopeWrite(records, active, scope, raw, posts, k).1 == w.records
      && (ScopeWrite(records, active, scope, raw, posts, k).0.Clustered? <==> w.failedAt.None?)
  {
  }

  /** WriteAllAssigns for a row whose id and cluster id are given. */
  lemma WriteAllAssignsAt(records: map<UserId, UserRecord>, scope: string, ids: seq<UserId>, clusterIds: seq<int>, i: nat, id: UserId, clusterId: int)
    requires |ids| == |clusterIds| && Seqs.Distinct(ids)
    requires WriteAll(records, scope, ids, clusterIds).failedAt.None?
    requires i < |ids| && ids[i] == id && clusterIds[i] == clusterId
    ensures id in records
    ensures WriteAll(records, scope, ids, clusterIds).records[id] == Assigned(records[id], scope, clusterId)
  {
    WriteAllAssigns(records, scope, ids, clusterIds, i);
  }

  /** With at least five active users a scope's run is the save phase of
      the partition of their vote matrix into three clusters. This unfolds
      ScopeRun once, so that the lemmas about a scope's run stay small proofs. */
  lemma ScopeRunIsWrite(records: map<UserId, UserRecord>, users: seq<User>, scope: string, minVotes: int, partition: Partitioner)
    requires IsPartitioner(partition) && |ActiveUsers(users, minVotes)| >= MIN_USERS
    ensures var active := ActiveUsers(users, minVotes);
      var columns := Columns(active);
      var raw := partition(VoteMatrix(active, columns), WANTED_CLUSTERS);
      && |raw| == |active|
      && (forall i :: 0 <= i < |raw| ==> 0 <= raw[i] < WANTED_CLUSTERS)
      && ScopeRun(records, users, scope, minVotes, partition) == ScopeWrite(records, active, scope, raw, |columns|, WANTED_CLUSTERS)
  {
  }

  /** A scope's run changes rows only in the scope's field, each changed row
      holding an id in [1, 3]. */
  lemma ScopeRunEffect(records: map<UserId, UserRecord>, users: seq<User>, scope: string, minVotes: int, partition: Partitioner)
    requires IsPartitioner(partition)
    ensures ChangesWithin(records, ScopeRun(records, users, scope, minVotes, partition).1, scope, WANTED_CLUSTERS)
  {
    var active := ActiveUsers(users, minVotes);
    if |active| >= MIN_USERS {
      var columns := Columns(active);
      var raw := partition(VoteMatrix(active, columns), WANTED_CLUSTERS);
      ScopeRunIsWrite(records, users, scope, minVotes, partition);
      ScopeWriteEffect(records, active, scope, raw, |columns|, WANTED_CLUSTERS);
    }
  }

  /** When a scope is clustered every active user holds an id in [1, 3] for
      it, so no stored id is 0. */
  lemma ScopeRunHolds(records: map<UserId, UserRecord>, users: seq<User>, scope: string, minVotes: int, partition: Partitioner, u: User)
    requires IsPartitioner(partition)
    requires ScopeRun(records, users, scope, minVotes, partition).0.Clustered?
    requires u in ActiveUsers(users, minVotes)
    ensures var r := ScopeRun(records, users, scope, minVotes, partition);
      u.id in r.1 && HoldsScopeId(r.1[u.id], scope, WANTED_CLUSTERS)
  {
    var active := ActiveUsers(users, minVotes);
    var columns := Columns(active);
    var raw := partition(VoteMatrix(active, columns), WANTED_CLUSTERS);
    ScopeRunIsWrite(records, users, scope, minVotes, partition);
    ScopeWriteHolds(records, active, scope, raw, |columns|, WANTED_CLUSTERS, u);
  }

  /** How the whole job ends. */
  datatype JobOutcome = GateClosed | Completed | Failed(scope: string, user: UserId)

  /** One turn of the topic loop (lines 50-62) on `records`: nothing when
      fewer than five users are sliced for the topic; otherwise the topic's
      run, which fails, naming the topic, when one of its writes does. */
  function TopicStep(records: map<UserId, UserRecord>, users: seq<User>, topic: string, partition: Partitioner): (r: (JobOutcome, map<UserId, UserRecord>))
    requires IsPartitioner(partition)
    ensures r.0 == Completed || (r.0.Failed? && r.0.scope == topic)
    ensures r.1.Keys == records.Keys
    ensures |SliceTopic(users, topic)| < MIN_USERS ==> r == (Completed, records)
  {
    var topicUsers := SliceTopic(users, topic);
    if |topicUsers| < MIN_USERS then (Completed, records)
    else
      var run := ScopeRun(records, topicUsers, topic, MIN_VOTES_TOPIC, partition);
      if run.0.Aborted? then (Failed(topic, run.0.user), run.1) else (Completed, run.1)
  }

  /** The topic loop (lines 49-63) over the given topics, on the rows left by
      the global phase: each topic in order, stopping at the first failure,
      which is one of the topics. */
  function TopicPhase(records: map<UserId, UserRecord>, users: seq<User>, topics: seq<string>, partition: Partitioner): (r: (JobOutcome, map<UserId, UserRecord>))
    requires IsPartitioner(partition)
    ensures r.0 == Completed || (r.0.Failed? && r.0.scope in topics)
    ensures r.1.Keys == records.Keys
    decreases |topics|
  {
    if |topics| == 0 then (Completed, records)
    else
      var step := TopicStep(records, users, topics[0], partition);
      if step.0.Failed? then step
      else
        var rest := TopicPhase(step.1, users, topics[1..], partition);
        assert rest.0.Failed? ==> rest.0.scope in topics[1..];
        rest
  }

  /** The job (lines 14-66): nothing at all below MIN_NEW_VOTES recent votes;
      otherwise the global scope, then each topic in order. */
  function Job(records: map<UserId, UserRecord>, newVotesCount: int, users: seq<User>, partition: Partitioner): (r: (JobOutcome, map<UserId, UserRecord>))
    requires IsPartitioner(partition)
    ensures r.0 == GateClosed <==> newVotesCount < MIN_NEW_VOTES
    ensures r.0 == GateClosed ==> r.1 == records
    ensures r.1.Keys == records.Keys
  {
    if newVotesCount < MIN_NEW_VOTES then (GateClosed, records)
    else
      var global := ScopeRun(records, users, GLOBAL_SCOPE, MIN_VOTES_GLOBAL, partition);
      if global.0.Aborted? then (Failed(GLOBAL_SCOPE, global.0.user), global.1)
      else TopicPhase(global.1, users, TOPICS, partition)
  }

  /** One turn of the topic loop (lines 50-62), run on the store. */
  method RunTopic(store: UserStore, users: seq<User>, topic: string, partition: Partitioner) returns (outcome: JobOutcome)
    requires IsPartitioner(partition)
    modifies store
    ensures (outcome, store.records) == TopicStep(old(store.records), users, topic, partition)
  {
    ghost var before := store.records;
    var topicUsers := SliceTopic(users, topic);
    if |topicUsers| < MIN_USERS {
      return Completed;
    }
    var result := RunClustering(store, topicUsers, topic, MIN_VOTES_TOPIC, partition);
    ghost var run := ScopeRun(before, topicUsers, topic, MIN_VOTES_TOPIC, partition);
    assert result == run.0 && store.records == run.1;
    outcome := if result.Aborted? then Failed(topic, result.user) else Completed;
  }

  /** The topic phase from topic t on is topic t's turn, then, unless it
      failed, the phase from topic t + 1 on. */
  lemma TopicPhaseFrom(records: map<UserId, UserRecord>, users: seq<User>, topics: seq<string>, partition: Partitioner, t: nat)
    requires IsPartitioner(partition) && t < |topics|
    ensures var step := TopicStep(records, users, topics[t], partition);
      TopicPhase(records, users, topics[t..], partition) ==
        if step.0.Failed? then step else TopicPhase(step.1, users, topics[t + 1..], partition)
  {
    assert topics[t..][0] == topics[t];
    assert topics[t..][1..] == topics[t + 1..];
  }

  /** The topic loop (lines 49-63), run on the store. */
  method RunTopics(store: UserStore, users: seq<User>, partition: Partitioner) returns (outcome: JobOutcome)
    requires IsPartitioner(partition)
    modifies store
    ensures (outcome, store.records) == TopicPhase(old(store.records), users, TOPICS, partition)
  {
    ghost var start := store.records;
    var t := 0;
    assert TOPICS[0..] == TOPICS;
    while t < |TOPICS|
      invariant 0 <= t <= |TOPICS|
      invariant TopicPhase(start, users, TOPICS, partition) == TopicPhase(store.records, users, TOPICS[t..], partition)
    {
      TopicPhaseFrom(store.records, users, TOPICS, partition, t);
      outcome := RunTopic(store, users, TOPICS[t], partition);
      if outcome.Failed? {
        return;
      }
      t := t + 1;
    }
    outcome := Completed;
  }

  /** main (lines 14-66), with the recent-vote count as an input and the store
      standing for the database. */
  method RunJob(store: UserStore, newVotesCount: int, users: seq<User>, partition: Partitioner) returns (outcome: JobOutcome)
    requires IsPartitioner(partition)
    modifies store
    ensures newVotesCount < MIN_NEW_VOTES ==> outcome == GateClosed && store.records == old(store.records)
    ensures (outcome, store.records) == Job(old(store.records), newVotesCount, users, partition)
  {
    if newVotesCount < MIN_NEW_VOTES {
      return GateClosed;
    }
    var global := RunClustering(store, users, GLOBAL_SCOPE, MIN_VOTES_GLOBAL, partition);
    if global.Aborted? {
      return Failed(GLOBAL_SCOPE, global.user);
    }
    outcome := RunTopics(store, users, partition);
  }

  /** Between `before` and `after` the global fields are untouched, and every
      topic entry that changed is under one of `topics` and holds an id in [1, k]. */
  ghost predicate TopicChangesWithin(before: map<UserId, UserRecord>, after: map<UserId, UserRecord>, topics: seq<string>, k: int)
  {
    && after.Keys == before.Keys
    && (forall u :: u in before ==>
          after[u].clusterId == before[u].clusterId && after[u].clusterLabel == before[u].clusterLabel)
    && (forall u, key :: u in before && TopicLookup(after[u], key) != TopicLookup(before[u], key) ==>
          key in topics && TopicLookup(after[u], key).Some? && 1 <= TopicLookup(after[u], key).value <= k)
  }

  /** The first topic's changes followed by those of the rest fit within the
      topic phase's. */
  lemma TopicChangesCons(records: map<UserId, UserRecord>, mid: map<UserId, UserRecord>, after: map<UserId, UserRecord>, topics: seq<string>, k: int)
    requires |topics| > 0 && topics[0] != GLOBAL_SCOPE
    requires ChangesWithin(records, mid, topics[0], k)
    requires TopicChangesWithin(mid, after, topics[1..], k)
    ensures TopicChangesWithin(records, after, topics, k)
  {
    assert forall key :: key in topics[1..] ==> key in topics;
    forall u, key | u in records && TopicLookup(after[u], key) != TopicLookup(records[u], key)
      ensures key in topics && TopicLookup(after[u], key).Some? && 1 <= TopicLookup(after[u], key).value <= k
    {
      if TopicLookup(mid[u], key) == TopicLookup(records[u], key) {
        assert key in topics[1..];
      } else {
        assert mid[u] != records[u];
        assert ScopeFieldOnly(records[u], mid[u], topics[0]);
        assert key == topics[0];
        if TopicLookup(after[u], key) == TopicLookup(mid[u], key) {
          assert HoldsScopeId(mid[u], topics[0], k);
        }
      }
    }
  }

  /** A topic's turn changes rows only in that topic's entry, to ids in [1, 3]. */
  lemma TopicStepEffect(records: map<UserId, UserRecord>, users: seq<User>, topic: string, partition: Partitioner)
    requires IsPartitioner(partition)
    ensures ChangesWithin(records, TopicStep(records, users, topic, partition).1, topic, WANTED_CLUSTERS)
  {
    var topicUsers := SliceTopic(users, topic);
    if |topicUsers| >= MIN_USERS {
      ScopeRunEffect(records, topicUsers, topic, MIN_VOTES_TOPIC, partition);
    }
  }

  /** The topic phase never touches the global fields, and changes topic
      entries only under the topics it runs, each to an id in [1, 3]. */
  lemma {:induction false} TopicPhaseEffect(records: map<UserId, UserRecord>, users: seq<User>, topics: seq<string>, partition: Partitioner)
    requires IsPartitioner(partition)
    requires GLOBAL_SCOPE !in topics
    ensures TopicChangesWithin(records, TopicPhase(records, users, topics, partition).1, topics, WANTED_CLUSTERS)
    decreases |topics|
  {
    if |topics| > 0 {
      var step := TopicStep(records, users, topics[0], partition);
      TopicStepEffect(records, users, topics[0], partition);
      assert forall t :: t in topics[1..] ==> t in topics;
      if step.0.Failed? {
        assert TopicChangesWithin(step.1, step.1, topics[1..], WANTED_CLUSTERS);
        TopicChangesCons(records, step.1, step.1, topics, WANTED_CLUSTERS);
      } else {
        TopicPhaseEffect(step.1, users, topics[1..], partition);
        TopicChangesCons(records, step.1, TopicPhase(step.1, users, topics[1..], partition).1, topics, WANTED_CLUSTERS);
      }
    }
  }

  /** What the whole job may do to the rows: none appears or disappears; a
      changed global id is in [1, 3] with its label; a changed topic entry is
      under a configured topic and in [1, 3]. */
  ghost predicate JobChangesWithin(before: map<UserId, UserRecord>, after: map<UserId, UserRecord>)
  {
    && after.Keys == before.Keys
    && (forall u :: u in before ==>
          (after[u].clusterId == before[u].clusterId && after[u].clusterLabel == before[u].clusterLabel)
          || HoldsScopeId(after[u], GLOBAL_SCOPE, WANTED_CLUSTERS))
    && (forall u, key :: u in before && TopicLookup(after[u], key) != TopicLookup(before[u], key) ==>
          key in TOPICS && TopicLookup(after[u], key).Some? && 1 <= TopicLookup(after[u], key).value <= WANTED_CLUSTERS)
  }

  /** The global phase followed by the topic phase stays within the job's bounds. */
  lemma GlobalThenTopics(records: map<UserId, UserRecord>, mid: map<UserId, UserRecord>, after: map<UserId, UserRecord>)
    requires ChangesWithin(records, mid, GLOBAL_SCOPE, WANTED_CLUSTERS)
    requires TopicChangesWithin(mid, after, TOPICS, WANTED_CLUSTERS)
    ensures JobChangesWithin(records, after)
  {
    forall u, key | u in records && TopicLookup(after[u], key) != TopicLookup(records[u], key)
      ensures key in TOPICS && TopicLookup(after[u], key).Some? && 1 <= TopicLookup(after[u], key).value <= WANTED_CLUSTERS
    {
      assert mid[u].topicClusters == records[u].topicClusters;
    }
  }

  /** Whatever the partitioner returns and wherever the job stops, it stays
      within JobChangesWithin. */
  lemma JobEffect(records: map<UserId, UserRecord>, newVotesCount: int, users: seq<User>, partition: Partitioner)
    requires IsPartitioner(partition)
    ensures JobChangesWithin(records, Job(records, newVotesCount, users, partition).1)
  {
    if newVotesCount >= MIN_NEW_VOTES {
      var global := ScopeRun(records, users, GLOBAL_SCOPE, MIN_VOTES_GLOBAL, partition);
      ScopeRunEffect(records, users, GLOBAL_SCOPE, MIN_VOTES_GLOBAL, partition);
      if global.0.Aborted? {
        assert TopicChangesWithin(global.1, global.1, TOPICS, WANTED_CLUSTERS);
        GlobalThenTopics(records, global.1, global.1);
      } else {
        TopicPhaseEffect(global.1, users, TOPICS, partition);
        GlobalThenTopics(records, global.1, TopicPhase(global.1, users, TOPICS, partition).1);
      }
    }
  }

  /** A completed job with at least five globally active users clustered the
      global scope and then ran the topic phase on its rows. */
  lemma JobCompletedRuns(records: map<UserId, UserRecord>, newVotesCount: int, users: seq<User>, partition: Partitioner)
    requires IsPartitioner(partition)
    requires Job(records, newVotesCount, users, partition).0 == Completed
    requires |ActiveUsers(users, MIN_VOTES_GLOBAL)| >= MIN_USERS
    ensures var global := ScopeRun(records, users, GLOBAL_SCOPE, MIN_VOTES_GLOBAL, partition);
      && global.0.Clustered?
      && Job(records, newVotesCount, users, partition).1 == TopicPhase(global.1, users, TOPICS, partition).1
  {
  }

  /** The topic phase leaves a global id where it finds one. */
  lemma TopicPhaseKeepsGlobal(records: map<UserId, UserRecord>, users: seq<User>, partition: Partitioner, id: UserId)
    requires IsPartitioner(partition)
    requires id in records && HoldsScopeId(records[id], GLOBAL_SCOPE, WANTED_CLUSTERS)
    ensures var after := TopicPhase(records, users, TOPICS, partition).1;
      id in after && HoldsScopeId(after[id], GLOBAL_SCOPE, WANTED_CLUSTERS)
  {
    TopicPhaseEffect(records, users, TOPICS, partition);
    var after := TopicPhase(records, users, TOPICS, partition).1;
    assert after[id].clusterId == records[id].clusterId && after[id].clusterLabel == records[id].clusterLabel;
  }

  /** A completed job with at least five globally active users leaves each of
      them a global id in [1, 3] with its label; no active user keeps id 0. */
  lemma JobGlobalIds(records: map<UserId, UserRecord>, newVotesCount: int, users: seq<User>, partition: Partitioner, u: User)
    requires IsPartitioner(partition)
    requires Job(records, newVotesCount, users, partition).0 == Completed
    requires |ActiveUsers(users, MIN_VOTES_GLOBAL)| >= MIN_USERS
    requires u in ActiveUsers(users, MIN_VOTES_GLOBAL)
    ensures u.id in records && HoldsScopeId(Job(records, newVotesCount, users, partition).1[u.id], GLOBAL_SCOPE, WANTED_CLUSTERS)
  {
    var global := ScopeRun(records, users, GLOBAL_SCOPE, MIN_VOTES_GLOBAL, partition);
    JobCompletedRuns(records, newVotesCount, users, partition);
    ScopeRunHolds(records, users, GLOBAL_SCOPE, MIN_VOTES_GLOBAL, partition, u);
    TopicPhaseKeepsGlobal(global.1, users, partition, u.id);
  }

}
