/** Where the clustering job writes (scripts/cluster.ts, lines 110-141): the
    user rows, the global assignment with its label, and the merge of one key
    into a user's topic-cluster map. */
module ClusterStore {
  import opened Wrappers
  import Text
  import Seqs
  import opened ClusterData

  /** The part of a user row the job writes. `topicClusters` is the JSON
      column; None stands for SQL null. */
  datatype UserRecord = UserRecord(clusterId: int, clusterLabel: Option<string>, topicClusters: Option<map<string, int>>)

  /** The label stored with a global assignment (line 119). */
  function GlobalLabel(clusterId: int): string
  {
    "Global Tribe " + Text.IntToString(clusterId)
  }

  /** The label is `Global Tribe ` followed by the decimal text of the id. */
  lemma GlobalLabelText(clusterId: int)
    ensures var s := GlobalLabel(clusterId);
      |s| > 13 && s[..13] == "Global Tribe " && s[13..] == Text.IntToString(clusterId)
  {
  }

  /** Different global ids get different labels: a label names its id. */
  lemma GlobalLabelNamesId(a: int, b: int)
    requires GlobalLabel(a) == GlobalLabel(b)
    ensures a == b
  {
    GlobalLabelText(a);
    GlobalLabelText(b);
    Text.IntToStringInjective(a, b);
  }

  /** The topic map a fresh read yields, a null column read as empty (line 129). */
  function TopicMap(r: UserRecord): map<string, int>
  {
    r.topicClusters.GetOr(map[])
  }

  /** The cluster id stored for `key` in the user's topic map, if any. */
  function TopicLookup(r: UserRecord, key: string): Option<int>
  {
    if key in TopicMap(r) then Some(TopicMap(r)[key]) else None
  }

  /** The row after a global assignment (lines 115-121): scalar id and label
      overwritten, the topic map kept. */
  function WithGlobal(r: UserRecord, clusterId: int): (r': UserRecord)
    ensures r'.clusterId == clusterId && r'.clusterLabel == Some(GlobalLabel(clusterId))
    ensures r'.topicClusters == r.topicClusters
  {
    r.(clusterId := clusterId, clusterLabel := Some(GlobalLabel(clusterId)))
  }

  /** The row after a topic assignment: the read map with `scope` set and
      every other key kept (lines 128-139). */
  function WithTopic(r: UserRecord, scope: string, clusterId: int): (r': UserRecord)
    ensures TopicLookup(r', scope) == Some(clusterId)
    ensures forall key :: key != scope ==> TopicLookup(r', key) == TopicLookup(r, key)
    ensures r'.clusterId == r.clusterId && r'.clusterLabel == r.clusterLabel
  {
    r.(topicClusters := Some(TopicMap(r)[scope := clusterId]))
  }

  /** The row after an assignment in `scope`. */
  function Assigned(r: UserRecord, scope: string, clusterId: int): UserRecord
  {
    if scope == GLOBAL_SCOPE then WithGlobal(r, clusterId) else WithTopic(r, scope, clusterId)
  }

  /** The row carries an id in [1, k] for the scope: for the global scope the
      scalar id with its label, for a topic the map entry under that topic. */
  predicate HoldsScopeId(r: UserRecord, scope: string, k: int)
  {
    if scope == GLOBAL_SCOPE then
      1 <= r.clusterId <= k && r.clusterLabel == Some(GlobalLabel(r.clusterId))
    else
      TopicLookup(r, scope).Some? && 1 <= TopicLookup(r, scope).value <= k
  }

  /** `after` differs from `before` only in the scope's own field. */
  ghost predicate ScopeFieldOnly(before: UserRecord, after: UserRecord, scope: string)
  {
    if scope == GLOBAL_SCOPE then
      after.topicClusters == before.topicClusters
    else
      && after.clusterId == before.clusterId
      && after.clusterLabel == before.clusterLabel
      && forall key :: key != scope ==> TopicLookup(after, key) == TopicLookup(before, key)
  }

  /** An assignment touches only its scope's field and leaves an id in [1, k]
      there when the id is in [1, k]. */
  lemma AssignedChangesScopeOnly(r: UserRecord, scope: string, clusterId: int, k: int)
    requires 1 <= clusterId <= k
    ensures ScopeFieldOnly(r, Assigned(r, scope, clusterId), scope)
    ensures HoldsScopeId(Assigned(r, scope, clusterId), scope, k)
  {
  }

  /** Writing all rows: every row is either untouched or changed only in the
      scope's field, now holding an id in [1, k]. No row is added or removed. */
  ghost predicate ChangesWithin(before: map<UserId, UserRecord>, after: map<UserId, UserRecord>, scope: string, k: int)
  {
    && after.Keys == before.Keys
    && forall u :: u in before ==>
         after[u] == before[u] || (ScopeFieldOnly(before[u], after[u], scope) && HoldsScopeId(after[u], scope, k))
  }

  /** The effect of one write; None when the user row is gone and
      `prisma.user.update` throws. */
  function WriteOne(records: map<UserId, UserRecord>, scope: string, id: UserId, clusterId: int): (r: Option<map<UserId, UserRecord>>)
    ensures r.Some? <==> id in records
    ensures r.Some? ==> r.value.Keys == records.Keys && r.value[id] == Assigned(records[id], scope, clusterId)
    ensures r.Some? ==> forall other :: other in records && other != id ==> r.value[other] == records[other]
  {
    if id in records then Some(records[id := Assigned(records[id], scope, clusterId)]) else None
  }

  /** The rows after writing, and the position of the write that threw, if any. */
  datatype Written = Written(records: map<UserId, UserRecord>, failedAt: Option<nat>)

  /** How many writes went through. */
  function WrittenCount(w: Written, n: nat): nat
  {
    w.failedAt.GetOr(n)
  }

  /** Writing the assignments one user at a time, in row order, and stopping
      at the first write that throws (the loop of lines 110-141). */
  function WriteAll(records: map<UserId, UserRecord>, scope: string, ids: seq<UserId>, clusterIds: seq<int>): (w: Written)
    requires |ids| == |clusterIds|
    ensures w.records.Keys == records.Keys
    ensures w.failedAt.Some? ==> w.failedAt.value < |ids|
    decreases |ids|
  {
    if |ids| == 0 then Written(records, None)
    else
      var n := |ids| - 1;
      var prior := WriteAll(records, scope, ids[..n], clusterIds[..n]);
      if prior.failedAt.Some? then prior
      else match WriteOne(prior.records, scope, ids[n], clusterIds[n])
        case None => Written(prior.records, Some(n))
        case Some(r) => Written(r, None)
  }

  /** A write throws only for a user row that is gone. */
  lemma {:induction false} WriteAllFailedMissing(records: map<UserId, UserRecord>, scope: string, ids: seq<UserId>, clusterIds: seq<int>)
    requires |ids| == |clusterIds|
    ensures var w := WriteAll(records, scope, ids, clusterIds);
      w.failedAt.Some? ==> ids[w.failedAt.value] !in records
  {
    if |ids| > 0 {
      var n := |ids| - 1;
      var prior := WriteAll(records, scope, ids[..n], clusterIds[..n]);
      WriteAllFailedMissing(records, scope, ids[..n], clusterIds[..n]);
      if prior.failedAt.Some? {
        assert ids[..n][prior.failedAt.value] == ids[prior.failedAt.value];
      }
    }
  }

  /** The last user's write: after an earlier failure nothing more happens;
      otherwise the loop fails there exactly when that user's row is gone. */
  lemma WriteAllLast(records: map<UserId, UserRecord>, scope: string, ids: seq<UserId>, clusterIds: seq<int>)
    requires |ids| == |clusterIds| && |ids| > 0
    ensures var n := |ids| - 1;
      var prior := WriteAll(records, scope, ids[..n], clusterIds[..n]);
      var w := WriteAll(records, scope, ids, clusterIds);
      && (prior.failedAt.Some? ==> w == prior)
      && (prior.failedAt.None? ==> (w.failedAt.None? <==> ids[n] in records) && (w.failedAt.Some? ==> w.failedAt == Some(n)))
  {
  }

  /** Every user written was present. */
  lemma {:induction false} WriteAllFoundAt(records: map<UserId, UserRecord>, scope: string, ids: seq<UserId>, clusterIds: seq<int>, i: nat)
    requires |ids| == |clusterIds|
    requires i < WrittenCount(WriteAll(records, scope, ids, clusterIds), |ids|)
    ensures ids[i] in records
  {
    var n := |ids| - 1;
    if i < n {
      WriteAllPriorCount(records, scope, ids, clusterIds, i);
      WriteAllFoundAt(records, scope, ids[..n], clusterIds[..n], i);
      assert ids[..n][i] == ids[i];
    } else {
      WriteAllLastFound(records, scope, ids, clusterIds);
    }
  }

  /** A user written before the last one was written by the shorter loop too. */
  lemma WriteAllPriorCount(records: map<UserId, UserRecord>, scope: string, ids: seq<UserId>, clusterIds: seq<int>, i: nat)
    requires |ids| == |clusterIds| && i + 1 < |ids|
    requires i < WrittenCount(WriteAll(records, scope, ids, clusterIds), |ids|)
    ensures i < WrittenCount(WriteAll(records, scope, ids[..|ids| - 1], clusterIds[..|ids| - 1]), |ids| - 1)
  {
    WriteAllLast(records, scope, ids, clusterIds);
  }

  /** A loop that wrote every user found the last one. */
  lemma WriteAllLastFound(records: map<UserId, UserRecord>, scope: string, ids: seq<UserId>, clusterIds: seq<int>)
    requires |ids| == |clusterIds| && |ids| > 0
    requires WriteAll(records, scope, ids, clusterIds).failedAt.None?
    ensures ids[|ids| - 1] in records
  {
    WriteAllLast(records, scope, ids, clusterIds);
  }

  /** A write throws only for a user row that is gone, and every user
      written was present. */
  lemma WriteAllFound(records: map<UserId, UserRecord>, scope: string, ids: seq<UserId>, clusterIds: seq<int>)
    requires |ids| == |clusterIds|
    ensures var w := WriteAll(records, scope, ids, clusterIds);
      && (w.failedAt.Some? ==> ids[w.failedAt.value] !in records)
      && (forall i :: 0 <= i < WrittenCount(w, |ids|) ==> ids[i] in records)
  {
    WriteAllFailedMissing(records, scope, ids, clusterIds);
    forall i | 0 <= i < WrittenCount(WriteAll(records, scope, ids, clusterIds), |ids|)
      ensures ids[i] in records
    {
      WriteAllFoundAt(records, scope, ids, clusterIds, i);
    }
  }

  /** Users not in the list keep their rows. */
  lemma {:induction false} WriteAllUntouched(records: map<UserId, UserRecord>, scope: string, ids: seq<UserId>, clusterIds: seq<int>, u: UserId)
    requires |ids| == |clusterIds|
    requires u in records && u !in ids
    ensures WriteAll(records, scope, ids, clusterIds).records[u] == records[u]
  {
    if |ids| > 0 {
      var n := |ids| - 1;
      assert u !in ids[..n];
      WriteAllUntouched(records, scope, ids[..n], clusterIds[..n], u);
    }
  }

  /** One more assignment with an id in [1, k] keeps all changes within the scope. */
  lemma ChangesWithinStep(records: map<UserId, UserRecord>, prior: map<UserId, UserRecord>, scope: string, k: int, id: UserId, clusterId: int)
    requires ChangesWithin(records, prior, scope, k)
    requires id in prior && 1 <= clusterId <= k
    ensures ChangesWithin(records, prior[id := Assigned(prior[id], scope, clusterId)], scope, k)
  {
    var r := prior[id := Assigned(prior[id], scope, clusterId)];
    AssignedChangesScopeOnly(prior[id], scope, clusterId, k);
    if prior[id] != records[id] {
      ScopeFieldOnlyTrans(records[id], prior[id], r[id], scope);
    }
  }

  /** Writes change rows only in the scope's field, leaving ids in [1, k]. */
  lemma {:induction false} WriteAllChanges(records: map<UserId, UserRecord>, scope: string, ids: seq<UserId>, clusterIds: seq<int>, k: int)
    requires |ids| == |clusterIds|
    requires forall i :: 0 <= i < |clusterIds| ==> 1 <= clusterIds[i] <= k
    ensures ChangesWithin(records, WriteAll(records, scope, ids, clusterIds).records, scope, k)
  {
    if |ids| > 0 {
      var n := |ids| - 1;
      var prior := WriteAll(records, scope, ids[..n], clusterIds[..n]);
      WriteAllChanges(records, scope, ids[..n], clusterIds[..n], k);
      if prior.failedAt.None? && ids[n] in prior.records {
        ChangesWithinStep(records, prior.records, scope, k, ids[n], clusterIds[n]);
      }
    }
  }

  /** Every user written holds an id in [1, k] for the scope. */
  lemma {:induction false} WriteAllHolds(records: map<UserId, UserRecord>, scope: string, ids: seq<UserId>, clusterIds: seq<int>, k: int, i: nat)
    requires |ids| == |clusterIds|
    requires forall i :: 0 <= i < |clusterIds| ==> 1 <= clusterIds[i] <= k
    requires i < WrittenCount(WriteAll(records, scope, ids, clusterIds), |ids|)
    ensures ids[i] in records
    ensures HoldsScopeId(WriteAll(records, scope, ids, clusterIds).records[ids[i]], scope, k)
  {
    WriteAllFound(records, scope, ids, clusterIds);
    var n := |ids| - 1;
    var prior := WriteAll(records, scope, ids[..n], clusterIds[..n]);
    if prior.failedAt.Some? {
      WriteAllHolds(records, scope, ids[..n], clusterIds[..n], k, i);
    } else if ids[n] !in prior.records {
      WriteAllHolds(records, scope, ids[..n], clusterIds[..n], k, i);
    } else {
      AssignedChangesScopeOnly(prior.records[ids[n]], scope, clusterIds[n], k);
      if i < n && ids[i] != ids[n] {
        WriteAllHolds(records, scope, ids[..n], clusterIds[..n], k, i);
      }
    }
  }

  /** When no write throws, every user listed holds an id in [1, k]. */
  lemma WriteAllHoldsEvery(records: map<UserId, UserRecord>, scope: string, ids: seq<UserId>, clusterIds: seq<int>, k: int, id: UserId)
    requires |ids| == |clusterIds|
    requires forall i :: 0 <= i < |clusterIds| ==> 1 <= clusterIds[i] <= k
    requires WriteAll(records, scope, ids, clusterIds).failedAt.None? && id in ids
    ensures id in records && HoldsScopeId(WriteAll(records, scope, ids, clusterIds).records[id], scope, k)
  {
    var i :| 0 <= i < |ids| && ids[i] == id;
    WriteAllHolds(records, scope, ids, clusterIds, k, i);
  }

  /** Two changes of the scope's field are one such change. */
  lemma ScopeFieldOnlyTrans(a: UserRecord, b: UserRecord, c: UserRecord, scope: string)
    requires ScopeFieldOnly(a, b, scope) && ScopeFieldOnly(b, c, scope)
    ensures ScopeFieldOnly(a, c, scope)
  {
  }

  /** When the user ids are distinct, each user written holds exactly the
      assignment of its own row. */
  lemma {:induction false} WriteAllAssigns(records: map<UserId, UserRecord>, scope: string, ids: seq<UserId>, clusterIds: seq<int>, i: nat)
    requires |ids| == |clusterIds| && Seqs.Distinct(ids)
    requires i < WrittenCount(WriteAll(records, scope, ids, clusterIds), |ids|)
    ensures ids[i] in records
    ensures WriteAll(records, scope, ids, clusterIds).records[ids[i]] == Assigned(records[ids[i]], scope, clusterIds[i])
  {
    var n := |ids| - 1;
    var prior := WriteAll(records, scope, ids[..n], clusterIds[..n]);
    assert Seqs.Distinct(ids[..n]);
    if i < n {
      if prior.failedAt.None? {
        assert i < WrittenCount(prior, n);
      }
      WriteAllAssigns(records, scope, ids[..n], clusterIds[..n], i);
    } else {
      WriteAllFound(records, scope, ids, clusterIds);
      WriteAllUntouched(records, scope, ids[..n], clusterIds[..n], ids[n]);
    }
  }

  /** The user rows the job reads and writes, keyed by user id. */
  class UserStore {
    var records: map<UserId, UserRecord>

    constructor (records: map<UserId, UserRecord>)
      ensures this.records == records
    {
      this.records := records;
    }

    /** `prisma.user.update` of the scalar id and label (lines 115-121); it
        throws when the user row is gone. */
    method SetGlobal(id: UserId, clusterId: int) returns (ok: bool)
      modifies this
      ensures ok == (id in old(records))
      ensures records == if ok then old(records)[id := WithGlobal(old(records)[id], clusterId)] else old(records)
    {
      if id !in records {
        return false;
      }
      records := records[id := records[id].(clusterId := clusterId, clusterLabel := Some(GlobalLabel(clusterId)))];
      ok := true;
    }

    /** A fresh read of the user's topic map (null read as empty), the map with
        `scope` set to the new id, written back whole (lines 128-139); the write
        throws when the user row is gone. */
    method MergeTopic(id: UserId, scope: string, clusterId: int) returns (ok: bool)
      modifies this
      ensures ok == (id in old(records))
      ensures records == if ok then old(records)[id := WithTopic(old(records)[id], scope, clusterId)] else old(records)
    {
      var current: Option<map<string, int>> := if id in records then records[id].topicClusters else None;
      var currentClusters := current.GetOr(map[]);
      var merged := currentClusters[scope := clusterId];
      if id !in records {
        return false;
      }
      records := records[id := records[id].(topicClusters := Some(merged))];
      ok := true;
    }
  }
}
