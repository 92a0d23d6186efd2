/**
 * The home feed (src/app/page.tsx): which posts are shown and in what order,
 * how the query parameters select them, where ad cards go, and how a post's
 * author cluster is captioned.
 *
 * The post table is an in-memory sequence; `findMany` is a filter, a
 * newest-first sort and a take of 50.
 */
module Feed {
  import opened Wrappers
  import Seqs
  import Text

  /** The fields of a post the feed reads; `createdAt` in milliseconds. */
  datatype Post = Post(id: string, authorClusterId: int, tagNames: seq<string>, createdAt: int)

  /** The `where` object of getPosts: an author-cluster equality and a tag
      list, each present or not. */
  datatype Where = Where(authorClusterId: Option<int>, tagNames: Option<seq<string>>)

  /** A post passes a `where`: its author cluster is the one asked for, and
      one of its tags is named in the list (`tags: { some: ... in ... }`). */
  predicate Matches(w: Where, p: Post)
  {
    && (w.authorClusterId.None? || p.authorClusterId == w.authorClusterId.value)
    && (w.tagNames.None? || exists t :: t in p.tagNames && t in w.tagNames.value)
  }

  /** Lines 18-32: the cluster filter is added only for a defined, nonzero
      id; the tag filter only for a defined, non-empty list. */
  function BuildWhere(clusterId: Option<int>, tagFilters: Option<seq<string>>): (w: Where)
    ensures w.authorClusterId.Some? <==> clusterId.Some? && clusterId.value != 0
    ensures w.authorClusterId.Some? ==> w.authorClusterId == clusterId
    ensures w.tagNames.Some? <==> tagFilters.Some? && |tagFilters.value| > 0
    ensures w.tagNames.Some? ==> w.tagNames == tagFilters
  {
    Where(
      if clusterId.Some? && clusterId.value != 0 then clusterId else None,
      if tagFilters.Some? && |tagFilters.value| > 0 then tagFilters else None)
  }

  /** What getPosts is meant to select, read off its arguments: cluster 0 or
      none shows every author, and an empty or missing tag list every tag. */
  predicate Selected(clusterId: Option<int>, tagFilters: Option<seq<string>>, p: Post)
  {
    && (clusterId.None? || clusterId.value == 0 || p.authorClusterId == clusterId.value)
    && (tagFilters.None? || |tagFilters.value| == 0 || exists t :: t in p.tagNames && t in tagFilters.value)
  }

  /** The `where` built from the arguments selects exactly the posts they ask for. */
  lemma BuildWhereSelects(clusterId: Option<int>, tagFilters: Option<seq<string>>, p: Post)
    ensures Matches(BuildWhere(clusterId, tagFilters), p) <==> Selected(clusterId, tagFilters, p)
  {
  }

  /** Newest first: no post is newer than one before it. */
  predicate NewestFirst(s: seq<Post>)
  {
    forall i, j :: 0 <= i < j < |s| ==> s[i].createdAt >= s[j].createdAt
  }

  /** Puts `x` into a newest-first list, ahead of the posts no newer than it. */
  function Insert(x: Post, t: seq<Post>): (r: seq<Post>)
    requires NewestFirst(t)
    ensures NewestFirst(r)
    ensures multiset(r) == multiset(t) + multiset{x}
  {
    if |t| == 0 || x.createdAt >= t[0].createdAt then [x] + t
    else
      var rest := Insert(x, t[1..]);
      assert t == [t[0]] + t[1..];
      ConsNewest(t[0], rest);
      [t[0]] + rest
  }

  /** A post no older than the head of a newest-first list can go before it. */
  lemma ConsNewest(a: Post, s: seq<Post>)
    requires NewestFirst(s) && (|s| > 0 ==> s[0].createdAt <= a.createdAt)
    ensures NewestFirst([a] + s)
  {
  }

  /** `orderBy: { createdAt: 'desc' }` (line 36): newest first, a
      permutation of the posts. */
  function SortNewest(s: seq<Post>): (r: seq<Post>)
    ensures NewestFirst(r)
    ensures multiset(r) == multiset(s)
  {
    if |s| == 0 then []
    else
      assert s == [s[0]] + s[1..];
      Insert(s[0], SortNewest(s[1..]))
  }

  /** `take: 50` (line 37). */
  const PAGE_SIZE := 50

  /** The matching posts of the table, newest first (lines 34-36). */
  function Ordered(posts: seq<Post>, clusterId: Option<int>, tagFilters: Option<seq<string>>): seq<Post>
  {
    var w := BuildWhere(clusterId, tagFilters);
    SortNewest(Seqs.Filter(posts, (p: Post) => Matches(w, p)))
  }

  /** getPosts (lines 14-45) over the post table: the first 50 of the
      ordered matches, all of them when there are fewer. */
  function GetPosts(posts: seq<Post>, clusterId: Option<int>, tagFilters: Option<seq<string>>): (r: seq<Post>)
    ensures |r| <= PAGE_SIZE && NewestFirst(r)
    ensures |r| <= |Ordered(posts, clusterId, tagFilters)| && r == Ordered(posts, clusterId, tagFilters)[..|r|]
    ensures |r| < PAGE_SIZE ==> r == Ordered(posts, clusterId, tagFilters)
  {
    var sorted := Ordered(posts, clusterId, tagFilters);
    if |sorted| <= PAGE_SIZE then sorted else sorted[..PAGE_SIZE]
  }

  /** The ordered posts are exactly the selected posts of the table. */
  lemma OrderedSelects(posts: seq<Post>, clusterId: Option<int>, tagFilters: Option<seq<string>>, p: Post)
    ensures p in Ordered(posts, clusterId, tagFilters) <==> p in posts && Selected(clusterId, tagFilters, p)
  {
    var w := BuildWhere(clusterId, tagFilters);
    var matching := Seqs.Filter(posts, (p: Post) => Matches(w, p));
    var sorted := SortNewest(matching);
    assert sorted == Ordered(posts, clusterId, tagFilters);
    assert multiset(sorted) == multiset(matching);
    assert p in sorted <==> p in multiset(sorted);
    assert p in matching <==> p in multiset(matching);
    assert p in matching <==> p in posts && Matches(w, p);
    BuildWhereSelects(clusterId, tagFilters, p);
  }

  /** In a newest-first list, every post before index n is at least as new
      as the post at index k >= n. */
  lemma PrefixNewer(s: seq<Post>, n: nat, k: nat, q: Post)
    requires NewestFirst(s) && n <= k < |s| && q in s[..n]
    ensures q.createdAt >= s[k].createdAt
  {
    var i :| 0 <= i < n && s[..n][i] == q;
    assert s[i] == q;
  }

  /** The feed holds at most 50 posts, newest first, each a selected post of the table. */
  lemma GetPostsSound(posts: seq<Post>, clusterId: Option<int>, tagFilters: Option<seq<string>>)
    ensures var r := GetPosts(posts, clusterId, tagFilters);
      && |r| <= PAGE_SIZE
      && NewestFirst(r)
      && (forall p :: p in r ==> p in posts && Selected(clusterId, tagFilters, p))
  {
    var sorted := Ordered(posts, clusterId, tagFilters);
    var r := GetPosts(posts, clusterId, tagFilters);
    assert r == sorted[..|r|];
    forall p | p in r
      ensures p in posts && Selected(clusterId, tagFilters, p)
    {
      OrderedSelects(posts, clusterId, tagFilters, p);
    }
  }

  /** A selected post left out of the feed means the page is full of posts
      at least as new. */
  lemma GetPostsNewest(posts: seq<Post>, clusterId: Option<int>, tagFilters: Option<seq<string>>, p: Post)
    requires p in posts && Selected(clusterId, tagFilters, p)
    requires p !in GetPosts(posts, clusterId, tagFilters)
    ensures |GetPosts(posts, clusterId, tagFilters)| == PAGE_SIZE
    ensures forall q :: q in GetPosts(posts, clusterId, tagFilters) ==> q.createdAt >= p.createdAt
  {
    var sorted := Ordered(posts, clusterId, tagFilters);
    OrderedSelects(posts, clusterId, tagFilters, p);
    var k :| 0 <= k < |sorted| && sorted[k] == p;
    assert |sorted| > PAGE_SIZE;
    assert sorted[..k + 1][k] == p;
    assert k >= PAGE_SIZE;
    forall q | q in sorted[..PAGE_SIZE]
      ensures q.createdAt >= p.createdAt
    {
      PrefixNewer(sorted, PAGE_SIZE, k, q);
    }
  }

  /** A query parameter: absent, one string, or repeated. */
  datatype Param = Absent | One(value: string) | Many(values: seq<string>)

  /** The tag list of line 57: none without a (truthy) parameter, a repeated
      parameter as given, one string split on commas. */
  function TagFilters(tags: Param): (r: seq<string>)
    ensures tags.Absent? || tags == One("") ==> r == []
    ensures tags.Many? ==> r == tags.values
    ensures tags.One? && tags.value != "" ==>
      |r| >= 1 && Text.Join(r, ',') == tags.value && forall i :: 0 <= i < |r| ==> ',' !in r[i]
  {
    match tags
    case Absent => []
    case One(s) => if s == "" then [] else Text.SplitJoinsBack(s, ','); Text.Split(s, ',')
    case Many(values) => values
  }

  /** Line 55: the lens is "mine" only for the single value "mine". */
  predicate LensMine(lens: Param)
  {
    lens == One("mine")
  }

  /** Lines 59-63: the feed is restricted to the session user's cluster only
      when the lens is "mine" and that cluster is known and nonzero. */
  function TargetCluster(lens: Param, sessionCluster: Option<int>): (r: Option<int>)
    ensures r.Some? <==> LensMine(lens) && sessionCluster.Some? && sessionCluster.value != 0
    ensures r.Some? ==> r == sessionCluster
  {
    if LensMine(lens) && sessionCluster.Some? && sessionCluster.value != 0 then sessionCluster else None
  }

  /** Home's feed (lines 55-65): posts from the tags parameter and the lens;
      at most a page of posts of the table, newest first. */
  function HomeFeed(posts: seq<Post>, lens: Param, tags: Param, sessionCluster: Option<int>): (r: seq<Post>)
    ensures |r| <= PAGE_SIZE && NewestFirst(r)
    ensures forall p :: p in r ==> p in posts
  {
    GetPostsSound(posts, TargetCluster(lens, sessionCluster), Some(TagFilters(tags)));
    GetPosts(posts, TargetCluster(lens, sessionCluster), Some(TagFilters(tags)))
  }

  /** With the lens on, every post shown is by an author of the user's own
      cluster; with it off, or without a cluster, authors are not filtered. */
  lemma HomeFeedLens(posts: seq<Post>, lens: Param, tags: Param, sessionCluster: Option<int>, p: Post)
    requires p in HomeFeed(posts, lens, tags, sessionCluster)
    ensures LensMine(lens) && sessionCluster.Some? && sessionCluster.value != 0 ==>
      p.authorClusterId == sessionCluster.value
  {
    GetPostsSound(posts, TargetCluster(lens, sessionCluster), Some(TagFilters(tags)));
  }

  /** Line 112: an ad card goes before the post at `index` when the index is
      a positive multiple of ten. */
  predicate AdBefore(index: int)
    ensures AdBefore(index) ==> index >= 10
  {
    index > 0 && index % 10 == 0
  }

  /** The number of ad cards in a feed of `n` posts. */
  function AdCount(n: nat): nat
  {
    if n == 0 then 0 else AdCount(n - 1) + (if AdBefore(n - 1) then 1 else 0)
  }

  /** A feed of n posts shows (n - 1) / 10 ads: none before the first post,
      one per ten after it. */
  lemma {:induction false} AdCountFormula(n: nat)
    ensures AdCount(n) == if n == 0 then 0 else (n - 1) / 10
  {
    if n > 1 {
      AdCountFormula(n - 1);
      var m := n - 1;
      if m % 10 == 0 {
        assert (m - 1) / 10 + 1 == m / 10;
      } else {
        assert (m - 1) / 10 == m / 10;
      }
    }
  }

  /** The home feed shows at most 4 ad cards, and exactly 4 on a full page. */
  lemma HomeFeedAds(posts: seq<Post>, lens: Param, tags: Param, sessionCluster: Option<int>)
    ensures AdCount(|HomeFeed(posts, lens, tags, sessionCluster)|) <= 4
    ensures |HomeFeed(posts, lens, tags, sessionCluster)| == PAGE_SIZE ==> AdCount(|HomeFeed(posts, lens, tags, sessionCluster)|) == 4
  {
    AdCountFormula(|HomeFeed(posts, lens, tags, sessionCluster)|);
  }

  /** Line 139: the caption of a post's author cluster. */
  function ClusterCaption(authorClusterId: int): (s: string)
    ensures authorClusterId == 0 <==> s == "Observer"
    ensures authorClusterId != 0 ==> |s| > 8 && s[..8] == "Cluster " && s[8..] == Text.IntToString(authorClusterId)
  {
    if authorClusterId == 0 then "Observer" else "Cluster " + Text.IntToString(authorClusterId)
  }

  /** Different clusters never share a caption. */
  lemma ClusterCaptionInjective(a: int, b: int)
    requires ClusterCaption(a) == ClusterCaption(b)
    ensures a == b
  {
    if a != 0 && b != 0 {
      assert ClusterCaption(a)[8..] == Text.IntToString(a);
      assert ClusterCaption(b)[8..] == Text.IntToString(b);
      Text.IntToStringInjective(a, b);
    }
  }
}
