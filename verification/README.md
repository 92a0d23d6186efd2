# Parallax core, modelled in Dafny

Parallax is a link-sharing site whose users are grouped into behavioural
cohorts ("tribes", shown as "lenses") by the way they vote. This project
models its core logic and proves properties of it:

- **The clustering job** (`scripts/cluster.ts`). It is gated on recent activity. It slices the users' votes per topic and keeps users with enough votes. It builds the user × post vote matrix: columns are the distinct posts in first-seen order, and each cell holds the user's last vote on that post. It then partitions the users and writes the one-based cluster ids back to the user rows:
  - global ids go into the scalar id and label;
  - topic ids are merged into the per-topic map.

  Files: `cluster_data.dfy` (data and pure rules), `cluster_store.dfy` (user rows, writes, the store class) and `cluster_job.dfy` (the loops, one scope run, the whole job).
- **The vote toggle**, in two places:
  - the button's optimistic prediction and rollback (`src/components/VoteButton.tsx`, `vote_button.dfy`);
  - the endpoint that removes, updates or creates the stored vote (`src/app/api/vote/route.ts`, `vote_route.dfy`).

  `vote_sync.dfy` proves that they agree.
- **The home feed** (`src/app/page.tsx`, `feed.dfy`): the post filter, newest-first order with a limit of 50, the query parameters, ad slots and the author-cluster caption.
- **The tag list** of the post form (`src/components/SubmitPostModal.tsx` line 20, `tag_input.dfy`).

Shared pieces:
- `wrappers.dfy`: `Option`.
- `seqs.dfy`: filter, first-seen dedup, first index.
- `text.dfy`: comma split and join, JavaScript `trim`, integer to decimal string.

Each part keeps the form of the code it models:
- **Imperative code becomes methods over classes.** The job's loops are methods with invariants over an `array2` matrix and a `UserStore` class whose `records` map stands for the user table. The button is a `VoteButton` class. The endpoint is a `VoteStore` class with a sequence of vote rows. Each method is proved equal to a pure specification function: `ScopeRun`, `Job`, `Respond` or `Predict`.
- **Pure code becomes functions and lemmas.** This covers the feed, the tag parser, the slicing and filters, and the index map.
- **The numeric step becomes a parameter.** SVD followed by k-means is the parameter `partition`, taken to be any function that gives each of the m rows an id in `[0, k)` (`IsPartitioner`). Everything proved about the job holds for every such partitioner.

Three points of the code shape the model:
- **A failed write stops the whole job.** `prisma.user.update` on a missing user throws, and `main`'s `catch` ends the process. So `WriteAll` stops at the first missing user, keeps the writes before it, and the job ends `Failed`.
- **Topic users are filtered before the five-user threshold.** The topic threshold at `scripts/cluster.ts:57` counts users after line 55's vote filter.
- **The global vote count includes comment votes.** Global activity (line 69) counts every vote, comment votes included. Only post votes become matrix columns.

## Model

| member | source | states |
|---|---|---|
| ClusterData.SliceTopicSound | scripts/cluster.ts:52-55 | every user of a topic scope has at least 2 votes, exactly one snapshot user's votes on posts tagged with the topic |
| ClusterData.SliceTopicComplete | scripts/cluster.ts:52-55 | every user with at least 2 votes on the topic is in the topic scope, with those votes |
| ClusterData.SliceTopicConcat | scripts/cluster.ts:52-55 | slicing distributes over concatenation of the snapshot, so scope order is snapshot order |
| ClusterData.SliceTopic | scripts/cluster.ts:52-55 | the topic scope has no more users than the snapshot |
| ClusterData.ActiveUsers | scripts/cluster.ts:69 | a user is active exactly when it is in the scope and has at least `minVotes` votes |
| ClusterData.TopicUsersStayActive | scripts/cluster.ts:69 | runClustering's filter keeps every user of a topic scope, since line 55 already demanded 2 votes |
| ClusterData.VotePostIdsExact | scripts/cluster.ts:78-80 | a post id is collected from a user's votes exactly when some vote has that truthy post id |
| ClusterData.PostIdsOfExact | scripts/cluster.ts:77-80 | a post id is collected exactly when some active user's vote has it |
| ClusterData.PostIndexMap | scripts/cluster.ts:82 | the index map has a key exactly for each column, and each key's index points back at it |
| ClusterData.PostIndexMapInverts | scripts/cluster.ts:81-82 | over distinct columns, `postIndexMap.get(postArray[j]) == j` |
| ClusterData.CellIsLastVote | scripts/cluster.ts:91-98 | a cell holds the value of the user's last vote on that post |
| ClusterData.CellWithoutVote | scripts/cluster.ts:90-98 | a cell is 0 when the user has no vote on that post |
| ClusterData.Cell | scripts/cluster.ts:90-98 | a nonzero cell is the value of one of the user's votes on that post |
| ClusterData.CellIsSign | scripts/cluster.ts:90-98 | with votes of ±1 every cell is -1, 0 or 1 |
| ClusterData.Columns | scripts/cluster.ts:77-81 | the columns are distinct and are exactly the collected post ids |
| ClusterData.VoteMatrix | scripts/cluster.ts:90-98 | the matrix has one row per active user and one column per column post |
| ClusterData.ClusterCount | scripts/cluster.ts:106 | k is at most 3 and below m, equals 3 or m-1, and is 3 whenever m ≥ 5 |
| Seqs.Dedup | scripts/cluster.ts:77-81 | the Set-to-array columns are distinct and hold exactly the collected ids |
| Seqs.DedupFirstSeen | scripts/cluster.ts:77-81 | columns are in first-seen order: an earlier column was first seen earlier |
| ClusterStore.GlobalLabelText | scripts/cluster.ts:119 | the global label is `Global Tribe ` followed by the id's decimal text |
| ClusterStore.WithGlobal | scripts/cluster.ts:115-121 | a global assignment sets the id and its label and keeps the topic map |
| ClusterStore.WriteOne | scripts/cluster.ts:114-140 | one write succeeds exactly when the user's row exists; it then assigns that row and keeps every other row and the set of rows |
| ClusterStore.GlobalLabelNamesId | scripts/cluster.ts:119 | the label `Global Tribe {id}` determines the id |
| ClusterStore.WithTopic | scripts/cluster.ts:128-139 | the topic merge sets the scope key to the id, keeps every other key and value, and keeps the global fields; an absent map counts as empty |
| ClusterStore.AssignedChangesScopeOnly | scripts/cluster.ts:114-139 | an assignment changes only the scope's own field and leaves an id in [1, k] there |
| ClusterStore.WriteAll | scripts/cluster.ts:110-141 | the save loop adds or removes no user row, and a failure index names one of the users |
| ClusterStore.WriteAllFound | scripts/cluster.ts:110-141 | the loop stops exactly at the first user missing from the table, all earlier users present |
| ClusterStore.WriteAllFailedMissing | scripts/cluster.ts:115-139 | a write throws only for a user row that is gone |
| ClusterStore.WriteAllFoundAt | scripts/cluster.ts:110-141 | every user written before the loop stopped was present |
| ClusterStore.WriteAllHoldsEvery | scripts/cluster.ts:110-141 | when no write throws, every listed user holds an id in [1, k] for the scope |
| ClusterStore.WriteAllUntouched | scripts/cluster.ts:110-141 | a user not being written keeps its row |
| ClusterStore.WriteAllChanges | scripts/cluster.ts:110-141 | every row is untouched or changed only in the scope's field to an id in [1, k] |
| ClusterStore.WriteAllHolds | scripts/cluster.ts:110-141 | every user written before a failure holds an id in [1, k] for the scope |
| ClusterStore.WriteAllAssigns | scripts/cluster.ts:110-112 | with distinct user ids, each user written holds exactly its own row's assignment |
| ClusterStore.UserStore.SetGlobal | scripts/cluster.ts:115-121 | a global update writes the id and `Global Tribe {id}`, or fails and changes nothing when the user is missing |
| ClusterStore.UserStore.MergeTopic | scripts/cluster.ts:128-139 | a topic update reads the current map and writes it back with the scope key set, or fails when the user is missing |
| ClusterJob.OneBased | scripts/cluster.ts:112 | each stored id is its raw k-means id plus one, row for row |
| ClusterJob.OneBasedInRange | scripts/cluster.ts:112 | stored ids are k-means ids plus one, in [1, k] and never 0 |
| ClusterJob.AddVotePostIds | scripts/cluster.ts:78-80 | the inner forEach adds a user's truthy post ids to the Set, keeping the Set and its insertion order in step |
| ClusterJob.CollectColumns | scripts/cluster.ts:77-81 | the Set fill and `Array.from` give exactly the distinct post ids in first-seen order |
| ClusterJob.BuildMatrix | scripts/cluster.ts:89-98 | the filled matrix is m × n and cell (i, j) is user i's last vote on post j, 0 without one |
| ClusterJob.ScopeWrite | scripts/cluster.ts:109-141 | the save phase ends clustered with m users, the column count and k clusters, or aborted for an active user whose row is gone; no row appears or disappears |
| ClusterJob.ScopeRun | scripts/cluster.ts:68-141 | a scope is skipped, with no write, exactly when fewer than 5 users are active; a clustered scope reports its user count and 3 clusters; no user row appears or disappears |
| ClusterJob.ApplyVote | scripts/cluster.ts:94-96 | a vote with a truthy post id sets exactly that post's cell of the row to its value; every other cell is unchanged |
| ClusterJob.FillRow | scripts/cluster.ts:92-97 | a zeroed row ends holding the user's last vote on each column post; other rows are unchanged |
| ClusterJob.SaveUser | scripts/cluster.ts:114-140 | one user's write succeeds exactly when the row exists, and then is the specified assignment; a failed one changes nothing |
| ClusterJob.WriteAllNext | scripts/cluster.ts:110-141 | a throwing write ends the whole loop at that user; a successful one extends the rows written so far |
| ClusterJob.SaveResults | scripts/cluster.ts:109-141 | the save loop's table and failure point are those of the write specification |
| ClusterJob.RunClustering | scripts/cluster.ts:68-143 | runClustering's outcome and table are those of `ScopeRun` |
| ClusterJob.WriteAllStops | scripts/cluster.ts:110-141 | after the first failed write no later user is written |
| ClusterJob.ScopeRunEffect | scripts/cluster.ts:109-141 | a scope run changes rows only in its own field, each changed row holding an id in [1, 3] |
| ClusterJob.ScopeRunHolds | scripts/cluster.ts:109-141 | when a scope is clustered every active user holds an id in [1, 3] for it, never 0 |
| ClusterJob.ScopeWriteAssigns | scripts/cluster.ts:110-121 | with distinct ids, the user of row i gets exactly partition row i plus one |
| ClusterJob.ScopeWriteEffect | scripts/cluster.ts:109-141 | the save phase changes rows only in the scope's field, to ids in [1, k] |
| ClusterJob.ScopeWriteHolds | scripts/cluster.ts:109-141 | when no write throws, every active user holds an id in [1, k] for the scope |
| ClusterJob.TopicStep | scripts/cluster.ts:50-62 | a topic turn completes or fails naming its topic; with fewer than 5 sliced users it changes nothing; it never adds or removes a row |
| ClusterJob.TopicPhase | scripts/cluster.ts:49-63 | the topic loop completes, or fails naming one of the topics it runs, keeping the set of user rows |
| ClusterJob.TopicStepEffect | scripts/cluster.ts:50-62 | a topic turn changes rows only in that topic's entry, to ids in [1, 3] |
| ClusterJob.TopicPhaseFrom | scripts/cluster.ts:49-63 | the loop from topic t on is topic t's turn, then, unless it failed, the loop from topic t + 1 on |
| ClusterJob.Job | scripts/cluster.ts:14-66 | the gate closes exactly below 10 recent votes and then changes nothing; no user row appears or disappears |
| ClusterJob.RunTopic | scripts/cluster.ts:50-62 | one turn of the topic loop on the store is the specified topic turn |
| ClusterJob.RunTopics | scripts/cluster.ts:49-63 | the topic loop on the store is the topic phase over Tech, Startup, Policy, Science, News in that order |
| ClusterJob.RunJob | scripts/cluster.ts:14-66 | main leaves the store and outcome of the job specification, and below the gate touches nothing |
| ClusterJob.TopicPhaseEffect | scripts/cluster.ts:49-63 | the topic phase never touches global id or label, and changes only topic entries it runs, to ids in [1, 3] |
| ClusterJob.JobEffect | scripts/cluster.ts:14-66 | the job keeps all user rows; a changed global id is in [1, 3] with its label; a changed topic entry is under a configured topic, in [1, 3] |
| ClusterJob.JobCompletedRuns | scripts/cluster.ts:14-66 | a completed job with at least 5 globally active users clustered the global scope and then ran the topic loop on its rows |
| ClusterJob.TopicPhaseKeepsGlobal | scripts/cluster.ts:49-63 | the topic loop leaves a global id in [1, 3] where it finds one |
| ClusterJob.JobGlobalIds | scripts/cluster.ts:44-46 | after a completed job with at least 5 globally active users, each of them has a global id in [1, 3] with its label, never 0 |
| Text.Split | src/components/SubmitPostModal.tsx:20 | `split(',')` gives at least one piece, none containing a comma |
| Text.SplitJoinsBack | src/components/SubmitPostModal.tsx:20 | joining the pieces with commas gives back the input |
| Text.SplitJoin | src/components/SubmitPostModal.tsx:20 | splitting a comma-join of comma-free pieces gives back the pieces |
| Text.SplitConcat | src/components/SubmitPostModal.tsx:20 | splitting at a comma splits each side independently |
| Text.TrimStart | src/components/SubmitPostModal.tsx:20 | drops exactly the leading JavaScript whitespace |
| Text.TrimEnd | src/components/SubmitPostModal.tsx:20 | drops exactly the trailing JavaScript whitespace |
| Text.Trim | src/components/SubmitPostModal.tsx:20 | `trim()` is no longer than its input, is empty or starts and ends with non-whitespace, and holds only characters of the input |
| Text.TrimBlank | src/components/SubmitPostModal.tsx:20 | trimming gives "" exactly for all-whitespace input |
| Text.IntToString | src/app/page.tsx:139 | `${id}` is a '-' exactly for negative ids, then decimal digits without leading zeros whose value is the id's magnitude |
| Text.IntToStringInjective | src/app/page.tsx:139 | different ids have different decimal text |
| TagInput.TrimAll | src/components/SubmitPostModal.tsx:20 | `map(t => t.trim())` trims each piece in place |
| TagInput.TagIsTrimmedPiece | src/components/SubmitPostModal.tsx:20 | each tag is a non-empty trimmed comma piece of the input |
| TagInput.TagsAreClean | src/components/SubmitPostModal.tsx:20 | each tag is non-empty, has no comma, no outer whitespace, and only characters of the input |
| TagInput.ParseTags | src/components/SubmitPostModal.tsx:20 | the tag list has at most one tag per comma-separated piece, and no empty tag |
| TagInput.BlankInputHasNoTags | src/components/SubmitPostModal.tsx:20 | input of only commas and whitespace, the empty input included, gives no tags |
| TagInput.CommaConcatenates | src/components/SubmitPostModal.tsx:20 | the tags of `a,b` are the tags of `a` followed by those of `b` |
| TagInput.ParsedTagsClean | src/components/SubmitPostModal.tsx:20 | every tag is non-empty, comma-free and trims to itself |
| TagInput.CleanTagsReparse | src/components/SubmitPostModal.tsx:20 | a non-empty list of non-empty, trimmed, comma-free tags parses back from its comma join |
| TagInput.ReparseIsIdentity | src/components/SubmitPostModal.tsx:20 | re-parsing the comma-joined tag list gives the same list |
| VoteRoute.Targets | src/app/api/vote/route.ts:31 | with a truthy postId a row matches exactly when it is the user's vote on that post, otherwise exactly when it is the user's vote on the comment |
| VoteRoute.FindFirst | src/app/api/vote/route.ts:30-32 | finds the first row that is the user's vote on the target (the post when postId is truthy, else the comment), or reports none |
| VoteRoute.Respond | src/app/api/vote/route.ts:8-60 | 401 exactly without a session, 400 exactly with neither id truthy, 200 otherwise, and neither 401 nor 400 changes the table |
| VoteRoute.RespondKeepsOthers | src/app/api/vote/route.ts:30-59 | votes by other users or on other targets are untouched and keep their order |
| VoteRoute.RespondToggles | src/app/api/vote/route.ts:34-59 | with one vote at most per user and target, the stored vote becomes 0 when the request repeats it and the requested value otherwise; still one at most |
| VoteRoute.RespondStatus | src/app/api/vote/route.ts:34-59 | Created exactly without a stored vote (one row more, appended), Removed exactly when it has the requested value (one row fewer), Updated otherwise (as many rows, each keeping its place, user, post and comment; only the found row's value changes, to the requested one) |
| VoteRoute.RemoveOnlyMatch | src/app/api/vote/route.ts:34-38 | deleting the only matching row leaves no vote of the user on the target |
| VoteRoute.VoteStore.Post | src/app/api/vote/route.ts:8-60 | the endpoint's response and new table are those of `Respond` |
| VoteButton.Predict | src/components/VoteButton.tsx:27-42 | count − vote is unchanged; the new vote is 0 or the clicked value, 0 exactly when the click repeats the vote; ±1 clicks keep the vote in {-1, 0, 1} |
| VoteButton.PredictTwice | src/components/VoteButton.tsx:34-42 | from no vote, or the same vote, two identical clicks restore the state |
| VoteButton.RequestBody | src/components/VoteButton.tsx:49-51 | the body names the post when postId is truthy and the comment otherwise, with the clicked value |
| VoteButton.VoteButton.constructor | src/components/VoteButton.tsx:13-17 | a missing initial vote starts at 0, the count at the given score, not loading |
| VoteButton.VoteButton.Begin | src/components/VoteButton.tsx:19-46 | without a session or while loading nothing changes; otherwise the prediction is shown, loading set, and the old state kept |
| VoteButton.VoteButton.Settle | src/components/VoteButton.tsx:59-67 | a failed request restores the saved state; loading ends either way |
| VoteButton.VoteButton.HandleVote | src/components/VoteButton.tsx:19-68 | a click sends the right body and ends with the prediction on success and the old state on failure; count − vote never changes |
| VoteSync.ServerAgreesWithButton | src/app/api/vote/route.ts:34-59 | when the button shows the stored vote, the vote stored after its request is the vote the button predicts |
| Feed.BuildWhere | src/app/page.tsx:18-32 | the cluster filter is present exactly for a given nonzero id, the tag filter exactly for a given non-empty list, each equal to its argument |
| Feed.BuildWhereSelects | src/app/page.tsx:18-32 | a post passes the built filter exactly when its author cluster is the asked one (no filter for none or 0) and, for a non-empty list, one of its tags is listed |
| Feed.Insert | src/app/page.tsx:36 | inserting into a newest-first list keeps it newest-first and adds exactly that post |
| Feed.SortNewest | src/app/page.tsx:36 | the order is newest first and a permutation of the posts |
| Feed.OrderedSelects | src/app/page.tsx:14-36 | the sorted matches are exactly the table's posts selected by the arguments |
| Feed.GetPosts | src/app/page.tsx:14-45 | the feed is the first 50 of the ordered matches, all of them when fewer, newest first |
| Feed.GetPostsSound | src/app/page.tsx:14-45 | at most 50 posts, newest first, each a selected post of the table |
| Feed.GetPostsNewest | src/app/page.tsx:34-37 | a selected post left out means the page holds 50 posts, each at least as new |
| Feed.TagFilters | src/app/page.tsx:56-57 | no parameter or "" gives []; a repeated parameter is kept as is; a string is split into comma-free pieces joining back to it |
| Feed.TargetCluster | src/app/page.tsx:59-63 | a cluster filter exists exactly when lens is "mine" and the session cluster is known and nonzero, and is that cluster |
| Feed.HomeFeed | src/app/page.tsx:55-65 | the home feed is at most 50 posts of the table, newest first |
| Feed.HomeFeedLens | src/app/page.tsx:55-65 | with the lens on, every post shown is by an author of the user's own cluster |
| Feed.AdCountFormula | src/app/page.tsx:112 | a feed of n posts shows (n − 1) / 10 ad cards, none before the first post |
| Feed.AdBefore | src/app/page.tsx:112 | an ad card goes only before a post at index 10 or later |
| Feed.HomeFeedAds | src/app/page.tsx:112 | the home feed shows at most 4 ad cards, exactly 4 on a full page of 50 |
| Feed.ClusterCaption | src/app/page.tsx:139 | the caption is "Observer" exactly for cluster 0, and otherwise `Cluster ` followed by the id's decimal text |
| Feed.ClusterCaptionInjective | src/app/page.tsx:139 | different clusters get different captions |

## Left out

- SVD and k-means (`scripts/cluster.ts:100-107`) are floating-point numerics from libraries. They are the `partition` parameter, assumed to give each row an id in `[0, k)`. Two things are not modelled:
  - the k-means++ random initialisation, so one `partition` stands for one fixed draw;
  - the numeric outcome on a matrix with no post columns.
- The recent-vote count query and the wall clock (`scripts/cluster.ts:19-22`) are the input `newVotesCount`.
- The user snapshot query (`scripts/cluster.ts:32-42`) is the input `users`, with each vote's post tags reduced to tag names.
- Logging, `process.exit` and the database disconnect (`scripts/cluster.ts:145-152`) are left out. The `Failed` outcome stands for the exit.
- The topic merge's read and write (`scripts/cluster.ts:128-139`) are one atomic step per user. A concurrent writer's lost update is not modelled, and neither are overlapping runs of the job.
- `ClusterStore.UserStore.MergeTopic`: a stored topic-cluster value that is JSON but not an object is not modelled. The field is either absent or a map.
- `VoteButton.VoteButton.HandleVote`: the network call (`src/components/VoteButton.tsx:53-57`) is the `ok` parameter, and the sign-in alert is left out. React's per-render closures are not modelled, so one click is Begin then Settle, and a second click during the `await` sees `loading`.
- Not modelled in the vote endpoint:
  - a malformed JSON body;
  - a thrown database error (HTTP 500);
  - the unused `where` object (`src/app/api/vote/route.ts:24-27`);
  - id generation for created rows;
  - two concurrent requests racing past the lookup.
- Delete and update by vote id are modelled by the found row's position. Ids are unique, so the two agree.
- `Feed.SortNewest`: the database leaves the order of posts with equal `createdAt` unspecified. The model keeps their table order.
- Not modelled in the feed:
  - the `votes` and `_count` includes of getPosts (`src/app/page.tsx:38-42`), which attach data and select nothing;
  - the popular-tag query;
  - the date text;
  - the rendering.
- The filter component writes a `tribe` parameter, while the page reads `lens`. The model follows the page.
- `ClusterData.Vote` admits a vote with no post that still carries tag names, which the snapshot query cannot return (`scripts/cluster.ts:54` reads the tags through the post). Such a vote would count for a topic; the model does not rule it out.
- Integers are unbounded. JavaScript numbers, and their exponent notation from 1e21, are not modelled.
- `scripts/mirror.ts`, `scripts/screenshot.ts`, the posts and comments endpoints, authentication, and the form, fetch and router parts of SubmitPostModal are not part of this model.
