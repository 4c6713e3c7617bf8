# eric-like like/unlike core, modelled in Dafny

The system lets users like and unlike blog posts. It comes in several variants,
and each is modelled in its own module. The state is:

- the blog counter table (`thumbCount`);
- the thumb table (one record per like);
- the per-user marker hash in Redis (`thumb:{userId}`, with one field per liked blog);
- the time-sliced temporary counter hash (`thumb:temp:{slice}`);
- the log of events published to `thumb-topic`.

Modules:

- `Outcomes`, `Text`, `Entities`, `RedisCache`, `Broker` are shared.
  - `Text` holds Java's `long`, `Long.toString`, `Long.parseLong` and `String.replace(x, "")`.
  - `Entities` holds the request check every toggle runs first.
  - `RedisCache` models the keyspace as a map of hashes. A hash whose last field is deleted disappears.
  - `Broker` holds the event type and the topic.
- `LuaScripts` holds `THUMB_SCRIPT` and `UNTHUMB_SCRIPT`. Each is a function giving the reply code and the new keyspace, plus a method that runs the script on a `Redis` object.
- `LockedThumbService` is the transactional, lock-protected ericlike `ThumbServiceImpl`. It bumps a counter, saves a record and caches the record id.
- `ScriptThumbService` is `ThumbServiceRedisImpl`, which keeps likes in the cache only:
  - the time slice;
  - script-backed like and unlike;
  - `hasThumb`'s lazy expiry: an expired marker answers false and asks for an eviction.
- `MqThumbService` is `ThumbServiceMQImpl`. A toggle publishes an event, and a failed publish runs a compensation on the cache.
- `ThumbConsumer` is the batch consumer:
  - drop null payloads;
  - group by (user, blog);
  - stable-sort each group by time;
  - keep the last event of odd groups, and a null for even groups;
  - accumulate the counter deltas, rows to insert and pairs to delete;
  - write the delete, the counter update and the inserts in batch flushes of at most 500 rows.
- `ReconcileJob` is the nightly job that republishes INCR events for likes the cache has but the thumb table lacks.
- `BlogService` holds the single and list blog views with their `hasThumb` decoration.

Each state-changing operation comes in two parts:

- a class method whose `ensures` ties the new state to a function of the old state;
- the function, which carries the properties the source promises, in its own `ensures` and in lemmas.

HashMap and HashSet iteration order is unspecified in the source. Each such
loop picks its next element with `:|`, so every property holds for every order.

Assumptions:

- `RedisKeyUtil.getUserThumbKey(id)` is `"thumb:" + id` and `getTempThumbKey(s)` is `"thumb:temp:" + s`. The values come from the `like` application's `ThumbConstant` (src/main/java/com/eric/like/constant/ThumbConstant.java:11 and :15). RedisKeyUtil is not part of this model.
- The RedisTemplate serializers are not configured in the source shown. The model assumes:
  - hash fields are written and read as the decimal strings `blogId.toString()`;
  - the ARGV strings a Lua script receives equal those fields;
  - cached record ids and expiry timestamps read back as `Long`. A JSON serializer that returns small numbers as `Integer` would make the `(Long)` casts throw; that is not modelled;
  - the Boolean hash key `true` in the like compensation becomes the field "true".
- The ericlike application's `ThumbConstant.USER_THUMB_KEY_PREFIX` is not part of this model. It is taken to equal the `like` application's "thumb:".
- `saveBatch(list, 500)` in a batch session sends one single-row INSERT per row and flushes every 500 rows. The model records one flush per chunk and does not model the individual statements.
- `blogMapper.batchUpdateThumbCount` adds each delta to its blog's counter. Its SQL is not part of this model.
- A `save` always succeeds. The counter update succeeds exactly when the blog has a row.
- Clock readings, the database's answer to "does this record exist", and the reply code and resulting keyspace of the MQ scripts are parameters.

## Model

| member | source | states |
|---|---|---|
| Text.ParseLongOfIntToString | src/main/java/com/eric/like/service/impl/BlogServiceImpl.java:62-69 | parsing the decimal rendering of any long gives that long back. This is why `Long.valueOf(blog.getId().toString())` is the id again |
| Text.IntToStringInjective | src/main/java/com/eric/ericlike/service/impl/ThumbServiceImpl.java:87-88 | distinct ids render to distinct strings, so distinct blogs use distinct hash fields |
| RedisCache.UserThumbKey | src/main/java/com/eric/ericlike/service/impl/ThumbServiceImpl.java:87 | every user's marker key starts with the prefix "thumb:" |
| RedisCache.UserThumbKeyInjective | src/main/java/com/eric/ericlike/service/impl/ThumbServiceImpl.java:87 | distinct users have distinct marker hashes |
| RedisCache.HGet | src/main/java/com/eric/ericlike/constant/RedisLuaScriptConstant.java:29 | a field is found exactly when its hash exists and holds it |
| RedisCache.HSet | src/main/java/com/eric/ericlike/constant/RedisLuaScriptConstant.java:41 | the named field reads back as the value written; every other field is unchanged; no empty hash appears |
| RedisCache.HDel | src/main/java/com/eric/ericlike/constant/RedisLuaScriptConstant.java:81 | the named fields are gone; every other field is unchanged; a hash left empty is removed |
| RedisCache.MultiGet | src/main/java/com/eric/like/service/impl/BlogServiceImpl.java:64 | one result per requested field, index-aligned, each the HGET of that field |
| LuaScripts.OldCount | src/main/java/com/eric/ericlike/constant/RedisLuaScriptConstant.java:35 | a missing counter reads as 0 and a number reads as itself. A value `tonumber` cannot read is a script error |
| LuaScripts.ThumbScript | src/main/java/com/eric/ericlike/constant/RedisLuaScriptConstant.java:21-52 | an existing marker means -1 with no change, whatever the marker holds. Otherwise the counter becomes old + 1, the marker holds `expireTime`, and the reply is 1. Only those two fields change, and replies are limited to -1 and 1 |
| LuaScripts.UnthumbScript | src/main/java/com/eric/ericlike/constant/RedisLuaScriptConstant.java:61-84 | a missing marker means -1 with no change. Otherwise the counter becomes old - 1, the marker is deleted, and the reply is 1. Only those two fields change |
| LuaScripts.LikeThenUnlikeRestores | src/main/java/com/eric/ericlike/constant/RedisLuaScriptConstant.java:29-81 | starting with no marker, a like and then an unlike both reply 1. The marker is gone again and the counter is back to its old value; every other field is as before |
| LuaScripts.EvalThumbScript | src/main/java/com/eric/ericlike/constant/RedisLuaScriptConstant.java:28-51 | running the script on the server gives the reply and the keyspace that `ThumbScript` specifies; a script error changes nothing |
| LuaScripts.EvalUnthumbScript | src/main/java/com/eric/ericlike/constant/RedisLuaScriptConstant.java:67-83 | likewise for `UnthumbScript` |
| Entities.CheckRequest | src/main/java/com/eric/ericlike/service/impl/ThumbServiceImpl.java:41-47 | a null request or null blogId is "参数错误" (invalid parameter). Then a missing login user is "用户未登录" (not logged in). Otherwise the result is (user id, blog id). Each case holds in both directions |
| LockedThumbService.RecordsUnique | src/main/java/com/eric/ericlike/service/impl/ThumbServiceImpl.java:79-90 | in a consistent store, two records for the same (user, blog) are the same record |
| LockedThumbService.DoThumbStep | src/main/java/com/eric/ericlike/service/impl/ThumbServiceImpl.java:40-95 | request errors and "already liked" (the cache field exists) leave the store unchanged. A blog without a row gives false and no change. Otherwise: the counter +1, one new record under the next id, that id cached, no other cache field touched. The store invariant is preserved |
| LockedThumbService.UndoThumbStep | src/main/java/com/eric/ericlike/service/impl/ThumbServiceImpl.java:98-130 | a missing cache field is "not liked". A non-numeric cached value fails the cast. A blog without a row gives false and no change. Otherwise the counter -1 and the cached id's record is removed. The cache field is deleted only if that record existed; when it did not, the counter decrement still commits and the reply is false. The invariant is preserved |
| LockedThumbService.LikeUnlikeAlternate | src/main/java/com/eric/ericlike/service/impl/ThumbServiceImpl.java:40-135 | after a successful like, hasThumb is true and a second like is refused with no change. The unlike then succeeds and restores counter, records and cache; only the id sequence has moved. hasThumb is false again and a second unlike is refused |
| LockedThumbService.CacheRestored | src/main/java/com/eric/ericlike/service/impl/ThumbServiceImpl.java:86-125 | HSET of a missing field followed by HDEL of that field gives back the same keyspace |
| LockedThumbService.ThumbServiceLocked.HasThumb | src/main/java/com/eric/ericlike/service/impl/ThumbServiceImpl.java:133-135 | true exactly when the user's hash has the blog's field |
| LockedThumbService.ThumbServiceLocked.Save | src/main/java/com/eric/ericlike/service/impl/ThumbServiceImpl.java:83 | the record is stored under a fresh id, the next one in sequence |
| LockedThumbService.ThumbServiceLocked.DoThumb | src/main/java/com/eric/ericlike/service/impl/ThumbServiceImpl.java:40-95 | the step-by-step method produces the reply and the new state that `DoThumbStep` specifies |
| LockedThumbService.ThumbServiceLocked.UndoThumb | src/main/java/com/eric/ericlike/service/impl/ThumbServiceImpl.java:98-130 | likewise for `UndoThumbStep` |
| ScriptThumbService.SliceSecond | src/main/java/com/eric/ericlike/service/impl/ThumbServiceRedisImpl.java:108 | the bucket is one of 0, 10, …, 50, and the second lies in [bucket, bucket + 10) |
| ScriptThumbService.TimeSlice | src/main/java/com/eric/ericlike/service/impl/ThumbServiceRedisImpl.java:105-109 | "HH:mm:" zero-padded, then the bucket unpadded: 7 characters before second 10, otherwise 8 |
| ScriptThumbService.TimeSliceSameBucket | src/main/java/com/eric/ericlike/service/impl/ThumbServiceRedisImpl.java:105-109 | two moments share a slice exactly when hour, minute and 10-second bucket agree (both directions) |
| ScriptThumbService.DoThumbReply | src/main/java/com/eric/ericlike/service/impl/ThumbServiceRedisImpl.java:64-69 | -1 is "already liked", 1 is true, and any other code is false (each an iff) |
| ScriptThumbService.UndoThumbReply | src/main/java/com/eric/ericlike/service/impl/ThumbServiceRedisImpl.java:96-99 | -1 is "not liked", 1 is true, and any other code is false |
| ScriptThumbService.DoThumbStep | src/main/java/com/eric/ericlike/service/impl/ThumbServiceRedisImpl.java:37-70 | request errors and "already liked" leave the cache unchanged. On success the marker holds now + 30 days, the current slice's counter is +1, and every other cache field is unchanged |
| ScriptThumbService.UndoThumbStep | src/main/java/com/eric/ericlike/service/impl/ThumbServiceRedisImpl.java:73-100 | a missing marker is "not liked" with no change. On success the marker is gone, the slice's counter is -1, and every other cache field is unchanged |
| ScriptThumbService.HasThumbDecision | src/main/java/com/eric/ericlike/service/impl/ThumbServiceRedisImpl.java:112-133 | no marker gives the database's answer. An expired marker gives false plus an eviction request. A live marker gives true. A non-numeric marker fails the `(Long)` cast. An eviction is requested only with a false answer |
| ScriptThumbService.LikeThenHasThumb | src/main/java/com/eric/ericlike/service/impl/ThumbServiceRedisImpl.java:53-133 | after a successful like, hasThumb is true without the database for 30 days, then false with an eviction |
| ScriptThumbService.UnlikeThenHasThumb | src/main/java/com/eric/ericlike/service/impl/ThumbServiceRedisImpl.java:89-133 | after a successful unlike, hasThumb falls back to the database |
| ScriptThumbService.ThumbServiceRedis.DoThumb | src/main/java/com/eric/ericlike/service/impl/ThumbServiceRedisImpl.java:37-70 | the method running the script produces the reply and cache of `DoThumbStep` |
| ScriptThumbService.ThumbServiceRedis.UndoThumb | src/main/java/com/eric/ericlike/service/impl/ThumbServiceRedisImpl.java:73-100 | likewise for `UndoThumbStep` |
| ScriptThumbService.ThumbServiceRedis.HasThumb | src/main/java/com/eric/ericlike/service/impl/ThumbServiceRedisImpl.java:112-133 | the reply of `HasThumbDecision`; the eviction is only recorded as requested |
| MqThumbService.ToggleStep | src/main/java/com/eric/like/service/impl/ThumbServiceMQImpl.java:42-113 | request errors and a FAIL reply publish nothing. Any other reply publishes exactly one event for (login user, blog) of the toggle's type and replies true. An event is published iff the reply is a success |
| MqThumbService.LikeCompensation | src/main/java/com/eric/like/service/impl/ThumbServiceMQImpl.java:70-74 | the blog's field and the field "true" are deleted from the user's hash; nothing else changes |
| MqThumbService.UnlikeCompensation | src/main/java/com/eric/like/service/impl/ThumbServiceMQImpl.java:106-110 | the blog's field is put back holding the boolean true; nothing else changes |
| MqThumbService.LikeCompensationFallsBack | src/main/java/com/eric/like/service/impl/ThumbServiceMQImpl.java:70-74 | after the like compensation, hasThumb gives the database's answer |
| MqThumbService.UnlikeCompensationBreaksHasThumb | src/main/java/com/eric/like/service/impl/ThumbServiceMQImpl.java:106-110 | after the unlike compensation as written, every hasThumb for that pair fails the `(Long)` cast |
| MqThumbService.UnlikeCompensationFixed | src/main/java/com/eric/like/service/impl/ThumbServiceMQImpl.java:106-110 | the corrected compensation restores a marker holding an expiry timestamp; nothing else changes |
| MqThumbService.UnlikeCompensationFixedRestoresLike | src/main/java/com/eric/like/service/impl/ThumbServiceMQImpl.java:106-110 | with the corrected compensation, hasThumb is true again until the expiry |
| MqThumbService.ThumbServiceMQ.DoThumb | src/main/java/com/eric/like/service/impl/ThumbServiceMQImpl.java:42-77 | reply and published events as `ToggleStep` with INCR. A failed request check leaves the cache as it was; otherwise the cache is what the script leaves |
| MqThumbService.ThumbServiceMQ.OnLikePublishFailed | src/main/java/com/eric/like/service/impl/ThumbServiceMQImpl.java:70-74 | the cache becomes `LikeCompensation` of the old cache |
| MqThumbService.ThumbServiceMQ.UndoThumb | src/main/java/com/eric/like/service/impl/ThumbServiceMQImpl.java:80-113 | reply and published events as `ToggleStep` with DECR. A failed request check leaves the cache as it was; otherwise the cache is what the script leaves |
| MqThumbService.ThumbServiceMQ.OnUnlikePublishFailed | src/main/java/com/eric/like/service/impl/ThumbServiceMQImpl.java:106-110 | the cache becomes `UnlikeCompensation` of the old cache |
| MqThumbService.ThumbServiceMQ.HasThumb | src/main/java/com/eric/like/service/impl/ThumbServiceMQImpl.java:116-140 | the reply of `HasThumbDecision`; the eviction is only recorded as requested |
| ThumbConsumer.Payloads | src/main/java/com/eric/like/listener/thumb/ThumbConsumer.java:70-73 | exactly the non-null payloads are kept |
| ThumbConsumer.GroupOf | src/main/java/com/eric/like/listener/thumb/ThumbConsumer.java:75-81 | a group holds exactly the batch's events with that (user, blog) key |
| ThumbConsumer.SortByTimeSortsAndPermutes | src/main/java/com/eric/like/listener/thumb/ThumbConsumer.java:86 | the sort is ascending by eventTime and a permutation of the group |
| ThumbConsumer.LastLatestIndex | src/main/java/com/eric/like/listener/thumb/ThumbConsumer.java:86-93 | a reference survivor: no event is later, and no later-positioned event has the same time |
| ThumbConsumer.LastOfSortIsLastLatest | src/main/java/com/eric/like/listener/thumb/ThumbConsumer.java:86-93 | `getLast()` of the stable sort is the reference survivor |
| ThumbConsumer.NetEffectsShape | src/main/java/com/eric/like/listener/thumb/ThumbConsumer.java:70-95 | the net-effect map has exactly the keys of the non-null payloads, and each surviving event belongs to its key |
| ThumbConsumer.NullPayloadIgnored | src/main/java/com/eric/like/listener/thumb/ThumbConsumer.java:70-73 | inserting a null message anywhere leaves the net effects unchanged |
| ThumbConsumer.EvenGroupNetsNothing | src/main/java/com/eric/like/listener/thumb/ThumbConsumer.java:88-91 | a group of even size nets to null |
| ThumbConsumer.OddGroupKeepsLatest | src/main/java/com/eric/like/listener/thumb/ThumbConsumer.java:86-94 | a group of odd size nets to its latest event, the last in batch order among equal times |
| ThumbConsumer.ParityLaw | src/main/java/com/eric/like/listener/thumb/ThumbConsumer.java:86-94 | when a group alternates like/unlike once sorted, the survivor's +1/-1 equals the group's whole sum |
| ThumbConsumer.Accumulate | src/main/java/com/eric/like/listener/thumb/ThumbConsumer.java:98-116 | for any iteration order: `countMap` is keyed by the blogs with a net key, and holds each blog's net INCR keys minus its net DECR keys, even when that is 0. The rows are exactly one per net-INCR key; the delete pairs are exactly one per net-DECR key. `needRemove` is set iff some key nets to DECR. No key is both inserted and deleted |
| ThumbConsumer.RowsAndRemovalsDisjoint | src/main/java/com/eric/like/listener/thumb/ThumbConsumer.java:102-115 | no (user, blog) key yields both an insert and a delete |
| ThumbConsumer.CountMapIsNetCount | src/main/java/com/eric/like/listener/thumb/ThumbConsumer.java:105-114 | the accumulated `countMap` equals the order-independent net count |
| ThumbConsumer.ApplyDeltas | src/main/java/com/eric/like/listener/thumb/ThumbConsumer.java:128-132 | every blog's counter moves by its delta; blogs without a delta keep theirs; no row is added |
| ThumbConsumer.Kept | src/main/java/com/eric/like/listener/thumb/ThumbConsumer.java:119-121 | after the delete, a row remains iff its key is not one of the listed pairs; an empty list deletes nothing |
| ThumbConsumer.Chunks | src/main/java/com/eric/like/listener/thumb/ThumbConsumer.java:134-139 | `saveBatch(thumbs, 500)`: concatenating the batch flushes gives the rows back, in order, and each flush holds 1 to 500 rows |
| ThumbConsumer.ChunksCount | src/main/java/com/eric/like/listener/thumb/ThumbConsumer.java:137 | there are ceil(n / 500) batch flushes |
| ThumbConsumer.InsertWrites | src/main/java/com/eric/like/listener/thumb/ThumbConsumer.java:137 | one batch flush per chunk of at most 500 rows, in order |
| ThumbConsumer.WritesShape | src/main/java/com/eric/like/listener/thumb/ThumbConsumer.java:119-123 | the statements sent are: the delete only if some key nets to DECR, then the counter update only if some blog has a net key, then one batch flush per chunk of at most 500 rows |
| ThumbConsumer.BatchAppliedOf | src/main/java/com/eric/like/listener/thumb/ThumbConsumer.java:98-123 | the accumulated deltas, rows and pairs, applied in the source's order, give `BatchApplied` |
| ThumbConsumer.ThumbDatabase.Remove | src/main/java/com/eric/like/listener/thumb/ThumbConsumer.java:119-121 | rows matching a pair are deleted and the delete statement is logged |
| ThumbConsumer.ThumbDatabase.BatchUpdateBlogs | src/main/java/com/eric/like/listener/thumb/ThumbConsumer.java:128-132 | an empty map changes and sends nothing; otherwise the counters take the deltas and one statement is sent |
| ThumbConsumer.ThumbDatabase.BatchInsertThumbs | src/main/java/com/eric/like/listener/thumb/ThumbConsumer.java:134-139 | the rows are appended and one batch flush per chunk of at most 500 rows is sent, none for an empty list |
| ThumbConsumer.ThumbDatabase.AccumulateBatch | src/main/java/com/eric/like/listener/thumb/ThumbConsumer.java:70-116 | for every batch, steps 1-3 yield an `Accumulated` result: the count, row and delete invariants of `Accumulate` over the whole net-effect map |
| ThumbConsumer.ThumbDatabase.ApplyBatch | src/main/java/com/eric/like/listener/thumb/ThumbConsumer.java:62-123 | the code after the guard, for any batch: counters move by the net counts; rows of net-DECR keys are deleted and one row per net-INCR key is appended; the statements are those of `WritesFor` |
| ThumbConsumer.ThumbConsumerService.ProcessBatch | src/main/java/com/eric/like/listener/thumb/ThumbConsumer.java:51-60 | as written, every batch fails on the `if(true)` guard and, rolled back, changes nothing |
| ReconcileJob.ExtractUserIdOfUserKey | src/main/java/com/eric/like/job/ThumbReconcileJob.java:62 | stripping "thumb:" from a user's marker key and parsing the rest gives the user back |
| ReconcileJob.TempKeyIsNoUser | src/main/java/com/eric/like/job/ThumbReconcileJob.java:58-62 | a "thumb:temp:…" key matches the pattern, but what remains starts with 't' and does not parse |
| ReconcileJob.UserIds | src/main/java/com/eric/like/job/ThumbReconcileJob.java:58-65 | the scan fails (NumberFormatException) iff some key matching "thumb:*" does not parse. Otherwise the ids are exactly the parsed ids of the matching keys |
| ReconcileJob.UserWithMarkersIsScanned | src/main/java/com/eric/like/job/ThumbReconcileJob.java:58-65 | every user who has a marker hash is among the scanned users |
| ReconcileJob.TempKeyAbortsScan | src/main/java/com/eric/like/job/ThumbReconcileJob.java:58-65 | a temporary counter hash in the same keyspace makes the whole scan fail |
| ReconcileJob.CacheBlogIds | src/main/java/com/eric/like/job/ThumbReconcileJob.java:70 | the cache's blog ids are exactly the parsed fields of the user's hash; one non-numeric field fails the parse |
| ReconcileJob.DbBlogIds | src/main/java/com/eric/like/job/ThumbReconcileJob.java:73-79 | a blog id is in the set iff the thumb table has the record (user, blog) |
| ReconcileJob.Drift | src/main/java/com/eric/like/job/ThumbReconcileJob.java:82 | the drift is cache ids minus table ids; it fails iff the cache's ids fail |
| ReconcileJob.MarkedButMissingDrifts | src/main/java/com/eric/like/job/ThumbReconcileJob.java:70-82 | a blog the cache marks for the user and the table lacks is in the drift |
| ReconcileJob.RecordedNeverDrifts | src/main/java/com/eric/like/job/ThumbReconcileJob.java:82 | a blog the table has for the user is never in the drift, so it is never republished |
| ReconcileJob.ExtendEvents | src/main/java/com/eric/like/job/ThumbReconcileJob.java:68-86 | one more user's events extend the earlier users' events without a repeated pair |
| ReconcileJob.ThumbReconcile.ScanUserIds | src/main/java/com/eric/like/job/ThumbReconcileJob.java:58-65 | the cursor loop, in any key order, computes `UserIds` |
| ReconcileJob.ThumbReconcile.SendCompensationEvents | src/main/java/com/eric/like/job/ThumbReconcileJob.java:95-104 | appends exactly one INCR event per blog in the set, for that user, with no pair twice, in any order |
| ReconcileJob.ThumbReconcile.ReconcileUser | src/main/java/com/eric/like/job/ThumbReconcileJob.java:68-86 | a user whose hash has a non-numeric field fails before publishing; otherwise exactly the drift pairs are published |
| ReconcileJob.ThumbReconcile.ReconcileUsers | src/main/java/com/eric/like/job/ThumbReconcileJob.java:68-86 | over all users in any order: one INCR per drift pair, and no pair twice. All drift pairs are covered iff every user's hash parses; otherwise the loop stops at the first bad user with a subset published |
| ReconcileJob.ThumbReconcile.Run | src/main/java/com/eric/like/job/ThumbReconcileJob.java:50-90 | a failing scan publishes nothing. Otherwise the events are those of `Reconciled`, and only the topic is written |
| BlogService.ListHasThumb | src/main/java/com/eric/like/service/impl/BlogServiceImpl.java:61-76 | the list's hasThumb is never false. It is true iff a user is logged in and the marker field is present |
| BlogService.ListShowsExpiredMarker | src/main/java/com/eric/like/service/impl/BlogServiceImpl.java:64-69 | for an expired marker the list says true, where the single view says false and asks for an eviction |
| BlogService.ListHasNoFallback | src/main/java/com/eric/like/service/impl/BlogServiceImpl.java:64-69 | without a marker the list shows null, where the single view answers with the database |
| BlogService.BlogServiceMQ.GetBlogVO | src/main/java/com/eric/like/service/impl/BlogServiceImpl.java:43-55 | with no login user, hasThumb stays null and the thumb service is not asked. Otherwise hasThumb is the thumb service's answer, and a failing hasThumb fails the call |
| BlogService.BlogServiceMQ.HasThumbMap | src/main/java/com/eric/like/service/impl/BlogServiceImpl.java:61-71 | the map holds true only; a blog is in it iff the HMGET result at its index is non-null |
| BlogService.BlogServiceMQ.GetBlogVoList | src/main/java/com/eric/like/service/impl/BlogServiceImpl.java:58-80 | one view per blog, in order; each view's hasThumb is `ListHasThumb` |

## Left out

- The transport and configuration of the message queue are not modelled: the subscription, back-off, the dead-letter policy and the `consumerDlq` stub. A publish is an event appended to the topic's log. A failed publish is a separate callback method that the caller may invoke.
- The bodies of `THUMB_SCRIPT_MQ` and `UNTHUMB_SCRIPT_MQ` are not part of this model, because their source file is not shown. `ThumbServiceMQ.DoThumb` and `UndoThumb` take the reply code and the keyspace the script leaves as parameters. Once the request checks pass, the cache after the call is that keyspace, and it is otherwise arbitrary. No property of the MQ scripts' cache change is proved.
- The `like` application's local-cache `ThumbServiceImpl` is not modelled. It depends on a CacheManager that is not shown. Its `hasThumb` casts a Boolean to Long, so every reachable path fails. Its other logic repeats the ericlike variant.
- Concurrency is sequentialised. Each locked call runs alone, each Lua script is one atomic step, and the consumer handles one batch at a time. The virtual-thread eviction is only recorded as a request in `evictions`, with no claim that it runs.
- Transactions are only modelled as "an exception leaves no change". That holds here because every error path raises before its first write.
- Wall-clock reads are parameters: hour, minute and second for the time slice, epoch milliseconds for expiry, and one `now` per event or per job run. `DateUtil` formatting is modelled by its output format only.
- The reconciliation job takes one clock value for all the events of a run. The source reads `LocalDateTime.now()` per event.
- `Long.parseLong` is modelled over ASCII digits with an optional sign. Other Unicode digits, which Java also accepts, are not modelled.
- `LockedThumbService.DoThumbStep`: `save` is taken to succeed whenever the counter update touched a row. A failing insert is not modelled.
- `ThumbConsumer.ApplyDeltas`: the SQL of `batchUpdateThumbCount` is not part of this model. It is taken to add each delta to the counter of the blog with that id.
- `ThumbConsumer.Kept`: the delete keeps the remaining rows in order. Row ids are not modelled, and an inserted row is its (user, blog) pair.
- Controllers, user services, application classes, service interfaces and the unused DTO `ThumbRedisInfo` hold no logic and are not modelled. The cron schedule and the log lines are not modelled either.

## Findings

| source | as written | input that shows it | evidently intended | confidence | as-written member | corrected member |
|---|---|---|---|---|---|---|
| src/main/java/com/eric/like/service/impl/ThumbServiceMQImpl.java:107 | after a failed DECR publish, the compensation restores the marker as the boolean `true`. `hasThumb` (line 122) then casts the field to `Long`, which throws ClassCastException for every later read of that pair | a user unlikes blog 7, the DECR publish fails, and then `hasThumb(7, user)` is called | restore a marker holding an expiry timestamp, the value the like path writes, so that hasThumb reads it as a live like | not executed | MqThumbService.UnlikeCompensationBreaksHasThumb | MqThumbService.UnlikeCompensationFixedRestoresLike |
