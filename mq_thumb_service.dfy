/** ThumbServiceMQImpl: the cache is changed by THUMB_SCRIPT_MQ / UNTHUMB_SCRIPT_MQ
    (their bodies are not part of this model: their reply code and the keyspace
    they leave are inputs, unconstrained), then a toggle event is published; if
    the publish fails, a callback compensates the cache. */
module MqThumbService {
  import opened Outcomes
  import opened Text
  import opened RedisCache
  import opened Entities
  import opened Broker
  import opened LuaScripts
  import ScriptThumbService

  /** doThumb / undoThumb: the reply and the event to publish, if any. A FAIL
      code raises (already liked / not liked) and publishes nothing; any other
      code publishes one event for (login user, blog) and replies true, whatever
      becomes of the publish later. */
  function ToggleStep(request: Option<DoThumbRequest>, loginUser: Option<Long>, scriptCode: int,
                      kind: EventType, now: int): (r: (Result<bool>, Option<ThumbEvent>))
    ensures CheckRequest(request, loginUser).Err? ==> r == (Err(CheckRequest(request, loginUser).error), None)
    ensures CheckRequest(request, loginUser).Ok? && scriptCode == SCRIPT_FAIL ==>
              r == (Err(if kind == INCR then AlreadyLiked else NotLiked), None)
    ensures CheckRequest(request, loginUser).Ok? && scriptCode != SCRIPT_FAIL ==>
              r == (Ok(true), Some(ThumbEvent(loginUser.value, request.value.blogId.value, kind, now)))
    ensures r.1.Some? <==> r.0.Ok?
  {
    match CheckRequest(request, loginUser)
    case Err(e) => (Err(e), None)
    case Ok((u, b)) =>
      if scriptCode == SCRIPT_FAIL then (Err(if kind == INCR then AlreadyLiked else NotLiked), None)
      else (Ok(true), Some(ThumbEvent(u, b, kind, now)))
  }

  /** Compensation after a failed INCR publish: `delete(userThumbKey, blogId, true)`
      removes the field blogId and the field "true" from the user's hash. */
  function LikeCompensation(ks: KeySpace, userId: Long, blogId: Long): (r: KeySpace)
    ensures HGet(r, UserThumbKey(userId), IntToString(blogId)) == None
    ensures HGet(r, UserThumbKey(userId), "true") == None
    ensures forall k, f :: k != UserThumbKey(userId) || f !in {IntToString(blogId), "true"} ==> HGet(r, k, f) == HGet(ks, k, f)
  {
    HDel(ks, UserThumbKey(userId), {IntToString(blogId), "true"})
  }

  /** Compensation after a failed DECR publish, as written: the field blogId is put
      back holding the boolean `true`, not an expiry timestamp. */
  function UnlikeCompensation(ks: KeySpace, userId: Long, blogId: Long): (r: KeySpace)
    ensures HGet(r, UserThumbKey(userId), IntToString(blogId)) == Some(Flag(true))
    ensures forall k, f :: (k, f) != (UserThumbKey(userId), IntToString(blogId)) ==> HGet(r, k, f) == HGet(ks, k, f)
  {
    HSet(ks, UserThumbKey(userId), IntToString(blogId), Flag(true))
  }

  /** After the like compensation the marker is gone and hasThumb asks the
      database again. */
  lemma LikeCompensationFallsBack(ks: KeySpace, userId: Long, blogId: Long, now: int, dbHas: bool)
    ensures ScriptThumbService.HasThumbDecision(LikeCompensation(ks, userId, blogId), blogId, userId, now, dbHas)
              == (Ok(dbHas), false)
  {
  }

  /** As written, the unlike compensation leaves a marker hasThumb cannot read:
      every later hasThumb for that pair fails the `(Long)` cast, whatever the
      time and the database say. */
  lemma UnlikeCompensationBreaksHasThumb(ks: KeySpace, userId: Long, blogId: Long, now: int, dbHas: bool)
    ensures ScriptThumbService.HasThumbDecision(UnlikeCompensation(ks, userId, blogId), blogId, userId, now, dbHas)
              == (Err(ClassCast), false)
  {
  }

  /** The evidently intended unlike compensation: restore a marker holding an
      expiry timestamp, as THUMB_SCRIPT writes it. */
  function UnlikeCompensationFixed(ks: KeySpace, userId: Long, blogId: Long, expireTime: int): (r: KeySpace)
    ensures HGet(r, UserThumbKey(userId), IntToString(blogId)) == Some(Num(expireTime))
    ensures forall k, f :: (k, f) != (UserThumbKey(userId), IntToString(blogId)) ==> HGet(r, k, f) == HGet(ks, k, f)
  {
    HSet(ks, UserThumbKey(userId), IntToString(blogId), Num(expireTime))
  }

  /** With the fixed compensation, hasThumb reports the like as restored until
      the restored expiry passes. */
  lemma UnlikeCompensationFixedRestoresLike(ks: KeySpace, userId: Long, blogId: Long, expireTime: int,
                                            now: int, dbHas: bool)
    requires now <= expireTime
    ensures ScriptThumbService.HasThumbDecision(UnlikeCompensationFixed(ks, userId, blogId, expireTime),
                                                blogId, userId, now, dbHas) == (Ok(true), false)
  {
  }

  class ThumbServiceMQ {
    const redis: Redis
    const topic: Topic
    var evictions: seq<ScriptThumbService.Location>

    constructor (redis: Redis, topic: Topic)
      ensures this.redis == redis && this.topic == topic && evictions == []
    {
      this.redis := redis;
      this.topic := topic;
      evictions := [];
    }

    /** `scriptCode` and `afterScript` are THUMB_SCRIPT_MQ's reply and the
        keyspace it leaves, which this model does not constrain; `now` is the
        event time. The script runs only once the request checks pass. */
    method DoThumb(request: Option<DoThumbRequest>, loginUser: Option<Long>, scriptCode: int,
                   afterScript: KeySpace, now: int)
      returns (r: Result<bool>)
      modifies topic, redis
      ensures var (reply, event) := ToggleStep(request, loginUser, scriptCode, INCR, now);
              && r == reply
              && topic.published == old(topic.published) + (if event.Some? then [event.value] else [])
      ensures redis.hashes == (if CheckRequest(request, loginUser).Err? then old(redis.hashes) else afterScript)
    {
      var checked := CheckRequest(request, loginUser);
      if checked.Err? {
        return Err(checked.error);
      }
      var (u, b) := checked.value;
      redis.hashes := afterScript;
      if scriptCode == SCRIPT_FAIL {
        return Err(AlreadyLiked);
      }
      topic.SendAsync(ThumbEvent(u, b, INCR, now));
      r := Ok(true);
    }

    /** The `exceptionally` callback of doThumb's publish. */
    method OnLikePublishFailed(userId: Long, blogId: Long)
      modifies redis
      ensures redis.hashes == LikeCompensation(old(redis.hashes), userId, blogId)
    {
      redis.Delete(UserThumbKey(userId), {IntToString(blogId), "true"});
    }

    /** Likewise, with UNTHUMB_SCRIPT_MQ's reply and keyspace. */
    method UndoThumb(request: Option<DoThumbRequest>, loginUser: Option<Long>, scriptCode: int,
                     afterScript: KeySpace, now: int)
      returns (r: Result<bool>)
      modifies topic, redis
      ensures var (reply, event) := ToggleStep(request, loginUser, scriptCode, DECR, now);
              && r == reply
              && topic.published == old(topic.published) + (if event.Some? then [event.value] else [])
      ensures redis.hashes == (if CheckRequest(request, loginUser).Err? then old(redis.hashes) else afterScript)
    {
      var checked := CheckRequest(request, loginUser);
      if checked.Err? {
        return Err(checked.error);
      }
      var (u, b) := checked.value;
      redis.hashes := afterScript;
      if scriptCode == SCRIPT_FAIL {
        return Err(NotLiked);
      }
      topic.SendAsync(ThumbEvent(u, b, DECR, now));
      r := Ok(true);
    }

    /** The `exceptionally` callback of undoThumb's publish. */
    method OnUnlikePublishFailed(userId: Long, blogId: Long)
      modifies redis
      ensures redis.hashes == UnlikeCompensation(old(redis.hashes), userId, blogId)
    {
      redis.Put(UserThumbKey(userId), IntToString(blogId), Flag(true));
    }

    /** The same lazy-expiry rule as the script-backed service. */
    method HasThumb(blogId: Long, userId: Long, nowMillis: int, dbHas: bool) returns (r: Result<bool>)
      modifies this`evictions
      ensures var (reply, evict) := ScriptThumbService.HasThumbDecision(redis.hashes, blogId, userId, nowMillis, dbHas);
              && r == reply
              && evictions == old(evictions)
                   + (if evict then [ScriptThumbService.Location(UserThumbKey(userId), IntToString(blogId))] else [])
    {
      var d := ScriptThumbService.HasThumbDecision(redis.hashes, blogId, userId, nowMillis, dbHas);
      if d.1 {
        evictions := evictions + [ScriptThumbService.Location(UserThumbKey(userId), IntToString(blogId))];
      }
      r := d.0;
    }
  }
}
