/** ThumbServiceRedisImpl: likes recorded by THUMB_SCRIPT / UNTHUMB_SCRIPT in the
    cache only, a time-sliced temporary counter, and a marker holding an expiry
    timestamp that hasThumb checks lazily (read repair). */
module ScriptThumbService {
  import opened Outcomes
  import opened Text
  import opened RedisCache
  import opened Entities
  import opened LuaScripts

  type Hour = x: int | 0 <= x < 24
  type Minute = x: int | 0 <= x < 60
  type Second = x: int | 0 <= x < 60

  /** Instant.now().plus(30, ChronoUnit.DAYS) in epoch milliseconds. */
  const THIRTY_DAYS_MILLIS: int := 30 * 24 * 60 * 60 * 1000

  /** "HH" / "mm": two zero-padded digits. */
  function Pad2(n: int): (s: string)
    requires 0 <= n < 100
    ensures |s| == 2 && AllDigits(s)
  {
    [DigitChar(n / 10), DigitChar(n % 10)]
  }

  /** The second rounded down to its 10-second bucket, (second / 10) * 10. */
  function SliceSecond(second: Second): (r: nat)
    ensures r in {0, 10, 20, 30, 40, 50}
    ensures r <= second < r + 10
  {
    (second / 10) * 10
  }

  /** getTimeSlice: "HH:mm:" followed by the bucketed second, not zero-padded. */
  function TimeSlice(hour: Hour, minute: Minute, second: Second): (s: string)
    ensures |s| == (if second < 10 then 7 else 8)
    ensures s[..6] == Pad2(hour) + ":" + Pad2(minute) + ":"
    ensures s[6..] == NatToString(SliceSecond(second))
  {
    Pad2(hour) + ":" + Pad2(minute) + ":" + NatToString(SliceSecond(second))
  }

  lemma Pad2Injective(a: int, b: int)
    requires 0 <= a < 100 && 0 <= b < 100
    requires Pad2(a) == Pad2(b)
    ensures a == b
  {
    assert Pad2(a)[0] == Pad2(b)[0] && Pad2(a)[1] == Pad2(b)[1];
  }

  /** Two moments get the same time slice exactly when they agree on hour and
      minute and fall in the same 10-second bucket. */
  lemma TimeSliceSameBucket(h1: Hour, m1: Minute, s1: Second, h2: Hour, m2: Minute, s2: Second)
    ensures TimeSlice(h1, m1, s1) == TimeSlice(h2, m2, s2) <==> h1 == h2 && m1 == m2 && s1 / 10 == s2 / 10
  {
    var a, b := TimeSlice(h1, m1, s1), TimeSlice(h2, m2, s2);
    if a == b {
      assert a[..2] == Pad2(h1) && b[..2] == Pad2(h2);
      Pad2Injective(h1, h2);
      assert a[3..5] == Pad2(m1) && b[3..5] == Pad2(m2);
      Pad2Injective(m1, m2);
      DigitsValueOfNatToString(SliceSecond(s1));
      DigitsValueOfNatToString(SliceSecond(s2));
    }
    if h1 == h2 && m1 == m2 && s1 / 10 == s2 / 10 {
      assert SliceSecond(s1) == SliceSecond(s2);
    }
  }

  /** How doThumb turns the script's reply into its own: FAIL is "already liked",
      SUCCESS is true and any other code is false. */
  function DoThumbReply(code: int): (r: Result<bool>)
    ensures r == Err(AlreadyLiked) <==> code == SCRIPT_FAIL
    ensures r == Ok(true) <==> code == SCRIPT_SUCCESS
    ensures r == Ok(false) <==> code != SCRIPT_FAIL && code != SCRIPT_SUCCESS
  {
    if code == SCRIPT_FAIL then Err(AlreadyLiked) else Ok(code == SCRIPT_SUCCESS)
  }

  /** undoThumb's mapping: FAIL is "not liked", otherwise `result == SUCCESS`. */
  function UndoThumbReply(code: int): (r: Result<bool>)
    ensures r == Err(NotLiked) <==> code == SCRIPT_FAIL
    ensures r == Ok(true) <==> code == SCRIPT_SUCCESS
    ensures r == Ok(false) <==> code != SCRIPT_FAIL && code != SCRIPT_SUCCESS
  {
    if code == SCRIPT_FAIL then Err(NotLiked) else Ok(code == SCRIPT_SUCCESS)
  }

  /** doThumb as a whole: its reply and the keyspace after it. */
  function DoThumbStep(ks: KeySpace, request: Option<DoThumbRequest>, loginUser: Option<Long>,
                       hour: Hour, minute: Minute, second: Second, nowMillis: int): (r: (Result<bool>, KeySpace))
    ensures CheckRequest(request, loginUser).Err? ==> r == (Err(CheckRequest(request, loginUser).error), ks)
    ensures CheckRequest(request, loginUser).Ok? ==>
              var (u, b) := CheckRequest(request, loginUser).value;
              var tempKey := TempThumbKey(TimeSlice(hour, minute, second));
              var field := TempField(IntToString(u), IntToString(b));
              && (MarkerOf(ks, u, b).Some? ==> r == (Err(AlreadyLiked), ks))
              && (MarkerOf(ks, u, b).None? && OldCount(ks, tempKey, field).None? ==> r == (Err(ScriptFailed), ks))
              && (MarkerOf(ks, u, b).None? && OldCount(ks, tempKey, field).Some? ==>
                    && r.0 == Ok(true)
                    && MarkerOf(r.1, u, b) == Some(Num(nowMillis + THIRTY_DAYS_MILLIS))
                    && HGet(r.1, tempKey, field) == Some(Num(OldCount(ks, tempKey, field).value + 1))
                    && forall k, f :: (k, f) != (tempKey, field) && (k, f) != (UserThumbKey(u), IntToString(b)) ==>
                         HGet(r.1, k, f) == HGet(ks, k, f))
  {
    match CheckRequest(request, loginUser)
    case Err(e) => (Err(e), ks)
    case Ok((u, b)) =>
      var tempKey := TempThumbKey(TimeSlice(hour, minute, second));
      match ThumbScript(ks, tempKey, UserThumbKey(u), IntToString(u), IntToString(b), nowMillis + THIRTY_DAYS_MILLIS)
      case Err(e) => (Err(e), ks)
      case Ok((code, after)) => (DoThumbReply(code), after)
  }

  /** undoThumb as a whole. */
  function UndoThumbStep(ks: KeySpace, request: Option<DoThumbRequest>, loginUser: Option<Long>,
                         hour: Hour, minute: Minute, second: Second): (r: (Result<bool>, KeySpace))
    ensures CheckRequest(request, loginUser).Err? ==> r == (Err(CheckRequest(request, loginUser).error), ks)
    ensures CheckRequest(request, loginUser).Ok? ==>
              var (u, b) := CheckRequest(request, loginUser).value;
              var tempKey := TempThumbKey(TimeSlice(hour, minute, second));
              var field := TempField(IntToString(u), IntToString(b));
              && (MarkerOf(ks, u, b).None? ==> r == (Err(NotLiked), ks))
              && (MarkerOf(ks, u, b).Some? && OldCount(ks, tempKey, field).None? ==> r == (Err(ScriptFailed), ks))
              && (MarkerOf(ks, u, b).Some? && OldCount(ks, tempKey, field).Some? ==>
                    && r.0 == Ok(true)
                    && MarkerOf(r.1, u, b) == None
                    && HGet(r.1, tempKey, field) == Some(Num(OldCount(ks, tempKey, field).value - 1))
                    && forall k, f :: (k, f) != (tempKey, field) && (k, f) != (UserThumbKey(u), IntToString(b)) ==>
                         HGet(r.1, k, f) == HGet(ks, k, f))
  {
    match CheckRequest(request, loginUser)
    case Err(e) => (Err(e), ks)
    case Ok((u, b)) =>
      var tempKey := TempThumbKey(TimeSlice(hour, minute, second));
      match UnthumbScript(ks, tempKey, UserThumbKey(u), IntToString(u), IntToString(b))
      case Err(e) => (Err(e), ks)
      case Ok((code, after)) => (UndoThumbReply(code), after)
  }

  /** The reply of hasThumb and whether it asks for the marker to be evicted.
      No marker: the database's answer. A marker whose expiry is before now:
      false, and an eviction is requested. An unexpired marker: true. A marker
      that is not a number fails the `(Long)` cast. */
  function HasThumbDecision(ks: KeySpace, blogId: Long, userId: Long, nowMillis: int, dbHas: bool)
    : (r: (Result<bool>, bool))
    ensures MarkerOf(ks, userId, blogId).None? ==> r == (Ok(dbHas), false)
    ensures forall e :: MarkerOf(ks, userId, blogId) == Some(Num(e)) ==> r == (Ok(nowMillis <= e), e < nowMillis)
    ensures forall f :: MarkerOf(ks, userId, blogId) == Some(Flag(f)) ==> r == (Err(ClassCast), false)
    ensures r.1 ==> r.0 == Ok(false)
  {
    match MarkerOf(ks, userId, blogId)
    case None => (Ok(dbHas), false)
    case Some(Num(expireTime)) =>
      if expireTime < nowMillis then (Ok(false), true) else (Ok(true), false)
    case Some(Flag(_)) => (Err(ClassCast), false)
  }

  /** After a successful like at time `likedAt`, hasThumb answers true without the
      database until the 30 days run out, and false with an eviction afterwards. */
  lemma LikeThenHasThumb(ks: KeySpace, request: Option<DoThumbRequest>, loginUser: Option<Long>,
                         hour: Hour, minute: Minute, second: Second, likedAt: int, readAt: int, dbHas: bool)
    requires DoThumbStep(ks, request, loginUser, hour, minute, second, likedAt).0 == Ok(true)
    ensures var after := DoThumbStep(ks, request, loginUser, hour, minute, second, likedAt).1;
            HasThumbDecision(after, request.value.blogId.value, loginUser.value, readAt, dbHas)
              == if readAt <= likedAt + THIRTY_DAYS_MILLIS then (Ok(true), false) else (Ok(false), true)
  {
  }

  /** After a successful unlike, hasThumb falls back to the database. */
  lemma UnlikeThenHasThumb(ks: KeySpace, request: Option<DoThumbRequest>, loginUser: Option<Long>,
                           hour: Hour, minute: Minute, second: Second, readAt: int, dbHas: bool)
    requires UndoThumbStep(ks, request, loginUser, hour, minute, second).0 == Ok(true)
    ensures var after := UndoThumbStep(ks, request, loginUser, hour, minute, second).1;
            HasThumbDecision(after, request.value.blogId.value, loginUser.value, readAt, dbHas) == (Ok(dbHas), false)
  {
  }

  /** A marker location: (hash key, field). */
  datatype Location = Location(key: string, field: string)

  class ThumbServiceRedis {
    const redis: Redis
    /** Evictions handed to a background thread; nothing guarantees they run. */
    var evictions: seq<Location>

    constructor (redis: Redis)
      ensures this.redis == redis && evictions == []
    {
      this.redis := redis;
      evictions := [];
    }

    method DoThumb(request: Option<DoThumbRequest>, loginUser: Option<Long>,
                   hour: Hour, minute: Minute, second: Second, nowMillis: int) returns (r: Result<bool>)
      modifies redis
      ensures (r, redis.hashes) == DoThumbStep(old(redis.hashes), request, loginUser, hour, minute, second, nowMillis)
    {
      var checked := CheckRequest(request, loginUser);
      if checked.Err? {
        return Err(checked.error);
      }
      var (u, b) := checked.value;
      var timeSlice := TimeSlice(hour, minute, second);
      var result := EvalThumbScript(redis, TempThumbKey(timeSlice), UserThumbKey(u),
                                    IntToString(u), IntToString(b), nowMillis + THIRTY_DAYS_MILLIS);
      if result.Err? {
        return Err(result.error);
      }
      r := DoThumbReply(result.value);
    }

    method UndoThumb(request: Option<DoThumbRequest>, loginUser: Option<Long>,
                     hour: Hour, minute: Minute, second: Second) returns (r: Result<bool>)
      modifies redis
      ensures (r, redis.hashes) == UndoThumbStep(old(redis.hashes), request, loginUser, hour, minute, second)
    {
      var checked := CheckRequest(request, loginUser);
      if checked.Err? {
        return Err(checked.error);
      }
      var (u, b) := checked.value;
      var timeSlice := TimeSlice(hour, minute, second);
      var result := EvalUnthumbScript(redis, TempThumbKey(timeSlice), UserThumbKey(u), IntToString(u), IntToString(b));
      if result.Err? {
        return Err(result.error);
      }
      r := UndoThumbReply(result.value);
    }

    /** `dbHas` is the database's answer to "does a record (userId, blogId) exist". */
    method HasThumb(blogId: Long, userId: Long, nowMillis: int, dbHas: bool) returns (r: Result<bool>)
      modifies this`evictions
      ensures var (reply, evict) := HasThumbDecision(redis.hashes, blogId, userId, nowMillis, dbHas);
              && r == reply
              && evictions == old(evictions) + (if evict then [Location(UserThumbKey(userId), IntToString(blogId))] else [])
    {
      var d := HasThumbDecision(redis.hashes, blogId, userId, nowMillis, dbHas);
      if d.1 {
        evictions := evictions + [Location(UserThumbKey(userId), IntToString(blogId))];
      }
      r := d.0;
    }
  }
}
