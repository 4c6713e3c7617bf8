/** The ericlike ThumbServiceImpl: a like is a blog counter bump, a record in the
    thumb table and a cache field holding the record's id, all inside one
    transaction under a per-user lock. The lock is sequentialised: each call runs
    alone. The transaction rolls back on an exception, and every exception here is
    raised before the first write, so a failed call changes nothing. */
module LockedThumbService {
  import opened Outcomes
  import opened Text
  import opened RedisCache
  import opened Entities

  /** Blog counters, the thumb table (id to record), the next id the database
      hands out, and the cache. */
  datatype Store = Store(thumbCount: map<Long, int>, records: map<int, Thumb>, nextId: int, cache: KeySpace)

  /** Every record has an id below nextId, and its cache field holds its id;
      the cache keeps no empty hash. */
  ghost predicate Valid(st: Store)
  {
    && NoEmptyHash(st.cache)
    && (forall id :: id in st.records ==> id < st.nextId)
    && (forall id :: id in st.records ==> MarkerOf(st.cache, st.records[id].userId, st.records[id].blogId) == Some(Num(id)))
  }

  /** In a valid store at most one record exists per (user, blog). */
  lemma RecordsUnique(st: Store, id1: int, id2: int)
    requires Valid(st)
    requires id1 in st.records && id2 in st.records && st.records[id1] == st.records[id2]
    ensures id1 == id2
  {
    assert MarkerOf(st.cache, st.records[id1].userId, st.records[id1].blogId) == Some(Num(id1));
  }

  /** doThumb. "Already liked" when the cache field exists. Otherwise the counter
      update runs; only if it touched a row is the record saved (save is taken to
      succeed), and only then is the cache written with the new record's id. */
  function DoThumbStep(st: Store, request: Option<DoThumbRequest>, loginUser: Option<Long>): (r: (Result<bool>, Store))
    ensures r.0.Err? ==> r.1 == st
    ensures CheckRequest(request, loginUser).Err? ==> r.0 == Err(CheckRequest(request, loginUser).error)
    ensures CheckRequest(request, loginUser).Ok? ==>
              var (u, b) := CheckRequest(request, loginUser).value;
              && (MarkerOf(st.cache, u, b).Some? ==> r.0 == Err(AlreadyLiked))
              && (MarkerOf(st.cache, u, b).None? && b !in st.thumbCount ==> r == (Ok(false), st))
              && (MarkerOf(st.cache, u, b).None? && b in st.thumbCount ==>
                    && r.0 == Ok(true)
                    && r.1.thumbCount == st.thumbCount[b := st.thumbCount[b] + 1]
                    && r.1.records == st.records[st.nextId := Thumb(u, b)]
                    && r.1.nextId == st.nextId + 1
                    && MarkerOf(r.1.cache, u, b) == Some(Num(st.nextId))
                    && forall k, f :: (k, f) != (UserThumbKey(u), IntToString(b)) ==> HGet(r.1.cache, k, f) == HGet(st.cache, k, f))
    ensures Valid(st) ==> Valid(r.1)
  {
    match CheckRequest(request, loginUser)
    case Err(e) => (Err(e), st)
    case Ok((u, b)) =>
      if MarkerOf(st.cache, u, b).Some? then (Err(AlreadyLiked), st)
      else if b !in st.thumbCount then (Ok(false), st)
      else
        var id := st.nextId;
        (Ok(true), Store(st.thumbCount[b := st.thumbCount[b] + 1], st.records[id := Thumb(u, b)], id + 1,
                         HSet(st.cache, UserThumbKey(u), IntToString(b), Num(id))))
  }

  /** undoThumb. "Not liked" when the cache field is missing. Otherwise the
      counter update runs, then the record with the cached id is removed, and only
      if both touched a row is the cache field deleted. A counter update that
      succeeded stays committed even when the removal finds no record. */
  function UndoThumbStep(st: Store, request: Option<DoThumbRequest>, loginUser: Option<Long>): (r: (Result<bool>, Store))
    ensures r.0.Err? ==> r.1 == st
    ensures CheckRequest(request, loginUser).Err? ==> r.0 == Err(CheckRequest(request, loginUser).error)
    ensures CheckRequest(request, loginUser).Ok? ==>
              var (u, b) := CheckRequest(request, loginUser).value;
              && (MarkerOf(st.cache, u, b).None? ==> r.0 == Err(NotLiked))
              && (MarkerOf(st.cache, u, b).Some? && MarkerOf(st.cache, u, b).value.Flag? ==> r.0 == Err(ClassCast))
              && ((MarkerOf(st.cache, u, b).Some? && MarkerOf(st.cache, u, b).value.Num? && b !in st.thumbCount)
                    ==> r == (Ok(false), st))
              && (MarkerOf(st.cache, u, b).Some? && MarkerOf(st.cache, u, b).value.Num? && b in st.thumbCount ==>
                    var id := MarkerOf(st.cache, u, b).value.n;
                    && r.1.thumbCount == st.thumbCount[b := st.thumbCount[b] - 1]
                    && r.1.nextId == st.nextId
                    && r.0 == Ok(id in st.records)
                    && r.1.records == st.records - {id}
                    && (id in st.records ==> r.1.cache == HDel(st.cache, UserThumbKey(u), {IntToString(b)}))
                    && (id !in st.records ==> r.1.cache == st.cache))
    ensures Valid(st) ==> Valid(r.1)
  {
    match CheckRequest(request, loginUser)
    case Err(e) => (Err(e), st)
    case Ok((u, b)) =>
      match MarkerOf(st.cache, u, b)
      case None => (Err(NotLiked), st)
      case Some(Flag(_)) => (Err(ClassCast), st)
      case Some(Num(id)) =>
        if b !in st.thumbCount then (Ok(false), st)
        else
          var counted := st.thumbCount[b := st.thumbCount[b] - 1];
          if id in st.records then
            (Ok(true), Store(counted, st.records - {id}, st.nextId, HDel(st.cache, UserThumbKey(u), {IntToString(b)})))
          else
            (Ok(false), Store(counted, st.records, st.nextId, st.cache))
  }

  /** hasThumb: exactly "the cache field exists". */
  function HasThumbAnswer(st: Store, blogId: Long, userId: Long): bool
  {
    MarkerOf(st.cache, userId, blogId).Some?
  }

  /** A successful like makes hasThumb true, a second like is refused with no
      change, and the unlike that follows undoes the like: counter, records and
      cache are as before, only the id sequence has moved on. */
  lemma LikeUnlikeAlternate(st: Store, request: Option<DoThumbRequest>, loginUser: Option<Long>)
    requires Valid(st)
    requires DoThumbStep(st, request, loginUser).0 == Ok(true)
    ensures var liked := DoThumbStep(st, request, loginUser).1;
            var (u, b) := (loginUser.value, request.value.blogId.value);
            && HasThumbAnswer(liked, b, u)
            && DoThumbStep(liked, request, loginUser) == (Err(AlreadyLiked), liked)
            && var unliked := UndoThumbStep(liked, request, loginUser);
            && unliked.0 == Ok(true)
            && unliked.1 == st.(nextId := st.nextId + 1)
            && !HasThumbAnswer(unliked.1, b, u)
            && UndoThumbStep(unliked.1, request, loginUser) == (Err(NotLiked), unliked.1)
  {
    var (u, b) := (loginUser.value, request.value.blogId.value);
    var liked := DoThumbStep(st, request, loginUser).1;
    var unliked := UndoThumbStep(liked, request, loginUser).1;
    assert st.nextId !in st.records;
    assert unliked.records == st.records;
    assert unliked.thumbCount == st.thumbCount;
    CacheRestored(st.cache, UserThumbKey(u), IntToString(b), Num(st.nextId));
  }

  /** HSET of a missing field followed by HDEL of it gives the keyspace back. */
  lemma CacheRestored(ks: KeySpace, key: string, field: string, v: CacheValue)
    requires NoEmptyHash(ks)
    requires HGet(ks, key, field).None?
    ensures HDel(HSet(ks, key, field, v), key, {field}) == ks
  {
    var after := HDel(HSet(ks, key, field, v), key, {field});
    assert HSet(ks, key, field, v)[key] - {field} == HashOf(ks, key);
    if key in ks {
      assert after[key] == ks[key];
    }
    assert after.Keys == ks.Keys;
  }

  class ThumbServiceLocked {
    var thumbCount: map<Long, int>
    var records: map<int, Thumb>
    var nextId: int
    const redis: Redis

    function State(): Store
      reads this, redis
    {
      Store(thumbCount, records, nextId, redis.hashes)
    }

    constructor (redis: Redis, thumbCount: map<Long, int>)
      ensures this.redis == redis && State() == Store(thumbCount, map[], 0, redis.hashes)
    {
      this.redis := redis;
      this.thumbCount := thumbCount;
      records := map[];
      nextId := 0;
    }

    method HasThumb(blogId: Long, userId: Long) returns (r: bool)
      ensures r == MarkerOf(redis.hashes, userId, blogId).Some?
    {
      r := HGet(redis.hashes, UserThumbKey(userId), IntToString(blogId)).Some?;
    }

    /** `save`: insert the record under a fresh id. */
    method Save(thumb: Thumb) returns (id: int)
      modifies this
      ensures id == old(nextId) && nextId == old(nextId) + 1
      ensures records == old(records)[id := thumb] && thumbCount == old(thumbCount)
    {
      id := nextId;
      records := records[id := thumb];
      nextId := nextId + 1;
    }

    method DoThumb(request: Option<DoThumbRequest>, loginUser: Option<Long>) returns (r: Result<bool>)
      modifies this, redis
      ensures (r, State()) == DoThumbStep(old(State()), request, loginUser)
    {
      var checked := CheckRequest(request, loginUser);
      if checked.Err? {
        return Err(checked.error);
      }
      var (u, b) := checked.value;
      var present := HasThumb(b, u);
      if present {
        return Err(AlreadyLiked);
      }
      // thumbCount = thumbCount + 1 where id = blogId
      var update := b in thumbCount;
      if update {
        thumbCount := thumbCount[b := thumbCount[b] + 1];
      }
      var success := false;
      if update {
        var id := Save(Thumb(u, b));
        success := true;
        redis.Put(UserThumbKey(u), IntToString(b), Num(id));
      }
      r := Ok(success);
    }

    method UndoThumb(request: Option<DoThumbRequest>, loginUser: Option<Long>) returns (r: Result<bool>)
      modifies this, redis
      ensures (r, State()) == UndoThumbStep(old(State()), request, loginUser)
    {
      var checked := CheckRequest(request, loginUser);
      if checked.Err? {
        return Err(checked.error);
      }
      var (u, b) := checked.value;
      var cached := HGet(redis.hashes, UserThumbKey(u), IntToString(b));
      if cached.None? {
        return Err(NotLiked);
      }
      if cached.value.Flag? {
        return Err(ClassCast);
      }
      var thumbId := cached.value.n;
      // thumbCount = thumbCount - 1 where id = blogId
      var update := b in thumbCount;
      if update {
        thumbCount := thumbCount[b := thumbCount[b] - 1];
      }
      var success := false;
      if update && thumbId in records {
        records := records - {thumbId};
        success := true;
      }
      if success {
        redis.Delete(UserThumbKey(u), {IntToString(b)});
      }
      r := Ok(success);
    }
  }
}
