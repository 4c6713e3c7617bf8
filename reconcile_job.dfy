/** The nightly reconciliation job: it lists the users that have a marker hash
    in the cache and, per user, publishes one INCR event for every blog the
    cache marks as liked but the thumb table lacks. */
module ReconcileJob {
  import opened Outcomes
  import opened Text
  import opened Entities
  import opened RedisCache
  import opened Broker
  import opened ThumbConsumer

  // ---------------------------------------------------------------------------
  // Step 1: the users

  /** Long.valueOf(key.replace("thumb:", "")): every occurrence of the prefix is
      removed, not only the leading one. */
  function ExtractUserId(key: string): Option<Long>
  {
    ParseLong(RemoveAll(key, USER_THUMB_KEY_PREFIX))
  }

  /** A rendered number holds neither 't' nor any other letter. */
  lemma RenderedHasNoLetters(n: Long)
    ensures forall i :: 0 <= i < |IntToString(n)| ==> IntToString(n)[i] != USER_THUMB_KEY_PREFIX[0]
  {
  }

  /** A user's marker key gives that user back. */
  lemma ExtractUserIdOfUserKey(u: Long)
    ensures ExtractUserId(UserThumbKey(u)) == Some(u)
  {
    var k := UserThumbKey(u);
    assert k[..|USER_THUMB_KEY_PREFIX|] == USER_THUMB_KEY_PREFIX;
    assert k[|USER_THUMB_KEY_PREFIX|..] == IntToString(u);
    RenderedHasNoLetters(u);
    RemoveAllAbsent(IntToString(u), USER_THUMB_KEY_PREFIX);
    ParseLongOfIntToString(u);
  }

  /** A temporary counter key ("thumb:temp:...") also matches "thumb:*", and what
      is left of it after the replace starts with 't', so it is no number. */
  lemma TempKeyIsNoUser(slice: string)
    ensures ExtractUserId(TempThumbKey(slice)) == None
  {
    var k := TempThumbKey(slice);
    var rest := k[|USER_THUMB_KEY_PREFIX|..];
    assert k[..|USER_THUMB_KEY_PREFIX|] == USER_THUMB_KEY_PREFIX;
    assert rest == "temp:" + slice;
    assert !StartsWith(rest, USER_THUMB_KEY_PREFIX) by {
      assert rest[1] == 'e' && USER_THUMB_KEY_PREFIX[1] == 'h';
    }
    assert RemoveAll(k, USER_THUMB_KEY_PREFIX) == RemoveAll(rest, USER_THUMB_KEY_PREFIX);
    assert RemoveAll(rest, USER_THUMB_KEY_PREFIX)[0] == 't';
  }

  /** SCAN with MATCH "thumb:*": the keys that begin with the prefix. */
  predicate Scanned(key: string)
  {
    StartsWith(key, USER_THUMB_KEY_PREFIX)
  }

  /** The user ids of the scan: Err(NumberFormat) as soon as one matching key
      does not parse, otherwise the parsed id of every matching key. */
  function UserIds(ks: KeySpace): (r: Result<set<Long>>)
    ensures r.Err? <==> exists k :: k in ks && Scanned(k) && ExtractUserId(k).None?
    ensures r.Err? ==> r.error == NumberFormat
    ensures r.Ok? ==> forall u :: u in r.value <==> exists k :: k in ks && Scanned(k) && ExtractUserId(k) == Some(u)
  {
    if exists k :: k in ks && Scanned(k) && ExtractUserId(k).None? then Err(NumberFormat)
    else Ok(set k | k in ks && Scanned(k) :: ExtractUserId(k).value)
  }

  /** Every user with a marker hash is listed, once the scan succeeds. */
  lemma UserWithMarkersIsScanned(ks: KeySpace, u: Long)
    requires UserThumbKey(u) in ks && UserIds(ks).Ok?
    ensures u in UserIds(ks).value
  {
    ExtractUserIdOfUserKey(u);
  }

  /** A temporary counter hash in the same keyspace makes the scan fail. */
  lemma TempKeyAbortsScan(ks: KeySpace, slice: string)
    requires TempThumbKey(slice) in ks
    ensures UserIds(ks) == Err(NumberFormat)
  {
    TempKeyIsNoUser(slice);
  }

  // ---------------------------------------------------------------------------
  // Step 2: the drift of one user

  /** The blog ids among the fields of the user's marker hash; Err(NumberFormat)
      if some field is no number. */
  function CacheBlogIds(ks: KeySpace, u: Long): (r: Result<set<Long>>)
    ensures r.Err? <==> exists f :: f in HashOf(ks, UserThumbKey(u)) && ParseLong(f).None?
    ensures r.Err? ==> r.error == NumberFormat
    ensures r.Ok? ==> forall b :: b in r.value <==> exists f :: f in HashOf(ks, UserThumbKey(u)) && ParseLong(f) == Some(b)
  {
    var h := HashOf(ks, UserThumbKey(u));
    if exists f :: f in h && ParseLong(f).None? then Err(NumberFormat)
    else Ok(set f | f in h :: ParseLong(f).value)
  }

  /** The users whose marker hash has only numeric fields. */
  ghost function WellFormedUsers(ks: KeySpace, users: set<Long>): set<Long>
  {
    set u | u in users && CacheBlogIds(ks, u).Ok?
  }

  /** The blog ids of the user's rows in the thumb table. */
  function DbBlogIds(records: seq<Thumb>, u: Long): (r: set<Long>)
    ensures forall b :: b in r <==> Thumb(u, b) in records
  {
    set t | t in records && t.userId == u :: t.blogId
  }

  /** Sets.difference(redisBlogIds, mysqlBlogIds). */
  function Drift(ks: KeySpace, records: seq<Thumb>, u: Long): (r: Result<set<Long>>)
    ensures r.Err? <==> CacheBlogIds(ks, u).Err?
    ensures r.Ok? ==> r.value == CacheBlogIds(ks, u).value - DbBlogIds(records, u)
  {
    match CacheBlogIds(ks, u)
    case Err(e) => Err(e)
    case Ok(cached) => Ok(cached - DbBlogIds(records, u))
  }

  /** A blog the cache marks for the user and the table lacks is in the drift. */
  lemma MarkedButMissingDrifts(ks: KeySpace, records: seq<Thumb>, u: Long, b: Long)
    requires CacheBlogIds(ks, u).Ok?
    requires IntToString(b) in HashOf(ks, UserThumbKey(u)) && Thumb(u, b) !in records
    ensures Drift(ks, records, u).Ok? && b in Drift(ks, records, u).value
  {
    ParseLongOfIntToString(b);
  }

  /** A blog the thumb table already has for the user never drifts, whatever the
      cache says: the job repairs only missing rows. */
  lemma RecordedNeverDrifts(ks: KeySpace, records: seq<Thumb>, u: Long, b: Long)
    requires Thumb(u, b) in records && Drift(ks, records, u).Ok?
    ensures b !in Drift(ks, records, u).value
  {
  }

  // ---------------------------------------------------------------------------
  // The events

  function PairOf(e: ThumbEvent): Key { (e.userId, e.blogId) }

  ghost function Pairs(es: seq<ThumbEvent>): set<Key>
  {
    set e | e in es :: PairOf(e)
  }

  /** No (user, blog) pair is published twice. */
  ghost predicate Distinct(es: seq<ThumbEvent>)
  {
    forall i, j :: 0 <= i < j < |es| ==> PairOf(es[i]) != PairOf(es[j])
  }

  /** Every event is an INCR stamped with the run's clock. */
  ghost predicate Compensations(es: seq<ThumbEvent>, now: int)
  {
    forall i :: 0 <= i < |es| ==> es[i].kind == INCR && es[i].eventTime == now
  }

  /** The (user, blog) pairs of the drift of the given users whose drift is
      defined. */
  ghost function DriftPairs(ks: KeySpace, records: seq<Thumb>, users: set<Long>): set<Key>
  {
    set u, b | u in users && Drift(ks, records, u).Ok? && b in Drift(ks, records, u).value :: (u, b)
  }

  lemma {:induction false} PairsAppend(a: seq<ThumbEvent>, b: seq<ThumbEvent>)
    ensures Pairs(a + b) == Pairs(a) + Pairs(b)
  {
    forall e | e in a + b
      ensures e in a || e in b
    {
    }
  }

  lemma DistinctConcat(a: seq<ThumbEvent>, b: seq<ThumbEvent>)
    requires Distinct(a) && Distinct(b) && Pairs(a) !! Pairs(b)
    ensures Distinct(a + b)
  {
    forall i, j | 0 <= i < j < |a + b|
      ensures PairOf((a + b)[i]) != PairOf((a + b)[j])
    {
      if j < |a| {
        assert (a + b)[i] == a[i] && (a + b)[j] == a[j];
      } else if i >= |a| {
        assert (a + b)[i] == b[i - |a|] && (a + b)[j] == b[j - |a|];
      } else {
        assert (a + b)[i] == a[i] && (a + b)[j] == b[j - |a|];
        assert PairOf(a[i]) in Pairs(a) && PairOf(b[j - |a|]) in Pairs(b);
      }
    }
  }

  lemma DriftPairsStep(ks: KeySpace, records: seq<Thumb>, done: set<Long>, u: Long)
    requires Drift(ks, records, u).Ok?
    ensures DriftPairs(ks, records, done + {u})
            == DriftPairs(ks, records, done) + (set b | b in Drift(ks, records, u).value :: (u, b))
  {
  }

  lemma AppendAssoc(a: seq<ThumbEvent>, b: seq<ThumbEvent>, c: seq<ThumbEvent>)
    ensures a + b + c == a + (b + c)
  {
  }

  /** The events are exactly one INCR per pair, stamped with the clock. */
  ghost predicate EventsFor(es: seq<ThumbEvent>, pairs: set<Key>, now: int)
  {
    Pairs(es) == pairs && Distinct(es) && Compensations(es, now)
  }

  /** The events of one more user's drift extend those of the users before. */
  lemma ExtendEvents(ks: KeySpace, records: seq<Thumb>, done: set<Long>, u: Long,
                     before: seq<ThumbEvent>, added: seq<ThumbEvent>, now: int)
    requires Drift(ks, records, u).Ok? && u !in done
    requires EventsFor(before, DriftPairs(ks, records, done), now)
    requires EventsFor(added, set b | b in Drift(ks, records, u).value :: (u, b), now)
    ensures EventsFor(before + added, DriftPairs(ks, records, done + {u}), now)
  {
    DriftPairsStep(ks, records, done, u);
    PairsAppend(before, added);
    DistinctConcat(before, added);
  }

  /** What the events of a run over the given users are: one INCR per drift
      pair and no pair twice; all drift pairs when every user's marker hash is
      well formed (ok), and some of them otherwise. */
  ghost predicate Reconciled(ks: KeySpace, records: seq<Thumb>, users: set<Long>, ok: bool,
                             emitted: seq<ThumbEvent>, now: int)
  {
    && Distinct(emitted) && Compensations(emitted, now)
    && (ok <==> WellFormedUsers(ks, users) == users)
    && Pairs(emitted) <= DriftPairs(ks, records, users)
    && (ok ==> Pairs(emitted) == DriftPairs(ks, records, users))
  }

  lemma StoppedAt(ks: KeySpace, records: seq<Thumb>, users: set<Long>, done: set<Long>, u: Long,
                  emitted: seq<ThumbEvent>, now: int)
    requires done <= users && u in users && CacheBlogIds(ks, u).Err?
    requires EventsFor(emitted, DriftPairs(ks, records, done), now)
    ensures Reconciled(ks, records, users, false, emitted, now)
  {
    assert u !in WellFormedUsers(ks, users);
    assert DriftPairs(ks, records, done) <= DriftPairs(ks, records, users);
  }

  lemma Completed(ks: KeySpace, records: seq<Thumb>, users: set<Long>, done: set<Long>,
                  emitted: seq<ThumbEvent>, now: int)
    requires done == users && done <= WellFormedUsers(ks, users)
    requires EventsFor(emitted, DriftPairs(ks, records, done), now)
    ensures Reconciled(ks, records, users, true, emitted, now)
  {
  }

  // ---------------------------------------------------------------------------
  // The job

  class ThumbReconcile {
    const redis: Redis
    const db: ThumbDatabase
    const topic: Topic

    constructor (redis: Redis, db: ThumbDatabase, topic: Topic)
      ensures this.redis == redis && this.db == db && this.topic == topic
    {
      this.redis := redis;
      this.db := db;
      this.topic := topic;
    }

    /** The scan of step 1: the keys in the cursor's (unspecified) order, the
        first key that does not parse ending the job. */
    method ScanUserIds() returns (r: Result<set<Long>>)
      ensures r == UserIds(redis.hashes)
    {
      var ks := redis.hashes;
      var todo := ks.Keys;
      var userIds: set<Long> := {};
      ghost var done: set<string> := {};
      while todo != {}
        invariant todo + done == ks.Keys && todo !! done
        invariant forall k :: k in done && Scanned(k) ==> ExtractUserId(k).Some?
        invariant userIds == set k | k in done && Scanned(k) :: ExtractUserId(k).value
        decreases |todo|
      {
        var key :| key in todo;
        if Scanned(key) {
          var userId := ExtractUserId(key);
          if userId.None? {
            return Err(NumberFormat);
          }
          userIds := userIds + {userId.value};
        }
        todo := todo - {key};
        done := done + {key};
      }
      assert done == ks.Keys;
      r := Ok(userIds);
    }

    /** sendCompensationEvents: one INCR event per blog, in the set's
        (unspecified) order. A failed publish is only logged, so every event is
        handed to the broker. */
    method SendCompensationEvents(userId: Long, blogIds: set<Long>, now: int)
      modifies topic
      ensures |old(topic.published)| <= |topic.published|
      ensures topic.published[..|old(topic.published)|] == old(topic.published)
      ensures topic.published == old(topic.published) + topic.published[|old(topic.published)|..]
      ensures EventsFor(topic.published[|old(topic.published)|..], set b | b in blogIds :: (userId, b), now)
    {
      var todo := blogIds;
      ghost var sent: set<Long> := {};
      ghost var start := |topic.published|;
      while todo != {}
        invariant todo + sent == blogIds && todo !! sent
        invariant start <= |topic.published|
        invariant topic.published[..start] == old(topic.published)
        invariant Pairs(topic.published[start..]) == (set b | b in sent :: (userId, b))
        invariant Distinct(topic.published[start..]) && Compensations(topic.published[start..], now)
        decreases |todo|
      {
        var blogId :| blogId in todo;
        ghost var before := topic.published[start..];
        var thumbEvent := ThumbEvent(userId, blogId, INCR, now);
        topic.SendAsync(thumbEvent);
        assert topic.published[start..] == before + [thumbEvent];
        PairsAppend(before, [thumbEvent]);
        assert Pairs([thumbEvent]) == {(userId, blogId)} by {
          assert thumbEvent in [thumbEvent];
        }
        DistinctConcat(before, [thumbEvent]);
        todo := todo - {blogId};
        sent := sent + {blogId};
      }
    }

    /** The body of the per-user lambda: the cache's blog ids (a field that is no
        number throws, false here, before anything is published), the table's,
        and the events of the difference. */
    method ReconcileUser(ks: KeySpace, userId: Long, now: int) returns (ok: bool)
      modifies topic
      ensures ok <==> CacheBlogIds(ks, userId).Ok?
      ensures !ok ==> topic.published == old(topic.published)
      ensures |old(topic.published)| <= |topic.published|
      ensures ok ==> topic.published == old(topic.published) + topic.published[|old(topic.published)|..]
      ensures ok ==> EventsFor(topic.published[|old(topic.published)|..],
                               set b | b in Drift(ks, db.records, userId).value :: (userId, b), now)
    {
      var redisBlogIds := CacheBlogIds(ks, userId);
      if redisBlogIds.Err? {
        return false;
      }
      var mysqlBlogIds := DbBlogIds(db.records, userId);
      var diffBlogIds := redisBlogIds.value - mysqlBlogIds;
      SendCompensationEvents(userId, diffBlogIds, now);
      ok := true;
    }

    /** userIds.forEach(...): the users in the set's (unspecified) order; the
        first user whose marker hash has a field that is no number ends the loop. */
    method ReconcileUsers(ks: KeySpace, userIds: set<Long>, now: int) returns (ok: bool)
      modifies topic
      ensures |old(topic.published)| <= |topic.published|
      ensures topic.published == old(topic.published) + topic.published[|old(topic.published)|..]
      ensures Reconciled(ks, db.records, userIds, ok, topic.published[|old(topic.published)|..], now)
    {
      var todo := userIds;
      ghost var done: set<Long> := {};
      ghost var emitted: seq<ThumbEvent> := [];
      while todo != {}
        invariant todo + done == userIds && todo !! done
        invariant topic.published == old(topic.published) + emitted
        invariant done <= WellFormedUsers(ks, userIds)
        invariant EventsFor(emitted, DriftPairs(ks, db.records, done), now)
        decreases |todo|
      {
        var userId :| userId in todo;
        ghost var mid := topic.published;
        ok := ReconcileUser(ks, userId, now);
        if !ok {
          StoppedAt(ks, db.records, userIds, done, userId, emitted, now);
          assert topic.published[|old(topic.published)|..] == emitted;
          return;
        }
        ghost var added := topic.published[|mid|..];
        AppendAssoc(old(topic.published), emitted, added);
        ExtendEvents(ks, db.records, done, userId, emitted, added, now);
        emitted := emitted + added;
        todo := todo - {userId};
        done := done + {userId};
      }
      Completed(ks, db.records, userIds, done, emitted, now);
      assert topic.published[|old(topic.published)|..] == emitted;
      ok := true;
    }

    /** run(): the scan, then the users of the scan in the set's (unspecified)
        order, and for each the events of its drift. A field that is no number
        ends the job with the events published so far. Nothing is written to the
        cache or the thumb table; the clock is read once. */
    method Run(now: int) returns (r: Result<()>)
      modifies topic
      ensures |old(topic.published)| <= |topic.published|
      ensures topic.published[..|old(topic.published)|] == old(topic.published)
      ensures var ks := redis.hashes;
              var emitted := topic.published[|old(topic.published)|..];
              && (r.Err? ==> r.error == NumberFormat)
              && (UserIds(ks).Err? ==> r.Err? && emitted == [])
              && (UserIds(ks).Ok? ==> Reconciled(ks, db.records, UserIds(ks).value, r.Ok?, emitted, now))
    {
      var ids := ScanUserIds();
      if ids.Err? {
        assert topic.published[|old(topic.published)|..] == [];
        return Err(NumberFormat);
      }
      var ok := ReconcileUsers(redis.hashes, ids.value, now);
      r := if ok then Ok(()) else Err(NumberFormat);
    }
  }
}
