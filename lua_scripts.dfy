/** THUMB_SCRIPT and UNTHUMB_SCRIPT: the atomic check-then-mutate Lua scripts
    over a temporary counter hash (KEYS[1]) and a user marker hash (KEYS[2]).
    A script runs as one indivisible step, so each is one method call here. */
module LuaScripts {
  import opened Outcomes
  import opened Text
  import opened RedisCache

  /** LuaStatusEnum.FAIL: already liked (like) or not liked (unlike). */
  const SCRIPT_FAIL: int := -1
  /** LuaStatusEnum.SUCCESS. */
  const SCRIPT_SUCCESS: int := 1

  /** The temporary counter field `userId .. ':' .. blogId`. */
  function TempField(userId: string, blogId: string): (f: string)
    ensures |f| > |blogId|
  {
    userId + ":" + blogId
  }

  /** `tonumber(redis.call('HGET', key, field) or 0)`: a missing field reads as 0;
      a value tonumber cannot read gives nil, and the following arithmetic raises
      a script error (None here). */
  function OldCount(ks: KeySpace, key: string, field: string): (r: Option<int>)
    ensures HGet(ks, key, field) == None ==> r == Some(0)
    ensures forall n :: HGet(ks, key, field) == Some(Num(n)) ==> r == Some(n)
    ensures r == None <==> HGet(ks, key, field).Some? && HGet(ks, key, field).value.Flag?
  {
    match HGet(ks, key, field)
    case None => Some(0)
    case Some(Num(n)) => Some(n)
    case Some(Flag(_)) => None
  }

  /** The effect of THUMB_SCRIPT: the reply code and the keyspace after it. */
  function ThumbScript(ks: KeySpace, tempKey: string, userKey: string,
                       userId: string, blogId: string, expireTime: int): (r: Result<(int, KeySpace)>)
    // presence alone blocks a like, whatever the marker holds (an expired timestamp too)
    ensures HGet(ks, userKey, blogId).Some? ==> r == Ok((SCRIPT_FAIL, ks))
    ensures (HGet(ks, userKey, blogId).None? && OldCount(ks, tempKey, TempField(userId, blogId)).None?)
              ==> r == Err(ScriptFailed)
    ensures HGet(ks, userKey, blogId).None? && OldCount(ks, tempKey, TempField(userId, blogId)).Some? ==>
              && r.Ok? && r.value.0 == SCRIPT_SUCCESS
              && HGet(r.value.1, tempKey, TempField(userId, blogId))
                   == Some(Num(OldCount(ks, tempKey, TempField(userId, blogId)).value + 1))
              && HGet(r.value.1, userKey, blogId) == Some(Num(expireTime))
    // nothing but the two named fields changes
    ensures r.Ok? ==> forall k, f :: (k, f) != (tempKey, TempField(userId, blogId)) && (k, f) != (userKey, blogId)
                        ==> HGet(r.value.1, k, f) == HGet(ks, k, f)
    ensures r.Ok? ==> r.value.0 in {SCRIPT_FAIL, SCRIPT_SUCCESS}
  {
    if HGet(ks, userKey, blogId).Some? then Ok((SCRIPT_FAIL, ks))
    else
      var hashKey := TempField(userId, blogId);
      match OldCount(ks, tempKey, hashKey)
      case None => Err(ScriptFailed)
      case Some(oldNumber) =>
        var ks1 := HSet(ks, tempKey, hashKey, Num(oldNumber + 1));
        Ok((SCRIPT_SUCCESS, HSet(ks1, userKey, blogId, Num(expireTime))))
  }

  /** The effect of UNTHUMB_SCRIPT. */
  function UnthumbScript(ks: KeySpace, tempKey: string, userKey: string,
                         userId: string, blogId: string): (r: Result<(int, KeySpace)>)
    ensures HGet(ks, userKey, blogId).None? ==> r == Ok((SCRIPT_FAIL, ks))
    ensures (HGet(ks, userKey, blogId).Some? && OldCount(ks, tempKey, TempField(userId, blogId)).None?)
              ==> r == Err(ScriptFailed)
    ensures HGet(ks, userKey, blogId).Some? && OldCount(ks, tempKey, TempField(userId, blogId)).Some? ==>
              && r.Ok? && r.value.0 == SCRIPT_SUCCESS
              && HGet(r.value.1, tempKey, TempField(userId, blogId))
                   == Some(Num(OldCount(ks, tempKey, TempField(userId, blogId)).value - 1))
              && HGet(r.value.1, userKey, blogId) == None
    ensures r.Ok? ==> forall k, f :: (k, f) != (tempKey, TempField(userId, blogId)) && (k, f) != (userKey, blogId)
                        ==> HGet(r.value.1, k, f) == HGet(ks, k, f)
    ensures r.Ok? ==> r.value.0 in {SCRIPT_FAIL, SCRIPT_SUCCESS}
  {
    if HGet(ks, userKey, blogId).None? then Ok((SCRIPT_FAIL, ks))
    else
      var hashKey := TempField(userId, blogId);
      match OldCount(ks, tempKey, hashKey)
      case None => Err(ScriptFailed)
      case Some(oldNumber) =>
        var ks1 := HSet(ks, tempKey, hashKey, Num(oldNumber - 1));
        Ok((SCRIPT_SUCCESS, HDel(ks1, userKey, {blogId})))
  }

  /** A like followed by an unlike, starting from no marker, removes the marker
      again and brings the temporary counter back to where it started (a missing
      counter comes back as an explicit 0); every other field is as before. */
  lemma LikeThenUnlikeRestores(ks: KeySpace, tempKey: string, userKey: string,
                               userId: string, blogId: string, expireTime: int)
    requires HGet(ks, userKey, blogId).None?
    requires OldCount(ks, tempKey, TempField(userId, blogId)).Some?
    ensures var liked := ThumbScript(ks, tempKey, userKey, userId, blogId, expireTime);
            && liked.Ok? && liked.value.0 == SCRIPT_SUCCESS
            && var unliked := UnthumbScript(liked.value.1, tempKey, userKey, userId, blogId);
            && unliked.Ok? && unliked.value.0 == SCRIPT_SUCCESS
            && HGet(unliked.value.1, userKey, blogId) == None
            && OldCount(unliked.value.1, tempKey, TempField(userId, blogId))
                 == OldCount(ks, tempKey, TempField(userId, blogId))
            && forall k, f :: (k, f) != (tempKey, TempField(userId, blogId))
                 ==> HGet(unliked.value.1, k, f) == HGet(ks, k, f)
  {
    var hk := TempField(userId, blogId);
    assert hk != blogId;
    var liked := ThumbScript(ks, tempKey, userKey, userId, blogId, expireTime);
    var ks1 := liked.value.1;
    assert OldCount(ks1, tempKey, hk) == Some(OldCount(ks, tempKey, hk).value + 1);
  }

  /** Runs THUMB_SCRIPT on the server, step by step as the script does. */
  method EvalThumbScript(redis: Redis, tempKey: string, userKey: string,
                         userId: string, blogId: string, expireTime: int) returns (r: Result<int>)
    modifies redis
    ensures var spec := ThumbScript(old(redis.hashes), tempKey, userKey, userId, blogId, expireTime);
            && (spec.Ok? ==> r == Ok(spec.value.0) && redis.hashes == spec.value.1)
            && (spec.Err? ==> r == Err(spec.error) && redis.hashes == old(redis.hashes))
  {
    if HGet(redis.hashes, userKey, blogId).Some? {
      return Ok(SCRIPT_FAIL);
    }
    var hashKey := TempField(userId, blogId);
    var oldNumber := OldCount(redis.hashes, tempKey, hashKey);
    if oldNumber.None? {
      return Err(ScriptFailed);
    }
    redis.Put(tempKey, hashKey, Num(oldNumber.value + 1));
    redis.Put(userKey, blogId, Num(expireTime));
    return Ok(SCRIPT_SUCCESS);
  }

  /** Runs UNTHUMB_SCRIPT on the server. */
  method EvalUnthumbScript(redis: Redis, tempKey: string, userKey: string,
                           userId: string, blogId: string) returns (r: Result<int>)
    modifies redis
    ensures var spec := UnthumbScript(old(redis.hashes), tempKey, userKey, userId, blogId);
            && (spec.Ok? ==> r == Ok(spec.value.0) && redis.hashes == spec.value.1)
            && (spec.Err? ==> r == Err(spec.error) && redis.hashes == old(redis.hashes))
  {
    if HGet(redis.hashes, userKey, blogId).None? {
      return Ok(SCRIPT_FAIL);
    }
    var hashKey := TempField(userId, blogId);
    var oldNumber := OldCount(redis.hashes, tempKey, hashKey);
    if oldNumber.None? {
      return Err(ScriptFailed);
    }
    redis.Put(tempKey, hashKey, Num(oldNumber.value - 1));
    redis.Delete(userKey, {blogId});
    return Ok(SCRIPT_SUCCESS);
  }
}
