/** The shared cache: a Redis keyspace of hashes, the key names the services
    use, and the hash commands they issue. */
module RedisCache {
  import opened Outcomes
  import opened Text

  /** What the Java side reads back from a hash field: a number (an expiry
      timestamp, a record id or a temporary counter) or a boolean flag. */
  datatype CacheValue = Num(n: int) | Flag(b: bool)

  type Hash = map<string, CacheValue>

  /** Key name to hash. Redis keeps no empty hashes: a key whose last field is
      deleted disappears. */
  type KeySpace = map<string, Hash>

  /** ThumbConstant.USER_THUMB_KEY_PREFIX. */
  const USER_THUMB_KEY_PREFIX: string := "thumb:"

  /** "thumb:" + userId: the per-user marker hash (field = blog id). */
  function UserThumbKey(userId: Long): (k: string)
    ensures StartsWith(k, USER_THUMB_KEY_PREFIX)
  {
    USER_THUMB_KEY_PREFIX + IntToString(userId)
  }

  /** "thumb:temp:" + slice: the time-sliced temporary counter hash. */
  function TempThumbKey(slice: string): (k: string)
    ensures StartsWith(k, USER_THUMB_KEY_PREFIX)
  {
    "thumb:temp:" + slice
  }

  lemma UserThumbKeyInjective(a: Long, b: Long)
    requires UserThumbKey(a) == UserThumbKey(b)
    ensures a == b
  {
    assert IntToString(a) == UserThumbKey(a)[|USER_THUMB_KEY_PREFIX|..];
    assert IntToString(b) == UserThumbKey(b)[|USER_THUMB_KEY_PREFIX|..];
    IntToStringInjective(a, b);
  }

  /** The hash stored at key, empty when the key does not exist. */
  function HashOf(ks: KeySpace, key: string): Hash
  {
    if key in ks then ks[key] else map[]
  }

  predicate NoEmptyHash(ks: KeySpace) { forall k :: k in ks ==> ks[k] != map[] }

  /** HGET: nil for a missing key or field. */
  function HGet(ks: KeySpace, key: string, field: string): (r: Option<CacheValue>)
    ensures r.Some? <==> field in HashOf(ks, key)
  {
    var h := HashOf(ks, key);
    if field in h then Some(h[field]) else None
  }

  /** HSET of one field. */
  function HSet(ks: KeySpace, key: string, field: string, v: CacheValue): (r: KeySpace)
    ensures HGet(r, key, field) == Some(v)
    ensures forall k, f :: (k, f) != (key, field) ==> HGet(r, k, f) == HGet(ks, k, f)
    ensures NoEmptyHash(ks) ==> NoEmptyHash(r)
  {
    ks[key := HashOf(ks, key)[field := v]]
  }

  /** HDEL of several fields; the key goes away with its last field. */
  function HDel(ks: KeySpace, key: string, fields: set<string>): (r: KeySpace)
    ensures forall f :: f in fields ==> HGet(r, key, f) == None
    ensures forall k, f :: (k != key || f !in fields) ==> HGet(r, k, f) == HGet(ks, k, f)
    ensures NoEmptyHash(ks) ==> NoEmptyHash(r)
  {
    var h := HashOf(ks, key) - fields;
    if h == map[] then ks - {key} else ks[key := h]
  }

  /** The field that marks a like by `userId` on `blogId`: hash "thumb:" +
      userId, field blogId. Every variant keeps its per-like value there. */
  function MarkerOf(ks: KeySpace, userId: Long, blogId: Long): Option<CacheValue>
  {
    HGet(ks, UserThumbKey(userId), IntToString(blogId))
  }

  /** HMGET: one answer per requested field, index-aligned, nil where absent. */
  function MultiGet(ks: KeySpace, key: string, fields: seq<string>): (r: seq<Option<CacheValue>>)
    ensures |r| == |fields|
    ensures forall i :: 0 <= i < |fields| ==> r[i] == HGet(ks, key, fields[i])
  {
    seq(|fields|, i requires 0 <= i < |fields| => HGet(ks, key, fields[i]))
  }

  /** The cache server. Scripts and commands change `hashes`. */
  class Redis {
    var hashes: KeySpace

    constructor (initial: KeySpace)
      ensures hashes == initial
    {
      hashes := initial;
    }

    method Put(key: string, field: string, v: CacheValue)
      modifies this
      ensures hashes == HSet(old(hashes), key, field, v)
    {
      hashes := HSet(hashes, key, field, v);
    }

    method Delete(key: string, fields: set<string>)
      modifies this
      ensures hashes == HDel(old(hashes), key, fields)
    {
      hashes := HDel(hashes, key, fields);
    }
  }
}
