/** The blog views of the message-queue application: each blog decorated with
    whether the login user likes it. */
module BlogService {
  import opened Outcomes
  import opened Text
  import opened RedisCache
  import opened Entities
  import ScriptThumbService
  import opened MqThumbService

  /** The hasThumb the list view shows: true when the login user's marker hash
      has a field for the blog, whatever its value; null otherwise, never false. */
  function ListHasThumb(ks: KeySpace, blogId: Long, loginUser: Option<Long>): (r: Option<bool>)
    ensures r != Some(false)
    ensures r == Some(true) <==> loginUser.Some? && MarkerOf(ks, loginUser.value, blogId).Some?
  {
    if loginUser.Some? && IntToString(blogId) in HashOf(ks, UserThumbKey(loginUser.value)) then Some(true) else None
  }

  /** The list view checks presence only: an expired marker still shows as
      liked, where the single view answers false and asks for an eviction. */
  lemma ListShowsExpiredMarker(ks: KeySpace, blogId: Long, userId: Long, now: int, dbHas: bool, expireTime: int)
    requires MarkerOf(ks, userId, blogId) == Some(Num(expireTime)) && expireTime < now
    ensures ListHasThumb(ks, blogId, Some(userId)) == Some(true)
    ensures ScriptThumbService.HasThumbDecision(ks, blogId, userId, now, dbHas) == (Ok(false), true)
  {
  }

  /** Without a marker the list view shows null, with no fallback to the thumb
      table, where the single view answers the table's answer. */
  lemma ListHasNoFallback(ks: KeySpace, blogId: Long, userId: Long, now: int, dbHas: bool)
    requires MarkerOf(ks, userId, blogId).None?
    ensures ListHasThumb(ks, blogId, Some(userId)).None?
    ensures ScriptThumbService.HasThumbDecision(ks, blogId, userId, now, dbHas) == (Ok(dbHas), false)
  {
  }

  /** The blog service; its cache is the thumb service's (one Redis). */
  class BlogServiceMQ {
    const thumbService: ThumbServiceMQ

    constructor (thumbService: ThumbServiceMQ)
      ensures this.thumbService == thumbService
    {
      this.thumbService := thumbService;
    }

    /** getBlogVO: the blog's properties; with a login user, hasThumb is the thumb
        service's answer (a failing hasThumb fails the call); without one it stays
        null and the thumb service is not asked. */
    method GetBlogVO(blog: Blog, loginUser: Option<Long>, nowMillis: int, dbHas: bool) returns (r: Result<BlogVO>)
      modifies thumbService`evictions
      ensures loginUser.None? ==> r == Ok(BlogVO(blog, None)) && thumbService.evictions == old(thumbService.evictions)
      ensures loginUser.Some? ==>
                var (reply, evict) := ScriptThumbService.HasThumbDecision(thumbService.redis.hashes, blog.id, loginUser.value, nowMillis, dbHas);
                && r == (if reply.Ok? then Ok(BlogVO(blog, Some(reply.value))) else Err(reply.error))
                && thumbService.evictions == old(thumbService.evictions)
                     + (if evict then [ScriptThumbService.Location(UserThumbKey(loginUser.value), IntToString(blog.id))] else [])
    {
      if loginUser.None? {
        return Ok(BlogVO(blog, None));
      }
      var exist := thumbService.HasThumb(blog.id, loginUser.value, nowMillis, dbHas);
      if exist.Err? {
        return Err(exist.error);
      }
      r := Ok(BlogVO(blog, Some(exist.value)));
    }

    /** The lookup inside getBlogVoList: one bulk HMGET of the blogs' ids in the
        user's marker hash, and `true` under every id whose field is there. */
    method HasThumbMap(blogs: seq<Blog>, userId: Long) returns (blogIdHasThumbMap: map<Long, bool>)
      ensures forall id :: id in blogIdHasThumbMap ==> blogIdHasThumbMap[id]
      ensures forall i :: 0 <= i < |blogs| ==>
                (blogs[i].id in blogIdHasThumbMap <==> MarkerOf(thumbService.redis.hashes, userId, blogs[i].id).Some?)
    {
      blogIdHasThumbMap := map[];
      var key := UserThumbKey(userId);
      var blogIdList := seq(|blogs|, i requires 0 <= i < |blogs| => IntToString(blogs[i].id));
      var thumbList := MultiGet(thumbService.redis.hashes, key, blogIdList);
      var i := 0;
      while i < |thumbList|
        invariant 0 <= i <= |thumbList|
        invariant forall id :: id in blogIdHasThumbMap ==> blogIdHasThumbMap[id]
        invariant forall j :: 0 <= j < i && thumbList[j].Some? ==> blogs[j].id in blogIdHasThumbMap
        invariant forall id :: id in blogIdHasThumbMap ==> IntToString(id) in HashOf(thumbService.redis.hashes, key)
      {
        if thumbList[i].None? {
          i := i + 1;
          continue;
        }
        var blogId := ParseLong(blogIdList[i]);
        ParseLongOfIntToString(blogs[i].id);
        blogIdHasThumbMap := blogIdHasThumbMap[blogId.value := true];
        i := i + 1;
      }
      forall j | 0 <= j < |blogs| && IntToString(blogs[j].id) in HashOf(thumbService.redis.hashes, key)
        ensures blogs[j].id in blogIdHasThumbMap
      {
        assert thumbList[j].Some?;
      }
    }

    /** getBlogVoList: one view per blog, in order; without a login user the map
        stays empty. */
    method GetBlogVoList(blogs: seq<Blog>, loginUser: Option<Long>) returns (vos: seq<BlogVO>)
      ensures |vos| == |blogs|
      ensures forall i :: 0 <= i < |blogs| ==> vos[i].blog == blogs[i]
      ensures forall i :: 0 <= i < |blogs| ==> vos[i].hasThumb == ListHasThumb(thumbService.redis.hashes, blogs[i].id, loginUser)
    {
      var blogIdHasThumbMap: map<Long, bool> := map[];
      if loginUser.Some? {
        blogIdHasThumbMap := HasThumbMap(blogs, loginUser.value);
      }
      vos := seq(|blogs|, i requires 0 <= i < |blogs| =>
                   BlogVO(blogs[i], if blogs[i].id in blogIdHasThumbMap then Some(blogIdHasThumbMap[blogs[i].id]) else None));
    }
  }
}
