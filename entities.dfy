/** The entities the services share, and the request checks every toggle
    service runs first. */
module Entities {
  import opened Outcomes
  import opened Text

  /** A like record (table `thumb`): who liked which blog. */
  datatype Thumb = Thumb(userId: Long, blogId: Long)

  /** A blog row: its id and its like counter `thumbCount`. */
  datatype Blog = Blog(id: Long, thumbCount: int)

  /** BlogVO: the blog's properties plus `hasThumb`, which stays null (None)
      unless it is set. */
  datatype BlogVO = BlogVO(blog: Blog, hasThumb: Option<bool>)

  /** DoThumbRequest: the body of a like/unlike call, whose blogId may be null. */
  datatype DoThumbRequest = DoThumbRequest(blogId: Option<Long>)

  /** A null request or a null blogId is "参数错误"; then a missing login user is
      "用户未登录". On success: the login user's id and the blog id, in that order. */
  function CheckRequest(request: Option<DoThumbRequest>, loginUser: Option<Long>): (r: Result<(Long, Long)>)
    ensures (request.None? || request.value.blogId.None?) <==> r == Err(InvalidParam)
    ensures r == Err(NotLoggedIn) <==> request.Some? && request.value.blogId.Some? && loginUser.None?
    ensures r.Ok? <==> request.Some? && request.value.blogId.Some? && loginUser.Some?
    ensures r.Ok? ==> r.value == (loginUser.value, request.value.blogId.value)
  {
    if request.None? || request.value.blogId.None? then Err(InvalidParam)
    else if loginUser.None? then Err(NotLoggedIn)
    else Ok((loginUser.value, request.value.blogId.value))
  }
}
