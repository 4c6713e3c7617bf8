/** Option and Result values, and the errors the services raise. */
module Outcomes {

  datatype Option<+T> = None | Some(value: T)

  /** The exceptions of the source, one constructor per distinct failure. */
  datatype Error =
    | InvalidParam        // "参数错误": missing request or blog id
    | NotLoggedIn         // "用户未登录"
    | AlreadyLiked        // "用户已点赞"
    | NotLiked            // "用户未点赞"
    | ScriptFailed        // a Lua runtime error inside a script
    | ClassCast           // a cache value of the wrong Java type cast to Long
    | NumberFormat        // Long.valueOf on a string that is not a decimal long
    | TestGuard           // the unconditional RuntimeException("test") of the consumer

  datatype Result<+T> = Ok(value: T) | Err(error: Error)
}
