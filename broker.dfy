/** Toggle events and the topic they are published to. A publish is modelled as
    the event being appended to the topic's log; a failed publish is reported to
    the publisher through a separate callback method. */
module Broker {
  import opened Text

  datatype EventType = INCR | DECR

  /** ThumbEvent: who, which blog, like or unlike, and when (LocalDateTime.now(),
      as a number here). */
  datatype ThumbEvent = ThumbEvent(userId: Long, blogId: Long, kind: EventType, eventTime: int)

  /** "thumb-topic". */
  class Topic {
    var published: seq<ThumbEvent>

    constructor ()
      ensures published == []
    {
      published := [];
    }

    method SendAsync(e: ThumbEvent)
      modifies this
      ensures published == old(published) + [e]
    {
      published := published + [e];
    }
  }
}
