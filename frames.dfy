/**
 * Frames and the bounded queue that hands them from the capture thread to the detection
 * thread (`Queue(maxsize=20)` in app/services/optimized_video_service.py). Pixels are not
 * modelled; a frame is known by its shape.
 */
module Frames {
  datatype Frame = Frame(width: nat, height: nat)

  /** The part of `queue.Queue` the services use: `full`, `empty`, `put` and `get`. */
  class FrameQueue {
    const maxsize: nat
    var items: seq<Frame>

    ghost predicate Valid()
      reads this
    {
      0 < maxsize && |items| <= maxsize
    }

    constructor (maxsize: nat)
      requires 0 < maxsize
      ensures Valid() && this.maxsize == maxsize && items == []
    {
      this.maxsize := maxsize;
      items := [];
    }

    /** `full()`: as many items as the bound allows. */
    function Full(): (r: bool)
      requires Valid()
      reads this
      ensures r <==> |items| == maxsize
    {
      |items| >= maxsize
    }

    /** `empty()`. */
    function Empty(): bool
      reads this
    {
      |items| == 0
    }

    /** `put(frame)` on a queue that is not full: the frame joins the back. */
    method Put(frame: Frame)
      requires Valid() && !Full()
      modifies this
      ensures Valid() && items == old(items) + [frame]
    {
      items := items + [frame];
    }

    /** `get()` on a queue that is not empty: the oldest frame leaves the front. */
    method Get() returns (frame: Frame)
      requires Valid() && !Empty()
      modifies this
      ensures Valid() && frame == old(items)[0] && items == old(items)[1..]
    {
      frame := items[0];
      items := items[1..];
    }
  }
}
