/**
 * A Go channel between goroutines that each send one value and a single
 * receiver. What the receiver can observe is the collection of values sent
 * and not yet received; which of them a receive returns is up to the
 * scheduler, so the channel keeps them as a multiset and `Receive` may return
 * any of them.
 */
module Channels {

  class Channel<T(==)> {
    /** The values sent and not yet received. */
    var pending: multiset<T>

    /** `make(chan T)`. */
    constructor ()
      ensures pending == multiset{}
    {
      pending := multiset{};
    }

    /** `c <- x`, run by a producer goroutine. */
    method Send(x: T)
      modifies this
      ensures pending == old(pending) + multiset{x}
    {
      pending := pending + multiset{x};
    }

    /** `<-c`: yields one of the pending values, chosen by the scheduler. A receive
        with no sender left would block forever; the scraper never does one. */
    method Receive() returns (x: T)
      requires |pending| > 0
      modifies this
      ensures x in old(pending)
      ensures pending == old(pending) - multiset{x}
    {
      x :| x in pending;
      pending := pending - multiset{x};
    }
  }
}
