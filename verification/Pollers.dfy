/** The two pollers side by side. */
module Pollers {
  import opened EventTables
  import opened SelectPoller
  import opened EpollPoller

  // After a run of calls they agree on, the bits of the one and the interest masks of the other watch the
  // same descriptors for the same directions, and both have returned the same.
  method SameWatch(ops: seq<Op>) returns (readFDs: FdSet, writeFDs: FdSet, kernel: map<int, Interest>,
                                          selectOks: seq<bool>, epollOks: seq<bool>)
    requires RunAgreeable(EMPTY, ops)
    ensures selectOks == epollOks
    ensures forall fd :: fd in kernel <==> InRange(fd) && (readFDs[fd] || writeFDs[fd])
    ensures forall fd :: fd in kernel ==> InRange(fd) && kernel[fd] == Interest(readFDs[fd], writeFDs[fd])
  {
    var select := new SelectPoller();
    selectOks := select.PerformAll(ops);
    var epoll := new EpollPoller();
    epollOks := epoll.PerformAll(ops);
    RunsAgreeExactly(EMPTY, ops);
    readFDs, writeFDs, kernel := select.fdReadSet, select.fdWriteSet, epoll.kernel;
    assert select.Registered() == epoll.Registered();
    assert forall fd :: fd in kernel ==> InRange(fd);
  }
}
