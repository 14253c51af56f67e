/**
 * The `std::sync::mpsc` channel that carries log lines from the tailer thread
 * to the render loop, as one object holding the lines sent and not yet
 * received, oldest first.
 */
module Mpsc {
  import opened Common

  class Channel {
    /** Lines sent and not yet received, in the order they were sent. */
    var pending: seq<string>

    /** `mpsc::channel()`: a new channel holds nothing. */
    constructor ()
      ensures pending == []
    {
      pending := [];
    }

    /** `Sender::send`: the line joins the back of the queue. */
    method Send(line: string)
      modifies this
      ensures pending == old(pending) + [line]
    {
      pending := pending + [line];
    }

    /**
     * `Receiver::try_recv`: takes the oldest pending line without waiting;
     * `None` (Rust's `Err(TryRecvError::Empty)`) when nothing is pending.
     */
    method TryRecv() returns (r: Option<string>)
      modifies this
      ensures old(pending) == [] ==> r == None && pending == []
      ensures old(pending) != [] ==> r == Some(old(pending)[0]) && pending == old(pending)[1..]
    {
      if pending == [] {
        r := None;
      } else {
        r := Some(pending[0]);
        pending := pending[1..];
      }
    }
  }
}
