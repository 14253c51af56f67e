/** The `VecDeque<String>` the render loop keeps its log lines in. */
module Deque {
  import opened Common

  class LineDeque {
    /** The deque's elements, front (oldest) first. */
    var items: seq<string>

    /** `VecDeque::with_capacity(n)`: the capacity only reserves room; the deque starts empty. */
    constructor WithCapacity(n: nat)
      ensures items == []
    {
      items := [];
    }

    /** `VecDeque::len`. */
    function Len(): nat
      reads this
    {
      |items|
    }

    /** `VecDeque::pop_front`: removes and returns the front element, if any. */
    method PopFront() returns (r: Option<string>)
      modifies this
      ensures old(items) == [] ==> r == None && items == []
      ensures old(items) != [] ==> r == Some(old(items)[0]) && items == old(items)[1..]
    {
      if items == [] {
        r := None;
      } else {
        r := Some(items[0]);
        items := items[1..];
      }
    }

    /** `VecDeque::push_back`: appends at the back; nothing else changes. */
    method PushBack(line: string)
      modifies this
      ensures items == old(items) + [line]
    {
      items := items + [line];
    }
  }
}
