/** The response parser between reads. */
module Parser {
  import opened Octets

  /** The response parser, as the queue of steps it can still make. */
  class Fragmentizer<Progress> {
    var queue: seq<Progress>

    constructor ()
      ensures queue == []
    {
      queue := [];
    }

    method Enqueue(completes: seq<Progress>)
      modifies this
      ensures queue == old(queue) + completes
    {
      queue := queue + completes;
    }

    method Advance() returns (p: Option<Progress>)
      modifies this
      ensures old(queue) == [] ==> p == None && queue == []
      ensures old(queue) != [] ==> p == Some(old(queue)[0]) && queue == old(queue)[1..]
    {
      p := None;
      if queue != [] {
        p, queue := Some(queue[0]), queue[1..];
      }
    }
  }
}
