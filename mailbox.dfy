/** The message queue shared by all participants: every receive is filtered
    by a tag (the receiver's pid), and messages with other tags stay queued. */
module Mailbox {
  import opened Protocol

  /** The messages of q tagged `tag`, in queue order. */
  function Addressed(q: seq<Message>, tag: int): (r: seq<Message>)
    ensures |r| <= |q|
    ensures forall i :: 0 <= i < |r| ==> r[i].mtype == tag
  {
    if q == [] then []
    else (if q[0].mtype == tag then [q[0]] else []) + Addressed(q[1..], tag)
  }

  /** msgrcv with type `tag`: remove and return the first message tagged
      `tag`, or None when there is none (the manager's IPC_NOWAIT poll
      reports that as "no message"; a worker would wait). */
  function Receive(q: seq<Message>, tag: int): (r: Option<(Message, seq<Message>)>)
    ensures r.Some? ==> r.value.0.mtype == tag && |r.value.1| == |q| - 1
  {
    if q == [] then None
    else if q[0].mtype == tag then Some((q[0], q[1..]))
    else match Receive(q[1..], tag)
      case None => None
      case Some((m, rest)) => Some((m, [q[0]] + rest))
  }

  /** Receive delivers the tag's messages first-in first-out and leaves
      every other tag's messages where they were. */
  lemma {:induction false} ReceiveTakesFirstAddressed(q: seq<Message>, tag: int)
    ensures Receive(q, tag).None? <==> Addressed(q, tag) == []
    ensures Receive(q, tag).Some? ==>
              Receive(q, tag).value.0 == Addressed(q, tag)[0] &&
              Addressed(Receive(q, tag).value.1, tag) == Addressed(q, tag)[1..]
    ensures Receive(q, tag).Some? ==>
              forall t :: t != tag ==> Addressed(Receive(q, tag).value.1, t) == Addressed(q, t)
  {
    if q != [] && q[0].mtype != tag {
      ReceiveTakesFirstAddressed(q[1..], tag);
      match Receive(q[1..], tag)
      case None =>
      case Some((m, rest)) =>
        var r := [q[0]] + rest;
        assert r[0] == q[0] && r[1..] == rest;
        forall t | t != tag
          ensures Addressed(r, t) == Addressed(q, t)
        {
        }
    }
  }
}
