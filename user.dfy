/** The worker (user): until a termination draw fires, it sends the manager
    a read or write request for a random address and waits for the reply;
    a BLOCKED reply must be followed by GRANTED, otherwise it exits with
    status 1. Random draws and the contents of the queue are inputs. */
module User {
  import opened Protocol
  import opened Mailbox
  import opened FrameTable

  /** Chance, in thousandths, of terminating on an iteration. */
  const TERMINATION_CHANCE: int := 1
  /** Chance, in percent, that a request is a read. */
  const READ_CHANCE: int := 85
  const EXIT_SUCCESS: int := 0
  const EXIT_PROTOCOL_ERROR: int := 1

  /** The four draws of one iteration: in [0, 1000], [0, 63], [0, 1023], [1, 100]. */
  datatype Draws = Draws(termination: int, page: int, offset: int, readWrite: int)

  predicate DrawsInRange(d: Draws)
  {
    0 <= d.termination <= 1000 && 0 <= d.page <= 63 && 0 <= d.offset <= 1023 && 1 <= d.readWrite <= 100
  }

  /** `pageNumber * 1024 + offset`: within the 64-page address space, and the
      manager's page computation recovers the page. */
  function FormAddress(pageNumber: int, offset: int): (address: int)
    ensures 0 <= pageNumber <= 63 && 0 <= offset < PAGE_SIZE ==>
              0 <= address <= 65535 && PageOf(address) == pageNumber
  {
    pageNumber * PAGE_SIZE + offset
  }

  /** The request code as user.cpp:258 computes it: READ when 85 exceeds
      the draw in [1, 100], so on the 84 draws 1..84 only. */
  function RequestCodeAsWritten(readWrite: int): (code: int)
    ensures code == MSG_READ || code == MSG_WRITE
    ensures code == MSG_READ <==> readWrite < READ_CHANCE
  {
    if READ_CHANCE > readWrite then MSG_READ else MSG_WRITE
  }

  /** The request code with the 85% read chance the constant promises: READ
      exactly when the draw in [1, 100] is at most 85. */
  function RequestCode(readWrite: int): (code: int)
    ensures code == MSG_READ || code == MSG_WRITE
    ensures code == MSG_READ <==> readWrite <= READ_CHANCE
  {
    if READ_CHANCE >= readWrite then MSG_READ else MSG_WRITE
  }

  /** How many of the draws 1..k a code choice turns into READ. */
  function ReadDraws(k: nat, code: int -> int): nat
    decreases k
  {
    if k == 0 then 0 else ReadDraws(k - 1, code) + (if code(k) == MSG_READ then 1 else 0)
  }

  /** A code that reads exactly on the draws up to t reads on min(k, t) of 1..k. */
  lemma {:induction false} ReadDrawsBelowThreshold(k: nat, code: int -> int, t: nat)
    requires forall d :: 1 <= d <= k ==> (code(d) == MSG_READ <==> d <= t)
    ensures ReadDraws(k, code) == if k <= t then k else t
    decreases k
  {
    if k > 0 {
      ReadDrawsBelowThreshold(k - 1, code, t);
    }
  }

  /** As written, 84 of the 100 draws read, not 85: draw 85 writes, and it
      is the only draw on which the code differs from the corrected one. */
  lemma RequestCodeAsWrittenReads84()
    ensures RequestCodeAsWritten(85) == MSG_WRITE
    ensures forall d :: RequestCodeAsWritten(d) == RequestCode(d) <==> d != READ_CHANCE
    ensures ReadDraws(100, RequestCodeAsWritten) == 84
  {
    ReadDrawsBelowThreshold(100, RequestCodeAsWritten, 84);
  }

  /** The corrected choice reads on exactly 85 of the 100 draws. */
  lemma RequestCodeReads85()
    ensures ReadDraws(100, RequestCode) == 85
  {
    ReadDrawsBelowThreshold(100, RequestCode, 85);
  }

  /** The request of one iteration: tagged with the parent's pid, sent by self. */
  function Request(self: int, parent: int, d: Draws): Message
  {
    Message(parent, RequestCode(d.readWrite), FormAddress(d.page, d.offset), self)
  }

  /** How a run ends: an exit with a status, blocked in a receive that no
      queued message satisfies, or still looping when the draws run out. */
  datatype Outcome = Exited(status: int) | AwaitingReply | StillRunning

  /** The requests sent and how the run ended. */
  datatype Trace = Trace(sent: seq<Message>, outcome: Outcome)

  function Then(sent: seq<Message>, t: Trace): Trace
  {
    Trace(sent + t.sent, t.outcome)
  }

  /** The worker's loop over its draws, receiving from the queue `inbox`
      (both receives filter on the worker's own pid). */
  function Run(self: int, parent: int, draws: seq<Draws>, inbox: seq<Message>): Trace
    decreases |draws|
  {
    if draws == [] then Trace([], StillRunning)
    else if TERMINATION_CHANCE > draws[0].termination then Trace([], Exited(EXIT_SUCCESS))
    else
      var request := Request(self, parent, draws[0]);
      match Receive(inbox, self)
      case None => Trace([request], AwaitingReply)
      case Some((first, rest)) =>
        if first.msgCode == MSG_BLOCKED then
          match Receive(rest, self)
          case None => Trace([request], AwaitingReply)
          case Some((second, rest')) =>
            if second.msgCode != MSG_GRANTED then Trace([request], Exited(EXIT_PROTOCOL_ERROR))
            else Then([request], Run(self, parent, draws[1..], rest'))
        else Then([request], Run(self, parent, draws[1..], rest))
  }

  /** The worker's main loop. */
  method RunWorker(self: int, parent: int, draws: seq<Draws>, inbox: seq<Message>) returns (sent: seq<Message>, outcome: Outcome)
    ensures Trace(sent, outcome) == Run(self, parent, draws, inbox)
  {
    sent := [];
    var queue := inbox;
    var i := 0;
    while i < |draws|
      invariant 0 <= i <= |draws|
      invariant Run(self, parent, draws, inbox) == Then(sent, Run(self, parent, draws[i..], queue))
    {
      assert draws[i..][0] == draws[i] && draws[i..][1..] == draws[i + 1..];
      if TERMINATION_CHANCE > draws[i].termination {
        outcome := Exited(EXIT_SUCCESS);
        return;
      }
      var request := Request(self, parent, draws[i]);
      sent := sent + [request];
      var reply := Receive(queue, self);
      if reply.None? {
        outcome := AwaitingReply;
        return;
      }
      var rcvbuf := reply.value.0;
      queue := reply.value.1;
      if rcvbuf.msgCode == MSG_BLOCKED {
        reply := Receive(queue, self);
        if reply.None? {
          outcome := AwaitingReply;
          return;
        }
        rcvbuf := reply.value.0;
        queue := reply.value.1;
        if rcvbuf.msgCode != MSG_GRANTED {
          outcome := Exited(EXIT_PROTOCOL_ERROR);
          return;
        }
      }
      i := i + 1;
    }
    outcome := StillRunning;
  }

  /** Every request is tagged with the parent's pid, sent by the worker,
      coded READ or WRITE, for an address in [0, 65535]; at most one per draw. */
  lemma {:induction false} RequestsWellFormed(self: int, parent: int, draws: seq<Draws>, inbox: seq<Message>)
    requires forall i :: 0 <= i < |draws| ==> DrawsInRange(draws[i])
    ensures var t := Run(self, parent, draws, inbox);
            |t.sent| <= |draws| &&
            forall m :: m in t.sent ==>
              m.mtype == parent && m.sender == self &&
              (m.msgCode == MSG_READ || m.msgCode == MSG_WRITE) &&
              0 <= m.memoryAddress <= 65535
    decreases |draws|
  {
    if draws != [] && TERMINATION_CHANCE <= draws[0].termination {
      var request := Request(self, parent, draws[0]);
      assert DrawsInRange(draws[0]);
      assert 0 <= request.memoryAddress <= 65535;
      match Receive(inbox, self)
      case None =>
      case Some((first, rest)) =>
        if first.msgCode == MSG_BLOCKED {
          match Receive(rest, self)
          case None =>
          case Some((second, rest')) =>
            RequestsWellFormed(self, parent, draws[1..], rest');
        } else {
          RequestsWellFormed(self, parent, draws[1..], rest);
        }
    }
  }

  /** The worker ends with status 0 only through the termination draw: the
      draw of the iteration after the last request fired, and none before did. */
  lemma {:induction false} NormalExitOnlyByDraw(self: int, parent: int, draws: seq<Draws>, inbox: seq<Message>)
    ensures var t := Run(self, parent, draws, inbox);
            t.outcome.Exited? ==> t.outcome.status == EXIT_SUCCESS || t.outcome.status == EXIT_PROTOCOL_ERROR
    ensures var t := Run(self, parent, draws, inbox);
            t.outcome == Exited(EXIT_SUCCESS) ==>
              |t.sent| < |draws| && draws[|t.sent|].termination < TERMINATION_CHANCE &&
              forall j :: 0 <= j < |t.sent| ==> draws[j].termination >= TERMINATION_CHANCE
    decreases |draws|
  {
    if draws != [] && TERMINATION_CHANCE <= draws[0].termination {
      match Receive(inbox, self)
      case None =>
      case Some((first, rest)) =>
        if first.msgCode == MSG_BLOCKED {
          match Receive(rest, self)
          case None =>
          case Some((second, rest')) =>
            NormalExitOnlyByDraw(self, parent, draws[1..], rest');
        } else {
          NormalExitOnlyByDraw(self, parent, draws[1..], rest);
        }
    }
  }

  /** Only the messages tagged with the worker's pid affect its run. */
  lemma {:induction false} OnlyOwnMessagesMatter(self: int, parent: int, draws: seq<Draws>, q1: seq<Message>, q2: seq<Message>)
    requires Addressed(q1, self) == Addressed(q2, self)
    ensures Run(self, parent, draws, q1) == Run(self, parent, draws, q2)
    decreases |draws|
  {
    if draws != [] && TERMINATION_CHANCE <= draws[0].termination {
      ReceiveTakesFirstAddressed(q1, self);
      ReceiveTakesFirstAddressed(q2, self);
      if Receive(q1, self).Some? {
        var rest1, rest2 := Receive(q1, self).value.1, Receive(q2, self).value.1;
        ReceiveTakesFirstAddressed(rest1, self);
        ReceiveTakesFirstAddressed(rest2, self);
        if Receive(rest1, self).Some? {
          OnlyOwnMessagesMatter(self, parent, draws[1..], Receive(rest1, self).value.1, Receive(rest2, self).value.1);
        }
        OnlyOwnMessagesMatter(self, parent, draws[1..], rest1, rest2);
      }
    }
  }

  /** Replies shaped as the manager's (GRANTED, or BLOCKED then GRANTED) are
      always accepted: the worker never exits with status 1, and when every
      request has its reply it never waits forever either. */
  lemma {:induction false} WorkerAcceptsManagerReplies(self: int, parent: int, draws: seq<Draws>, inbox: seq<Message>, replies: seq<seq<Message>>)
    requires Addressed(inbox, self) == Flatten(replies)
    requires forall k :: 0 <= k < |replies| ==> WellFormedReply(replies[k], self)
    ensures Run(self, parent, draws, inbox).outcome != Exited(EXIT_PROTOCOL_ERROR)
    ensures |draws| <= |replies| ==> Run(self, parent, draws, inbox).outcome != AwaitingReply
    decreases |draws|
  {
    if draws != [] && TERMINATION_CHANCE <= draws[0].termination {
      ReceiveTakesFirstAddressed(inbox, self);
      if replies == [] {
        assert Receive(inbox, self).None?;
      } else {
        var r := replies[0];
        assert WellFormedReply(r, self);
        assert Flatten(replies) == r + Flatten(replies[1..]);
        var rest := Receive(inbox, self).value.1;
        assert Receive(inbox, self).value.0 == r[0];
        if |r| == 1 {
          assert Addressed(rest, self) == Flatten(replies[1..]);
          WorkerAcceptsManagerReplies(self, parent, draws[1..], rest, replies[1..]);
        } else {
          assert Addressed(rest, self) == [r[1]] + Flatten(replies[1..]);
          ReceiveTakesFirstAddressed(rest, self);
          var rest' := Receive(rest, self).value.1;
          assert Receive(rest, self).value.0 == r[1];
          WorkerAcceptsManagerReplies(self, parent, draws[1..], rest', replies[1..]);
        }
      }
    }
  }

  /** Only a BLOCKED first reply is checked: when no message tagged with the
      worker's pid is BLOCKED, whatever their codes, it never exits with status 1. */
  lemma {:induction false} UnblockedRepliesAreNotChecked(self: int, parent: int, draws: seq<Draws>, inbox: seq<Message>)
    requires forall i :: 0 <= i < |Addressed(inbox, self)| ==> Addressed(inbox, self)[i].msgCode != MSG_BLOCKED
    ensures Run(self, parent, draws, inbox).outcome != Exited(EXIT_PROTOCOL_ERROR)
    decreases |draws|
  {
    if draws != [] && TERMINATION_CHANCE <= draws[0].termination {
      ReceiveTakesFirstAddressed(inbox, self);
      if Receive(inbox, self).Some? {
        var rest := Receive(inbox, self).value.1;
        assert Receive(inbox, self).value.0.msgCode != MSG_BLOCKED;
        UnblockedRepliesAreNotChecked(self, parent, draws[1..], rest);
      }
    }
  }

  /** End to end: when the messages tagged with the worker's pid are the
      manager's replies to its requests, each answered against some frame
      table, the worker never takes the protocol-error exit. */
  lemma WorkerNeverFaults(self: int, parent: int, draws: seq<Draws>, inbox: seq<Message>,
                          tables: seq<seq<Frame>>, addresses: seq<int>)
    requires |tables| == |addresses|
    requires Addressed(inbox, self) == Flatten(seq(|tables|, k requires 0 <= k < |tables| => Replies(tables[k], self, addresses[k], parent)))
    ensures Run(self, parent, draws, inbox).outcome != Exited(EXIT_PROTOCOL_ERROR)
  {
    var replies := seq(|tables|, k requires 0 <= k < |tables| => Replies(tables[k], self, addresses[k], parent));
    forall k | 0 <= k < |replies|
      ensures WellFormedReply(replies[k], self)
    {
      RepliesWellFormed(tables[k], self, addresses[k], parent);
    }
    WorkerAcceptsManagerReplies(self, parent, draws, inbox, replies);
  }
}
