/** The manager's frame table: a fixed pool of physical frames shared by all
    workers, resolved by a linear lookup and refilled by the second-chance
    (clock) algorithm, whose hand persists from one fault to the next. */
module FrameTable {
  import opened Protocol
  import opened Clock

  /** Virtual nanoseconds charged for a hit. */
  const HIT_COST: int := 100

  /** One frame: owner pid (0 for none), page number and the two bits. */
  datatype Frame = Frame(pid: int, pageNumber: int, secondChance: bool, dirty: bool)

  const EMPTY_FRAME := Frame(0, 0, false, false)

  predicate Matches(f: Frame, pid: int, pageNumber: int)
  {
    f.pid == pid && f.pageNumber == pageNumber
  }

  /** The frame after a hit: its second-chance bit is set, and it is dirty
      once written. */
  function Touched(f: Frame, write: bool): Frame
  {
    f.(secondChance := true, dirty := write || f.dirty)
  }

  /** Among frames with a non-zero owner, no (pid, page) pair is held twice. */
  ghost predicate Unique(s: seq<Frame>)
  {
    forall i, j :: 0 <= i < |s| && 0 <= j < |s| && i != j && s[i].pid != 0 && s[i].pid == s[j].pid ==>
      s[i].pageNumber != s[j].pageNumber
  }

  /** Index of the first frame holding (pid, pageNumber), or |s| if none does. */
  function FirstMatch(s: seq<Frame>, pid: int, pageNumber: int): (r: nat)
    ensures r <= |s|
    ensures r < |s| ==> Matches(s[r], pid, pageNumber)
    ensures forall j :: 0 <= j < r ==> !Matches(s[j], pid, pageNumber)
    ensures r == |s| <==> forall j :: 0 <= j < |s| ==> !Matches(s[j], pid, pageNumber)
  {
    if s == [] then 0
    else if Matches(s[0], pid, pageNumber) then 0
    else 1 + FirstMatch(s[1..], pid, pageNumber)
  }

  // ---------------------------------------------------------------------
  // Cyclic positions, written without `%`

  /** The frame `offset` steps after `hand`, wrapping once around n frames. */
  function Pos(hand: nat, offset: nat, n: nat): (p: nat)
    requires hand < n && offset <= n
    ensures p < n
    ensures offset < n ==> (p >= hand <==> hand + offset < n)
  {
    if hand + offset < n then hand + offset else hand + offset - n
  }

  /** How many steps after `hand` frame i comes; the inverse of Pos. */
  function Dist(hand: nat, i: nat, n: nat): (d: nat)
    requires hand < n && i < n
    ensures d < n && Pos(hand, d, n) == i
    ensures forall offset :: 0 <= offset < n && Pos(hand, offset, n) == i ==> offset == d
  {
    if hand <= i then i - hand else i + n - hand
  }

  /** The hand after leaving frame v: `victimFrame++`, wrapping to 0. */
  function Next(v: nat, n: nat): nat
    requires v < n
  {
    Pos(v, 1, n)
  }

  // ---------------------------------------------------------------------
  // The eviction scan as a specification

  /** The number of frames, counting from `hand` + `from`, passed over
      before the first one whose second-chance bit is clear; |s| if every
      frame from there on has its bit set. */
  function FirstClear(s: seq<Frame>, hand: nat, from: nat): (k: nat)
    requires hand < |s| && from <= |s|
    ensures from <= k <= |s|
    ensures forall j :: from <= j < k ==> s[Pos(hand, j, |s|)].secondChance
    ensures k < |s| ==> !s[Pos(hand, k, |s|)].secondChance
    decreases |s| - from
  {
    if from == |s| then |s|
    else if !s[Pos(hand, from, |s|)].secondChance then from
    else FirstClear(s, hand, from + 1)
  }

  /** How many frames the scan passes over before it takes its victim. */
  function VictimOffset(s: seq<Frame>, hand: nat): nat
    requires hand < |s|
  {
    FirstClear(s, hand, 0)
  }

  /** The victim frame: the first, cyclically from the hand, with a clear
      bit; the hand's own frame when every bit was set (after a full pass). */
  function Victim(s: seq<Frame>, hand: nat): nat
    requires hand < |s|
  {
    Pos(hand, VictimOffset(s, hand), |s|)
  }

  /** The table with the second-chance bit cleared on the k frames that
      start at the hand. */
  function ClearedUpTo(s: seq<Frame>, hand: nat, k: nat): (r: seq<Frame>)
    requires hand < |s| && k <= |s|
    ensures |r| == |s|
  {
    seq(|s|, i requires 0 <= i < |s| => if Dist(hand, i, |s|) < k then s[i].(secondChance := false) else s[i])
  }

  /** The table after a fault on (pid, pageNumber): passed-over frames lose
      their second chance and the victim is loaded. */
  function AfterFault(s: seq<Frame>, hand: nat, pid: int, pageNumber: int, write: bool): (r: seq<Frame>)
    requires hand < |s|
    ensures |r| == |s|
  {
    ClearedUpTo(s, hand, VictimOffset(s, hand))[Victim(s, hand) := Frame(pid, pageNumber, true, write)]
  }

  /** The replies HandlePageRequest sends for a request from pid: GRANTED
      with the address on a hit; BLOCKED with the address, then GRANTED with
      the page number, on a miss. */
  function Replies(s: seq<Frame>, pid: int, memoryAddress: int, ossPid: int): seq<Message>
  {
    if FirstMatch(s, pid, PageOf(memoryAddress)) < |s| then
      [Message(pid, MSG_GRANTED, memoryAddress, ossPid)]
    else
      [Message(pid, MSG_BLOCKED, memoryAddress, ossPid), Message(pid, MSG_GRANTED, PageOf(memoryAddress), ossPid)]
  }

  /** The frame table's frames, hand, counters and outbox, as one value. */
  datatype TableState = TableState(frames: seq<Frame>, hand: nat, memoryAccesses: int, pageFaults: int, outbox: seq<Message>)

  /** The table after HandlePageRequest answers pid's request for memoryAddress:
      on a hit the matched frame is touched; on a miss the fault loads the
      victim, moves the hand past it and counts a fault. */
  function AfterRequest(t: TableState, pid: int, memoryAddress: int, msgCode: int, ossPid: int): (r: TableState)
    requires t.hand < |t.frames|
    ensures |r.frames| == |t.frames| && r.hand < |r.frames|
    ensures r.memoryAccesses == t.memoryAccesses + 1
    ensures r.outbox == t.outbox + Replies(t.frames, pid, memoryAddress, ossPid)
    ensures FirstMatch(t.frames, pid, PageOf(memoryAddress)) < |t.frames| ==> r.hand == t.hand && r.pageFaults == t.pageFaults
    ensures FirstMatch(t.frames, pid, PageOf(memoryAddress)) == |t.frames| ==> r.pageFaults == t.pageFaults + 1
  {
    var s, page, write := t.frames, PageOf(memoryAddress), msgCode == MSG_WRITE;
    var i := FirstMatch(s, pid, page);
    if i < |s| then
      TableState(s[i := Touched(s[i], write)], t.hand, t.memoryAccesses + 1, t.pageFaults,
                 t.outbox + [Message(pid, MSG_GRANTED, memoryAddress, ossPid)])
    else
      TableState(AfterFault(s, t.hand, pid, page, write), Next(Victim(s, t.hand), |s|),
                 t.memoryAccesses + 1, t.pageFaults + 1,
                 t.outbox + [Message(pid, MSG_BLOCKED, memoryAddress, ossPid), Message(pid, MSG_GRANTED, page, ossPid)])
  }

  /** The clock after a request: a hit charges HIT_COST, a miss charges nothing. */
  function ClockAfterRequest(s: seq<Frame>, pid: int, memoryAddress: int, seconds: int, nanoseconds: int): (int, int)
  {
    if FirstMatch(s, pid, PageOf(memoryAddress)) < |s| then Incremented(seconds, nanoseconds, HIT_COST)
    else (seconds, nanoseconds)
  }

  // ---------------------------------------------------------------------
  // Lemmas

  /** The scan passes over all N frames exactly when every bit is set; its
      victim is the first frame from the hand whose bit is clear, or the
      hand's frame when all bits are set; every frame passed over had its
      bit set. */
  lemma EvictionScan(s: seq<Frame>, hand: nat)
    requires hand < |s|
    ensures VictimOffset(s, hand) == |s| <==> forall i :: 0 <= i < |s| ==> s[i].secondChance
    ensures (exists i :: 0 <= i < |s| && !s[i].secondChance) ==>
              VictimOffset(s, hand) < |s| && !s[Victim(s, hand)].secondChance
    ensures (forall i :: 0 <= i < |s| ==> s[i].secondChance) ==> Victim(s, hand) == hand
    ensures forall i :: 0 <= i < |s| && Dist(hand, i, |s|) < VictimOffset(s, hand) ==> s[i].secondChance
  {
    var k := VictimOffset(s, hand);
    forall i | 0 <= i < |s| && Dist(hand, i, |s|) < k
      ensures s[i].secondChance
    {
      assert Pos(hand, Dist(hand, i, |s|), |s|) == i;
    }
    if exists i :: 0 <= i < |s| && !s[i].secondChance {
      var i :| 0 <= i < |s| && !s[i].secondChance;
      assert Dist(hand, i, |s|) >= k;
    }
    if k < |s| {
      assert !s[Pos(hand, k, |s|)].secondChance;
    }
  }

  /** After a fault the victim holds the new page with its bit set and the
      dirty bit iff the access was a write; each frame passed over keeps its
      owner, page and dirty bit but loses its second chance; all other
      frames are unchanged. */
  lemma AfterFaultFrames(s: seq<Frame>, hand: nat, pid: int, pageNumber: int, write: bool)
    requires hand < |s|
    ensures var r := AfterFault(s, hand, pid, pageNumber, write);
            r[Victim(s, hand)] == Frame(pid, pageNumber, true, write) &&
            forall i :: 0 <= i < |s| && i != Victim(s, hand) ==>
              if Dist(hand, i, |s|) < VictimOffset(s, hand)
              then s[i].secondChance && r[i] == s[i].(secondChance := false)
              else r[i] == s[i]
  {
    EvictionScan(s, hand);
  }

  /** A fault on a page no frame holds keeps (pid, page) pairs unique. */
  lemma FaultKeepsUnique(s: seq<Frame>, hand: nat, pid: int, pageNumber: int, write: bool)
    requires hand < |s| && Unique(s)
    requires forall i :: 0 <= i < |s| ==> !Matches(s[i], pid, pageNumber)
    ensures Unique(AfterFault(s, hand, pid, pageNumber, write))
  {
    var c := ClearedUpTo(s, hand, VictimOffset(s, hand));
    assert forall i :: 0 <= i < |s| ==> c[i].pid == s[i].pid && c[i].pageNumber == s[i].pageNumber;
  }

  /** A hit keeps (pid, page) pairs unique. */
  lemma HitKeepsUnique(s: seq<Frame>, i: nat, write: bool)
    requires i < |s| && Unique(s)
    ensures Unique(s[i := Touched(s[i], write)])
  {
  }

  /** A hit is answered with exactly one GRANTED, a miss with BLOCKED then
      GRANTED; each reply goes to the requester. */
  lemma RepliesWellFormed(s: seq<Frame>, pid: int, memoryAddress: int, ossPid: int)
    ensures WellFormedReply(Replies(s, pid, memoryAddress, ossPid), pid)
    ensures |Replies(s, pid, memoryAddress, ossPid)| == 1 <==>
            exists i :: 0 <= i < |s| && Matches(s[i], pid, PageOf(memoryAddress))
  {
  }

  /** Two frames, both bits clear: loading pages 0, 1, 2 of pid 1 makes the
      third fault evict the frame that holds page 0. Loading sets a frame's
      bit, so that fault first clears both bits and comes round to frame 0. */
  lemma ScenarioNoHitEvictsOldest()
    ensures var s0 := [EMPTY_FRAME, EMPTY_FRAME];
            var s1 := AfterFault(s0, 0, 1, 0, false);
            var s2 := AfterFault(s1, Next(Victim(s0, 0), 2), 1, 1, false);
            var h2 := Next(Victim(s1, Next(Victim(s0, 0), 2)), 2);
            s2 == [Frame(1, 0, true, false), Frame(1, 1, true, false)] && h2 == 0 &&
            Victim(s2, h2) == 0 &&
            AfterFault(s2, h2, 1, 2, false) == [Frame(1, 2, true, false), Frame(1, 1, false, false)]
  {
    var s0 := [EMPTY_FRAME, EMPTY_FRAME];
    assert VictimOffset(s0, 0) == 0;
    var s1 := AfterFault(s0, 0, 1, 0, false);
    assert s1 == [Frame(1, 0, true, false), EMPTY_FRAME];
    assert VictimOffset(s1, 1) == 0;
    var s2 := AfterFault(s1, 1, 1, 1, false);
    assert s2 == [Frame(1, 0, true, false), Frame(1, 1, true, false)];
    assert VictimOffset(s2, 0) == 2;
  }

  /** Two frames: load page 0 of pid 1, hit it, then miss on pages 1 and 2.
      The hit leaves the table as it was, because loading already set the
      bit; the second miss clears both bits and evicts frame 0. */
  lemma ScenarioHitThenMisses()
    ensures var s0 := [EMPTY_FRAME, EMPTY_FRAME];
            var s1 := AfterFault(s0, 0, 1, 0, false);
            var h1 := Next(Victim(s0, 0), 2);
            var i := FirstMatch(s1, 1, 0);
            i == 0 && s1[i := Touched(s1[i], false)] == s1 &&
            FirstMatch(s1, 1, 1) == 2 &&
            var s2 := AfterFault(s1, h1, 1, 1, false);
            var h2 := Next(Victim(s1, h1), 2);
            FirstMatch(s2, 1, 2) == 2 && Victim(s2, h2) == 0 &&
            AfterFault(s2, h2, 1, 2, false) == [Frame(1, 2, true, false), Frame(1, 1, false, false)]
  {
    var s0 := [EMPTY_FRAME, EMPTY_FRAME];
    assert VictimOffset(s0, 0) == 0;
    var s1 := AfterFault(s0, 0, 1, 0, false);
    assert s1 == [Frame(1, 0, true, false), EMPTY_FRAME];
    assert VictimOffset(s1, 1) == 0;
    var s2 := AfterFault(s1, 1, 1, 1, false);
    assert s2 == [Frame(1, 0, true, false), Frame(1, 1, true, false)];
    assert VictimOffset(s2, 0) == 2;
  }

  /** Frame i is looked at by a fault from `hand`: passed over, or taken. */
  predicate Examined(s: seq<Frame>, hand: nat, i: nat)
    requires hand < |s| && i < |s|
  {
    Dist(hand, i, |s|) < VictimOffset(s, hand) || i == Victim(s, hand)
  }

  /** A fault looks at the frame under the hand, and every frame it does not
      look at is nearer to the new hand than it was to the old one. */
  lemma FaultBringsFrameCloser(s: seq<Frame>, hand: nat, i: nat)
    requires hand < |s| && i < |s|
    ensures Examined(s, hand, hand)
    ensures !Examined(s, hand, i) ==> Dist(Next(Victim(s, hand), |s|), i, |s|) < Dist(hand, i, |s|)
  {
    var n, v := |s|, VictimOffset(s, hand);
    assert Dist(hand, hand, n) == 0;
    if !Examined(s, hand, i) {
      var d := Dist(hand, i, n);
      assert v < n;
      assert Dist(hand, Victim(s, hand), n) == v;
      assert v < d;
      var h' := Next(Victim(s, hand), n);
      assert Pos(h', d - v - 1, n) == i;
    }
  }

  /** Whether some fault of a run looks at frame i, when the k-th fault finds
      the frames as tables[k] (hits in between move no hand). */
  predicate ExaminedInRun(tables: seq<seq<Frame>>, n: nat, hand: nat, i: nat)
    requires hand < n && i < n
    requires forall k :: 0 <= k < |tables| ==> |tables[k]| == n
    decreases |tables|
  {
    && tables != []
    && (Examined(tables[0], hand, i) || ExaminedInRun(tables[1..], n, Next(Victim(tables[0], hand), n), i))
  }

  /** No frame is starved: a frame d steps after the hand is looked at by one
      of the next d + 1 faults, whatever the bits are then. */
  lemma {:induction false} NoFrameStarves(tables: seq<seq<Frame>>, n: nat, hand: nat, i: nat)
    requires hand < n && i < n
    requires forall k :: 0 <= k < |tables| ==> |tables[k]| == n
    requires Dist(hand, i, n) < |tables|
    ensures ExaminedInRun(tables, n, hand, i)
    decreases |tables|
  {
    FaultBringsFrameCloser(tables[0], hand, i);
    if !Examined(tables[0], hand, i) {
      NoFrameStarves(tables[1..], n, Next(Victim(tables[0], hand), n), i);
    }
  }

  /** Any N successive faults look at every one of the N frames. */
  lemma EveryFrameExaminedWithinN(tables: seq<seq<Frame>>, n: nat, hand: nat)
    requires hand < n <= |tables|
    requires forall k :: 0 <= k < |tables| ==> |tables[k]| == n
    ensures forall i :: 0 <= i < n ==> ExaminedInRun(tables, n, hand, i)
  {
    forall i | 0 <= i < n
      ensures ExaminedInRun(tables, n, hand, i)
    {
      NoFrameStarves(tables, n, hand, i);
    }
  }

  /** A request keeps the (pid, page) pairs of owned frames distinct. */
  lemma RequestKeepsUnique(t: TableState, pid: int, memoryAddress: int, msgCode: int, ossPid: int)
    requires t.hand < |t.frames| && Unique(t.frames)
    ensures Unique(AfterRequest(t, pid, memoryAddress, msgCode, ossPid).frames)
  {
    var s, page := t.frames, PageOf(memoryAddress);
    var i := FirstMatch(s, pid, page);
    if i < |s| {
      HitKeepsUnique(s, i, msgCode == MSG_WRITE);
    } else {
      FaultKeepsUnique(s, t.hand, pid, page, msgCode == MSG_WRITE);
    }
  }

  // ---------------------------------------------------------------------
  // The frame table object

  class FrameTable {
    /** The manager's own pid, the `sender` of every reply. */
    const ossPid: int
    const frames: array<Frame>
    /** The persistent clock hand (victimFrame). */
    var hand: nat
    var memoryAccesses: int
    var pageFaults: int
    /** Every message sent so far by SendMessageToProcess, in order. */
    var outbox: seq<Message>

    ghost predicate WellFormed()
      reads this
    {
      1 <= frames.Length && hand < frames.Length
    }

    ghost predicate Valid()
      reads this, frames
    {
      WellFormed() && Unique(frames[..])
    }

    /** The table's current contents as a value. */
    function State(): TableState
      reads this, frames
    {
      TableState(frames[..], hand, memoryAccesses, pageFaults, outbox)
    }

    constructor (n: nat, ossPid: int)
      requires 1 <= n
      ensures Valid() && fresh(frames) && frames.Length == n && this.ossPid == ossPid
      ensures forall i :: 0 <= i < n ==> frames[i] == EMPTY_FRAME
      ensures hand == 0 && memoryAccesses == 0 && pageFaults == 0 && outbox == []
    {
      this.ossPid := ossPid;
      frames := new Frame[n];
      hand, memoryAccesses, pageFaults, outbox := 0, 0, 0, [];
      new;
      InitializePageTable();
    }

    /** InitializePageTable: every frame becomes (0, 0, clear, clean). */
    method InitializePageTable()
      modifies frames
      ensures forall i :: 0 <= i < frames.Length ==> frames[i] == EMPTY_FRAME
      ensures Unique(frames[..])
    {
      for i := 0 to frames.Length
        invariant forall j :: 0 <= j < i ==> frames[j] == EMPTY_FRAME
      {
        frames[i] := EMPTY_FRAME;
      }
    }

    /** SendMessageToProcess: append m to what has been sent. */
    method SendMessageToProcess(m: Message)
      modifies this`outbox
      ensures outbox == old(outbox) + [m]
    {
      outbox := outbox + [m];
    }

    /** HandlePageFault: the second-chance scan from the hand, then loading the
        victim and granting the request. */
    method HandlePageFault(pid: int, pageNumber: int, msgCode: int) returns (ghost steps: nat)
      requires WellFormed()
      modifies this, frames
      ensures WellFormed()
      ensures steps == VictimOffset(old(frames[..]), old(hand)) + 1 <= frames.Length + 1
      ensures frames[..] == AfterFault(old(frames[..]), old(hand), pid, pageNumber, msgCode == MSG_WRITE)
      ensures hand == Next(Victim(old(frames[..]), old(hand)), frames.Length)
      ensures memoryAccesses == old(memoryAccesses) + 1 && pageFaults == old(pageFaults)
      ensures outbox == old(outbox) + [Message(pid, MSG_GRANTED, pageNumber, ossPid)]
    {
      ghost var s0, h0, n := frames[..], hand, frames.Length;
      ghost var k := VictimOffset(s0, h0);
      steps := 0;
      var victimFound := false;
      while !victimFound
        invariant hand < n && steps <= k + 1
        invariant !victimFound ==>
                    steps <= k && hand == Pos(h0, steps, n) && frames[..] == ClearedUpTo(s0, h0, steps) &&
                    memoryAccesses == old(memoryAccesses) && outbox == old(outbox)
        invariant victimFound ==>
                    steps == k + 1 && hand == Next(Victim(s0, h0), n) && frames[..] == AfterFault(s0, h0, pid, pageNumber, msgCode == MSG_WRITE) &&
                    memoryAccesses == old(memoryAccesses) + 1 &&
                    outbox == old(outbox) + [Message(pid, MSG_GRANTED, pageNumber, ossPid)]
        invariant pageFaults == old(pageFaults)
        decreases k + 1 - steps
      {
        ScanStep(s0, h0, steps);
        if frames[hand].secondChance {
          frames[hand] := frames[hand].(secondChance := false);
        } else {
          victimFound := true;
          frames[hand] := Frame(pid, pageNumber, true, msgCode == MSG_WRITE);
          memoryAccesses := memoryAccesses + 1;
          SendMessageToProcess(Message(pid, MSG_GRANTED, pageNumber, ossPid));
        }
        hand := hand + 1;
        if hand == frames.Length {
          hand := 0;
        }
        steps := steps + 1;
      }
    }

    /** HandlePageRequest: a hit marks the frame used (and dirty on a write),
        charges 100 ns and grants; a miss sends BLOCKED, runs the fault path
        and counts a fault. */
    method HandlePageRequest(c: SystemClock, pid: int, memoryAddress: int, msgCode: int)
      requires Valid()
      modifies this, frames, c
      ensures Valid()
      ensures State() == AfterRequest(old(State()), pid, memoryAddress, msgCode, ossPid)
      ensures (c.seconds, c.nanoseconds) == ClockAfterRequest(old(frames[..]), pid, memoryAddress, old(c.seconds), old(c.nanoseconds))
      ensures outbox == old(outbox) + Replies(old(frames[..]), pid, memoryAddress, ossPid)
      ensures memoryAccesses == old(memoryAccesses) + 1
      ensures var s := old(frames[..]);
              var i := FirstMatch(s, pid, PageOf(memoryAddress));
              if i < |s| then
                frames[..] == s[i := Touched(s[i], msgCode == MSG_WRITE)] &&
                hand == old(hand) && pageFaults == old(pageFaults) &&
                (c.seconds, c.nanoseconds) == Incremented(old(c.seconds), old(c.nanoseconds), HIT_COST)
              else
                frames[..] == AfterFault(s, old(hand), pid, PageOf(memoryAddress), msgCode == MSG_WRITE) &&
                hand == Next(Victim(s, old(hand)), |s|) && pageFaults == old(pageFaults) + 1 &&
                c.seconds == old(c.seconds) && c.nanoseconds == old(c.nanoseconds)
    {
      var pageNumber := PageOf(memoryAddress);
      for i := 0 to frames.Length
        invariant frames[..] == old(frames[..])
        invariant forall j :: 0 <= j < i ==> !Matches(frames[..][j], pid, pageNumber)
      {
        if frames[i].pid == pid && frames[i].pageNumber == pageNumber {
          assert FirstMatch(frames[..], pid, pageNumber) == i;
          HitKeepsUnique(frames[..], i, msgCode == MSG_WRITE);
          if msgCode == MSG_WRITE {
            frames[i] := frames[i].(dirty := true);
          }
          frames[i] := frames[i].(secondChance := true);
          c.Increment(HIT_COST);
          memoryAccesses := memoryAccesses + 1;
          SendMessageToProcess(Message(pid, MSG_GRANTED, memoryAddress, ossPid));
          return;
        }
      }
      FaultKeepsUnique(frames[..], hand, pid, pageNumber, msgCode == MSG_WRITE);
      SendMessageToProcess(Message(pid, MSG_BLOCKED, memoryAddress, ossPid));
      ghost var steps := HandlePageFault(pid, pageNumber, msgCode);
      pageFaults := pageFaults + 1;
    }
  }

  /** One step of the scan, at `steps` frames past the starting hand h0:
      the frame under the hand is still untouched (or, after a full pass,
      cleared); a set bit means the victim lies further on; a clear bit means
      this is the victim; and clearing it extends the cleared range by one. */
  lemma ScanStep(s0: seq<Frame>, h0: nat, steps: nat)
    requires h0 < |s0| && steps <= VictimOffset(s0, h0)
    ensures var p := Pos(h0, steps, |s0|);
            var cur := ClearedUpTo(s0, h0, steps);
            (cur[p].secondChance ==>
               (steps < VictimOffset(s0, h0) &&
                cur[p := cur[p].(secondChance := false)] == ClearedUpTo(s0, h0, steps + 1))) &&
            (!cur[p].secondChance ==> (steps == VictimOffset(s0, h0) && p == Victim(s0, h0)))
  {
    var n := |s0|;
    var p := Pos(h0, steps, n);
    var cur := ClearedUpTo(s0, h0, steps);
    if steps < n {
      assert Dist(h0, p, n) == steps;
      assert cur[p] == s0[p];
      if cur[p].secondChance {
        var next := cur[p := cur[p].(secondChance := false)];
        forall i | 0 <= i < n
          ensures next[i] == ClearedUpTo(s0, h0, steps + 1)[i]
        {
          if i == p {
          } else {
            assert Dist(h0, i, n) != steps;
          }
        }
      }
    } else {
      assert Dist(h0, p, n) == 0;
    }
  }
}
