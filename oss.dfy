/** The manager (oss): it owns the virtual clock, the process table and the
    frame table, launches workers behind a launch-interval gate, reaps them,
    and answers one polled request per tick. */
module Oss {
  import opened Protocol
  import opened Clock
  import opened ProcessTable
  import opened FrameTable

  /** Virtual nanoseconds added once per tick (DISPATCH_AMOUNT, 1e7). */
  const DISPATCH_AMOUNT: int := 10000000

  /** Virtual nanoseconds charged for a launch. */
  const CHILD_LAUNCH_AMOUNT: int := 1000

  /** The gate's decision on the total elapsed virtual time: it opens once a
      whole second has passed, or once the interval has passed within the
      first second. So an interval above one second acts as one second. */
  predicate IntervalMet(elapsed: int, launchInterval: int)
  {
    elapsed >= NANOS_PER_SECOND || (0 <= elapsed && launchInterval <= elapsed)
  }

  /** For intervals of at most one second the gate waits exactly the interval;
      for longer ones it waits one second. */
  lemma GateWaitsAtMostOneSecond(elapsed: int, launchInterval: int)
    requires 0 <= launchInterval
    ensures launchInterval <= NANOS_PER_SECOND ==> (IntervalMet(elapsed, launchInterval) <==> launchInterval <= elapsed)
    ensures launchInterval > NANOS_PER_SECOND ==> (IntervalMet(elapsed, launchInterval) <==> NANOS_PER_SECOND <= elapsed)
  {
  }

  /** The elapsed-time computation of IsLaunchIntervalMet: the difference of
      two readings, borrowing a second while the nanoseconds are negative. */
  method ElapsedSince(nowSecs: int, nowNanos: int, lastSecs: int, lastNanos: int) returns (secs: int, nanos: int)
    ensures TotalNanos(secs, nanos) == TotalNanos(nowSecs, nowNanos) - TotalNanos(lastSecs, lastNanos)
    ensures 0 <= nanos
    ensures nowNanos < lastNanos ==> nanos < NANOS_PER_SECOND
    ensures lastNanos <= nowNanos ==> secs == nowSecs - lastSecs && nanos == nowNanos - lastNanos
  {
    secs := nowSecs - lastSecs;
    nanos := nowNanos - lastNanos;
    while nanos < 0
      invariant TotalNanos(secs, nanos) == TotalNanos(nowSecs, nowNanos) - TotalNanos(lastSecs, lastNanos)
      invariant nowNanos < lastNanos ==> nanos < NANOS_PER_SECOND
      invariant lastNanos <= nowNanos ==> secs == nowSecs - lastSecs && nanos == nowNanos - lastNanos
      decreases -nanos
    {
      secs := secs - 1;
      nanos := nanos + NANOS_PER_SECOND;
    }
  }

  /** The reap step with the guard the code lacks: the slot GetProcessIndex
      names is looked at only when there is one. */
  function Reaped(s: seq<ProcessSlot>, max: nat, pid: int): seq<ProcessSlot>
    requires max <= |s|
  {
    var i := IndexOf(s, max, pid);
    if i >= 0 && s[i].occupied then Removed(s, max, pid) else s
  }

  /** The reap step as oss.cpp:440-444 writes it: `processTable[i]` is read
      with whatever GetProcessIndex returned, so it is defined only when that
      index is a real slot. */
  function ReapAsWritten(s: seq<ProcessSlot>, max: nat, pid: int): (r: seq<ProcessSlot>)
    requires max <= |s|
    requires 0 <= IndexOf(s, max, pid)
    ensures r == Reaped(s, max, pid)
  {
    var i := IndexOf(s, max, pid);
    if s[i].occupied then Removed(s, max, pid) else s
  }

  /** A reaped pid that no slot carries makes GetProcessIndex return -1, an
      input outside what ReapAsWritten can index. */
  lemma ReapAsWrittenIndexesMinusOne()
    ensures var s := seq(TABLE_SIZE, i => EMPTY_SLOT);
            IndexOf(s, 1, 7) == -1
  {
    var s := seq(TABLE_SIZE, i => EMPTY_SLOT);
    assert s[0].pid == 0;
  }

  /** The guarded reap is a no-op for an unknown pid, removes the first slot
      carrying an occupied pid, never raises the count and keeps pids unique. */
  lemma ReapIsGuarded(s: seq<ProcessSlot>, max: nat, pid: int)
    requires max <= |s|
    ensures IndexOf(s, max, pid) == -1 ==> Reaped(s, max, pid) == s
    ensures var i := IndexOf(s, max, pid);
            i >= 0 && s[i].occupied ==>
              Reaped(s, max, pid)[i] == EMPTY_SLOT &&
              Occupied(Reaped(s, max, pid), max) == Occupied(s, max) - 1
    ensures Occupied(Reaped(s, max, pid), max) <= Occupied(s, max)
    ensures UniquePids(s) ==> UniquePids(Reaped(s, max, pid))
    ensures forall i :: max <= i < |s| ==> Reaped(s, max, pid)[i] == s[i]
  {
    RemoveResetsFirstMatch(s, max, pid);
    if UniquePids(s) {
      PidsStayUnique(s, max, pid, 0, 0, 0);
    }
  }

  /** A polled message the dispatch step acts on: a READ or WRITE request. */
  predicate IsRequest(polled: Option<Message>)
  {
    polled.Some? && (polled.value.msgCode == MSG_READ || polled.value.msgCode == MSG_WRITE)
  }

  class Manager {
    /** The manager's own pid: the tag it polls for and the sender of replies. */
    const ossPid: int
    /** maxSimultaneousProcesses (option -s). */
    const maxSimultaneous: nat
    /** Launch interval in nanoseconds (option -i, in ms, times 1e6). */
    const launchInterval: int
    const clock: SystemClock
    const frameTable: FrameTable
    const processTable: array<ProcessSlot>
    /** Workers still to launch (option -n). */
    var numberOfChildren: int
    /** The launch gate's last recorded launch time (function-local statics in oss.cpp). */
    var lastLaunchSecs: int
    var lastLaunchNanos: int

    ghost predicate Valid()
      reads this, clock, frameTable, frameTable.frames, processTable
    {
      && processTable.Length == TABLE_SIZE && maxSimultaneous <= TABLE_SIZE
      && frameTable.Valid() && frameTable.ossPid == ossPid
      && Normalized(clock.seconds, clock.nanoseconds)
      && Normalized(lastLaunchSecs, lastLaunchNanos)
      && TotalNanos(lastLaunchSecs, lastLaunchNanos) <= TotalNanos(clock.seconds, clock.nanoseconds)
      && (forall i :: maxSimultaneous <= i < TABLE_SIZE ==> !processTable[i].occupied)
      && UniquePids(processTable[..])
    }

    /** The launch step will start a child now: children remain, the gate
        opens for the time since the last launch, and a slot is free. */
    ghost predicate LaunchDue()
      reads this, clock, processTable
    {
      && numberOfChildren > 0
      && IntervalMet(TotalNanos(clock.seconds, clock.nanoseconds) - TotalNanos(lastLaunchSecs, lastLaunchNanos), launchInterval)
      && maxSimultaneous <= processTable.Length
      && FirstFree(processTable[..], maxSimultaneous) >= 0
    }

    /** At most maxSimultaneous slots of the whole table are occupied. */
    lemma OccupiedWithinMax()
      requires Valid()
      ensures Occupied(processTable[..], TABLE_SIZE) <= maxSimultaneous
    {
      OccupiedBeyondMax(processTable[..], maxSimultaneous, TABLE_SIZE);
    }

    /** Start-up: a zero clock, an initialised process table and frame table. */
    constructor (ossPid: int, maxSimultaneous: nat, launchInterval: int, numberOfChildren: int, frameCount: nat)
      requires maxSimultaneous <= TABLE_SIZE && 1 <= frameCount
      ensures Valid()
      ensures fresh(clock) && fresh(frameTable) && fresh(frameTable.frames) && fresh(processTable)
      ensures this.ossPid == ossPid && this.maxSimultaneous == maxSimultaneous
      ensures this.launchInterval == launchInterval && this.numberOfChildren == numberOfChildren
      ensures clock.seconds == 0 && clock.nanoseconds == 0 && lastLaunchSecs == 0 && lastLaunchNanos == 0
      ensures forall i :: 0 <= i < TABLE_SIZE ==> processTable[i] == EMPTY_SLOT
      ensures frameTable.frames.Length == frameCount
      ensures forall i :: 0 <= i < frameCount ==> frameTable.frames[i] == EMPTY_FRAME
      ensures frameTable.hand == 0 && frameTable.memoryAccesses == 0 && frameTable.pageFaults == 0
      ensures frameTable.outbox == []
    {
      this.ossPid := ossPid;
      this.maxSimultaneous := maxSimultaneous;
      this.launchInterval := launchInterval;
      this.numberOfChildren := numberOfChildren;
      clock := new SystemClock();
      frameTable := new FrameTable(frameCount, ossPid);
      processTable := new ProcessSlot[TABLE_SIZE];
      lastLaunchSecs, lastLaunchNanos := 0, 0;
      new;
      InitializeProcessTable(processTable);
    }

    /** The main loop's condition: workers remain to launch or to be reaped. */
    method KeepRunning() returns (running: bool)
      requires Valid()
      ensures running <==> numberOfChildren > 0 || Occupied(processTable[..], maxSimultaneous) > 0
    {
      var empty := IsProcessTableEmpty(processTable, maxSimultaneous);
      running := numberOfChildren > 0 || !empty;
    }

    /** IsLaunchIntervalMet: true when the gate is open for the time elapsed
        since the last recorded launch; only then is the current time recorded. */
    method IsLaunchIntervalMet() returns (met: bool)
      requires Valid()
      modifies this`lastLaunchSecs, this`lastLaunchNanos
      ensures Valid()
      ensures met <==> IntervalMet(TotalNanos(clock.seconds, clock.nanoseconds) -
                                   TotalNanos(old(lastLaunchSecs), old(lastLaunchNanos)), launchInterval)
      ensures met ==> lastLaunchSecs == clock.seconds && lastLaunchNanos == clock.nanoseconds
      ensures !met ==> lastLaunchSecs == old(lastLaunchSecs) && lastLaunchNanos == old(lastLaunchNanos)
    {
      var elapsedSecs, elapsedNanos := ElapsedSince(clock.seconds, clock.nanoseconds, lastLaunchSecs, lastLaunchNanos);
      if elapsedSecs > 0 || (elapsedSecs == 0 && elapsedNanos >= launchInterval) {
        lastLaunchSecs := clock.seconds;
        lastLaunchNanos := clock.nanoseconds;
        met := true;
      } else {
        met := false;
      }
    }

    /** The table half of LaunchProcess: the free slot found again is filled
        with the child's pid and the current time, then 1000 ns are charged.
        Its caller has just seen a free slot (oss.cpp:429), and the child's pid
        is one the system is not using for a live child. */
    method LaunchProcess(childPid: int)
      requires Valid()
      requires FirstFree(processTable[..], maxSimultaneous) >= 0
      requires forall i :: 0 <= i < TABLE_SIZE && processTable[i].occupied ==> processTable[i].pid != childPid
      modifies processTable, clock
      ensures Valid()
      ensures processTable[..] ==
              Launched(old(processTable[..]), maxSimultaneous, childPid, old(clock.seconds), old(clock.nanoseconds))
      ensures (clock.seconds, clock.nanoseconds) == Incremented(old(clock.seconds), old(clock.nanoseconds), CHILD_LAUNCH_AMOUNT)
      ensures Occupied(processTable[..], maxSimultaneous) == old(Occupied(processTable[..], maxSimultaneous)) + 1
    {
      ghost var s := processTable[..];
      LaunchAddsOne(s, maxSimultaneous, childPid, clock.seconds, clock.nanoseconds);
      PidsStayUnique(s, maxSimultaneous, 0, childPid, clock.seconds, clock.nanoseconds);
      var slot := FindEmptyProcessSlot(processTable, maxSimultaneous);
      var i := slot - 1;
      processTable[i] := ProcessSlot(true, childPid, clock.seconds, clock.nanoseconds, false);
      clock.Increment(CHILD_LAUNCH_AMOUNT);
    }

    /** Reaping an exited child (oss.cpp:436-446), with the guard on the index. */
    method ReapChild(pid: int)
      requires Valid()
      modifies processTable
      ensures Valid()
      ensures processTable[..] == Reaped(old(processTable[..]), maxSimultaneous, pid)
      ensures Occupied(processTable[..], maxSimultaneous) <= old(Occupied(processTable[..], maxSimultaneous))
    {
      ReapIsGuarded(processTable[..], maxSimultaneous, pid);
      var i := GetProcessIndex(processTable, maxSimultaneous, pid);
      if i >= 0 && processTable[i].occupied {
        RemoveProcessFromTable(processTable, pid, maxSimultaneous);
      }
    }

    /** The dispatch step: a polled READ or WRITE request is handed to the
        frame table under its sender's pid; no message, or any other code, is
        ignored. */
    method Dispatch(polled: Option<Message>)
      requires Valid()
      modifies frameTable, frameTable.frames, clock
      ensures Valid()
      ensures if IsRequest(polled) then
                frameTable.State() ==
                  AfterRequest(old(frameTable.State()), polled.value.sender, polled.value.memoryAddress, polled.value.msgCode, ossPid) &&
                (clock.seconds, clock.nanoseconds) ==
                  ClockAfterRequest(old(frameTable.frames[..]), polled.value.sender, polled.value.memoryAddress,
                                    old(clock.seconds), old(clock.nanoseconds))
              else
                unchanged(frameTable, frameTable.frames, clock)
      ensures TotalNanos(old(clock.seconds), old(clock.nanoseconds)) <= TotalNanos(clock.seconds, clock.nanoseconds)
    {
      if polled.Some? && (polled.value.msgCode == MSG_READ || polled.value.msgCode == MSG_WRITE) {
        var m := polled.value;
        frameTable.HandlePageRequest(clock, m.sender, m.memoryAddress, m.msgCode);
      }
    }

    /** The launch step of the main loop (oss.cpp:429-434): when children
        remain the gate is asked first, and only when it opens is a free slot
        looked for, so the gate re-arms even when no slot is free.
        `childPid` is the pid a fork would return now. */
    method LaunchStep(childPid: int)
      requires Valid()
      requires forall i :: 0 <= i < TABLE_SIZE && processTable[i].occupied ==> processTable[i].pid != childPid
      modifies this, processTable, clock
      ensures Valid()
      ensures var gateOpen := old(numberOfChildren) > 0 &&
                              IntervalMet(TotalNanos(old(clock.seconds), old(clock.nanoseconds)) -
                                          TotalNanos(old(lastLaunchSecs), old(lastLaunchNanos)), launchInterval);
              var launched := gateOpen && old(FirstFree(processTable[..], maxSimultaneous)) >= 0;
              (gateOpen ==> lastLaunchSecs == old(clock.seconds) && lastLaunchNanos == old(clock.nanoseconds)) &&
              (!gateOpen ==> lastLaunchSecs == old(lastLaunchSecs) && lastLaunchNanos == old(lastLaunchNanos)) &&
              (launched ==>
                 numberOfChildren == old(numberOfChildren) - 1 &&
                 processTable[..] == Launched(old(processTable[..]), maxSimultaneous, childPid,
                                              old(clock.seconds), old(clock.nanoseconds)) &&
                 (clock.seconds, clock.nanoseconds) ==
                 Incremented(old(clock.seconds), old(clock.nanoseconds), CHILD_LAUNCH_AMOUNT)) &&
              (!launched ==>
                 numberOfChildren == old(numberOfChildren) &&
                 unchanged(processTable, clock))
      ensures numberOfChildren == old(numberOfChildren) - (if old(LaunchDue()) then 1 else 0)
      ensures processTable[..] ==
              if old(LaunchDue())
              then Launched(old(processTable[..]), maxSimultaneous, childPid, old(clock.seconds), old(clock.nanoseconds))
              else old(processTable[..])
      ensures (clock.seconds, clock.nanoseconds) ==
              if old(LaunchDue())
              then Incremented(old(clock.seconds), old(clock.nanoseconds), CHILD_LAUNCH_AMOUNT)
              else (old(clock.seconds), old(clock.nanoseconds))
      ensures TotalNanos(old(clock.seconds), old(clock.nanoseconds)) <= TotalNanos(clock.seconds, clock.nanoseconds)
    {
      if numberOfChildren > 0 {
        var met := IsLaunchIntervalMet();
        if met {
          var slot := FindEmptyProcessSlot(processTable, maxSimultaneous);
          if slot != 0 {
            numberOfChildren := numberOfChildren - 1;
            LaunchProcess(childPid);
          }
        }
      }
    }

    /** The middle of a pass (oss.cpp:436-461): reaping the child `reapedPid`
        (0 when none exited), then dispatching the polled message. */
    method ReapAndDispatch(reapedPid: int, polled: Option<Message>)
      requires Valid()
      modifies processTable, clock, frameTable, frameTable.frames
      ensures Valid()
      ensures processTable[..] ==
              if reapedPid > 0 then Reaped(old(processTable[..]), maxSimultaneous, reapedPid) else old(processTable[..])
      ensures frameTable.State() ==
              if IsRequest(polled)
              then AfterRequest(old(frameTable.State()), polled.value.sender, polled.value.memoryAddress, polled.value.msgCode, ossPid)
              else old(frameTable.State())
      ensures (clock.seconds, clock.nanoseconds) ==
              if IsRequest(polled)
              then ClockAfterRequest(old(frameTable.frames[..]), polled.value.sender, polled.value.memoryAddress,
                                     old(clock.seconds), old(clock.nanoseconds))
              else (old(clock.seconds), old(clock.nanoseconds))
    {
      if reapedPid > 0 {
        ReapChild(reapedPid);
      }
      Dispatch(polled);
    }

    /** One pass of the main loop: the launch step; reaping the child
        `reapedPid` (0 when none exited); dispatching the polled message;
        advancing the clock by the dispatch amount. */
    method Tick(childPid: int, reapedPid: int, polled: Option<Message>)
      requires Valid()
      requires forall i :: 0 <= i < TABLE_SIZE && processTable[i].occupied ==> processTable[i].pid != childPid
      modifies this, processTable, clock, frameTable, frameTable.frames
      ensures Valid()
      ensures Occupied(processTable[..], TABLE_SIZE) <= maxSimultaneous
      ensures var gateOpen := old(numberOfChildren) > 0 &&
                              IntervalMet(TotalNanos(old(clock.seconds), old(clock.nanoseconds)) -
                                          TotalNanos(old(lastLaunchSecs), old(lastLaunchNanos)), launchInterval);
              (gateOpen ==> lastLaunchSecs == old(clock.seconds) && lastLaunchNanos == old(clock.nanoseconds)) &&
              (!gateOpen ==> lastLaunchSecs == old(lastLaunchSecs) && lastLaunchNanos == old(lastLaunchNanos))
      ensures numberOfChildren == old(numberOfChildren) - (if old(LaunchDue()) then 1 else 0)
      ensures var launched := if old(LaunchDue())
                              then Launched(old(processTable[..]), maxSimultaneous, childPid, old(clock.seconds), old(clock.nanoseconds))
                              else old(processTable[..]);
              processTable[..] == if reapedPid > 0 then Reaped(launched, maxSimultaneous, reapedPid) else launched
      ensures var t0 := old(frameTable.State());
              frameTable.State() ==
                if IsRequest(polled)
                then AfterRequest(t0, polled.value.sender, polled.value.memoryAddress, polled.value.msgCode, ossPid)
                else t0
      ensures var afterLaunch := if old(LaunchDue())
                                 then Incremented(old(clock.seconds), old(clock.nanoseconds), CHILD_LAUNCH_AMOUNT)
                                 else (old(clock.seconds), old(clock.nanoseconds));
              var afterDispatch := if IsRequest(polled)
                                   then ClockAfterRequest(old(frameTable.frames[..]), polled.value.sender, polled.value.memoryAddress,
                                                          afterLaunch.0, afterLaunch.1)
                                   else afterLaunch;
              (clock.seconds, clock.nanoseconds) == Incremented(afterDispatch.0, afterDispatch.1, DISPATCH_AMOUNT)
      ensures TotalNanos(clock.seconds, clock.nanoseconds) >=
              TotalNanos(old(clock.seconds), old(clock.nanoseconds)) + DISPATCH_AMOUNT
    {
      ghost var t0 := frameTable.State();
      LaunchStep(childPid);
      assert frameTable.State() == t0;
      ReapAndDispatch(reapedPid, polled);
      ghost var before := TotalNanos(clock.seconds, clock.nanoseconds);
      clock.Increment(DISPATCH_AMOUNT);
      assert TotalNanos(clock.seconds, clock.nanoseconds) == before + DISPATCH_AMOUNT;
      OccupiedWithinMax();
    }
  }
}
