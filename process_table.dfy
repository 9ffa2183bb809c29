/** The process control table: a fixed array of slots, the first `max` of
    which (maxSimultaneousProcesses) are in use. The manager and the worker
    each carry a copy of these helpers; they are modelled once, here. */
module ProcessTable {

  /** Number of slots in the table array (processTable[20]). */
  const TABLE_SIZE: nat := 20

  /** One process control block: 0/1 flags become booleans; the
      display-only resourcesHeld vector is not modelled. */
  datatype ProcessSlot = ProcessSlot(occupied: bool, pid: int, startSecs: int, startNanos: int, blocked: bool)

  /** The all-zero slot written by initialisation and by removal. */
  const EMPTY_SLOT := ProcessSlot(false, 0, 0, 0, false)

  // ---------------------------------------------------------------------
  // Specification functions over the table's contents

  /** Number of occupied slots among the first n. */
  function Occupied(s: seq<ProcessSlot>, n: nat): (c: nat)
    requires n <= |s|
    ensures c <= n
    ensures c == 0 <==> forall i :: 0 <= i < n ==> !s[i].occupied
    ensures c == n <==> forall i :: 0 <= i < n ==> s[i].occupied
    decreases n
  {
    if n == 0 then 0 else Occupied(s, n - 1) + (if s[n - 1].occupied then 1 else 0)
  }

  /** Index of the first of the first `max` slots whose pid is `pid`, or -1. */
  function IndexOf(s: seq<ProcessSlot>, max: nat, pid: int): (r: int)
    requires max <= |s|
    ensures -1 <= r < max
    ensures r >= 0 ==> s[r].pid == pid && forall j :: 0 <= j < r ==> s[j].pid != pid
    ensures r == -1 <==> forall j :: 0 <= j < max ==> s[j].pid != pid
    decreases max
  {
    if max == 0 then -1
    else
      var r := IndexOf(s, max - 1, pid);
      if r >= 0 then r else if s[max - 1].pid == pid then max - 1 else -1
  }

  /** Index of the first unoccupied slot among the first `max`, or -1. */
  function FirstFree(s: seq<ProcessSlot>, max: nat): (r: int)
    requires max <= |s|
    ensures -1 <= r < max
    ensures r >= 0 ==> !s[r].occupied && forall j :: 0 <= j < r ==> s[j].occupied
    ensures r == -1 <==> forall j :: 0 <= j < max ==> s[j].occupied
    decreases max
  {
    if max == 0 then -1
    else
      var r := FirstFree(s, max - 1);
      if r >= 0 then r else if !s[max - 1].occupied then max - 1 else -1
  }

  /** The table after removing pid: the first slot carrying pid is reset. */
  function Removed(s: seq<ProcessSlot>, max: nat, pid: int): seq<ProcessSlot>
    requires max <= |s|
  {
    var i := IndexOf(s, max, pid);
    if i < 0 then s else s[i := EMPTY_SLOT]
  }

  /** The table after marking pid blocked: only the first matching slot changes. */
  function MarkedBlocked(s: seq<ProcessSlot>, max: nat, pid: int): seq<ProcessSlot>
    requires max <= |s|
  {
    var i := IndexOf(s, max, pid);
    if i < 0 then s else s[i := s[i].(blocked := true)]
  }

  /** The table after launching child pid at time (secs, nanos): the first
      free slot is filled. */
  function Launched(s: seq<ProcessSlot>, max: nat, pid: int, secs: int, nanos: int): seq<ProcessSlot>
    requires max <= |s|
    requires FirstFree(s, max) >= 0
  {
    s[FirstFree(s, max) := ProcessSlot(true, pid, secs, nanos, false)]
  }

  /** No pid is carried by two occupied slots. */
  ghost predicate UniquePids(s: seq<ProcessSlot>)
  {
    forall i, j :: 0 <= i < |s| && 0 <= j < |s| && i != j && s[i].occupied && s[j].occupied ==> s[i].pid != s[j].pid
  }

  // ---------------------------------------------------------------------
  // Lemmas

  /** Replacing slot i changes the count by what that slot contributes. */
  lemma {:induction false} OccupiedUpdate(s: seq<ProcessSlot>, n: nat, i: nat, x: ProcessSlot)
    requires i < |s| && n <= |s|
    ensures Occupied(s[i := x], n) ==
            Occupied(s, n) + (if i < n then (if x.occupied then 1 else 0) - (if s[i].occupied then 1 else 0) else 0)
    decreases n
  {
    if n > 0 {
      OccupiedUpdate(s, n - 1, i, x);
    }
  }

  /** When no slot from `max` onwards is occupied, the count over the
      whole table is the count over the first `max` slots, so at most `max`. */
  lemma {:induction false} OccupiedBeyondMax(s: seq<ProcessSlot>, max: nat, n: nat)
    requires max <= n <= |s|
    requires forall i :: max <= i < |s| ==> !s[i].occupied
    ensures Occupied(s, n) == Occupied(s, max) <= max
    decreases n
  {
    if n > max {
      OccupiedBeyondMax(s, max, n - 1);
    }
  }

  /** No free slot exactly when all `max` slots are occupied. */
  lemma NoFreeSlotIffFull(s: seq<ProcessSlot>, max: nat)
    requires max <= |s|
    ensures FirstFree(s, max) == -1 <==> Occupied(s, max) == max
  {
  }

  /** A launch fills one free slot, so the count rises by exactly one and
      stays within `max`; no other slot changes. */
  lemma LaunchAddsOne(s: seq<ProcessSlot>, max: nat, pid: int, secs: int, nanos: int)
    requires max <= |s|
    requires FirstFree(s, max) >= 0
    ensures Occupied(Launched(s, max, pid, secs, nanos), max) == Occupied(s, max) + 1 <= max
    ensures forall i :: 0 <= i < |s| && i != FirstFree(s, max) ==> Launched(s, max, pid, secs, nanos)[i] == s[i]
  {
    OccupiedUpdate(s, max, FirstFree(s, max), ProcessSlot(true, pid, secs, nanos, false));
    if Occupied(s, max) == max {
      NoFreeSlotIffFull(s, max);
    }
  }

  /** Removal resets only the first slot carrying pid (a no-op when there is
      none) and lowers the count by one exactly when that slot was occupied. */
  lemma RemoveResetsFirstMatch(s: seq<ProcessSlot>, max: nat, pid: int)
    requires max <= |s|
    ensures IndexOf(s, max, pid) == -1 ==> Removed(s, max, pid) == s
    ensures var i := IndexOf(s, max, pid);
            i >= 0 ==> Removed(s, max, pid)[i] == EMPTY_SLOT &&
                       forall j :: 0 <= j < |s| && j != i ==> Removed(s, max, pid)[j] == s[j]
    ensures var i := IndexOf(s, max, pid);
            Occupied(Removed(s, max, pid), max) ==
            Occupied(s, max) - (if i >= 0 && s[i].occupied then 1 else 0)
  {
    var i := IndexOf(s, max, pid);
    if i >= 0 {
      OccupiedUpdate(s, max, i, EMPTY_SLOT);
    }
  }

  /** Only removal (and initialisation) clears the blocked flag of an occupied
      slot: marking never clears one, a launch writes only a free slot. */
  lemma BlockedOnlyClearedByRemoval(s: seq<ProcessSlot>, max: nat, pid: int, child: int, secs: int, nanos: int, i: nat)
    requires max <= |s| && i < |s|
    requires s[i].occupied && s[i].blocked
    ensures MarkedBlocked(s, max, pid)[i].blocked
    ensures FirstFree(s, max) >= 0 ==> Launched(s, max, child, secs, nanos)[i] == s[i]
  {
  }

  /** Marking pid blocked sets the flag on the first slot carrying pid and
      changes nothing else; it is a no-op when no slot carries pid. */
  lemma MarkBlockedTouchesFirstMatch(s: seq<ProcessSlot>, max: nat, pid: int)
    requires max <= |s|
    ensures IndexOf(s, max, pid) == -1 ==> MarkedBlocked(s, max, pid) == s
    ensures var i := IndexOf(s, max, pid);
            i >= 0 ==> MarkedBlocked(s, max, pid)[i] == s[i].(blocked := true) &&
                       forall j :: 0 <= j < |s| && j != i ==> MarkedBlocked(s, max, pid)[j] == s[j]
    ensures Occupied(MarkedBlocked(s, max, pid), max) == Occupied(s, max)
  {
    var i := IndexOf(s, max, pid);
    if i >= 0 {
      OccupiedUpdate(s, max, i, s[i].(blocked := true));
    }
  }

  /** Launching a pid that no occupied slot carries keeps pids unique; so
      does removal. */
  lemma PidsStayUnique(s: seq<ProcessSlot>, max: nat, pid: int, child: int, secs: int, nanos: int)
    requires max <= |s| && UniquePids(s)
    ensures UniquePids(Removed(s, max, pid))
    ensures FirstFree(s, max) >= 0 && (forall i :: 0 <= i < |s| && s[i].occupied ==> s[i].pid != child) ==>
              UniquePids(Launched(s, max, child, secs, nanos))
  {
  }

  // ---------------------------------------------------------------------
  // The table helpers, on the array itself

  /** InitializeProcessTable: every one of the 20 slots becomes the empty slot. */
  method InitializeProcessTable(table: array<ProcessSlot>)
    requires table.Length == TABLE_SIZE
    modifies table
    ensures forall i :: 0 <= i < table.Length ==> table[i] == EMPTY_SLOT
  {
    for i := 0 to TABLE_SIZE
      invariant forall j :: 0 <= j < i ==> table[j] == EMPTY_SLOT
    {
      table[i] := EMPTY_SLOT;
    }
  }

  /** FindEmptyProcessSlot: one more than the index of the first unoccupied
      slot below max, or 0 when all of them are occupied. */
  method FindEmptyProcessSlot(table: array<ProcessSlot>, max: nat) returns (slot: int)
    requires max <= table.Length
    ensures 0 <= slot <= max
    ensures slot > 0 ==> !table[slot - 1].occupied && forall j :: 0 <= j < slot - 1 ==> table[j].occupied
    ensures slot == 0 <==> Occupied(table[..], max) == max
    ensures slot == FirstFree(table[..], max) + 1
  {
    for i := 0 to max
      invariant forall j :: 0 <= j < i ==> table[..][j].occupied
    {
      if !table[i].occupied {
        assert !table[..][i].occupied;
        return i + 1;
      }
    }
    return 0;
  }

  /** CountActiveProcesses: the number of occupied slots, but 1 when there is
      none (the caller divides by it). */
  method CountActiveProcesses(table: array<ProcessSlot>, max: nat) returns (n: int)
    requires max <= table.Length
    ensures 1 <= n
    ensures Occupied(table[..], max) > 0 ==> n == Occupied(table[..], max)
    ensures Occupied(table[..], max) == 0 ==> n == 1
  {
    var numProcesses := 0;
    for i := 0 to max
      invariant numProcesses == Occupied(table[..], i)
    {
      if table[i].occupied {
        numProcesses := numProcesses + 1;
      }
    }
    n := if numProcesses == 0 then 1 else numProcesses;
  }

  /** IsProcessTableEmpty: true exactly when none of the first max slots is occupied. */
  method IsProcessTableEmpty(table: array<ProcessSlot>, max: nat) returns (empty: bool)
    requires max <= table.Length
    ensures empty <==> Occupied(table[..], max) == 0
  {
    for i := 0 to max
      invariant forall j :: 0 <= j < i ==> !table[..][j].occupied
    {
      if table[i].occupied {
        assert table[..][i].occupied;
        return false;
      }
    }
    return true;
  }

  /** AreAllProcessesBlocked: true exactly when every occupied slot below max
      is blocked (so also for an empty table). */
  method AreAllProcessesBlocked(table: array<ProcessSlot>, max: nat) returns (allBlocked: bool)
    requires max <= table.Length
    ensures allBlocked <==> forall i :: 0 <= i < max && table[i].occupied ==> table[i].blocked
  {
    for i := 0 to max
      invariant forall j :: 0 <= j < i && table[j].occupied ==> table[j].blocked
    {
      if table[i].occupied && !table[i].blocked {
        return false;
      }
    }
    return true;
  }

  /** IsProcessPresent: some slot below max carries pid, occupied or not. */
  method IsProcessPresent(table: array<ProcessSlot>, max: nat, pid: int) returns (present: bool)
    requires max <= table.Length
    ensures present <==> exists i :: 0 <= i < max && table[i].pid == pid
    ensures present <==> IndexOf(table[..], max, pid) >= 0
  {
    for i := 0 to max
      invariant forall j :: 0 <= j < i ==> table[j].pid != pid
    {
      if table[i].pid == pid {
        return true;
      }
    }
    return false;
  }

  /** GetProcessIndex: the index of the first slot below max carrying pid, or -1. */
  method GetProcessIndex(table: array<ProcessSlot>, max: nat, pid: int) returns (index: int)
    requires max <= table.Length
    ensures -1 <= index < max
    ensures index >= 0 ==> table[index].pid == pid && forall j :: 0 <= j < index ==> table[j].pid != pid
    ensures index == -1 <==> forall j :: 0 <= j < max ==> table[j].pid != pid
    ensures index == IndexOf(table[..], max, pid)
  {
    for i := 0 to max
      invariant forall j :: 0 <= j < i ==> table[j].pid != pid
      invariant forall j :: 0 <= j < i ==> table[..][j].pid != pid
    {
      if table[i].pid == pid {
        assert table[..][i].pid == pid;
        return i;
      }
    }
    return -1;
  }

  /** RemoveProcessFromTable: reset the first slot below max whose pid matches. */
  method RemoveProcessFromTable(table: array<ProcessSlot>, pid: int, max: nat)
    requires max <= table.Length
    modifies table
    ensures table[..] == Removed(old(table[..]), max, pid)
  {
    for i := 0 to max
      invariant table[..] == old(table[..])
      invariant forall j :: 0 <= j < i ==> table[..][j].pid != pid
    {
      if table[i].pid == pid {
        assert IndexOf(table[..], max, pid) == i;
        table[i] := EMPTY_SLOT;
        return;
      }
    }
  }

  /** UpdateBlockedProcess: set the blocked flag of the first slot below max
      whose pid matches (the blocked-until arguments in oss.cpp are unused). */
  method UpdateBlockedProcess(table: array<ProcessSlot>, pid: int, max: nat)
    requires max <= table.Length
    modifies table
    ensures table[..] == MarkedBlocked(old(table[..]), max, pid)
  {
    for i := 0 to max
      invariant table[..] == old(table[..])
      invariant forall j :: 0 <= j < i ==> table[..][j].pid != pid
    {
      if table[i].pid == pid {
        assert IndexOf(table[..], max, pid) == i;
        table[i] := table[i].(blocked := true);
        return;
      }
    }
  }
}
