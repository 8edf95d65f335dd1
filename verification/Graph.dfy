/** The stored graph: the processes and events tables and the statements that
 *  write them.  Rows are kept in insertion order; (pid, start_ts) is the key.
 */
module Graph {
  import opened Wrappers
  import opened Clock
  import opened ProcTrees

  datatype ProcRow = ProcRow(
    pid: int,
    startTs: Stamp,
    ppid: Option<int>,
    info: ProcInfo,
    exitTs: Option<Stamp>)

  datatype EventRow = EventRow(
    id: nat,
    ts: Stamp,
    path: string,
    op: string,
    pid: int,
    procStart: Option<Stamp>,
    otherPath: Option<string>)

  const UNKNOWN_INFO := ProcInfo("", "", "", -1)

  predicate HasKey(r: ProcRow, pid: int, start: Stamp) {
    r.pid == pid && r.startTs == start
  }

  function Find(rows: seq<ProcRow>, pid: int, start: Stamp): (r: Option<ProcRow>)
    ensures r.Some? ==> r.value in rows && HasKey(r.value, pid, start)
    ensures r.None? ==> forall x :: x in rows ==> !HasKey(x, pid, start)
  {
    if rows == [] then None
    else if HasKey(rows[0], pid, start) then Some(rows[0])
    else Find(rows[1..], pid, start)
  }

  ghost predicate UniqueKeys(rows: seq<ProcRow>) {
    forall i, j :: 0 <= i < j < |rows| ==> !HasKey(rows[i], rows[j].pid, rows[j].startTs)
  }

  lemma {:induction false} MemberIsFound(rows: seq<ProcRow>, r: ProcRow)
    requires UniqueKeys(rows)
    ensures r in rows <==> Find(rows, r.pid, r.startTs) == Some(r)
  {
    if rows != [] {
      MemberIsFound(rows[1..], r);
      assert r in rows <==> r == rows[0] || r in rows[1..];
    }
  }

  /* ---- The statements ---- */

  // INSERT OR IGNORE
  function InsertOrIgnore(rows: seq<ProcRow>, row: ProcRow): (r: seq<ProcRow>)
    ensures r == if exists x :: x in rows && x.pid == row.pid && x.startTs == row.startTs then rows else rows + [row]
  {
    if Find(rows, row.pid, row.startTs).Some? then rows else rows + [row]
  }

  predicate IsLive(r: ProcRow, pid: int) {
    r.pid == pid && r.exitTs.None?
  }

  predicate HasLive(rows: seq<ProcRow>, pid: int) {
    exists r :: r in rows && IsLive(r, pid)
  }

  // UPDATE ... SET exit_ts WHERE pid AND exit_ts IS NULL
  function SetExitLive(rows: seq<ProcRow>, pid: int, ts: Stamp): seq<ProcRow> {
    if rows == [] then []
    else
      [if IsLive(rows[0], pid) then rows[0].(exitTs := Some(ts)) else rows[0]] + SetExitLive(rows[1..], pid, ts)
  }

  // UPDATE ... SET exit_ts WHERE pid AND start_ts
  function SetExitAt(rows: seq<ProcRow>, pid: int, start: Stamp, ts: Stamp): seq<ProcRow> {
    if rows == [] then []
    else
      [if HasKey(rows[0], pid, start) then rows[0].(exitTs := Some(ts)) else rows[0]]
      + SetExitAt(rows[1..], pid, start, ts)
  }

  // UPDATE ... SET exe, comm, cmdline, uid WHERE pid AND exit_ts IS NULL
  function SetInfoLive(rows: seq<ProcRow>, pid: int, info: ProcInfo): seq<ProcRow> {
    if rows == [] then []
    else
      [if IsLive(rows[0], pid) then rows[0].(info := info) else rows[0]] + SetInfoLive(rows[1..], pid, info)
  }

  function RecordFork(rows: seq<ProcRow>, parent: int, child: int, ts: Stamp): seq<ProcRow> {
    InsertOrIgnore(rows, ProcRow(child, ts, Some(parent), UNKNOWN_INFO, None))
  }

  function RecordExec(rows: seq<ProcRow>, pid: int, info: ProcInfo, ts: Stamp): seq<ProcRow> {
    if HasLive(rows, pid) then SetInfoLive(rows, pid, info)
    else InsertOrIgnore(rows, ProcRow(pid, ts, None, info, None))
  }

  function RecordExisting(rows: seq<ProcRow>, pid: int, ppid: Option<int>, info: ProcInfo, start: Stamp): seq<ProcRow> {
    InsertOrIgnore(rows, ProcRow(pid, start, ppid, info, None))
  }

  /* ---- Resolving a pid to an incarnation ---- */

  predicate Started(r: ProcRow, pid: int, ts: Stamp) {
    r.pid == pid && r.startTs <= ts
  }

  predicate InWindow(r: ProcRow, pid: int, ts: Stamp) {
    Started(r, pid, ts) && (r.exitTs.None? || r.exitTs.value >= ts)
  }

  // The greatest start_ts among the matching rows; `windowed` asks for the exit bound too.
  function Newest(rows: seq<ProcRow>, pid: int, ts: Stamp, windowed: bool): (s: Option<Stamp>)
    ensures s.None? ==> forall r :: r in rows ==> !Matches(r, pid, ts, windowed)
    ensures s.Some? ==> exists r :: r in rows && Matches(r, pid, ts, windowed) && r.startTs == s.value
    ensures s.Some? ==> forall r :: r in rows && Matches(r, pid, ts, windowed) ==> r.startTs <= s.value
  {
    if rows == [] then None
    else
      var best := Newest(rows[1..], pid, ts, windowed);
      assert forall r :: r in rows <==> r == rows[0] || r in rows[1..];
      if Matches(rows[0], pid, ts, windowed) && (best.None? || best.value <= rows[0].startTs)
      then Some(rows[0].startTs)
      else best
  }

  predicate Matches(r: ProcRow, pid: int, ts: Stamp, windowed: bool) {
    if windowed then InWindow(r, pid, ts) else Started(r, pid, ts)
  }

  // First by time window, then, failing that, the newest incarnation started by then.
  function Lookup(rows: seq<ProcRow>, pid: int, ts: Stamp): Option<Stamp> {
    var inside := Newest(rows, pid, ts, true);
    if inside.Some? then inside else Newest(rows, pid, ts, false)
  }

  /** A row that was running decides before one that only began: of either kind the
   *  newest.
   */
  lemma {:induction false} LookupPicks(rows: seq<ProcRow>, pid: int, ts: Stamp)
    ensures var running := (r: ProcRow) =>
              r.pid == pid && r.startTs <= ts && (r.exitTs == None || r.exitTs.value >= ts);
            var begun := (r: ProcRow) => r.pid == pid && r.startTs <= ts;
            var s := Lookup(rows, pid, ts);
            && (s == None <==> forall r :: r in rows ==> !begun(r))
            && (s.Some? && (exists r :: r in rows && running(r)) ==>
                  && (exists r :: r in rows && running(r) && r.startTs == s.value)
                  && (forall r :: r in rows && running(r) ==> r.startTs <= s.value))
            && (s.Some? && !(exists r :: r in rows && running(r)) ==>
                  && (exists r :: r in rows && begun(r) && r.startTs == s.value)
                  && (forall r :: r in rows && begun(r) ==> r.startTs <= s.value))
  {
    var running := (r: ProcRow) => r.pid == pid && r.startTs <= ts && (r.exitTs == None || r.exitTs.value >= ts);
    var begun := (r: ProcRow) => r.pid == pid && r.startTs <= ts;
    forall r ensures running(r) == Matches(r, pid, ts, true) && begun(r) == Matches(r, pid, ts, false) {
    }
  }

  function NextId(events: seq<EventRow>): nat {
    if events == [] then 1 else events[|events| - 1].id + 1
  }

  function RecordEvent(events: seq<EventRow>, rows: seq<ProcRow>, path: string, op: string, pid: int,
                       other: Option<string>, ts: Stamp): seq<EventRow> {
    events + [EventRow(NextId(events), ts, path, op, pid, Lookup(rows, pid, ts), other)]
  }

  ghost predicate IdsIncrease(events: seq<EventRow>) {
    forall i, j :: 0 <= i < j < |events| ==> events[i].id < events[j].id
  }

  /* ---- Retention ---- */

  predicate PinsPid(e: EventRow, pid: int, cutoff: Stamp) {
    e.pid == pid && e.ts >= cutoff
  }

  // Exited before the cutoff, and no retained event shares the pid.
  predicate Doomed(r: ProcRow, events: seq<EventRow>, cutoff: Stamp) {
    && r.exitTs.Some?
    && r.exitTs.value < cutoff
    && !exists e :: e in events && PinsPid(e, r.pid, cutoff)
  }

  function KeptRows(rows: seq<ProcRow>, events: seq<EventRow>, cutoff: Stamp): seq<ProcRow> {
    if rows == [] then []
    else (if Doomed(rows[0], events, cutoff) then [] else [rows[0]]) + KeptRows(rows[1..], events, cutoff)
  }

  function KeptEvents(events: seq<EventRow>, cutoff: Stamp): seq<EventRow> {
    if events == [] then []
    else
      var n := |events| - 1;
      KeptEvents(events[..n], cutoff) + if events[n].ts >= cutoff then [events[n]] else []
  }

  // SELECT COUNT(*)
  function CountDoomed(rows: seq<ProcRow>, events: seq<EventRow>, cutoff: Stamp): nat {
    if rows == [] then 0
    else (if Doomed(rows[0], events, cutoff) then 1 else 0) + CountDoomed(rows[1..], events, cutoff)
  }

  function CountOld(events: seq<EventRow>, cutoff: Stamp): nat {
    if events == [] then 0
    else (if events[0].ts < cutoff then 1 else 0) + CountOld(events[1..], cutoff)
  }

  /* ---- The store object ---- */

  class Store {
    var processes: seq<ProcRow>
    var events: seq<EventRow>

    constructor ()
      ensures processes == [] && events == []
    {
      processes, events := [], [];
    }

    method RecordForkRow(parent: int, child: int, ts: Stamp)
      modifies this`processes
      ensures processes == RecordFork(old(processes), parent, child, ts)
      ensures processes ==
              InsertOrIgnore(old(processes), ProcRow(child, ts, Some(parent), ProcInfo("", "", "", -1), None))
    {
      processes := InsertOrIgnore(processes, ProcRow(child, ts, Some(parent), UNKNOWN_INFO, None));
    }

    method RecordExecRow(pid: int, info: ProcInfo, ts: Stamp)
      modifies this`processes
      ensures processes == RecordExec(old(processes), pid, info, ts)
      ensures (exists r :: r in old(processes) && r.pid == pid && r.exitTs == None) ==>
                && |processes| == |old(processes)|
                && forall i :: 0 <= i < |processes| ==>
                     var r := old(processes)[i];
                     processes[i] == if r.pid == pid && r.exitTs == None
                                     then ProcRow(pid, r.startTs, r.ppid, info, None) else r
      ensures !(exists r :: r in old(processes) && r.pid == pid && r.exitTs == None) ==>
                processes == InsertOrIgnore(old(processes), ProcRow(pid, ts, None, info, None))
    {
      InfoLivePointwise(processes, pid, info);
      var updated := HasLive(processes, pid);
      processes := SetInfoLive(processes, pid, info);
      if !updated {
        NothingLiveNothingSet(old(processes), pid, info);
        processes := InsertOrIgnore(processes, ProcRow(pid, ts, None, info, None));
      }
    }

    method RecordExistingRow(pid: int, ppid: Option<int>, info: ProcInfo, start: Stamp)
      modifies this`processes
      ensures processes == RecordExisting(old(processes), pid, ppid, info, start)
      ensures processes == InsertOrIgnore(old(processes), ProcRow(pid, start, ppid, info, None))
    {
      processes := InsertOrIgnore(processes, ProcRow(pid, start, ppid, info, None));
    }

    method RecordExit(pid: int, ts: Stamp)
      modifies this`processes
      ensures processes == SetExitLive(old(processes), pid, ts)
      ensures |processes| == |old(processes)|
      ensures forall i :: 0 <= i < |processes| ==>
                var r := old(processes)[i];
                processes[i] == if r.pid == pid && r.exitTs == None
                                then ProcRow(pid, r.startTs, r.ppid, r.info, Some(ts)) else r
    {
      ExitLivePointwise(processes, pid, ts);
      processes := SetExitLive(processes, pid, ts);
    }

    method RecordExitAt(pid: int, start: Stamp, exit: Stamp)
      modifies this`processes
      ensures processes == SetExitAt(old(processes), pid, start, exit)
      ensures |processes| == |old(processes)|
      ensures forall i :: 0 <= i < |processes| ==>
                var r := old(processes)[i];
                processes[i] == if r.pid == pid && r.startTs == start
                                then ProcRow(pid, start, r.ppid, r.info, Some(exit)) else r
    {
      ExitAtPointwise(processes, pid, start, exit);
      processes := SetExitAt(processes, pid, start, exit);
    }

    method RecordEventFull(path: string, op: string, pid: int, other: Option<string>, ts: Stamp)
      modifies this`events
      ensures events == RecordEvent(old(events), processes, path, op, pid, other, ts)
      ensures |events| == |old(events)| + 1 && events[..|old(events)|] == old(events)
      ensures var e := events[|old(events)|];
              && e.ts == ts && e.path == path && e.op == op && e.pid == pid && e.otherPath == other
              && e.id == (if old(events) == [] then 1 else old(events)[|old(events)| - 1].id + 1)
              && e.procStart == Lookup(processes, pid, ts)
    {
      var procStart := Newest(processes, pid, ts, true);
      if procStart.None? {
        procStart := Newest(processes, pid, ts, false);
      }
      events := events + [EventRow(NextId(events), ts, path, op, pid, procStart, other)];
    }

    // What a prune with this cutoff would remove.
    method PrunePreview(cutoff: Stamp) returns (procs: nat, oldEvents: nat)
      ensures procs == |processes| - |KeptRows(processes, events, cutoff)|
      ensures oldEvents == |events| - |KeptEvents(events, cutoff)|
    {
      procs := CountDoomed(processes, events, cutoff);
      oldEvents := CountOld(events, cutoff);
      KeptRowsCount(processes, events, cutoff);
      KeptEventsCount(events, cutoff);
    }

    // Pins are read from the events before any of them goes.
    method Prune(cutoff: Stamp) returns (procs: int, removed: int)
      modifies this
      ensures processes == KeptRows(old(processes), old(events), cutoff)
      ensures events == KeptEvents(old(events), cutoff)
      ensures forall r :: multiset(processes)[r] ==
                if r.exitTs == None || r.exitTs.value >= cutoff
                   || (exists e :: e in old(events) && e.pid == r.pid && e.ts >= cutoff)
                then multiset(old(processes))[r] else 0
      ensures forall e :: multiset(events)[e] == if e.ts < cutoff then 0 else multiset(old(events))[e]
      ensures procs == |old(processes)| - |processes|
      ensures removed == |old(events)| - |events|
    {
      ghost var rowsBefore, eventsBefore := processes, events;
      var rows := KeptRows(processes, events, cutoff);
      procs := |processes| - |rows|;
      processes := rows;
      var kept := KeptEvents(events, cutoff);
      removed := |events| - |kept|;
      events := kept;
      KeptRowsAreTheRest(rowsBefore, eventsBefore, cutoff);
      KeptEventsAreTheRest(eventsBefore, cutoff);
    }
  }

  lemma {:induction false} ExitLivePointwise(rows: seq<ProcRow>, pid: int, ts: Stamp)
    ensures |SetExitLive(rows, pid, ts)| == |rows|
    ensures forall i :: 0 <= i < |rows| ==>
              SetExitLive(rows, pid, ts)[i] == if IsLive(rows[i], pid) then rows[i].(exitTs := Some(ts)) else rows[i]
  {
    if rows != [] {
      ExitLivePointwise(rows[1..], pid, ts);
    }
  }

  lemma {:induction false} InfoLivePointwise(rows: seq<ProcRow>, pid: int, info: ProcInfo)
    ensures |SetInfoLive(rows, pid, info)| == |rows|
    ensures forall i :: 0 <= i < |rows| ==>
              SetInfoLive(rows, pid, info)[i] == if IsLive(rows[i], pid) then rows[i].(info := info) else rows[i]
  {
    if rows != [] {
      InfoLivePointwise(rows[1..], pid, info);
    }
  }

  lemma {:induction false} ExitAtPointwise(rows: seq<ProcRow>, pid: int, start: Stamp, ts: Stamp)
    ensures |SetExitAt(rows, pid, start, ts)| == |rows|
    ensures forall i :: 0 <= i < |rows| ==>
              SetExitAt(rows, pid, start, ts)[i] ==
              if HasKey(rows[i], pid, start) then rows[i].(exitTs := Some(ts)) else rows[i]
  {
    if rows != [] {
      ExitAtPointwise(rows[1..], pid, start, ts);
    }
  }

  // A row goes exactly when it ended before the cutoff and no retained event has its pid.
  lemma {:induction false} DoomedMeans(r: ProcRow, events: seq<EventRow>, cutoff: Stamp)
    ensures !Doomed(r, events, cutoff) <==>
            || r.exitTs == None || r.exitTs.value >= cutoff
            || (exists e :: e in events && e.pid == r.pid && e.ts >= cutoff)
  {
    if e :| e in events && e.pid == r.pid && e.ts >= cutoff {
      assert PinsPid(e, r.pid, cutoff);
    }
  }

  lemma {:induction false} KeptRowsAreTheRest(rows: seq<ProcRow>, events: seq<EventRow>, cutoff: Stamp)
    ensures forall r :: multiset(KeptRows(rows, events, cutoff))[r] ==
              if r.exitTs == None || r.exitTs.value >= cutoff
                 || (exists e :: e in events && e.pid == r.pid && e.ts >= cutoff)
              then multiset(rows)[r] else 0
  {
    if rows != [] {
      KeptRowsAreTheRest(rows[1..], events, cutoff);
      DoomedMeans(rows[0], events, cutoff);
      assert rows == [rows[0]] + rows[1..];
    }
  }

  lemma {:induction false} KeptEventsAreTheRest(events: seq<EventRow>, cutoff: Stamp)
    ensures forall e :: multiset(KeptEvents(events, cutoff))[e] == if e.ts < cutoff then 0 else multiset(events)[e]
  {
    if events != [] {
      var n := |events| - 1;
      KeptEventsAreTheRest(events[..n], cutoff);
      assert events == events[..n] + [events[n]];
    }
  }

  lemma {:induction false} KeptRowsCount(rows: seq<ProcRow>, events: seq<EventRow>, cutoff: Stamp)
    ensures |KeptRows(rows, events, cutoff)| + CountDoomed(rows, events, cutoff) == |rows|
  {
    if rows != [] {
      KeptRowsCount(rows[1..], events, cutoff);
    }
  }

  lemma {:induction false} CountOldSnoc(events: seq<EventRow>, e: EventRow, cutoff: Stamp)
    ensures CountOld(events + [e], cutoff) == CountOld(events, cutoff) + if e.ts < cutoff then 1 else 0
  {
    if events == [] {
      assert [] + [e] == [e] && [e][1..] == [];
    } else {
      assert (events + [e])[1..] == events[1..] + [e];
      CountOldSnoc(events[1..], e, cutoff);
    }
  }

  lemma {:induction false} KeptEventsCount(events: seq<EventRow>, cutoff: Stamp)
    ensures |KeptEvents(events, cutoff)| + CountOld(events, cutoff) == |events|
  {
    if events != [] {
      var n := |events| - 1;
      KeptEventsCount(events[..n], cutoff);
      CountOldSnoc(events[..n], events[n], cutoff);
      assert events == events[..n] + [events[n]];
    }
  }

  /* ---- Event ids ---- */

  lemma {:induction false} RecordEventKeepsIds(events: seq<EventRow>, rows: seq<ProcRow>, path: string, op: string,
                                              pid: int, other: Option<string>, ts: Stamp)
    requires IdsIncrease(events)
    ensures IdsIncrease(RecordEvent(events, rows, path, op, pid, other, ts))
  {
  }

  lemma {:induction false} KeptEventsKeepIds(events: seq<EventRow>, cutoff: Stamp)
    requires IdsIncrease(events)
    ensures IdsIncrease(KeptEvents(events, cutoff))
    ensures forall e :: e in KeptEvents(events, cutoff) ==> e in events
  {
    if events != [] {
      var n := |events| - 1;
      var kept := KeptEvents(events[..n], cutoff);
      KeptEventsKeepIds(events[..n], cutoff);
      forall i | 0 <= i < |kept| ensures kept[i].id < events[n].id {
        assert kept[i] in events[..n];
        var j :| 0 <= j < n && events[j] == kept[i];
      }
    }
  }

  lemma {:induction false} NothingLiveNothingSet(rows: seq<ProcRow>, pid: int, info: ProcInfo)
    requires !HasLive(rows, pid)
    ensures SetInfoLive(rows, pid, info) == rows
  {
    if rows != [] {
      assert !IsLive(rows[0], pid) by { assert rows[0] in rows; }
      forall r | r in rows[1..] ensures !IsLive(r, pid) {
        assert r in rows;
      }
      NothingLiveNothingSet(rows[1..], pid, info);
    }
  }

  /* ---- What the statements do to one row ---- */

  lemma {:induction false} FindAppend(rows: seq<ProcRow>, row: ProcRow, pid: int, start: Stamp)
    ensures Find(rows + [row], pid, start) ==
            if Find(rows, pid, start).Some? then Find(rows, pid, start)
            else if HasKey(row, pid, start) then Some(row) else None
  {
    if rows == [] {
      assert rows + [row] == [row];
    } else {
      assert (rows + [row])[1..] == rows[1..] + [row];
      FindAppend(rows[1..], row, pid, start);
    }
  }

  lemma {:induction false} FindInsert(rows: seq<ProcRow>, row: ProcRow, pid: int, start: Stamp)
    ensures Find(InsertOrIgnore(rows, row), pid, start) ==
            if Find(rows, pid, start).Some? then Find(rows, pid, start)
            else if HasKey(row, pid, start) then Some(row) else None
  {
    FindAppend(rows, row, pid, start);
  }

  lemma {:induction false} FindSetExitAt(rows: seq<ProcRow>, pid: int, start: Stamp, ts: Stamp, p: int, s: Stamp)
    ensures Find(SetExitAt(rows, pid, start, ts), p, s) ==
            match Find(rows, p, s)
            case None => None
            case Some(r) => Some(if p == pid && s == start then r.(exitTs := Some(ts)) else r)
  {
    if rows != [] {
      FindSetExitAt(rows[1..], pid, start, ts, p, s);
    }
  }

  lemma {:induction false} FindSetExitLive(rows: seq<ProcRow>, pid: int, ts: Stamp, p: int, s: Stamp)
    ensures Find(SetExitLive(rows, pid, ts), p, s) ==
            match Find(rows, p, s)
            case None => None
            case Some(r) => Some(if IsLive(r, pid) then r.(exitTs := Some(ts)) else r)
  {
    if rows != [] {
      FindSetExitLive(rows[1..], pid, ts, p, s);
    }
  }

  lemma {:induction false} FindSetInfoLive(rows: seq<ProcRow>, pid: int, info: ProcInfo, p: int, s: Stamp)
    ensures Find(SetInfoLive(rows, pid, info), p, s) ==
            match Find(rows, p, s)
            case None => None
            case Some(r) => Some(if IsLive(r, pid) then r.(info := info) else r)
  {
    if rows != [] {
      FindSetInfoLive(rows[1..], pid, info, p, s);
    }
  }

  // Updates leave the keys where they are.
  ghost predicate SameKeys(a: seq<ProcRow>, b: seq<ProcRow>) {
    |a| == |b| && forall i :: 0 <= i < |a| ==> HasKey(a[i], b[i].pid, b[i].startTs)
  }

  lemma {:induction false} UpdatesKeepKeys(rows: seq<ProcRow>, pid: int, start: Stamp, ts: Stamp, info: ProcInfo)
    ensures SameKeys(SetExitLive(rows, pid, ts), rows)
    ensures SameKeys(SetExitAt(rows, pid, start, ts), rows)
    ensures SameKeys(SetInfoLive(rows, pid, info), rows)
  {
    if rows != [] {
      UpdatesKeepKeys(rows[1..], pid, start, ts, info);
    }
  }

  lemma {:induction false} SameKeysUnique(a: seq<ProcRow>, b: seq<ProcRow>)
    requires SameKeys(a, b) && UniqueKeys(b)
    ensures UniqueKeys(a)
  {
    forall i, j | 0 <= i < j < |a| ensures !HasKey(a[i], a[j].pid, a[j].startTs) {
      assert HasKey(a[i], b[i].pid, b[i].startTs) && HasKey(a[j], b[j].pid, b[j].startTs);
    }
  }

  lemma {:induction false} InsertKeepsUnique(rows: seq<ProcRow>, row: ProcRow)
    requires UniqueKeys(rows)
    ensures UniqueKeys(InsertOrIgnore(rows, row))
  {
  }
}
