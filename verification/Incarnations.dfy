/** Recycled pids in the eager store: incarnations never blur. */
module Incarnations {
  import opened Wrappers
  import opened Clock
  import opened ProcTrees
  import opened Graph
  import opened Queries

  // x ended no later than y began.
  predicate EndsBefore(x: ProcRow, y: ProcRow) {
    x.exitTs.Some? && x.startTs < y.startTs && x.exitTs.value <= y.startTs
  }

  ghost predicate InTurn(rows: seq<ProcRow>) {
    forall x, y :: x in rows && y in rows && x.pid == y.pid ==> x == y || EndsBefore(x, y) || EndsBefore(y, x)
  }

  // No row reaches past the clock.
  ghost predicate NotAhead(rows: seq<ProcRow>, now: Stamp) {
    forall r :: r in rows ==> r.startTs <= now && (r.exitTs.Some? ==> r.startTs <= r.exitTs.value <= now)
  }

  ghost predicate Sound(rows: seq<ProcRow>, now: Stamp) {
    UniqueKeys(rows) && InTurn(rows) && NotAhead(rows, now)
  }

  datatype Tables = Tables(rows: seq<ProcRow>, events: seq<EventRow>, now: Stamp)

  const EMPTY := Tables([], [], 0)

  datatype Call =
    | ForkCall(parent: int, child: int)
    | ExecCall(pid: int, info: ProcInfo)
    | ExitCall(pid: int)
    | ExistingCall(pid: int, ppid: Option<int>, info: ProcInfo, start: Stamp)
    | ExitAtCall(pid: int, start: Stamp, exit: Stamp)
    | EventCall(path: string, op: string, pid: int, other: Option<string>)

  function RowsAfter(rows: seq<ProcRow>, ts: Stamp, call: Call): seq<ProcRow> {
    match call
    case ForkCall(parent, child) => RecordFork(rows, parent, child, ts)
    case ExecCall(pid, info) => RecordExec(rows, pid, info, ts)
    case ExitCall(pid) => SetExitLive(rows, pid, ts)
    case ExistingCall(pid, ppid, info, start) => RecordExisting(rows, pid, ppid, info, start)
    case ExitAtCall(pid, start, exit) => SetExitAt(rows, pid, start, exit)
    case EventCall(_, _, _, _) => rows
  }

  function Perform(t: Tables, ts: Stamp, call: Call): Tables {
    var events := match call
                  case EventCall(path, op, pid, other) => RecordEvent(t.events, t.rows, path, op, pid, other, ts)
                  case _ => t.events;
    Tables(RowsAfter(t.rows, ts, call), events, ts)
  }

  // A call is the store's own method of that name.
  method PerformOn(g: Store, ts: Stamp, call: Call)
    modifies g
    ensures Tables(g.processes, g.events, ts) == Perform(Tables(old(g.processes), old(g.events), ts), ts, call)
  {
    match call {
      case ForkCall(parent, child) => g.RecordForkRow(parent, child, ts);
      case ExecCall(pid, info) => g.RecordExecRow(pid, info, ts);
      case ExitCall(pid) => g.RecordExit(pid, ts);
      case ExistingCall(pid, ppid, info, start) => g.RecordExistingRow(pid, ppid, info, start);
      case ExitAtCall(pid, start, exit) => g.RecordExitAt(pid, start, exit);
      case EventCall(path, op, pid, other) => g.RecordEventFull(path, op, pid, other, ts);
    }
  }

  /** What each call does to a row: a fork, an exec of a pid without live row and an
   *  existing process add one, an exec renames the live row, exits close theirs, and an
   *  event leaves all as they are.
   */
  lemma {:induction false} CallsDo(rows: seq<ProcRow>, ts: Stamp, call: Call, p: int, s: Stamp)
    ensures var was, now := Find(rows, p, s), Find(RowsAfter(rows, ts, call), p, s);
            match call
            case ForkCall(parent, child) =>
              now == if was == None && p == child && s == ts
                     then Some(ProcRow(p, s, Some(parent), ProcInfo("", "", "", -1), None)) else was
            case ExecCall(pid, info) =>
              if exists r :: r in rows && r.pid == pid && r.exitTs == None then
                now == if was.Some? && p == pid && was.value.exitTs == None
                       then Some(ProcRow(p, s, was.value.ppid, info, None)) else was
              else now == if was == None && p == pid && s == ts then Some(ProcRow(p, s, None, info, None)) else was
            case ExitCall(pid) =>
              now == if was.Some? && p == pid && was.value.exitTs == None
                     then Some(ProcRow(p, s, was.value.ppid, was.value.info, Some(ts))) else was
            case ExistingCall(pid, ppid, info, start) =>
              now == if was == None && p == pid && s == start then Some(ProcRow(p, s, ppid, info, None)) else was
            case ExitAtCall(pid, start, exit) =>
              now == if was.Some? && p == pid && s == start
                     then Some(ProcRow(p, s, was.value.ppid, was.value.info, Some(exit))) else was
            case EventCall(_, _, _, _) => now == was
  {
    match call {
      case ForkCall(parent, child) =>
        FindInsert(rows, ProcRow(child, ts, Some(parent), UNKNOWN_INFO, None), p, s);
      case ExecCall(pid, info) =>
        FindSetInfoLive(rows, pid, info, p, s);
        FindInsert(rows, ProcRow(pid, ts, None, info, None), p, s);
        assert HasLive(rows, pid) <==> exists r :: r in rows && r.pid == pid && r.exitTs == None by {
          if r :| r in rows && r.pid == pid && r.exitTs == None {
            assert IsLive(r, pid);
          }
        }
      case ExitCall(pid) => FindSetExitLive(rows, pid, ts, p, s);
      case ExistingCall(pid, ppid, info, start) => FindInsert(rows, ProcRow(pid, start, ppid, info, None), p, s);
      case ExitAtCall(pid, start, exit) => FindSetExitAt(rows, pid, start, exit, p, s);
      case EventCall(_, _, _, _) =>
    }
  }

  ghost predicate SoundTables(t: Tables) {
    Sound(t.rows, t.now) && forall e :: e in t.events ==> e.ts <= t.now
  }

  predicate Unbound(e: EventRow, pid: int) {
    e.pid == pid && e.procStart.None?
  }

  // A row that comes late: after its predecessors have ended, and before any event
  // that could be its own was left unbound.
  ghost predicate MayEnter(t: Tables, ts: Stamp, pid: int, start: Stamp) {
    && start <= ts
    && (forall r :: r in t.rows && r.pid == pid ==> r.exitTs.Some? && r.startTs < start && r.exitTs.value <= start)
    && (forall e :: e in t.events && Unbound(e, pid) ==> e.ts <= start)
  }

  // An exit that comes late: once, before a successor begins, and not before an
  // unbound event of the process.
  ghost predicate MayExit(t: Tables, ts: Stamp, pid: int, start: Stamp, exit: Stamp) {
    && start <= exit <= ts
    && (forall r :: r in t.rows && HasKey(r, pid, start) ==> r.exitTs.None? || r.exitTs == Some(exit))
    && (forall r :: r in t.rows && r.pid == pid && start < r.startTs ==> exit <= r.startTs)
    && (forall e :: e in t.events && Unbound(e, pid) && start <= e.ts ==> e.ts <= exit)
  }

  // Stamps do not go back, and the stream of a pid is fork, exec*, exit.
  ghost predicate InOrder(t: Tables, ts: Stamp, call: Call) {
    && t.now <= ts
    && match call
       case ForkCall(_, child) => !HasLive(t.rows, child)
       case ExistingCall(pid, _, _, start) => Find(t.rows, pid, start).Some? || MayEnter(t, ts, pid, start)
       case ExitAtCall(pid, start, exit) => Find(t.rows, pid, start).Some? ==> MayExit(t, ts, pid, start, exit)
       case _ => true
  }

  /* ---- Incarnations stay in turn ---- */

  lemma {:induction false} UpdatedFrom(rows: seq<ProcRow>, pid: int, start: Stamp, ts: Stamp, info: ProcInfo)
    ensures forall r :: r in SetExitLive(rows, pid, ts) ==>
              exists o :: o in rows && r == if IsLive(o, pid) then o.(exitTs := Some(ts)) else o
    ensures forall r :: r in SetExitAt(rows, pid, start, ts) ==>
              exists o :: o in rows && r == if HasKey(o, pid, start) then o.(exitTs := Some(ts)) else o
    ensures forall r :: r in SetInfoLive(rows, pid, info) ==>
              exists o :: o in rows && r == if IsLive(o, pid) then o.(info := info) else o
  {
    if rows != [] {
      UpdatedFrom(rows[1..], pid, start, ts, info);
    }
  }

  lemma {:induction false} InsertKeepsSound(rows: seq<ProcRow>, now: Stamp, ts: Stamp, row: ProcRow)
    requires Sound(rows, now) && now <= ts
    requires row.startTs <= ts && row.exitTs == None
    requires Find(rows, row.pid, row.startTs).Some? ||
             forall r :: r in rows && r.pid == row.pid ==>
               r.exitTs.Some? && r.startTs <= row.startTs && r.exitTs.value <= row.startTs
    ensures Sound(InsertOrIgnore(rows, row), ts)
  {
    InsertKeepsUnique(rows, row);
  }

  lemma {:induction false} NoLiveMeansEnded(rows: seq<ProcRow>, now: Stamp, pid: int)
    requires Sound(rows, now) && !HasLive(rows, pid)
    ensures forall r :: r in rows && r.pid == pid ==> r.exitTs.Some? && r.startTs <= now && r.exitTs.value <= now
  {
    forall r | r in rows && r.pid == pid ensures r.exitTs.Some? {
      assert !IsLive(r, pid);
    }
  }

  lemma {:induction false} ExitKeepsSound(rows: seq<ProcRow>, now: Stamp, ts: Stamp, pid: int)
    requires Sound(rows, now) && now <= ts
    ensures Sound(SetExitLive(rows, pid, ts), ts)
  {
    var after := SetExitLive(rows, pid, ts);
    UpdatesKeepKeys(rows, pid, 0, ts, NO_INFO);
    SameKeysUnique(after, rows);
    UpdatedFrom(rows, pid, 0, ts, NO_INFO);
    forall x, y | x in after && y in after && x.pid == y.pid
      ensures x == y || EndsBefore(x, y) || EndsBefore(y, x)
    {
      var a :| a in rows && x == if IsLive(a, pid) then a.(exitTs := Some(ts)) else a;
      var b :| b in rows && y == if IsLive(b, pid) then b.(exitTs := Some(ts)) else b;
      assert a == b || EndsBefore(a, b) || EndsBefore(b, a);
    }
  }

  lemma {:induction false} ExitAtKeepsSound(t: Tables, ts: Stamp, pid: int, start: Stamp, exit: Stamp)
    requires SoundTables(t) && t.now <= ts && MayExit(t, ts, pid, start, exit)
    ensures Sound(SetExitAt(t.rows, pid, start, exit), ts)
  {
    var rows, after := t.rows, SetExitAt(t.rows, pid, start, exit);
    UpdatesKeepKeys(rows, pid, start, exit, NO_INFO);
    SameKeysUnique(after, rows);
    UpdatedFrom(rows, pid, start, exit, NO_INFO);
    forall x, y | x in after && y in after && x.pid == y.pid
      ensures x == y || EndsBefore(x, y) || EndsBefore(y, x)
    {
      var a :| a in rows && x == if HasKey(a, pid, start) then a.(exitTs := Some(exit)) else a;
      var b :| b in rows && y == if HasKey(b, pid, start) then b.(exitTs := Some(exit)) else b;
      ExitAtKeepsTurn(t, ts, pid, start, exit, a, b);
    }
  }

  function WithExit(r: ProcRow, pid: int, start: Stamp, exit: Stamp): ProcRow {
    if HasKey(r, pid, start) then r.(exitTs := Some(exit)) else r
  }

  lemma {:induction false} ExitAtKeepsTurn(t: Tables, ts: Stamp, pid: int, start: Stamp, exit: Stamp,
                                           a: ProcRow, b: ProcRow)
    requires SoundTables(t) && MayExit(t, ts, pid, start, exit) && a in t.rows && b in t.rows && a.pid == b.pid
    ensures var x, y := WithExit(a, pid, start, exit), WithExit(b, pid, start, exit);
            x == y || EndsBefore(x, y) || EndsBefore(y, x)
  {
    assert a == b || EndsBefore(a, b) || EndsBefore(b, a);
  }

  lemma {:induction false} ExecKeepsSound(rows: seq<ProcRow>, now: Stamp, ts: Stamp, pid: int, info: ProcInfo)
    requires Sound(rows, now) && now <= ts
    ensures Sound(SetInfoLive(rows, pid, info), ts)
  {
    var after := SetInfoLive(rows, pid, info);
    UpdatesKeepKeys(rows, pid, 0, ts, info);
    SameKeysUnique(after, rows);
    UpdatedFrom(rows, pid, 0, ts, info);
    forall x, y | x in after && y in after && x.pid == y.pid
      ensures x == y || EndsBefore(x, y) || EndsBefore(y, x)
    {
      var a :| a in rows && x == if IsLive(a, pid) then a.(info := info) else a;
      var b :| b in rows && y == if IsLive(b, pid) then b.(info := info) else b;
      assert a == b || EndsBefore(a, b) || EndsBefore(b, a);
    }
  }

  /** Every record_* call keeps each pid's incarnations in turn. */
  lemma {:induction false} CallKeepsSound(t: Tables, ts: Stamp, call: Call)
    requires SoundTables(t) && InOrder(t, ts, call)
    ensures SoundTables(Perform(t, ts, call))
  {
    match call
    case ForkCall(parent, child) =>
      NoLiveMeansEnded(t.rows, t.now, child);
      InsertKeepsSound(t.rows, t.now, ts, ProcRow(child, ts, Some(parent), UNKNOWN_INFO, None));
    case ExecCall(pid, info) =>
      if HasLive(t.rows, pid) {
        ExecKeepsSound(t.rows, t.now, ts, pid, info);
      } else {
        NoLiveMeansEnded(t.rows, t.now, pid);
        InsertKeepsSound(t.rows, t.now, ts, ProcRow(pid, ts, None, info, None));
      }
    case ExitCall(pid) => ExitKeepsSound(t.rows, t.now, ts, pid);
    case ExistingCall(pid, ppid, info, start) =>
      InsertKeepsSound(t.rows, t.now, ts, ProcRow(pid, start, ppid, info, None));
    case ExitAtCall(pid, start, exit) =>
      if Find(t.rows, pid, start).Some? {
        ExitAtKeepsSound(t, ts, pid, start, exit);
      } else {
        NoKeyNoExit(t.rows, pid, start, exit);
      }
    case EventCall(_, _, _, _) =>
  }

  lemma {:induction false} NoKeyNoExit(rows: seq<ProcRow>, pid: int, start: Stamp, exit: Stamp)
    requires Find(rows, pid, start).None?
    ensures SetExitAt(rows, pid, start, exit) == rows
  {
    if rows != [] {
      NoKeyNoExit(rows[1..], pid, start, exit);
    }
  }

  /** The two-step lookup is the newest incarnation started by then: the window
   *  test never prefers an older one.
   */
  lemma {:induction false} LookupIsNewest(rows: seq<ProcRow>, now: Stamp, pid: int, ts: Stamp)
    requires Sound(rows, now)
    ensures Lookup(rows, pid, ts) == Newest(rows, pid, ts, false)
  {
    var inside, newest := Newest(rows, pid, ts, true), Newest(rows, pid, ts, false);
    if inside.Some? {
      var i :| i in rows && Matches(i, pid, ts, true) && i.startTs == inside.value;
      assert Matches(i, pid, ts, false);
      var g :| g in rows && Matches(g, pid, ts, false) && g.startTs == newest.value;
      assert i == g || EndsBefore(i, g) || EndsBefore(g, i);
      assert EndsBefore(i, g) ==> Matches(g, pid, ts, true);
    }
  }

  /* ---- Runs ---- */

  type Calls = seq<(Stamp, Call)>

  function After(t: Tables, calls: Calls): Tables {
    if calls == [] then t
    else
      var n := |calls| - 1;
      Perform(After(t, calls[..n]), calls[n].0, calls[n].1)
  }

  ghost predicate AllInOrder(t: Tables, calls: Calls) {
    calls != [] ==>
      var n := |calls| - 1;
      AllInOrder(t, calls[..n]) && InOrder(After(t, calls[..n]), calls[n].0, calls[n].1)
  }

  /** Over any run, each pid's incarnations stay in turn; so they do from the empty
   *  tables.
   */
  lemma {:induction false} RunKeepsSound(t: Tables, calls: Calls)
    requires SoundTables(t) && AllInOrder(t, calls)
    ensures SoundTables(After(t, calls))
  {
    if calls != [] {
      var n := |calls| - 1;
      RunKeepsSound(t, calls[..n]);
      CallKeepsSound(After(t, calls[..n]), calls[n].0, calls[n].1);
    }
  }

  lemma {:induction false} EmptyIsSound()
    ensures SoundTables(EMPTY)
  {
  }

  /* ---- Resolved events stay resolved ---- */

  // The incarnation a history query shows for this event exists.
  ghost predicate Attributed(rows: seq<ProcRow>, e: EventRow) {
    Resolve(rows, e).start.Some? && Find(rows, e.pid, Resolve(rows, e).start.value).Some?
  }

  // What a call may do to a row, as far as an event of its pid can tell: it stays, an
  // open one may close no earlier than the event, a new one begins no earlier.
  ghost predicate EvolvesAt(rows: seq<ProcRow>, after: seq<ProcRow>, e: EventRow, s: Stamp) {
    match Find(rows, e.pid, s)
    case Some(o) =>
      && Find(after, e.pid, s).Some?
      && var r := Find(after, e.pid, s).value;
         r.exitTs == o.exitTs || (o.exitTs.None? && (s <= e.ts ==> r.exitTs.value >= e.ts))
    case None => Find(after, e.pid, s).Some? ==> s >= e.ts
  }

  lemma {:induction false} CallEvolves(t: Tables, ts: Stamp, call: Call, e: EventRow, s: Stamp)
    requires SoundTables(t) && InOrder(t, ts, call)
    requires e in t.events && e.procStart.None?
    ensures EvolvesAt(t.rows, Perform(t, ts, call).rows, e, s)
  {
    var rows := t.rows;
    match call
    case ForkCall(parent, child) => FindInsert(rows, ProcRow(child, ts, Some(parent), UNKNOWN_INFO, None), e.pid, s);
    case ExecCall(pid, info) =>
      FindSetInfoLive(rows, pid, info, e.pid, s);
      FindInsert(rows, ProcRow(pid, ts, None, info, None), e.pid, s);
    case ExitCall(pid) => FindSetExitLive(rows, pid, ts, e.pid, s);
    case ExistingCall(pid, ppid, info, start) => FindInsert(rows, ProcRow(pid, start, ppid, info, None), e.pid, s);
    case ExitAtCall(pid, start, exit) => FindSetExitAt(rows, pid, start, exit, e.pid, s);
    case EventCall(_, _, _, _) =>
  }

  // Which incarnation an unbound event resolves to, before and after.
  lemma {:induction false} ResolutionEvolves(rows: seq<ProcRow>, after: seq<ProcRow>, now: Stamp, later: Stamp,
                                             e: EventRow)
    requires Sound(rows, now) && Sound(after, later)
    requires forall s {:trigger EvolvesAt(rows, after, e, s)} :: EvolvesAt(rows, after, e, s)
    requires Newest(rows, e.pid, e.ts, true).Some?
    ensures Newest(after, e.pid, e.ts, true) ==
            if Find(after, e.pid, e.ts).Some? then Some(e.ts) else Newest(rows, e.pid, e.ts, true)
  {
    var s := Newest(rows, e.pid, e.ts, true).value;
    var o :| o in rows && Matches(o, e.pid, e.ts, true) && o.startTs == s;
    MemberIsFound(rows, o);
    assert EvolvesAt(rows, after, e, s);
    assert Matches(Find(after, e.pid, s).value, e.pid, e.ts, true);
    var found := Newest(after, e.pid, e.ts, true).value;
    var r :| r in after && Matches(r, e.pid, e.ts, true) && r.startTs == found;
    MemberIsFound(after, r);
    assert EvolvesAt(rows, after, e, found);
    if Find(after, e.pid, e.ts).Some? {
      var own := Find(after, e.pid, e.ts).value;
      assert Matches(own, e.pid, e.ts, true);
    }
  }

  lemma {:induction false} CallKeepsAttribution(t: Tables, ts: Stamp, call: Call, e: EventRow)
    requires SoundTables(t) && InOrder(t, ts, call)
    requires e in t.events && Attributed(t.rows, e)
    ensures var rows := Perform(t, ts, call).rows;
            && Attributed(rows, e)
            && Resolve(rows, e).start ==
               if e.procStart.None? && Find(rows, e.pid, e.ts).Some? then Some(e.ts) else Resolve(t.rows, e).start
  {
    var after := Perform(t, ts, call).rows;
    CallKeepsSound(t, ts, call);
    KeysRemain(t.rows, ts, call, e.pid, Resolve(t.rows, e).start.value);
    if e.procStart.None? {
      forall s ensures EvolvesAt(t.rows, after, e, s) {
        CallEvolves(t, ts, call, e, s);
      }
      ResolutionEvolves(t.rows, after, t.now, ts, e);
    }
  }

  lemma {:induction false} KeysRemain(rows: seq<ProcRow>, ts: Stamp, call: Call, p: int, s: Stamp)
    ensures Find(rows, p, s).Some? ==> Find(RowsAfter(rows, ts, call), p, s).Some?
  {
    match call
    case ForkCall(parent, child) => FindInsert(rows, ProcRow(child, ts, Some(parent), UNKNOWN_INFO, None), p, s);
    case ExecCall(pid, info) =>
      FindSetInfoLive(rows, pid, info, p, s);
      FindInsert(rows, ProcRow(pid, ts, None, info, None), p, s);
    case ExitCall(pid) => FindSetExitLive(rows, pid, ts, p, s);
    case ExistingCall(pid, ppid, info, start) => FindInsert(rows, ProcRow(pid, start, ppid, info, None), p, s);
    case ExitAtCall(pid, start, exit) => FindSetExitAt(rows, pid, start, exit, p, s);
    case EventCall(_, _, _, _) =>
  }

  /** From any sound tables an attributed event stays attributed through every run of
   *  calls, and it moves exactly when it was unbound and an incarnation of its own
   *  second is stored: then to that one.
   */
  lemma {:induction false} AttributionStays(t: Tables, calls: Calls, e: EventRow)
    requires SoundTables(t) && AllInOrder(t, calls)
    requires e in t.events && Attributed(t.rows, e)
    ensures var rows := After(t, calls).rows;
            && e in After(t, calls).events
            && Attributed(rows, e)
            && Resolve(rows, e).start ==
               if e.procStart.None? && Find(rows, e.pid, e.ts).Some? then Some(e.ts) else Resolve(t.rows, e).start
  {
    if calls == [] {
      if e.procStart.None? && Find(t.rows, e.pid, e.ts).Some? {
        var own := Find(t.rows, e.pid, e.ts).value;
        assert Matches(own, e.pid, e.ts, true);
      }
    } else {
      var n := |calls| - 1;
      var before := After(t, calls[..n]);
      AttributionStays(t, calls[..n], e);
      RunKeepsSound(t, calls[..n]);
      CallKeepsAttribution(before, calls[n].0, calls[n].1, e);
      KeysRemain(before.rows, calls[n].0, calls[n].1, e.pid, e.ts);
    }
  }

  /* ---- From the empty tables nothing moves ---- */

  // An event was left unbound only when no incarnation of its pid was stored, so any
  // that is now came later.
  ghost predicate UnboundMeansUnseen(t: Tables) {
    forall e, r :: e in t.events && r in t.rows && Unbound(e, r.pid) ==> e.ts <= r.startTs
  }

  // An event recorded without a process comes before every row of its pid.
  lemma {:induction false} NewUnboundIsEarlier(t: Tables, ts: Stamp, call: Call, e: EventRow, r: ProcRow)
    requires e in Perform(t, ts, call).events && r in Perform(t, ts, call).rows && Unbound(e, r.pid)
    ensures e in t.events || e.ts < r.startTs
  {
    if call.EventCall? && e !in t.events {
      assert Lookup(t.rows, e.pid, ts) == None;
      assert !Matches(r, e.pid, ts, false);
    }
  }

  lemma {:induction false} CallKeepsUnseen(t: Tables, ts: Stamp, call: Call)
    requires SoundTables(t) && InOrder(t, ts, call) && UnboundMeansUnseen(t)
    ensures UnboundMeansUnseen(Perform(t, ts, call))
  {
    var v := Perform(t, ts, call);
    CallKeepsSound(t, ts, call);
    forall e, r | e in v.events && r in v.rows && Unbound(e, r.pid) ensures e.ts <= r.startTs {
      NewUnboundIsEarlier(t, ts, call, e, r);
      if e in t.events {
        CallEvolves(t, ts, call, e, r.startTs);
        MemberIsFound(v.rows, r);
        assert Find(t.rows, e.pid, r.startTs).Some? ==> Find(t.rows, e.pid, r.startTs).value in t.rows;
      }
    }
  }

  lemma {:induction false} RunKeepsUnseen(calls: Calls)
    requires AllInOrder(EMPTY, calls)
    ensures SoundTables(After(EMPTY, calls)) && UnboundMeansUnseen(After(EMPTY, calls))
  {
    EmptyIsSound();
    RunKeepsSound(EMPTY, calls);
    if calls != [] {
      var n := |calls| - 1;
      RunKeepsUnseen(calls[..n]);
      CallKeepsUnseen(After(EMPTY, calls[..n]), calls[n].0, calls[n].1);
    }
  }

  // So an unbound event that resolves has found a process of its own second.
  lemma {:induction false} UnboundIsItsOwn(t: Tables, e: EventRow)
    requires UnboundMeansUnseen(t) && e in t.events && e.procStart.None? && Attributed(t.rows, e)
    ensures Resolve(t.rows, e).start == Some(e.ts)
  {
    var r :| r in t.rows && Matches(r, e.pid, e.ts, true) && r.startTs == Resolve(t.rows, e).start.value;
    assert Unbound(e, r.pid);
  }

  /** Over every run from the empty tables, an event that resolves goes on resolving
   *  to the same incarnation through every later call.
   */
  lemma {:induction false} AttributionNeverMoves(before: Calls, later: Calls, e: EventRow)
    requires AllInOrder(EMPTY, before) && AllInOrder(After(EMPTY, before), later)
    requires e in After(EMPTY, before).events && Attributed(After(EMPTY, before).rows, e)
    ensures var t := After(EMPTY, before);
            var rows := After(t, later).rows;
            Attributed(rows, e) && Resolve(rows, e).start == Resolve(t.rows, e).start
  {
    var t := After(EMPTY, before);
    RunKeepsUnseen(before);
    AttributionStays(t, later, e);
    if e.procStart.None? {
      UnboundIsItsOwn(t, e);
    }
  }

  // Tables no run leads to, as another program might leave them, in which it does move.
  lemma {:induction false} AttributionMoves(e: EventRow, info: ProcInfo)
    requires e.pid == 7 && e.ts == 5 && e.procStart.None?
    ensures var t := Tables([ProcRow(7, 3, None, info, Some(5))], [e], 5);
            && SoundTables(t) && InOrder(t, 5, ForkCall(1, 7))
            && Resolve(t.rows, e).start == Some(3)
            && Resolve(Perform(t, 5, ForkCall(1, 7)).rows, e).start == Some(5)
  {
    var t := Tables([ProcRow(7, 3, None, info, Some(5))], [e], 5);
    assert t.rows[0] in t.rows && Matches(t.rows[0], 7, 5, true);
    assert t.rows[1..] == [];
    CallKeepsAttribution(t, 5, ForkCall(1, 7), e);
    FindInsert(t.rows, ProcRow(7, 5, Some(1), UNKNOWN_INFO, None), 7, 5);
  }
}
