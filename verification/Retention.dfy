/** Pruning preserves what it keeps. */
module Retention {
  import opened Wrappers
  import opened Clock
  import opened Graph
  import opened Queries

  /* ---- Counts ---- */

  /** The dry run announces exactly what the prune removes. */
  lemma {:induction false} PreviewIsExact(rows: seq<ProcRow>, events: seq<EventRow>, cutoff: Stamp)
    ensures CountDoomed(rows, events, cutoff) == |rows| - |KeptRows(rows, events, cutoff)|
    ensures CountOld(events, cutoff) == |events| - |KeptEvents(events, cutoff)|
  {
    KeptRowsCount(rows, events, cutoff);
    KeptEventsCount(events, cutoff);
  }

  /* ---- What a pinned pid keeps ---- */

  ghost predicate Pinned(events: seq<EventRow>, pid: int, cutoff: Stamp) {
    exists e :: e in events && PinsPid(e, pid, cutoff)
  }

  lemma {:induction false} PinnedRowsStay(rows: seq<ProcRow>, events: seq<EventRow>, cutoff: Stamp,
                                          pid: int, ts: Stamp, start: Stamp, windowed: bool)
    requires Pinned(events, pid, cutoff)
    ensures Newest(KeptRows(rows, events, cutoff), pid, ts, windowed) == Newest(rows, pid, ts, windowed)
    ensures Find(KeptRows(rows, events, cutoff), pid, start) == Find(rows, pid, start)
  {
    if rows != [] {
      PinnedRowsStay(rows[1..], events, cutoff, pid, ts, start, windowed);
      var kept := KeptRows(rows, events, cutoff);
      if Doomed(rows[0], events, cutoff) {
        assert rows[0].pid != pid;
        assert kept == KeptRows(rows[1..], events, cutoff);
      } else {
        assert kept[1..] == KeptRows(rows[1..], events, cutoff);
      }
    }
  }

  /* ---- History of a path ---- */

  function Late(rs: seq<Resolved>, cutoff: Stamp): seq<Resolved> {
    if rs == [] then []
    else
      var n := |rs| - 1;
      Late(rs[..n], cutoff) + if rs[n].event.ts >= cutoff then [rs[n]] else []
  }

  function LateLog(log: seq<FileEvent>, cutoff: Stamp): seq<FileEvent> {
    if log == [] then []
    else
      var n := |log| - 1;
      LateLog(log[..n], cutoff) + if log[n].ts >= cutoff then [log[n]] else []
  }

  lemma {:induction false} LateMembers(rs: seq<Resolved>, cutoff: Stamp)
    ensures forall r :: r in Late(rs, cutoff) <==> r in rs && r.event.ts >= cutoff
  {
    if rs != [] {
      var n := |rs| - 1;
      LateMembers(rs[..n], cutoff);
      assert forall r :: r in rs <==> r in rs[..n] || r == rs[n];
    }
  }

  lemma {:induction false} InsertThenLate(sorted: seq<Resolved>, r: Resolved, cutoff: Stamp)
    requires TimeOrdered(sorted)
    ensures Late(InsertByTime(sorted, r), cutoff) ==
            if r.event.ts >= cutoff then InsertByTime(Late(sorted, cutoff), r) else Late(sorted, cutoff)
  {
    if sorted == [] {
      assert [r][..0] == [];
    } else {
      var n := |sorted| - 1;
      var init, last := sorted[..n], sorted[n];
      if Before(last.event, r.event) {
        assert (sorted + [r])[..n + 1] == sorted;
        var late := Late(sorted, cutoff);
        LateMembers(sorted, cutoff);
        if late != [] {
          assert late[|late| - 1] in late;
          assert Before(late[|late| - 1].event, r.event);
        }
      } else {
        InsertThenLate(init, r, cutoff);
        var ins := InsertByTime(init, r);
        assert (ins + [last])[..|ins|] == ins;
        if last.event.ts >= cutoff {
          assert (Late(init, cutoff) + [last])[..|Late(init, cutoff)|] == Late(init, cutoff);
        }
      }
    }
  }

  lemma {:induction false} SortSnoc(rs: seq<Resolved>, r: Resolved)
    ensures SortByTime(rs + [r]) == InsertByTime(SortByTime(rs), r)
  {
    assert (rs + [r])[..|rs|] == rs;
  }

  lemma {:induction false} SortThenLate(rs: seq<Resolved>, cutoff: Stamp)
    ensures Late(SortByTime(rs), cutoff) == SortByTime(Late(rs, cutoff))
  {
    if rs != [] {
      var n := |rs| - 1;
      var late := Late(rs[..n], cutoff);
      SortThenLate(rs[..n], cutoff);
      SortByTimeSorts(rs[..n]);
      InsertThenLate(SortByTime(rs[..n]), rs[n], cutoff);
      if rs[n].event.ts >= cutoff {
        SortSnoc(late, rs[n]);
        assert Late(rs, cutoff) == late + [rs[n]];
      } else {
        assert Late(rs, cutoff) == late;
      }
    }
  }

  // The kept events resolve as before, whether bound or not.
  lemma {:induction false} PathEventsAfterPrune(rows: seq<ProcRow>, all: seq<EventRow>, events: seq<EventRow>,
                                                cutoff: Stamp, path: string)
    requires forall e :: e in events ==> e in all
    ensures PathEvents(KeptRows(rows, all, cutoff), KeptEvents(events, cutoff), path) ==
            Late(PathEvents(rows, events, path), cutoff)
  {
    if events != [] {
      var n := |events| - 1;
      var init, e := events[..n], events[n];
      var kept, found := KeptEvents(init, cutoff), PathEvents(rows, init, path);
      PathEventsAfterPrune(rows, all, init, cutoff, path);
      assert (kept + [e])[..|kept|] == kept;
      var one := Resolve(rows, e);
      assert (found + [one])[..|found|] == found;
      assert kept + [] == kept && found + [] == found;
      if e.ts >= cutoff {
        assert e in all && PinsPid(e, e.pid, cutoff);
        PinnedRowsStay(rows, all, cutoff, e.pid, e.ts, 0, true);
      }
    }
  }

  lemma {:induction false} LateFileEvents(rows: seq<ProcRow>, events: seq<EventRow>, cutoff: Stamp, rs: seq<Resolved>)
    requires forall r :: r in rs ==> r.event in events
    ensures ToFileEvents(KeptRows(rows, events, cutoff), Late(rs, cutoff)) == LateLog(ToFileEvents(rows, rs), cutoff)
  {
    if rs != [] {
      var n := |rs| - 1;
      var late, r := Late(rs[..n], cutoff), rs[n];
      LateFileEvents(rows, events, cutoff, rs[..n]);
      assert (late + [r])[..|late|] == late;
      assert ToFileEvents(rows, rs)[..n] == ToFileEvents(rows, rs[..n]);
      if r.event.ts >= cutoff && r.start.Some? {
        assert r.event in events && PinsPid(r.event, r.event.pid, cutoff);
        PinnedRowsStay(rows, events, cutoff, r.event.pid, 0, r.start.value, true);
      }
    }
  }

  lemma {:induction false} PathEventsAreEvents(rows: seq<ProcRow>, events: seq<EventRow>, path: string)
    ensures forall r :: r in PathEvents(rows, events, path) ==> r.event in events
  {
    if events != [] {
      PathEventsAreEvents(rows, events[..|events| - 1], path);
    }
  }

  /** For every path the history after a prune is the history before it, cut at
   *  the cutoff, with the same writer named for every entry.
   */
  lemma {:induction false} PruneKeepsHistory(rows: seq<ProcRow>, events: seq<EventRow>, cutoff: Stamp, path: string)
    ensures LogFile(KeptRows(rows, events, cutoff), KeptEvents(events, cutoff), path) ==
            LateLog(LogFile(rows, events, path), cutoff)
  {
    var rs := PathEvents(rows, events, path);
    PathEventsAfterPrune(rows, events, events, cutoff, path);
    SortThenLate(rs, cutoff);
    PathEventsAreEvents(rows, events, path);
    SortByTimeSorts(rs);
    forall r | r in SortByTime(rs) ensures r.event in events {
      assert r in multiset(SortByTime(rs));
    }
    LateFileEvents(rows, events, cutoff, SortByTime(rs));
  }

  lemma {:induction false} LateLogEmpty(log: seq<FileEvent>, cutoff: Stamp)
    requires forall e :: e in log ==> e.ts < cutoff
    ensures LateLog(log, cutoff) == []
  {
    if log != [] {
      assert log[|log| - 1] in log;
      LateLogEmpty(log[..|log| - 1], cutoff);
    }
  }

  /** The blamed writer survives exactly when its event does. */
  lemma {:induction false} PruneKeepsBlame(rows: seq<ProcRow>, events: seq<EventRow>, cutoff: Stamp, path: string)
    ensures var before := Blame(rows, events, path);
            Blame(KeptRows(rows, events, cutoff), KeptEvents(events, cutoff), path) ==
            if before.Some? && before.value.ts >= cutoff then before else None
  {
    var log := LogFile(rows, events, path);
    var rs := SortByTime(PathEvents(rows, events, path));
    PruneKeepsHistory(rows, events, cutoff, path);
    SortByTimeSorts(PathEvents(rows, events, path));
    if log != [] && log[|log| - 1].ts < cutoff {
      forall e | e in log ensures e.ts < cutoff {
        var i :| 0 <= i < |log| && log[i] == e;
        assert i < |rs| - 1 ==> Before(rs[i].event, rs[|rs| - 1].event);
      }
      LateLogEmpty(log, cutoff);
    }
  }

  /* ---- Pruning twice ---- */

  lemma {:induction false} KeptEventsMembers(events: seq<EventRow>, cutoff: Stamp)
    ensures forall e :: e in KeptEvents(events, cutoff) <==> e in events && e.ts >= cutoff
  {
    if events != [] {
      var n := |events| - 1;
      KeptEventsMembers(events[..n], cutoff);
      assert forall e :: e in events <==> e in events[..n] || e == events[n];
    }
  }

  lemma {:induction false} KeptEventsTwice(events: seq<EventRow>, a: Stamp, b: Stamp)
    ensures KeptEvents(KeptEvents(events, a), b) == KeptEvents(events, if a <= b then b else a)
  {
    if events != [] {
      var n := |events| - 1;
      var kept := KeptEvents(events[..n], a);
      KeptEventsTwice(events[..n], a, b);
      assert (kept + [events[n]])[..|kept|] == kept && kept + [] == kept;
    }
  }

  lemma {:induction false} DoomedTwice(r: ProcRow, events: seq<EventRow>, a: Stamp, b: Stamp)
    ensures Doomed(r, events, a) || Doomed(r, KeptEvents(events, a), b)
            <==> Doomed(r, events, if a <= b then b else a)
  {
    KeptEventsMembers(events, a);
    if e :| e in events && PinsPid(e, r.pid, if a <= b then b else a) {
      assert e in KeptEvents(events, a) && PinsPid(e, r.pid, a) && PinsPid(e, r.pid, b);
    } else {
      assert forall e :: e in KeptEvents(events, a) ==> e in events && e.ts >= a;
    }
  }

  lemma {:induction false} KeptRowsTwice(rows: seq<ProcRow>, events: seq<EventRow>, a: Stamp, b: Stamp)
    ensures KeptRows(KeptRows(rows, events, a), KeptEvents(events, a), b) ==
            KeptRows(rows, events, if a <= b then b else a)
  {
    if rows != [] {
      KeptRowsTwice(rows[1..], events, a, b);
      DoomedTwice(rows[0], events, a, b);
      if Doomed(rows[0], events, a) {
        assert KeptRows(rows, events, a) == KeptRows(rows[1..], events, a);
      } else {
        assert KeptRows(rows, events, a)[1..] == KeptRows(rows[1..], events, a);
      }
    }
  }

  /** Two prunes, in either order, are one prune at the later cutoff. */
  lemma {:induction false} PruneTwice(rows: seq<ProcRow>, events: seq<EventRow>, a: Stamp, b: Stamp)
    ensures var c := if a <= b then b else a;
            && KeptRows(KeptRows(rows, events, a), KeptEvents(events, a), b) == KeptRows(rows, events, c)
            && KeptEvents(KeptEvents(events, a), b) == KeptEvents(events, c)
            && KeptRows(KeptRows(rows, events, b), KeptEvents(events, b), a) == KeptRows(rows, events, c)
            && KeptEvents(KeptEvents(events, b), a) == KeptEvents(events, c)
  {
    KeptRowsTwice(rows, events, a, b);
    KeptEventsTwice(events, a, b);
    KeptRowsTwice(rows, events, b, a);
    KeptEventsTwice(events, b, a);
  }
}
