/** The in-memory process tree. */
module ProcTrees {
  import opened Wrappers
  import opened Clock

  datatype ProcInfo = ProcInfo(exe: string, comm: string, cmdline: string, uid: int)

  const NO_INFO := ProcInfo("", "", "", 0)

  datatype ProcNode = ProcNode(
    ppid: Option<int>,
    startTs: Stamp,
    info: ProcInfo,
    exited: Option<Stamp>,
    persisted: bool)

  type Procs = map<int, ProcNode>

  // Longest walk towards the root.
  const MAX_CHAIN: nat := 64

  /* ---- The operations on values ---- */

  function Born(t: Procs, pid: int, ppid: Option<int>, info: ProcInfo, ts: Stamp): Procs {
    t[pid := ProcNode(ppid, ts, info, None, false)]
  }

  function Execed(t: Procs, pid: int, info: ProcInfo, ppidIfNew: Option<int>, ts: Stamp): Procs {
    if pid in t then t[pid := t[pid].(info := info)] else Born(t, pid, ppidIfNew, info, ts)
  }

  function Exited(t: Procs, pid: int, ts: Stamp): Procs {
    if pid in t then t[pid := t[pid].(exited := Some(ts))] else t
  }

  function Marked(t: Procs, pid: int): Procs {
    if pid in t then t[pid := t[pid].(persisted := true)] else t
  }

  predicate Stays(node: ProcNode, cutoff: Stamp) {
    node.exited.None? || node.exited.value >= cutoff
  }

  function Evicted(t: Procs, cutoff: Stamp): Procs {
    map p | p in t && Stays(t[p], cutoff) :: t[p]
  }

  // The walk from a process towards the root over unpersisted entries, leaf first.
  function Climb(t: Procs, pid: int, steps: nat): seq<(int, ProcNode)>
    decreases steps
  {
    if steps == 0 || pid !in t || t[pid].persisted then []
    else
      [(pid, t[pid])] +
      match t[pid].ppid
      case Some(p) => if p != pid then Climb(t, p, steps - 1) else []
      case None => []
  }

  function Reverse<T>(s: seq<T>): (r: seq<T>)
    ensures |r| == |s|
    ensures forall i :: 0 <= i < |s| ==> r[i] == s[|s| - 1 - i]
  {
    if s == [] then [] else Reverse(s[1..]) + [s[0]]
  }

  function UnpersistedChain(t: Procs, pid: int): seq<(int, ProcNode)> {
    Reverse(Climb(t, pid, MAX_CHAIN))
  }

  /* ---- The tree object ---- */

  class ProcTree {
    var procs: Procs

    constructor ()
      ensures procs == map[]
    {
      procs := map[];
    }

    method Seed(pid: int, ppid: Option<int>, info: ProcInfo, startTs: Stamp)
      modifies this
      ensures procs == old(procs)[pid := ProcNode(ppid, startTs, info, None, false)]
    {
      procs := procs[pid := ProcNode(ppid, startTs, info, None, false)];
    }

    method OnFork(parent: int, child: int, ts: Stamp)
      modifies this
      ensures procs == old(procs)[child := ProcNode(Some(parent), ts, ProcInfo("", "", "", 0), None, false)]
    {
      procs := procs[child := ProcNode(Some(parent), ts, NO_INFO, None, false)];
    }

    // A known process keeps everything but its identity.
    method OnExec(pid: int, info: ProcInfo, ppidIfNew: Option<int>, ts: Stamp)
      modifies this
      ensures procs == Execed(old(procs), pid, info, ppidIfNew, ts)
      ensures procs.Keys == old(procs).Keys + {pid}
      ensures forall p :: p in old(procs) && p != pid ==> procs[p] == old(procs)[p]
      ensures pid in old(procs) ==>
                var was := old(procs)[pid];
                procs[pid] == ProcNode(was.ppid, was.startTs, info, was.exited, was.persisted)
      ensures pid !in old(procs) ==> procs[pid] == ProcNode(ppidIfNew, ts, info, None, false)
    {
      if pid in procs {
        procs := procs[pid := procs[pid].(info := info)];
      } else {
        procs := procs[pid := ProcNode(ppidIfNew, ts, info, None, false)];
      }
    }

    // The start time of a persisted entry, so that its exit can be written through.
    method OnExit(pid: int, ts: Stamp) returns (start: Option<Stamp>)
      modifies this
      ensures procs == Exited(old(procs), pid, ts)
      ensures procs.Keys == old(procs).Keys
      ensures forall p :: p in old(procs) && p != pid ==> procs[p] == old(procs)[p]
      ensures pid in old(procs) ==>
                var was := old(procs)[pid];
                procs[pid] == ProcNode(was.ppid, was.startTs, was.info, Some(ts), was.persisted)
      ensures start == if pid in old(procs) && old(procs)[pid].persisted
                       then Some(old(procs)[pid].startTs) else None
    {
      start := None;
      if pid in procs {
        var node := procs[pid].(exited := Some(ts));
        procs := procs[pid := node];
        if node.persisted {
          start := Some(node.startTs);
        }
      }
    }

    method Chain(pid: int) returns (chain: seq<(int, ProcNode)>)
      ensures chain == UnpersistedChain(procs, pid)
    {
      chain := [];
      var cur := pid;
      var i := 0;
      while i < MAX_CHAIN
        invariant 0 <= i <= MAX_CHAIN
        invariant Climb(procs, pid, MAX_CHAIN) == chain + Climb(procs, cur, MAX_CHAIN - i)
      {
        if cur !in procs || procs[cur].persisted {
          break;
        }
        var node := procs[cur];
        ClimbOn(procs, cur, MAX_CHAIN - i, chain);
        chain := chain + [(cur, node)];
        if node.ppid.None? || node.ppid.value == cur {
          return Reverse(chain);
        }
        cur := node.ppid.value;
        i := i + 1;
      }
      ClimbEnds(procs, cur, MAX_CHAIN - i, chain);
      chain := Reverse(chain);
    }

    method MarkPersisted(pid: int)
      modifies this
      ensures procs == Marked(old(procs), pid)
      ensures procs.Keys == old(procs).Keys
      ensures forall p :: p in old(procs) && p != pid ==> procs[p] == old(procs)[p]
      ensures pid in old(procs) ==>
                var was := old(procs)[pid];
                procs[pid] == ProcNode(was.ppid, was.startTs, was.info, was.exited, true)
    {
      if pid in procs {
        procs := procs[pid := procs[pid].(persisted := true)];
      }
    }

    method EvictStale(cutoff: Stamp) returns (removed: nat)
      modifies this
      ensures procs == Evicted(old(procs), cutoff)
      ensures forall p :: p in procs <==>
                p in old(procs) && (old(procs)[p].exited == None || old(procs)[p].exited.value >= cutoff)
      ensures forall p :: p in procs ==> procs[p] == old(procs)[p]
      ensures removed == |old(procs)| - |procs|
    {
      var before := |procs|;
      var kept := map p | p in procs && Stays(procs[p], cutoff) :: procs[p];
      SubmapSize(kept, procs);
      procs := kept;
      removed := before - |procs|;
    }
  }

  lemma {:induction false} ClimbEnds(t: Procs, cur: int, steps: nat, walked: seq<(int, ProcNode)>)
    requires steps == 0 || cur !in t || t[cur].persisted
    ensures walked + Climb(t, cur, steps) == walked
  {
  }

  lemma {:induction false} ClimbOn(t: Procs, cur: int, steps: nat, walked: seq<(int, ProcNode)>)
    requires steps > 0 && cur in t && !t[cur].persisted
    ensures var longer := walked + [(cur, t[cur])];
            walked + Climb(t, cur, steps) ==
            match t[cur].ppid
            case None => longer
            case Some(p) => if p == cur then longer else longer + Climb(t, p, steps - 1)
  {
  }

  lemma {:induction false} SubmapSize(a: Procs, b: Procs)
    requires a.Keys <= b.Keys
    ensures |a| <= |b|
  {
    SubsetSize(a.Keys, b.Keys);
  }

  lemma {:induction false} SubsetSize<T>(a: set<T>, b: set<T>)
    requires a <= b
    ensures |a| <= |b|
  {
    if a != {} {
      var x :| x in a;
      assert |a - {x}| == |a| - 1 && |b - {x}| == |b| - 1;
      SubsetSize(a - {x}, b - {x});
    }
  }

  /* ---- What the walk finds ---- */

  // Why a walk shorter than the limit ended above this entry.
  predicate TopOfWalk(t: Procs, pid: int) {
    pid in t ==> match t[pid].ppid
      case None => true
      case Some(p) => p == pid || p !in t || t[p].persisted
  }

  // Each entry is unpersisted and in the tree, and the next one is its parent.
  ghost predicate Linked(t: Procs, walk: seq<(int, ProcNode)>) {
    && (forall i :: 0 <= i < |walk| ==> walk[i].0 in t && t[walk[i].0] == walk[i].1 && !walk[i].1.persisted)
    && (forall i :: 0 <= i < |walk| - 1 ==>
          walk[i].1.ppid == Some(walk[i + 1].0) && walk[i].0 != walk[i + 1].0)
  }

  lemma {:induction false} ClimbIsLinked(t: Procs, pid: int, steps: nat)
    ensures Linked(t, Climb(t, pid, steps))
    ensures |Climb(t, pid, steps)| <= steps
    ensures Climb(t, pid, steps) != [] ==> Climb(t, pid, steps)[0].0 == pid
    ensures Climb(t, pid, steps) == [] <==> steps == 0 || pid !in t || t[pid].persisted
    ensures 0 < |Climb(t, pid, steps)| < steps ==> TopOfWalk(t, Climb(t, pid, steps)[|Climb(t, pid, steps)| - 1].0)
    decreases steps
  {
    if !(steps == 0 || pid !in t || t[pid].persisted) && t[pid].ppid.Some? && t[pid].ppid.value != pid {
      var p, walk := t[pid].ppid.value, Climb(t, pid, steps);
      ClimbIsLinked(t, p, steps - 1);
      var rest := Climb(t, p, steps - 1);
      assert walk == [(pid, t[pid])] + rest;
      if rest != [] {
        assert walk[|walk| - 1] == rest[|rest| - 1];
      }
    }
  }

  /** The chain is root first, ends at the process, holds only unpersisted
   *  entries and no self-parent's parent, and when shorter than 64 starts below
   *  a persisted, unknown, absent or self parent.
   */
  lemma {:induction false} ChainIsRootFirst(t: Procs, pid: int)
    ensures var chain := UnpersistedChain(t, pid);
            && |chain| <= 64
            && (chain == [] <==> pid !in t || t[pid].persisted)
            && (chain != [] ==> chain[|chain| - 1].0 == pid)
            && (forall i :: 0 <= i < |chain| ==>
                  chain[i].0 in t && t[chain[i].0] == chain[i].1 && !chain[i].1.persisted)
            && (forall i :: 0 < i < |chain| ==>
                  chain[i].1.ppid == Some(chain[i - 1].0) && chain[i].0 != chain[i - 1].0)
            && (0 < |chain| < 64 ==>
                  match chain[0].1.ppid
                  case None => true
                  case Some(p) => p == chain[0].0 || p !in t || t[p].persisted)
  {
    var walk, chain := Climb(t, pid, MAX_CHAIN), UnpersistedChain(t, pid);
    ClimbIsLinked(t, pid, MAX_CHAIN);
    forall i | 0 < i < |chain|
      ensures chain[i].1.ppid == Some(chain[i - 1].0) && chain[i].0 != chain[i - 1].0
    {
      var k := |walk| - 1 - i;
      assert chain[i] == walk[k] && chain[i - 1] == walk[k + 1];
    }
  }
}
