/** A run in which a chain is cut off: sixty-five unpersisted processes in a line. */
module LongChains {
  import opened Wrappers
  import opened ProcTrees
  import opened LazyStore
  import opened AncestorClosed

  // Process 0 is there at startup, and each process forks the next.
  function LineRun(n: nat): Run {
    if n == 0 then [(0, Seed(0, None, NO_INFO))] else LineRun(n - 1) + [(0, Fork(n - 1, n))]
  }

  ghost predicate IsLine(t: Procs, n: nat) {
    && (forall p :: p in t <==> 0 <= p <= n)
    && (forall p :: 0 <= p <= n ==> t[p].ppid == (if p == 0 then None else Some(p - 1)) && !t[p].persisted)
  }

  ghost predicate LineWorld(w: World, n: nat) {
    w.store == [] && w.now == 0 && IsLine(w.tree, n)
  }

  lemma {:induction false} FirstOfLine()
    ensures Enabled(START, 0, Seed(0, None, NO_INFO)) && LineWorld(Next(START, 0, Seed(0, None, NO_INFO)), 0)
  {
  }

  lemma {:induction false} NextOfLine(w: World, n: nat)
    requires n > 0 && LineWorld(w, n - 1)
    ensures Enabled(w, 0, Fork(n - 1, n)) && LineWorld(Next(w, 0, Fork(n - 1, n)), n)
  {
  }

  lemma {:induction false} LineRunMakesLine(n: nat)
    ensures Legal(START, LineRun(n)) && LineWorld(After(START, LineRun(n)), n)
  {
    var run := LineRun(n);
    LineRunLength(n);
    if n == 0 {
      FirstOfLine();
      assert run[..0] == [];
    } else {
      LineRunMakesLine(n - 1);
      LineRunLength(n - 1);
      assert run[..n] == LineRun(n - 1);
      NextOfLine(After(START, LineRun(n - 1)), n);
    }
  }

  lemma {:induction false} LineRunLength(n: nat)
    ensures |LineRun(n)| == n + 1
  {
    if n > 0 {
      LineRunLength(n - 1);
    }
  }

  lemma {:induction false} ClimbLine(t: Procs, n: nat, p: nat, hops: nat)
    requires IsLine(t, n) && hops <= p <= n
    ensures |Climb(t, p, hops)| == hops
    ensures forall i :: 0 <= i < hops ==> Climb(t, p, hops)[i] == (p - i, t[p - i])
    decreases hops
  {
    if hops > 0 {
      ClimbLine(t, n, p - 1, hops - 1);
    }
  }

  lemma {:induction false} LineIsCutOff(t: Procs, n: nat)
    requires IsLine(t, n) && n == MAX_CHAIN
    ensures !Covered(t, UnpersistedChain(t, n))
  {
    var walk, chain := Climb(t, n, MAX_CHAIN), UnpersistedChain(t, n);
    ClimbLine(t, n, n, MAX_CHAIN);
    forall i | 0 <= i < |chain| ensures chain[i].0 != 0 {
      assert chain[i] == walk[|walk| - 1 - i];
    }
    assert chain[0] == walk[|walk| - 1];
  }

  /** With one process more than a chain may hold, a write stores a row whose parent
   *  is known and not stored.
   */
  lemma {:induction false} CutOffBreaksClosure(path: string, op: string)
    ensures var w := After(START, LineRun(MAX_CHAIN));
            var v := Next(w, 0, Write(path, op, MAX_CHAIN, None));
            && Legal(START, LineRun(MAX_CHAIN)) && Enabled(w, 0, Write(path, op, MAX_CHAIN, None))
            && Closed(w.tree, w.store) && !Closed(v.tree, v.store)
  {
    var w := After(START, LineRun(MAX_CHAIN));
    LineRunMakesLine(MAX_CHAIN);
    StartInv();
    RunKeepsInv(START, LineRun(MAX_CHAIN));
    forall p, s ensures ClosedAt(w.tree, w.store, p, s) {
    }
    LineIsCutOff(w.tree, MAX_CHAIN);
    WriteClosesExactlyWhenCovered(w, 0, path, op, MAX_CHAIN, None);
  }
}
