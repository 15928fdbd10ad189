/** Coherence of the interleaved cache over whole runs (vfs/photon_cache.hpp:51-132, 182-240). */
module PhotonRuns {
  import opened FlashDevice
  import opened CacheModel
  import opened PhotonSteps

  /** The flat store after the first n steps of a run. */
  ghost function StoreAt(g: Geometry, r: Run, store: Cells, n: nat): Cells
    requires g.Valid() && IsRun(g, r) && n < |r.states| && |store| == g.blockCount
    ensures |StoreAt(g, r, store, n)| == g.blockCount
  {
    if n == 0 then store
    else
      RunSafe(g, r, n - 1);
      StoreAfter(g, r.states[n - 1], r.movers[n - 1], r.steps[n - 1], StoreAt(g, r, store, n - 1))
  }

  /** State n of the run stands for the store at that point. */
  ghost predicate CoherentAt(g: Geometry, r: Run, store: Cells, n: nat)
    requires g.Valid() && IsRun(g, r) && n < |r.states| && |store| == g.blockCount
  {
    RunSafe(g, r, n);
    Coherent(g, r.states[n], StoreAt(g, r, store, n))
  }

  ghost predicate UndisturbedAt(g: Geometry, r: Run, n: nat)
    requires g.Valid() && IsRun(g, r) && n < |r.steps|
  {
    RunSafe(g, r, n);
    Undisturbed(g, r.states[n], r.movers[n], r.steps[n])
  }

  lemma CoherentNext(g: Geometry, r: Run, store: Cells, n: nat)
    requires g.Valid() && IsRun(g, r) && n < |r.steps| && |store| == g.blockCount && CoherentAt(g, r, store, n)
    ensures CoherentAt(g, r, store, n + 1) <==> UndisturbedAt(g, r, n)
  {
    hide Next, Coherent, Undisturbed;
    RunSafe(g, r, n);
    assert Next(g, r.states[n], r.movers[n], r.steps[n], r.states[n + 1]);
    CoherentStep(g, r.states[n], r.movers[n], r.steps[n], r.states[n + 1], StoreAt(g, r, store, n));
  }

  lemma {:induction false} CoherentUpTo(g: Geometry, r: Run, store: Cells, n: nat)
    requires g.Valid() && IsRun(g, r) && n < |r.states| && |store| == g.blockCount && CoherentAt(g, r, store, 0)
    requires forall k | 0 <= k < n :: UndisturbedAt(g, r, k)
    ensures CoherentAt(g, r, store, n)
  {
    hide CoherentAt, UndisturbedAt;
    if n > 0 {
      CoherentUpTo(g, r, store, n - 1);
      CoherentNext(g, r, store, n - 1);
    }
  }

  /** From a coherent start every state of the run is coherent if and only if every step is undisturbed. */
  lemma CoherentRunIff(g: Geometry, r: Run, store: Cells)
    requires g.Valid() && IsRun(g, r) && |store| == g.blockCount && CoherentAt(g, r, store, 0)
    ensures (forall n | 0 <= n < |r.states| :: CoherentAt(g, r, store, n)) <==>
            (forall n | 0 <= n < |r.steps| :: UndisturbedAt(g, r, n))
  {
    hide CoherentAt, UndisturbedAt;
    if forall n | 0 <= n < |r.steps| :: UndisturbedAt(g, r, n) {
      forall n | 0 <= n < |r.states| ensures CoherentAt(g, r, store, n) { CoherentUpTo(g, r, store, n); }
    }
    if forall n | 0 <= n < |r.states| :: CoherentAt(g, r, store, n) {
      forall n | 0 <= n < |r.steps| ensures UndisturbedAt(g, r, n) {
        assert CoherentAt(g, r, store, n) && CoherentAt(g, r, store, n + 1);
        CoherentNext(g, r, store, n);
      }
    }
  }

  // ----- Conditions on the run that leave every step undisturbed

  /** Thread t reads a page in step a and fills its slot with it in step z. */
  ghost predicate FillsFrom(r: Run, a: nat, z: nat)
    requires |r.states| == |r.steps| + 1 == |r.movers| + 1
  {
    && a < z < |r.steps| && r.steps[a].ReadFlash? && r.steps[z].Fill? && r.movers[a] == r.movers[z]
    && (forall n | a < n < z :: r.movers[n] != r.movers[a])
  }

  /** No step between the read and the fill writes the page back or erases its block. */
  ghost predicate QuietWindow(r: Run, a: nat, z: nat)
    requires |r.states| == |r.steps| + 1 == |r.movers| + 1 && FillsFrom(r, a, z)
  {
    var p := PhaseOf(r.states[a], r.movers[a]);
    p.Window? ==>
      forall n {:trigger r.steps[n]} | a < n < z :: !Disturbs(r.states[n], r.movers[n], r.steps[n], p.b, p.o)
  }

  ghost predicate IsErasing(s: State, t: Thread, e: nat) { t in s.threads && s.threads[t] == Erasing(e) }

  /** The flash takes what is flushed, and no page is filled while its block is between its drop and its erase. */
  ghost predicate QuietStep(g: Geometry, s: State, t: Thread, step: Step)
    requires g.Valid() && Shape(g, s)
  {
    && (step.Flush? ==> Undisturbed(g, s, t, step))
    && (step.Fill? && PhaseOf(s, t).Window? ==> forall u :: !IsErasing(s, u, PhaseOf(s, t).b))
  }

  ghost predicate QuietAt(g: Geometry, r: Run, n: nat)
    requires g.Valid() && IsRun(g, r) && n < |r.steps|
  {
    RunSafe(g, r, n);
    QuietStep(g, r.states[n], r.movers[n], r.steps[n])
  }

  /** A run in which threads stay out of each other's windows. */
  ghost predicate Quiet(g: Geometry, r: Run)
    requires g.Valid() && IsRun(g, r)
  {
    && (forall a, z {:trigger FillsFrom(r, a, z)} | 0 <= a && 0 <= z && FillsFrom(r, a, z) :: QuietWindow(r, a, z))
    && (forall n | 0 <= n < |r.steps| :: QuietAt(g, r, n))
  }

  /** No thread is in the middle of anything. */
  ghost predicate AllIdle(s: State) { forall t | t in s.threads :: s.threads[t].Idle? }

  // ----- Every fill has its read

  lemma OnlyReadGets(g: Geometry, s: State, t: Thread, step: Step, s': State)
    requires g.Valid() && Shape(g, s) && Next(g, s, t, step, s') && PhaseOf(s', t).Window? && PhaseOf(s', t).tmp.Got?
    ensures step.ReadFlash?
  {
  }

  lemma {:induction false} ReadBefore(g: Geometry, r: Run, t: Thread, n: nat) returns (a: nat)
    requires g.Valid() && IsRun(g, r) && n < |r.states| && AllIdle(r.states[0])
    requires PhaseOf(r.states[n], t).Window? && PhaseOf(r.states[n], t).tmp.Got?
    ensures a < n && r.steps[a].ReadFlash? && r.movers[a] == t && forall k | a < k < n :: r.movers[k] != t
  {
    hide Next;
    assert n > 0;
    RunSafe(g, r, n - 1);
    assert Next(g, r.states[n - 1], r.movers[n - 1], r.steps[n - 1], r.states[n]);
    if r.movers[n - 1] == t {
      OnlyReadGets(g, r.states[n - 1], t, r.steps[n - 1], r.states[n]);
      a := n - 1;
    } else {
      OthersWait(g, r.states[n - 1], r.movers[n - 1], r.steps[n - 1], r.states[n], t);
      a := ReadBefore(g, r, t, n - 1);
    }
  }

  lemma ReadIsQuiet(g: Geometry, s: State, t: Thread, step: Step, s': State, b: nat, o: nat)
    requires g.Valid() && Shape(g, s) && Next(g, s, t, step, s') && step.ReadFlash?
    ensures PhaseOf(s, t).Window? && !Disturbs(s, t, step, b, o)
  {
  }

  lemma FillUndisturbed(g: Geometry, r: Run, z: nat)
    requires g.Valid() && IsRun(g, r) && z < |r.steps| && AllIdle(r.states[0]) && r.steps[z].Fill?
    requires forall a, x {:trigger FillsFrom(r, a, x)} | 0 <= a && 0 <= x && FillsFrom(r, a, x) :: QuietWindow(r, a, x)
    ensures UndisturbedAt(g, r, z)
  {
    var t, s := r.movers[z], r.states[z];
    RunSafe(g, r, z);
    assert Next(g, s, t, r.steps[z], r.states[z + 1]);
    var a := ReadBefore(g, r, t, z);
    assert FillsFrom(r, a, z);
    hide Next;
    RunSafe(g, r, a);
    assert Next(g, r.states[a], r.movers[a], r.steps[a], r.states[a + 1]);
    var p := PhaseOf(r.states[a], t);
    ReadIsQuiet(g, r.states[a], t, r.steps[a], r.states[a + 1], p.b, p.o);
    WindowCurrent(g, r, a, z, t);
  }

  // ----- Nothing of a block is cached between its drop and its erase

  ghost predicate ErasingOk(s: State, u: Thread, e: nat)
  {
    IsErasing(s, u, e) ==> forall i | 0 <= i < POOL_SIZE && s.pool[i].valid :: s.pool[i].block != e
  }

  lemma ErasingKept(g: Geometry, s: State, t: Thread, step: Step, s': State, u: Thread, e: nat)
    requires g.Valid() && Safe(g, s) && Next(g, s, t, step, s') && QuietStep(g, s, t, step) && ErasingOk(s, u, e)
    ensures ErasingOk(s', u, e)
  {
    if IsErasing(s', u, e) && !(step.DropBlock? && u == t) {
      if u != t { OthersWait(g, s, t, step, s', u); }
      forall i | 0 <= i < POOL_SIZE && s'.pool[i].valid ensures s'.pool[i].block != e {
        if !(step.Fill? && i == PhaseOf(s, t).v) {
          HolderBefore(g, s, t, step, s', i, s'.pool[i].block, s'.pool[i].offset);
        } else {
          FilledAlone(g, s, t, step, s');
          assert !IsErasing(s, u, PhaseOf(s, t).b);
        }
      }
    }
  }

  lemma {:induction false} ErasingAt(g: Geometry, r: Run, n: nat, u: Thread, e: nat)
    requires g.Valid() && IsRun(g, r) && n < |r.states| && AllIdle(r.states[0])
    requires forall k | 0 <= k < |r.steps| :: QuietAt(g, r, k)
    ensures ErasingOk(r.states[n], u, e)
  {
    hide Next, QuietStep;
    if n > 0 {
      ErasingAt(g, r, n - 1, u, e);
      RunSafe(g, r, n - 1);
      assert QuietAt(g, r, n - 1);
      assert Next(g, r.states[n - 1], r.movers[n - 1], r.steps[n - 1], r.states[n]);
      ErasingKept(g, r.states[n - 1], r.movers[n - 1], r.steps[n - 1], r.states[n], u, e);
    }
  }

  lemma QuietUndisturbed(g: Geometry, r: Run, n: nat)
    requires g.Valid() && IsRun(g, r) && n < |r.steps| && AllIdle(r.states[0]) && Quiet(g, r)
    ensures UndisturbedAt(g, r, n)
  {
    RunSafe(g, r, n);
    var s, t := r.states[n], r.movers[n];
    assert QuietAt(g, r, n);
    if r.steps[n].Fill? {
      FillUndisturbed(g, r, n);
    } else if r.steps[n].EraseFlash? && PhaseOf(s, t).Erasing? {
      ErasingAt(g, r, n, t, PhaseOf(s, t).e);
    }
  }

  /** A quiet run, of any number of threads, from a coherent start with no window open: every state stands for the
      store that the writes, drops and erases so far make. */
  lemma CoherentRun(g: Geometry, r: Run, store: Cells, n: nat)
    requires g.Valid() && IsRun(g, r) && n < |r.states| && |store| == g.blockCount
    requires CoherentAt(g, r, store, 0) && AllIdle(r.states[0]) && Quiet(g, r)
    ensures CoherentAt(g, r, store, n)
  {
    hide CoherentAt, UndisturbedAt, Quiet;
    forall k | 0 <= k < n ensures UndisturbedAt(g, r, k) { QuietUndisturbed(g, r, k); }
    CoherentUpTo(g, r, store, n);
  }
}
