/** The page cache under interleaving: any number of threads, with the lock released while a page is read
    (vfs/photon_cache.hpp:85-131) and the flash erased outside the lock (vfs/photon_cache.hpp:211-223).
    One step is what a thread does between two points at which another thread may run, or less: writing a victim back
    is a step of its own, as each write of a sync is. */
module PhotonSteps {
  import opened FlashDevice
  import opened CacheModel

  type Thread = nat

  datatype Buffer = Unread | Got(data: seq<byte8>)

  datatype Phase =
    | Idle
    | Window(b: nat, o: nat, v: nat, tmp: Buffer)
    | Erasing(e: nat)

  datatype State = State(pool: Pool, cells: Cells, threads: map<Thread, Phase>, tick: nat)

  /** What a thread does to a slot it has obtained, still holding the lock. */
  datatype Access = ReadIt | WriteIt(at: nat, d: seq<byte8>)

  datatype Step =
    | Hit(i: nat, access: Access)
    | Reserve(b: nat, o: nat, v: nat)
    | Flush(i: nat)
    | ReadFlash(garbage: seq<byte8>)
    | FoundElsewhere(i: nat, access: Access)
    | Retry
    | Fill(access: Access)
    | DropBlock(b: nat)
    | EraseFlash(ok: bool)

  function Apply(g: Geometry, s: Slot, a: Access, tick: nat): Slot
    requires a.WriteIt? ==> a.at + |a.d| <= |s.data|
  {
    match a
    case ReadIt => s.(tick := tick)
    case WriteIt(at, d) => s.(tick := tick, data := Patched(s.data, at, d), dirty := true)
  }

  /** A slot taken for page (b, o), which it does not hold yet. */
  function Reserved(s: Slot, b: nat, o: nat): Slot
  {
    s.(valid := false, dirty := false, reserved := true, block := b, offset := o)
  }

  predicate Fits(g: Geometry, a: Access) { a.WriteIt? ==> a.at + |a.d| <= g.pageSize }

  function PhaseOf(s: State, t: Thread): Phase { if t in s.threads then s.threads[t] else Idle }

  /** No slot but v holds page (b, o): the second look after the lock is taken again. */
  predicate NotElsewhere(pool: Pool, v: nat, b: nat, o: nat)
  {
    forall i | 0 <= i < POOL_SIZE && i != v :: !pool[i].Holds(b, o)
  }

  /** Thread t takes the step from s to s'. */
  ghost predicate Next(g: Geometry, s: State, t: Thread, step: Step, s': State)
    requires g.Valid() && Shape(g, s)
  {
    match step
    case Hit(i, a) =>
      && PhaseOf(s, t).Idle? && i < POOL_SIZE && s.pool[i].valid && Fits(g, a)
      && s' == s.(pool := s.pool[i := Apply(g, s.pool[i], a, After(s.tick))], tick := After(s.tick))
    case Reserve(b, o, v) =>
      // A miss whose victim has nothing left to write back; a dirty victim is flushed by a step before.
      && PhaseOf(s, t).Idle? && v < POOL_SIZE && Aligned(g, o)
      && Find(s.pool, b, o) == POOL_SIZE && v == Victim(s.pool) && !s.pool[v].dirty
      && s' == s.(pool := s.pool[v := Reserved(s.pool[v], b, o)], threads := s.threads[t := Window(b, o, v, Unread)])
    case Flush(i) =>
      && PhaseOf(s, t).Idle? && i < POOL_SIZE && s.pool[i].valid && s.pool[i].dirty
      && g.HasPage(s.pool[i].block, s.pool[i].offset)
      && s' == s.(pool := s.pool[i := s.pool[i].(dirty := false)], cells := Flushed(g, s.pool[i], s.cells))
    case ReadFlash(garbage) =>
      var p := PhaseOf(s, t);
      && p.Window? && p.tmp.Unread? && |garbage| == g.pageSize
      && var page := if g.HasPage(p.b, p.o) then PageOf(g, s.cells, p.b, p.o) else garbage;
         s' == s.(threads := s.threads[t := p.(tmp := Got(page))])
    case FoundElsewhere(i, a) =>
      var p := PhaseOf(s, t);
      && p.Window? && p.tmp.Got? && i < POOL_SIZE && i != p.v && s.pool[i].Holds(p.b, p.o) && Fits(g, a)
      && s' == s.(pool := s.pool[p.v := s.pool[p.v].(reserved := false)][i := Apply(g, s.pool[i], a, After(s.tick))],
                  threads := s.threads[t := Idle], tick := After(s.tick))
    case Retry =>
      var p := PhaseOf(s, t);
      && p.Window? && p.tmp.Got? && NotElsewhere(s.pool, p.v, p.b, p.o) && !s.pool[p.v].reserved
      && s' == s.(threads := s.threads[t := Idle])
    case Fill(a) =>
      var p := PhaseOf(s, t);
      && p.Window? && p.tmp.Got? && NotElsewhere(s.pool, p.v, p.b, p.o) && s.pool[p.v].reserved && Fits(g, a)
      && var slot := Slot(p.b, p.o, p.tmp.data, true, s.pool[p.v].dirty, false, After(s.tick));
         s' == s.(pool := s.pool[p.v := Apply(g, slot, a, After(s.tick))], threads := s.threads[t := Idle],
                  tick := After(s.tick))
    case DropBlock(b) =>
      && PhaseOf(s, t).Idle?
      && s' == s.(pool := Dropped(s.pool, b), threads := s.threads[t := Erasing(b)])
    case EraseFlash(ok) =>
      var p := PhaseOf(s, t);
      && p.Erasing? && (ok ==> p.e < g.blockCount)
      && s' == s.(cells := if ok then s.cells[p.e := seq(g.blockSize, _ => ERASED)] else s.cells,
                  threads := s.threads[t := Idle])
  }

  // ----- What every interleaving keeps

  ghost predicate PhaseShape(g: Geometry, p: Phase)
    requires g.Valid()
  {
    p.Window? ==> p.v < POOL_SIZE && Aligned(g, p.o) && (p.tmp.Got? ==> |p.tmp.data| == g.pageSize)
  }

  ghost predicate Shape(g: Geometry, s: State)
    requires g.Valid()
  {
    && Shaped(g, s.cells)
    && (forall i | 0 <= i < POOL_SIZE ::
          |s.pool[i].data| == g.pageSize && (s.pool[i].valid ==> Aligned(g, s.pool[i].offset)))
    && (forall t | t in s.threads :: PhaseShape(g, s.threads[t]))
  }

  /** No slot is both valid and reserved, dirty slots are valid, and no page is held twice. */
  ghost predicate Safe(g: Geometry, s: State)
    requires g.Valid()
  {
    && Shape(g, s) && Unique(s.pool)
    && (forall i | 0 <= i < POOL_SIZE ::
          !(s.pool[i].valid && s.pool[i].reserved) && (s.pool[i].dirty ==> s.pool[i].valid))
  }

  lemma StepShape(g: Geometry, s: State, t: Thread, step: Step, s': State)
    requires g.Valid() && Shape(g, s) && Next(g, s, t, step, s')
    ensures Shape(g, s')
  {
    forall u | u in s'.threads ensures PhaseShape(g, s'.threads[u]) {
      if u != t { assert s'.threads[u] == s.threads[u]; }
    }
  }

  /** Every step of every thread keeps the cache safe. */
  lemma StepFlags(g: Geometry, s: State, t: Thread, step: Step, s': State, i: nat)
    requires g.Valid() && Safe(g, s) && Next(g, s, t, step, s') && i < POOL_SIZE
    ensures !(s'.pool[i].valid && s'.pool[i].reserved) && (s'.pool[i].dirty ==> s'.pool[i].valid)
  {
  }

  lemma StepSafe(g: Geometry, s: State, t: Thread, step: Step, s': State)
    requires g.Valid() && Safe(g, s) && Next(g, s, t, step, s')
    ensures Safe(g, s')
  {
    hide Next, Shape;
    StepShape(g, s, t, step, s');
    forall i | 0 <= i < POOL_SIZE
      ensures !(s'.pool[i].valid && s'.pool[i].reserved) && (s'.pool[i].dirty ==> s'.pool[i].valid)
    {
      StepFlags(g, s, t, step, s', i);
    }
    forall i, j | 0 <= i < POOL_SIZE && 0 <= j < POOL_SIZE && i != j && s'.pool[i].valid
      ensures !s'.pool[j].Holds(s'.pool[i].block, s'.pool[i].offset)
    {
      UniqueStep(g, s, t, step, s', i, j);
    }
  }

  /** Only a fill makes a slot hold a page it did not hold. */
  lemma HolderBefore(g: Geometry, s: State, t: Thread, step: Step, s': State, k: nat, b: nat, o: nat)
    requires g.Valid() && Shape(g, s) && Next(g, s, t, step, s') && k < POOL_SIZE && s'.pool[k].Holds(b, o)
    requires !(step.Fill? && k == PhaseOf(s, t).v)
    ensures s.pool[k].Holds(b, o)
  {
  }

  lemma UniqueStep(g: Geometry, s: State, t: Thread, step: Step, s': State, i: nat, j: nat)
    requires g.Valid() && Safe(g, s) && Next(g, s, t, step, s')
    requires i < POOL_SIZE && j < POOL_SIZE && i != j && s'.pool[i].valid
    ensures !s'.pool[j].Holds(s'.pool[i].block, s'.pool[i].offset)
  {
    var b, o := s'.pool[i].block, s'.pool[i].offset;
    if s'.pool[j].Holds(b, o) {
      var filled := if step.Fill? then PhaseOf(s, t).v else POOL_SIZE;
      if i != filled { HolderBefore(g, s, t, step, s', i, b, o); }
      if j != filled { HolderBefore(g, s, t, step, s', j, b, o); }
      if filled < POOL_SIZE { FilledAlone(g, s, t, step, s'); }
    }
  }

  lemma FilledAlone(g: Geometry, s: State, t: Thread, step: Step, s': State)
    requires g.Valid() && Shape(g, s) && Next(g, s, t, step, s') && step.Fill?
    ensures var p := PhaseOf(s, t);
            p.Window? && p.v < POOL_SIZE && s'.pool[p.v].Holds(p.b, p.o) && NotElsewhere(s.pool, p.v, p.b, p.o)
  {
  }

  // ----- Dirty data is not lost

  /** What may become of the dirty slot i: it stays dirty, its bytes reach the flash, or its block is erased. */
  ghost predicate Accounted(g: Geometry, s: State, step: Step, s': State, i: nat)
    requires g.Valid() && Shape(g, s) && i < POOL_SIZE
  {
    var d := s.pool[i];
    || (s'.pool[i].dirty && s'.pool[i].Holds(d.block, d.offset))
    || (step == Flush(i) && g.HasPage(d.block, d.offset) && s'.cells == Flushed(g, d, s.cells)
        && s'.pool[i] == d.(dirty := false))
    || step == DropBlock(d.block)
  }

  /** A dirty page leaves the pool only by a flush of its bytes or an erase of its block. */
  lemma DirtyAccounted(g: Geometry, s: State, t: Thread, step: Step, s': State, i: nat)
    requires g.Valid() && Safe(g, s) && Next(g, s, t, step, s') && i < POOL_SIZE && s.pool[i].dirty
    ensures Accounted(g, s, step, s', i)
  {
  }

  // ----- Runs

  datatype Run = Run(states: seq<State>, movers: seq<Thread>, steps: seq<Step>)

  ghost predicate IsRun(g: Geometry, r: Run)
    requires g.Valid()
  {
    && |r.states| == |r.steps| + 1 == |r.movers| + 1 && Safe(g, r.states[0])
    && forall i {:trigger r.steps[i]} | 0 <= i < |r.steps| ::
         Shape(g, r.states[i]) ==> Next(g, r.states[i], r.movers[i], r.steps[i], r.states[i + 1])
  }

  lemma {:induction false} RunSafe(g: Geometry, r: Run, n: nat)
    requires g.Valid() && IsRun(g, r) && n < |r.states|
    ensures Safe(g, r.states[n])
  {
    hide Next;
    if n > 0 {
      RunSafe(g, r, n - 1);
      assert Next(g, r.states[n - 1], r.movers[n - 1], r.steps[n - 1], r.states[n]);
      StepSafe(g, r.states[n - 1], r.movers[n - 1], r.steps[n - 1], r.states[n]);
    }
  }

  /** Along a run, page (b, o) is dirty in slot i from state a on until it is flushed or its block erased. */
  lemma {:induction false} DirtyUntil(g: Geometry, r: Run, i: nat, a: nat, z: nat)
    requires g.Valid() && IsRun(g, r) && a <= z < |r.states| && i < POOL_SIZE && r.states[a].pool[i].dirty
    requires forall n | a <= n < z :: r.steps[n] != Flush(i) && r.steps[n] != DropBlock(r.states[a].pool[i].block)
    ensures r.states[z].pool[i].dirty
    ensures r.states[z].pool[i].Holds(r.states[a].pool[i].block, r.states[a].pool[i].offset)
    decreases z
  {
    hide Next;
    if a == z {
      RunSafe(g, r, a);
    } else {
      DirtyUntil(g, r, i, a, z - 1);
      RunSafe(g, r, z - 1);
      assert r.steps[z - 1] != Flush(i);
      assert Next(g, r.states[z - 1], r.movers[z - 1], r.steps[z - 1], r.states[z]);
      DirtyAccounted(g, r.states[z - 1], r.movers[z - 1], r.steps[z - 1], r.states[z], i);
    }
  }

  // ----- Coherence, and exactly what breaks it

  /** The content of page (b, o) as the next access sees it. */
  ghost function ViewOf(g: Geometry, s: State, b: nat, o: nat): (p: seq<byte8>)
    requires g.Valid() && Shape(g, s) && g.HasPage(b, o)
    ensures |p| == g.pageSize
  {
    var i := Find(s.pool, b, o);
    if i < POOL_SIZE then s.pool[i].data else PageOf(g, s.cells, b, o)
  }

  ghost predicate PageCoherent(g: Geometry, s: State, store: Cells, b: nat, o: nat)
    requires g.Valid() && Shape(g, s) && Shaped(g, store)
  {
    g.HasPage(b, o) && Aligned(g, o) ==> ViewOf(g, s, b, o) == PageOf(g, store, b, o)
  }

  /** Cache and flash stand for the store, and clean slots agree with the flash. */
  ghost predicate Coherent(g: Geometry, s: State, store: Cells)
    requires g.Valid() && Shape(g, s)
  {
    && Shaped(g, store)
    && (forall i {:trigger CleanOk(g, s.pool[i], s.cells, {})} | 0 <= i < POOL_SIZE ::
         CleanOk(g, s.pool[i], s.cells, {}))
    && (forall b: nat, o: nat {:trigger PageCoherent(g, s, store, b, o)} :: PageCoherent(g, s, store, b, o))
  }

  function AccessStore(store: Cells, b: nat, o: nat, a: Access): Cells
  {
    if a.WriteIt? then Overlay(store, b, o + a.at, a.d) else store
  }

  /** The flat store after a step: writes apply, a dropped block falls back to its flash, an erased one is blank. */
  ghost function StoreAfter(g: Geometry, s: State, t: Thread, step: Step, store: Cells): Cells
    requires g.Valid() && Shape(g, s) && |store| == |s.cells|
  {
    match step
    case Hit(i, a) => if i < POOL_SIZE then AccessStore(store, s.pool[i].block, s.pool[i].offset, a) else store
    case FoundElsewhere(i, a) =>
      if i < POOL_SIZE then AccessStore(store, s.pool[i].block, s.pool[i].offset, a) else store
    case Fill(a) => var p := PhaseOf(s, t); if p.Window? then AccessStore(store, p.b, p.o, a) else store
    case DropBlock(b) => if b < |store| then store[b := s.cells[b]] else store
    case EraseFlash(ok) =>
      var p := PhaseOf(s, t);
      if p.Erasing? && ok && p.e < |store| then store[p.e := seq(g.blockSize, _ => ERASED)] else store
    case _ => store
  }

  /** Nobody changed the page between the read and the fill (outside the bytes now written), the flash takes what is
      flushed, and no page of a block was loaded between its drop and its erase. */
  ghost predicate Undisturbed(g: Geometry, s: State, t: Thread, step: Step)
    requires g.Valid() && Shape(g, s)
  {
    match step
    case Flush(i) =>
      i < POOL_SIZE && g.HasPage(s.pool[i].block, s.pool[i].offset) ==>
        Programmable(PageOf(g, s.cells, s.pool[i].block, s.pool[i].offset), s.pool[i].data)
    case Fill(a) =>
      var p := PhaseOf(s, t);
      p.Window? && p.tmp.Got? && g.HasPage(p.b, p.o) && Fits(g, a) ==>
        Written(p.tmp.data, a) == Written(PageOf(g, s.cells, p.b, p.o), a)
    case EraseFlash(ok) =>
      var p := PhaseOf(s, t);
      ok && p.Erasing? ==> BlankIn(g, s, p.e)
    case _ => true
  }

  function Written(page: seq<byte8>, a: Access): seq<byte8>
    requires a.WriteIt? ==> a.at + |a.d| <= |page|
  {
    if a.WriteIt? then Patched(page, a.at, a.d) else page
  }

  ghost predicate Blank(data: seq<byte8>) { forall k | 0 <= k < |data| :: data[k] == ERASED }

  lemma AccessReads(g: Geometry, store: Cells, b: nat, o: nat, a: Access, b': nat, o': nat)
    requires g.Valid() && Shaped(g, store) && Fits(g, a) && Aligned(g, o)
    ensures Shaped(g, AccessStore(store, b, o, a))
    ensures g.HasPage(b', o') && Aligned(g, o') ==>
              PageOf(g, AccessStore(store, b, o, a), b', o') ==
              if b' == b && o' == o then Written(PageOf(g, store, b', o'), a) else PageOf(g, store, b', o')
  {
    hide Aligned, Overlay, Patched, PageOf;
    if a.WriteIt? { OverlayReads(g, store, b, o, a.at, a.d, b', o'); }
  }

  /** An access to a slot that already holds the page. */
  lemma AccessCoherent(g: Geometry, s: State, s': State, store: Cells, i: nat, a: Access, tick: nat)
    requires g.Valid() && Safe(g, s) && Safe(g, s') && Coherent(g, s, store) && s'.cells == s.cells
    requires i < POOL_SIZE && s.pool[i].valid && Fits(g, a) && s'.pool[i] == Apply(g, s.pool[i], a, tick)
    requires forall j | 0 <= j < POOL_SIZE && j != i :: s'.pool[j] == s.pool[j].(reserved := s'.pool[j].reserved)
    ensures Coherent(g, s', AccessStore(store, s.pool[i].block, s.pool[i].offset, a))
  {
    var d := s.pool[i];
    AccessReads(g, store, d.block, d.offset, a, 0, 0);
    var store' := AccessStore(store, d.block, d.offset, a);
    forall j | 0 <= j < POOL_SIZE
      ensures CleanOk(g, s'.pool[j], s'.cells, {})
    {
      assert CleanOk(g, s.pool[j], s.cells, {});
    }
    forall b: nat, o: nat ensures PageCoherent(g, s', store', b, o) {
      assert PageCoherent(g, s, store, b, o);
      FindSame(s.pool, s'.pool, b, o);
      FindHolder(s.pool, i);
      AccessReads(g, store, d.block, d.offset, a, b, o);
    }
  }

  /** Steps that change neither valid slots nor the flash. */
  lemma QuietCoherent(g: Geometry, s: State, s': State, store: Cells)
    requires g.Valid() && Safe(g, s) && Safe(g, s') && Coherent(g, s, store) && s'.cells == s.cells
    requires forall j | 0 <= j < POOL_SIZE ::
               (s'.pool[j].valid ==> s'.pool[j] == s.pool[j]) &&
               (s.pool[j].valid ==> s'.pool[j] == s.pool[j] || CleanDrop(s.pool[j], s'.pool[j]))
    ensures Coherent(g, s', store)
  {
    forall j | 0 <= j < POOL_SIZE
      ensures CleanOk(g, s'.pool[j], s'.cells, {})
    {
      assert CleanOk(g, s.pool[j], s.cells, {});
    }
    forall b: nat, o: nat ensures PageCoherent(g, s', store, b, o) {
      assert PageCoherent(g, s, store, b, o);
      var i, i' := Find(s.pool, b, o), Find(s'.pool, b, o);
      if i' < POOL_SIZE {
        FindHolder(s'.pool, i');
        FindHolder(s.pool, i');
      } else if i < POOL_SIZE {
        FindHolder(s.pool, i);
        assert CleanOk(g, s.pool[i], s.cells, {});
      }
    }
  }

  predicate CleanDrop(d: Slot, d': Slot) { !d.dirty && !d'.valid }

  lemma FlushCoherent(g: Geometry, s: State, s': State, store: Cells, i: nat)
    requires g.Valid() && Safe(g, s) && Safe(g, s') && Coherent(g, s, store) && i < POOL_SIZE && s.pool[i].dirty
    requires g.HasPage(s.pool[i].block, s.pool[i].offset)
    requires s'.pool == s.pool[i := s.pool[i].(dirty := false)] && s'.cells == Flushed(g, s.pool[i], s.cells)
    ensures Coherent(g, s', store) <==>
              Programmable(PageOf(g, s.cells, s.pool[i].block, s.pool[i].offset), s.pool[i].data)
  {
    var d := s.pool[i];
    ProgramExact(PageOf(g, s.cells, d.block, d.offset), d.data);
    FlushReads(g, d, s.cells, d.block, d.offset);
    if Programmable(PageOf(g, s.cells, d.block, d.offset), d.data) {
      forall j | 0 <= j < POOL_SIZE ensures CleanOk(g, s'.pool[j], s'.cells, {}) {
        assert CleanOk(g, s.pool[j], s.cells, {});
        FlushReads(g, d, s.cells, s.pool[j].block, s.pool[j].offset);
      }
      forall b: nat, o: nat ensures PageCoherent(g, s', store, b, o) {
        assert PageCoherent(g, s, store, b, o);
        FindSame(s.pool, s'.pool, b, o);
        FindHolder(s.pool, i);
        FlushReads(g, d, s.cells, b, o);
      }
    } else {
      assert !CleanOk(g, s'.pool[i], s'.cells, {});
    }
  }

  lemma FillCoherent(g: Geometry, s: State, s': State, store: Cells, v: nat, b: nat, o: nat, data: seq<byte8>,
                     a: Access)
    requires g.Valid() && Safe(g, s) && Safe(g, s') && Coherent(g, s, store) && s'.cells == s.cells
    requires v < POOL_SIZE && s.pool[v].reserved && NotElsewhere(s.pool, v, b, o) && Fits(g, a)
    requires Aligned(g, o) && |data| == g.pageSize && s'.pool == s.pool[v := s'.pool[v]]
    requires s'.pool[v].Holds(b, o) && s'.pool[v].data == Written(data, a) && s'.pool[v].dirty == a.WriteIt?
    ensures Coherent(g, s', AccessStore(store, b, o, a)) <==>
            (g.HasPage(b, o) ==> Written(data, a) == Written(PageOf(g, s.cells, b, o), a))
  {
    hide Aligned, Patched, AccessStore, Find;
    AccessReads(g, store, b, o, a, b, o);
    var store' := AccessStore(store, b, o, a);
    assert PageCoherent(g, s, store, b, o);
    assert Find(s.pool, b, o) == POOL_SIZE;
    FindHolder(s'.pool, v);
    if g.HasPage(b, o) ==> Written(data, a) == Written(PageOf(g, s.cells, b, o), a) {
      forall j | 0 <= j < POOL_SIZE
        ensures CleanOk(g, s'.pool[j], s'.cells, {})
      {
        assert CleanOk(g, s.pool[j], s.cells, {});
      }
      forall b': nat, o': nat ensures PageCoherent(g, s', store', b', o') {
        assert PageCoherent(g, s, store, b', o');
        AccessReads(g, store, b, o, a, b', o');
        if (b', o') != (b, o) { FindSame(s.pool, s'.pool, b', o'); }
      }
    } else {
      assert !PageCoherent(g, s', store', b, o);
    }
  }

  lemma DropCoherent(g: Geometry, s: State, s': State, store: Cells, b: nat)
    requires g.Valid() && Safe(g, s) && Safe(g, s') && Coherent(g, s, store) && s'.cells == s.cells
    requires s'.pool == Dropped(s.pool, b)
    ensures Coherent(g, s', if b < |store| then store[b := s.cells[b]] else store)
  {
    var store' := if b < |store| then store[b := s.cells[b]] else store;
    forall j | 0 <= j < POOL_SIZE
      ensures CleanOk(g, s'.pool[j], s'.cells, {})
    {
      assert CleanOk(g, s.pool[j], s.cells, {});
    }
    forall k: nat, o: nat ensures PageCoherent(g, s', store', k, o) {
      if k == b {
        assert forall j | 0 <= j < POOL_SIZE :: !s'.pool[j].Holds(k, o);
      } else {
        assert PageCoherent(g, s, store, k, o);
        FindSame(s.pool, s'.pool, k, o);
      }
    }
  }

  ghost predicate BlankIn(g: Geometry, s: State, e: nat)
  {
    forall i | 0 <= i < POOL_SIZE && s.pool[i].valid && s.pool[i].block == e && g.HasPage(e, s.pool[i].offset) ::
      Blank(s.pool[i].data)
  }

  lemma ErasedPage(g: Geometry, cells: Cells, e: nat, b: nat, o: nat, data: seq<byte8>)
    requires g.Valid() && Shaped(g, cells) && e < g.blockCount && g.HasPage(b, o) && |data| == g.pageSize
    ensures Shaped(g, cells[e := seq(g.blockSize, _ => ERASED)])
    ensures b == e ==> (PageOf(g, cells[e := seq(g.blockSize, _ => ERASED)], b, o) == data <==> Blank(data))
    ensures b != e ==> PageOf(g, cells[e := seq(g.blockSize, _ => ERASED)], b, o) == PageOf(g, cells, b, o)
  {
    if b == e {
      var p := PageOf(g, cells[e := seq(g.blockSize, _ => ERASED)], b, o);
      assert forall k | 0 <= k < |p| :: p[k] == ERASED;
    }
  }

  lemma EraseBlank(g: Geometry, s: State, s': State, store: Cells, e: nat)
    requires g.Valid() && Safe(g, s) && Safe(g, s') && Coherent(g, s, store) && s'.pool == s.pool && e < g.blockCount
    requires s'.cells == s.cells[e := seq(g.blockSize, _ => ERASED)] && BlankIn(g, s, e)
    ensures Coherent(g, s', store[e := seq(g.blockSize, _ => ERASED)])
  {
    var store' := store[e := seq(g.blockSize, _ => ERASED)];
    forall j | 0 <= j < POOL_SIZE ensures CleanOk(g, s'.pool[j], s'.cells, {}) {
      assert CleanOk(g, s.pool[j], s.cells, {});
      var d := s.pool[j];
      if g.HasPage(d.block, d.offset) { ErasedPage(g, s.cells, e, d.block, d.offset, d.data); }
    }
    forall b: nat, o: nat ensures PageCoherent(g, s', store', b, o) {
      assert PageCoherent(g, s, store, b, o);
      if g.HasPage(b, o) {
        var view := ViewOf(g, s', b, o);
        ErasedPage(g, s.cells, e, b, o, view);
        ErasedPage(g, store, e, b, o, view);
      }
    }
  }

  lemma EraseCoherent(g: Geometry, s: State, s': State, store: Cells, e: nat)
    requires g.Valid() && Safe(g, s) && Safe(g, s') && Coherent(g, s, store) && s'.pool == s.pool && e < g.blockCount
    requires s'.cells == s.cells[e := seq(g.blockSize, _ => ERASED)]
    ensures Coherent(g, s', store[e := seq(g.blockSize, _ => ERASED)]) <==> BlankIn(g, s, e)
  {
    var store' := store[e := seq(g.blockSize, _ => ERASED)];
    if BlankIn(g, s, e) {
      EraseBlank(g, s, s', store, e);
    } else {
      var i :| 0 <= i < POOL_SIZE && s.pool[i].valid && s.pool[i].block == e && g.HasPage(e, s.pool[i].offset)
               && !Blank(s.pool[i].data);
      FindHolder(s.pool, i);
      ErasedPage(g, store, e, e, s.pool[i].offset, s.pool[i].data);
      assert Coherent(g, s', store') ==> PageCoherent(g, s', store', e, s.pool[i].offset);
    }
  }

  lemma CoherentShape(g: Geometry, s: State, store: Cells)
    requires g.Valid() && Shape(g, s) && Coherent(g, s, store)
    ensures Shaped(g, store)
  {
  }

  lemma AccessStep(g: Geometry, s: State, t: Thread, step: Step, s': State, store: Cells)
    requires g.Valid() && Safe(g, s) && Safe(g, s') && Coherent(g, s, store) && Next(g, s, t, step, s')
    requires step.Hit? || step.FoundElsewhere?
    ensures Coherent(g, s', StoreAfter(g, s, t, step, store)) && Undisturbed(g, s, t, step)
  {
    hide Coherent;
    AccessCoherent(g, s, s', store, step.i, step.access, After(s.tick));
  }

  lemma QuietSteps(g: Geometry, s: State, t: Thread, step: Step, s': State, store: Cells)
    requires g.Valid() && Safe(g, s) && Safe(g, s') && Coherent(g, s, store) && Next(g, s, t, step, s')
    requires step.Reserve? || step.ReadFlash? || step.Retry? || (step.EraseFlash? && !step.ok)
    ensures Coherent(g, s', StoreAfter(g, s, t, step, store)) && Undisturbed(g, s, t, step)
  {
    hide Coherent;
    QuietCoherent(g, s, s', store);
  }

  /** A step keeps the cache coherent with the flat store if and only if it is undisturbed. */
  lemma CoherentStep(g: Geometry, s: State, t: Thread, step: Step, s': State, store: Cells)
    requires g.Valid() && Safe(g, s) && Coherent(g, s, store) && Next(g, s, t, step, s')
    ensures Safe(g, s')
    ensures Coherent(g, s', StoreAfter(g, s, t, step, store)) <==> Undisturbed(g, s, t, step)
  {
    StepSafe(g, s, t, step, s');
    if step.Hit? || step.FoundElsewhere? {
      AccessStep(g, s, t, step, s', store);
    } else if step.Reserve? || step.ReadFlash? || step.Retry? || (step.EraseFlash? && !step.ok) {
      QuietSteps(g, s, t, step, s', store);
    } else {
      OtherSteps(g, s, t, step, s', store);
    }
  }

  lemma OtherSteps(g: Geometry, s: State, t: Thread, step: Step, s': State, store: Cells)
    requires g.Valid() && Safe(g, s) && Safe(g, s') && Coherent(g, s, store) && Next(g, s, t, step, s')
    requires step.Flush? || step.Fill? || step.DropBlock? || (step.EraseFlash? && step.ok)
    ensures Coherent(g, s', StoreAfter(g, s, t, step, store)) <==> Undisturbed(g, s, t, step)
  {
    hide Coherent;
    CoherentShape(g, s, store);
    var p := PhaseOf(s, t);
    match step
    case Flush(i) => FlushCoherent(g, s, s', store, i);
    case Fill(a) => FillCoherent(g, s, s', store, p.v, p.b, p.o, p.tmp.data, a);
    case DropBlock(b) => DropCoherent(g, s, s', store, b);
    case EraseFlash(ok) => if ok { EraseCoherent(g, s, s', store, p.e); }
  }

  /** The step programs or erases page (b, o). */
  ghost predicate Disturbs(s: State, t: Thread, step: Step, b: nat, o: nat)
  {
    || (step.Flush? && step.i < POOL_SIZE && s.pool[step.i].block == b && s.pool[step.i].offset == o)
    || (step.EraseFlash? && step.ok && PhaseOf(s, t) == Erasing(b))
  }

  lemma PageUntouched(g: Geometry, s: State, t: Thread, step: Step, s': State, b: nat, o: nat)
    requires g.Valid() && Safe(g, s) && Next(g, s, t, step, s') && g.HasPage(b, o) && Aligned(g, o)
    requires !Disturbs(s, t, step, b, o)
    ensures Shaped(g, s'.cells) && PageOf(g, s'.cells, b, o) == PageOf(g, s.cells, b, o)
  {
    if step.Flush? { FlushReads(g, s.pool[step.i], s.cells, b, o); }
  }

  /** If nobody writes the page back or erases its block inside the window, the fill is undisturbed. */
  lemma {:induction false} WindowCurrent(g: Geometry, r: Run, a: nat, z: nat, t: Thread)
    requires g.Valid() && IsRun(g, r) && a < z < |r.states|
    requires r.steps[a].ReadFlash? && r.movers[a] == t && forall n | a < n < z :: r.movers[n] != t
    requires var p := PhaseOf(r.states[a], t);
             p.Window? && forall n {:trigger r.steps[n]} | a <= n < z ::
               !Disturbs(r.states[n], r.movers[n], r.steps[n], p.b, p.o)
    ensures var (p, q, s) := (PhaseOf(r.states[a], t), PhaseOf(r.states[z], t), r.states[z]);
            && Safe(g, s) && q.Window? && q == p.(tmp := q.tmp) && q.tmp.Got?
            && (g.HasPage(p.b, p.o) ==> q.tmp.data == PageOf(g, s.cells, p.b, p.o))
    decreases z
  {
    hide Next;
    RunSafe(g, r, a); RunSafe(g, r, z - 1); RunSafe(g, r, z);
    var p, n := PhaseOf(r.states[a], t), z - 1;
    assert !Disturbs(r.states[n], r.movers[n], r.steps[n], p.b, p.o);
    assert Next(g, r.states[n], r.movers[n], r.steps[n], r.states[z]);
    PhaseIs(g, r.states[a], t);
    if g.HasPage(p.b, p.o) { PageUntouched(g, r.states[n], r.movers[n], r.steps[n], r.states[z], p.b, p.o); }
    if n == a {
      ReadGets(g, r.states[a], t, r.steps[a], r.states[z]);
    } else {
      WindowCurrent(g, r, a, n, t);
      OthersWait(g, r.states[n], r.movers[n], r.steps[n], r.states[z], t);
    }
  }

  lemma PhaseIs(g: Geometry, s: State, t: Thread)
    requires g.Valid() && Shape(g, s)
    ensures PhaseShape(g, PhaseOf(s, t))
  {
  }

  lemma ReadGets(g: Geometry, s: State, t: Thread, step: Step, s': State)
    requires g.Valid() && Safe(g, s) && Next(g, s, t, step, s') && step.ReadFlash?
    ensures var (p, q) := (PhaseOf(s, t), PhaseOf(s', t));
            && p.Window? && q.Window? && q == p.(tmp := q.tmp) && q.tmp.Got? && s'.cells == s.cells
            && (g.HasPage(p.b, p.o) ==> q.tmp.data == PageOf(g, s.cells, p.b, p.o))
  {
  }

  lemma OthersWait(g: Geometry, s: State, u: Thread, step: Step, s': State, t: Thread)
    requires g.Valid() && Safe(g, s) && Next(g, s, u, step, s') && t != u
    ensures PhaseOf(s', t) == PhaseOf(s, t)
  {
  }
}
