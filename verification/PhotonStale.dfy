/** A run of the interleaved cache after which a reader sees stale data, and a run of one thread whose data the flash
    does not take (vfs/photon_cache.hpp:51-132, drivers/storage/flash_device.hpp:72-98). */
module PhotonStale {
  import opened FlashDevice
  import opened CacheModel
  import opened PhotonSteps
  import opened PhotonRuns

  /** One block of eight pages of one byte. */
  const EIGHT := Geometry(8, 1, 1)

  const EMPTY := Slot(0, 0, [ERASED], false, false, false, 0)

  function Erased(): Cells { [seq(8, _ => ERASED)] }

  /** Page 0 holds zero. */
  function Zeroed(): Cells { [[0] + seq(7, _ => ERASED)] }

  function EmptyPool(): Pool { seq(POOL_SIZE, _ => EMPTY) }

  // ----- The states of the run

  /** Thread 1 has read page 0 and not filled slot 7 with it yet. */
  const PENDING := Window(0, 0, 7, Got([ERASED]))

  /** Slot 7 reserved, page 0 written in slot 6, and pages 1 to j loaded in the slots before it. */
  function LoadedPool(j: nat): Pool
  {
    seq(POOL_SIZE, i requires 0 <= i < POOL_SIZE =>
      if i == 7 then Reserved(EMPTY, 0, 0)
      else if i == 6 then Slot(0, 0, [0], true, true, false, 1)
      else if i + j >= 6 then Slot(0, 6 - i, [ERASED], true, false, false, 7 - i)
      else EMPTY)
  }

  function Loaded(j: nat): State { State(LoadedPool(j), Erased(), map[1 := PENDING, 2 := Idle], 1 + j) }

  /** Thread 2 on its way to load page j + 1. */
  function Loading(j: nat, tmp: Buffer): State
    requires j < 6
  {
    State(LoadedPool(j)[5 - j := Reserved(EMPTY, 0, j + 1)], Erased(),
          map[1 := PENDING, 2 := Window(0, j + 1, 5 - j, tmp)], 1 + j)
  }

  function First(n: nat): State
    requires n < 5
  {
    var pool := if n == 0 then EmptyPool() else EmptyPool()[7 := Reserved(EMPTY, 0, 0)];
    var one := if n == 1 then Window(0, 0, 7, Unread) else PENDING;
    if n == 0 then State(pool, Erased(), map[], 0)
    else if n < 3 then State(pool, Erased(), map[1 := one], 0)
    else State(pool[6 := Reserved(EMPTY, 0, 0)], Erased(),
               map[1 := one, 2 := Window(0, 0, 6, if n == 3 then Unread else Got([ERASED]))], 0)
  }

  function Flushed0(): State
  {
    State(LoadedPool(6)[6 := Slot(0, 0, [0], true, false, false, 1)], Zeroed(), map[1 := PENDING, 2 := Idle], 7)
  }

  function Evicted0(): State
  {
    State(LoadedPool(6)[6 := Slot(0, 7, [0], false, false, true, 1)], Zeroed(),
          map[1 := PENDING, 2 := Window(0, 7, 6, Unread)], 7)
  }

  function Stale(): State
  {
    State(Evicted0().pool[7 := Slot(0, 0, [ERASED], true, false, false, 8)], Zeroed(),
          map[1 := Idle, 2 := Window(0, 7, 6, Unread)], 8)
  }

  function StateAt(n: nat): State
    requires n <= 26
  {
    if n < 5 then First(n)
    else if n < 23 then
      var j := (n - 5) / 3;
      if (n - 5) % 3 == 0 then Loaded(j) else Loading(j, if (n - 5) % 3 == 1 then Unread else Got([ERASED]))
    else if n == 23 then Loaded(6)
    else if n == 24 then Flushed0()
    else if n == 25 then Evicted0()
    else Stale()
  }

  function MoverAt(n: nat): Thread { if n < 2 || n == 25 then 1 else 2 }

  function StepAt(n: nat): Step
    requires n < 26
  {
    if n == 0 then Reserve(0, 0, 7)
    else if n == 2 then Reserve(0, 0, 6)
    else if n == 1 || n == 3 then ReadFlash([0])
    else if n == 4 then Fill(WriteIt(0, [0]))
    else if n < 23 then
      if (n - 5) % 3 == 0 then Reserve(0, (n - 5) / 3 + 1, 5 - (n - 5) / 3)
      else if (n - 5) % 3 == 1 then ReadFlash([0]) else Fill(ReadIt)
    else if n == 23 then Flush(6)
    else if n == 24 then Reserve(0, 7, 6)
    else Fill(ReadIt)
  }

  // ----- Every step is one of the code

  ghost predicate Goes(s: State, t: Thread, step: Step, s': State)
  {
    EIGHT.Valid() && (Shape(EIGHT, s) ==> Next(EIGHT, s, t, step, s'))
  }

  lemma ErasedPage0(o: nat)
    requires o < 8
    ensures Shaped(EIGHT, Erased()) && PageOf(EIGHT, Erased(), 0, o) == [ERASED]
  {
  }

  lemma FirstSteps(n: nat)
    requires n < 4
    ensures Goes(First(n), MoverAt(n), StepAt(n), First(n + 1))
  {
    ErasedPage0(0);
    if n == 0 { VictimIs(First(0).pool, 7); }
    if n == 2 { VictimIs(First(2).pool, 6); }
  }

  lemma FirstWrite()
    ensures Goes(First(4), 2, Fill(WriteIt(0, [0])), Loaded(0))
  {
    assert Patched([ERASED], 0, [0]) == [0];
    assert First(4).pool[6 := Slot(0, 0, [0], true, true, false, 1)] == LoadedPool(0);
  }

  lemma LoadReserve(j: nat)
    requires j < 6
    ensures Goes(Loaded(j), 2, Reserve(0, j + 1, 5 - j), Loading(j, Unread))
  {
    hide Victim, Find, LoadedPool;
    LoadVictim(j);
  }

  lemma LoadVictim(j: nat)
    requires j < 6
    ensures var pool := LoadedPool(j);
            Victim(pool) == 5 - j && pool[5 - j] == EMPTY && Find(pool, 0, j + 1) == POOL_SIZE
  {
    var pool := LoadedPool(j);
    assert forall i | 5 - j < i < POOL_SIZE :: !Vacant(pool, i);
    VictimIs(pool, 5 - j);
    assert forall i | 0 <= i < POOL_SIZE :: !pool[i].Holds(0, j + 1);
  }

  lemma LoadRead(j: nat)
    requires j < 6
    ensures Goes(Loading(j, Unread), 2, ReadFlash([0]), Loading(j, Got([ERASED])))
  {
    hide LoadedPool;
    ErasedPage0(j + 1);
  }

  lemma LoadFill(j: nat)
    requires j < 6
    ensures Goes(Loading(j, Got([ERASED])), 2, Fill(ReadIt), Loaded(j + 1))
  {
    var pool := Loading(j, Got([ERASED])).pool;
    assert forall i | 0 <= i < POOL_SIZE && i != 5 - j :: !pool[i].Holds(0, j + 1);
    assert pool[5 - j := Slot(0, j + 1, [ERASED], true, false, false, j + 2)] == LoadedPool(j + 1);
  }

  lemma WriteBack()
    ensures Goes(Loaded(6), 2, Flush(6), Flushed0())
  {
    ErasedPage0(0);
    ProgramExact([ERASED], [0]);
    assert Program([ERASED], [0]) == [0];
    assert Erased()[0][..0] + [0] + Erased()[0][1..] == Zeroed()[0];
  }

  lemma Evict()
    ensures Goes(Flushed0(), 2, Reserve(0, 7, 6), Evicted0())
  {
    var pool := Flushed0().pool;
    assert forall i | 0 <= i < POOL_SIZE :: !Vacant(pool, i);
    assert Oldest(pool, 6);
    VictimIs(pool, 6);
  }

  lemma LateFill()
    ensures Goes(Evicted0(), 1, Fill(ReadIt), Stale())
  {
  }

  lemma GoAt(n: nat)
    requires n < 26
    ensures Goes(StateAt(n), MoverAt(n), StepAt(n), StateAt(n + 1))
  {
    hide Goes, First, Loaded, Loading, Flushed0, Evicted0, Stale;
    if n < 4 {
      FirstSteps(n);
    } else if n == 4 {
      FirstWrite();
    } else if n < 23 {
      var j := (n - 5) / 3;
      LoadReserve(j);
      LoadRead(j);
      LoadFill(j);
    } else {
      WriteBack();
      Evict();
      LateFill();
    }
  }

  lemma StartSafe()
    ensures EIGHT.Valid() && Safe(EIGHT, First(0)) && AllIdle(First(0))
  {
    ErasedPage0(0);
  }

  function StaleRun(): Run
  {
    Run(seq(27, n requires 0 <= n <= 26 => StateAt(n)), seq(26, n requires 0 <= n < 26 => MoverAt(n)),
        seq(26, n requires 0 <= n < 26 => StepAt(n)))
  }

  lemma StaleIsRun()
    ensures EIGHT.Valid() && IsRun(EIGHT, StaleRun())
  {
    hide StateAt, StepAt, MoverAt, Safe, Next, Shape;
    StartSafe();
    StartIs();
    var r := StaleRun();
    forall i | 0 <= i < |r.steps| ensures Goes(r.states[i], r.movers[i], r.steps[i], r.states[i + 1]) { GoAt(i); }
  }

  lemma StartIs()
    ensures StateAt(0) == First(0)
  {
  }

  lemma EndIs()
    ensures StateAt(26) == Stale()
  {
  }

  // ----- What the client wrote, and what it sees

  lemma RunIs(n: nat)
    requires n <= 26
    ensures |StaleRun().states| == 27 && |StaleRun().steps| == |StaleRun().movers| == 26
    ensures StaleRun().states[n] == StateAt(n)
    ensures n < 26 ==> StaleRun().steps[n] == StepAt(n) && StaleRun().movers[n] == MoverAt(n)
  {
  }

  /** Only step 4 writes. */
  lemma StoreStays(n: nat, store: Cells)
    requires EIGHT.Valid() && n < 26 && n != 4 && Shape(EIGHT, StateAt(n)) && |store| == |StateAt(n).cells|
    ensures StoreAfter(EIGHT, StateAt(n), MoverAt(n), StepAt(n), store) == store
  {
    hide Shape, StateAt, Overlay;
  }

  lemma StoreWritten()
    requires EIGHT.Valid() && Shape(EIGHT, StateAt(4))
    ensures StoreAfter(EIGHT, StateAt(4), MoverAt(4), StepAt(4), Erased()) == Zeroed()
  {
    hide Shape;
    assert OverlayRow(Erased()[0], 0, [0]) == Zeroed()[0];
  }

  lemma {:induction false} StaleStore(n: nat)
    requires EIGHT.Valid() && IsRun(EIGHT, StaleRun()) && n <= 26
    ensures n < |StaleRun().states|
    ensures StoreAt(EIGHT, StaleRun(), Erased(), n) == if n < 5 then Erased() else Zeroed()
  {
    hide StaleRun, StateAt, StepAt, MoverAt, Zeroed, StoreAfter, IsRun;
    RunIs(n);
    if n > 0 {
      RunIs(n - 1);
      StaleStore(n - 1);
      RunSafe(EIGHT, StaleRun(), n - 1);
      if n - 1 == 4 { StoreWritten(); } else { StoreStays(n - 1, StoreAt(EIGHT, StaleRun(), Erased(), n - 1)); }
    }
  }

  lemma StaleEnd()
    ensures EIGHT.Valid() && Shape(EIGHT, Stale()) && ViewOf(EIGHT, Stale(), 0, 0) == [ERASED]
    ensures Stale().cells == Zeroed() && Shaped(EIGHT, Zeroed()) && PageOf(EIGHT, Zeroed(), 0, 0) == [0]
  {
    ErasedPage0(0);
    assert Stale().pool[7].Holds(0, 0);
    assert forall i | 0 <= i < 7 :: !Stale().pool[i].Holds(0, 0);
  }

  /** Thread 1 misses page 0 and reads it. Thread 2 loads it, writes 0 and goes on to load other pages, until page 0 is
      the oldest and is written back and evicted. Then thread 1 fills its slot with what it read: the store and the
      flash hold 0, and the next reader sees the erased byte. */
  lemma StaleRead()
    ensures EIGHT.Valid() && IsRun(EIGHT, StaleRun()) && |StaleRun().states| == 27 && AllIdle(StaleRun().states[0])
    ensures Shaped(EIGHT, StoreAt(EIGHT, StaleRun(), Erased(), 26))
    ensures PageOf(EIGHT, StoreAt(EIGHT, StaleRun(), Erased(), 26), 0, 0) == [0]
    ensures var s := StaleRun().states[26];
            && Shape(EIGHT, s) && s.cells == StoreAt(EIGHT, StaleRun(), Erased(), 26)
            && ViewOf(EIGHT, s, 0, 0) == [ERASED]
  {
    hide StaleRun, StateAt, First, Stale, Shape, ViewOf, Zeroed, IsRun, StoreAt, AllIdle, PageOf;
    RunIs(0);
    RunIs(26);
    StaleIsRun();
    StartSafe();
    StartIs();
    EndIs();
    StaleEnd();
    StaleStore(26);
  }

  // ----- Data that the flash does not take

  /** Slot 7 holding page 0, at the given tick. */
  function One(data: byte8, dirty: bool, tick: nat, cells: Cells): State
  {
    State(EmptyPool()[7 := Slot(0, 0, [data], true, dirty, false, tick)], cells, map[1 := Idle], tick)
  }

  function SpoilState(n: nat): State
    requires n <= 6
  {
    if n < 3 then First(n)
    else if n == 3 then One(0, true, 1, Erased())
    else if n == 4 then One(0, false, 1, Zeroed())
    else if n == 5 then One(ERASED, true, 2, Zeroed())
    else One(ERASED, false, 2, Zeroed())
  }

  function SpoilStep(n: nat): Step
    requires n < 6
  {
    if n == 0 then Reserve(0, 0, 7)
    else if n == 1 then ReadFlash([0])
    else if n == 2 then Fill(WriteIt(0, [0]))
    else if n == 4 then Hit(7, WriteIt(0, [ERASED]))
    else Flush(7)
  }

  function SpoilRun(): Run
  {
    Run(seq(7, n requires 0 <= n <= 6 => SpoilState(n)), seq(6, _ => 1), seq(6, n requires 0 <= n < 6 => SpoilStep(n)))
  }

  lemma SpoilWrites()
    ensures Goes(First(2), 1, Fill(WriteIt(0, [0])), One(0, true, 1, Erased()))
    ensures Goes(One(0, false, 1, Zeroed()), 1, Hit(7, WriteIt(0, [ERASED])), One(ERASED, true, 2, Zeroed()))
  {
    assert Patched([ERASED], 0, [0]) == [0] && Patched([0], 0, [ERASED]) == [ERASED];
  }

  lemma SpoilFlush()
    ensures Goes(One(0, true, 1, Erased()), 1, Flush(7), One(0, false, 1, Zeroed()))
  {
    ErasedPage0(0);
    assert Program([ERASED], [0]) == [0];
    assert Erased()[0][..0] + [0] + Erased()[0][1..] == Zeroed()[0];
  }

  /** Ones over zeros: the flash keeps the zeros. */
  lemma SpoilLost()
    ensures Goes(One(ERASED, true, 2, Zeroed()), 1, Flush(7), One(ERASED, false, 2, Zeroed()))
    ensures Shaped(EIGHT, Zeroed()) && PageOf(EIGHT, Zeroed(), 0, 0) == [0] && !Programmable([0], [ERASED])
  {
    assert Program([0], [ERASED]) == [0];
    ProgramExact([0], [ERASED]);
    assert Program([0], [ERASED])[0] != ERASED;
    assert Zeroed()[0][..0] + [0] + Zeroed()[0][1..] == Zeroed()[0];
    assert Zeroed()[0 := Zeroed()[0]] == Zeroed();
  }

  lemma SpoilGoes(n: nat)
    requires n < 6
    ensures Goes(SpoilState(n), 1, SpoilStep(n), SpoilState(n + 1))
  {
    hide Goes, First, One;
    if n < 2 { FirstSteps(n); }
    SpoilWrites();
    SpoilFlush();
    SpoilLost();
  }

  lemma SpoilIs(n: nat)
    requires n <= 6
    ensures |SpoilRun().states| == 7 && |SpoilRun().steps| == |SpoilRun().movers| == 6
    ensures SpoilRun().states[n] == SpoilState(n)
    ensures n < 6 ==> SpoilRun().steps[n] == SpoilStep(n) && SpoilRun().movers[n] == 1
  {
  }

  lemma SpoilIsRun()
    ensures EIGHT.Valid() && IsRun(EIGHT, SpoilRun())
  {
    hide SpoilRun, SpoilState, SpoilStep, Safe, Next, Shape;
    StartSafe();
    SpoilStart();
    var r := SpoilRun();
    SpoilIs(0);
    forall i | 0 <= i < |r.steps| ensures Goes(r.states[i], r.movers[i], r.steps[i], r.states[i + 1]) {
      SpoilIs(i);
      SpoilIs(i + 1);
      SpoilGoes(i);
    }
  }

  lemma SpoilStart()
    ensures SpoilState(0) == First(0) && SpoilState(6) == One(ERASED, false, 2, Zeroed())
  {
  }

  lemma SpoilStored(n: nat, store: Cells)
    requires EIGHT.Valid() && n < 6 && Shape(EIGHT, SpoilState(n)) && |store| == |SpoilState(n).cells|
    requires store == if n < 3 || n == 5 then Erased() else Zeroed()
    ensures StoreAfter(EIGHT, SpoilState(n), 1, SpoilStep(n), store) == if n < 2 || n >= 4 then Erased() else Zeroed()
  {
    hide Shape;
    assert OverlayRow(Erased()[0], 0, [0]) == Zeroed()[0];
    assert OverlayRow(Zeroed()[0], 0, [ERASED]) == Erased()[0];
  }

  lemma {:induction false} SpoilStore(n: nat)
    requires EIGHT.Valid() && IsRun(EIGHT, SpoilRun()) && n <= 6
    ensures n < |SpoilRun().states|
    ensures StoreAt(EIGHT, SpoilRun(), Erased(), n) == if n < 3 || n >= 5 then Erased() else Zeroed()
  {
    hide SpoilRun, SpoilState, SpoilStep, Zeroed, StoreAfter, IsRun;
    SpoilIs(n);
    if n > 0 {
      SpoilIs(n - 1);
      SpoilStore(n - 1);
      RunSafe(EIGHT, SpoilRun(), n - 1);
      SpoilStored(n - 1, StoreAt(EIGHT, SpoilRun(), Erased(), n - 1));
    }
  }

  /** One thread writes 0x00, flushes, writes 0xff and flushes again. Nothing is dirty and the store holds 0xff; the
      flash holds 0x00, and that is what a reader will see once the page has left the cache. */
  lemma SpoiledPage()
    ensures EIGHT.Valid() && IsRun(EIGHT, SpoilRun()) && |SpoilRun().states| == 7
    ensures StoreAt(EIGHT, SpoilRun(), Erased(), 6) == Erased() && SpoilRun().states[6].cells == Zeroed()
    ensures forall i | 0 <= i < POOL_SIZE :: !SpoilRun().states[6].pool[i].dirty
    ensures Shaped(EIGHT, Zeroed()) && PageOf(EIGHT, Zeroed(), 0, 0) == [0]
  {
    hide SpoilRun, SpoilState, IsRun, StoreAt, Zeroed;
    SpoilIsRun();
    SpoilIs(6);
    SpoilStart();
    SpoilStore(6);
    SpoilLost();
  }
}
