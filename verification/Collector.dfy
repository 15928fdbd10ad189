/** The incremental collector of the Lua core: strong references, no finalizers (3rdparty/lua/lgc.c). */
module Collector {
  import opened TriColor

  datatype GcState =
    | Propagate
    | EnterAtomic
    | SwpAllGc
    | SwpFinObj(pending: bool)
    | SwpToBeFnz(pending: bool)
    | SwpEnd
    | CallFin
    | Pause

  predicate KeepInvariant(s: GcState) { s.Propagate? || s.EnterAtomic? }

  /** How far a state is from the end of the cycle. */
  function Rank(s: GcState): nat
  {
    match s
    case Propagate => 9
    case EnterAtomic => 8
    case SwpAllGc => 7
    case SwpFinObj(pending) => if pending then 6 else 5
    case SwpToBeFnz(pending) => if pending then 4 else 3
    case SwpEnd => 2
    case CallFin => 1
    case Pause => 0
  }

  /** The first object of the list from k on that is not dead. */
  function FirstLive(c: Colors, white: bool, l: seq<Obj>, k: nat): (r: nat)
    requires k <= |l|
    ensures k <= r <= |l| && (r < |l| ==> !(l[r] in c && c[l[r]] == White(!white)))
    ensures forall i | k <= i < r :: l[i] in c && c[l[i]] == White(!white)
    decreases |l| - k
  {
    if k < |l| && l[k] in c && c[l[k]] == White(!white) then FirstLive(c, white, l, k + 1) else k
  }

  lemma SameList(c: Colors, l: seq<Obj>)
    requires ListOk(c, l, [])
    ensures ListOk(c, [], l) && forall o | o in l :: o in c
  {
    assert l + [] == l && [] + l == l;
  }

  /** A sweep of l that has come to its k-th object with nothing but dead ones so far, or has just whitened it. */
  ghost predicate SweptTo(c0: Colors, white: bool, l: seq<Obj>, k: nat, c: Colors, swept: seq<Obj>, unswept: seq<Obj>)
  {
    && k <= |l| && FirstLive(c0, white, l, 0) == FirstLive(c0, white, l, k)
    && if swept == [] then unswept == l[k..] && forall o | o in unswept :: o in c && o in c0 && c[o] == c0[o]
       else k < |l| && swept == [l[k]] && unswept == l[k + 1..] && !Dead(c0, white, l[k])
  }

  lemma SweptNothing(c: Colors, white: bool, l: seq<Obj>)
    requires forall o | o in l :: o in c
    ensures SweptTo(c, white, l, 0, c, [], l)
  {
    assert l[0..] == l;
  }

  lemma SweptNext(c0: Colors, white: bool, l: seq<Obj>, k: nat, c: Colors, unswept: seq<Obj>, c': Colors,
                    swept': seq<Obj>, unswept': seq<Obj>)
    requires SweptTo(c0, white, l, k, c, [], unswept) && unswept != [] && unswept[0] !in unswept[1..]
    requires unswept' == unswept[1..]
    requires if Dead(c, white, unswept[0]) then swept' == [] && c' == c - {unswept[0]} else swept' == [unswept[0]]
    ensures SweptTo(c0, white, l, if swept' == [] then k + 1 else k, c', swept', unswept')
  {
    assert unswept[0] == l[k] && l[k..][1..] == l[k + 1..];
    forall o | o in unswept' ensures o in unswept && o != unswept[0] {}
  }

  lemma SweptEnd(c0: Colors, white: bool, l: seq<Obj>, k: nat, c: Colors, swept: seq<Obj>, unswept: seq<Obj>)
    requires SweptTo(c0, white, l, k, c, swept, unswept) && (unswept == [] || swept != [])
    ensures var n := FirstLive(c0, white, l, 0);
            if n < |l| then swept == [l[n]] && unswept == l[n + 1..] else swept == [] && unswept == []
  {
  }

  const GC_SWEEP_MAX: nat := 100

  /** The list of all objects, in two parts, holds every object once. */
  ghost predicate ListOk(c: Colors, swept: seq<Obj>, unswept: seq<Obj>)
  {
    NoDup(swept + unswept) && forall o :: o in c <==> o in swept + unswept
  }

  lemma SameKeysList(c: Colors, c': Colors, swept: seq<Obj>, unswept: seq<Obj>)
    requires ListOk(c, swept, unswept) && c'.Keys == c.Keys
    ensures ListOk(c', swept, unswept)
  {
    hide NoDup;
  }

  ghost predicate AllCurrent(c: Colors, white: bool, swept: seq<Obj>)
  {
    forall o | o in swept :: o in c && c[o] == White(white)
  }

  /** Everything reachable in g0 is still there and reachable, and no object refers to anything new. */
  ghost predicate Survives(g0: Graph, g: Graph, c: Colors, roots: set<Obj>)
  {
    && (forall o | Reachable(g0, roots, o) :: o in c && Reachable(g, roots, o))
    && (forall o | o in c :: o in g.refs && o in g0.refs && g.refs[o] == g0.refs[o])
  }

  /** Every object that is not dead is reachable. */
  ghost predicate AliveOnly(g: Graph, c: Colors, white: bool, roots: set<Obj>)
  {
    forall o | o in c && !Dead(c, white, o) :: Reachable(g, roots, o)
  }

  lemma SurvivesTrans(g0: Graph, g1: Graph, c1: Colors, g2: Graph, c2: Colors, roots: set<Obj>)
    requires Survives(g0, g1, c1, roots) && Survives(g1, g2, c2, roots) && c2.Keys <= c1.Keys
    ensures Survives(g0, g2, c2, roots)
  {
  }

  lemma SplitAt(a: seq<Obj>, b: seq<Obj>)
    requires b != [] && NoDup(a + b)
    ensures b[0] in a + b && b[0] !in a
    ensures NoDup(a + b[1..]) && (forall o :: o in a + b[1..] <==> o in a + b && o != b[0])
    ensures (a + [b[0]]) + b[1..] == a + b
  {
    var l, n := a + b, |a|;
    assert l[n] == b[0];
    assert forall i | 0 <= i < n :: l[i] == a[i];
    var l' := a + b[1..];
    assert forall i | 0 <= i < |l'| :: l'[i] == l[if i < n then i else i + 1];
    forall o | o in l && o != b[0] ensures o in l' {
      var i :| 0 <= i < |l| && l[i] == o;
      assert l'[if i < n then i else i - 1] == o;
    }
  }

  /** Sweeping the first object of `rest` when it is dead. */
  lemma FreeStep(g: Graph, c: Colors, white: bool, roots: set<Obj>, swept: seq<Obj>, rest: seq<Obj>)
    requires Sweeping(g, c, white, roots) && ListOk(c, swept, rest) && AllCurrent(c, white, swept)
    requires rest != [] && Dead(c, white, rest[0])
    ensures var (g', c') := (Freed(g, rest[0]), c - {rest[0]});
            && Sweeping(g', c', white, roots) && ListOk(c', swept, rest[1..]) && AllCurrent(c', white, swept)
            && Survives(g, g', c', roots) && !Reachable(g, roots, rest[0])
            && (AliveOnly(g, c, white, roots) ==> AliveOnly(g', c', white, roots))
  {
    hide NoDup, Sweeping;
    var o := rest[0];
    SplitAt(swept, rest);
    SweepDead(g, c, white, roots, o);
    forall x | Reachable(g, roots, x) ensures x in c - {o} && Reachable(Freed(g, o), roots, x) {
      ReachFreed(g, c, white, roots, o, x);
      ReachableNotDead(g, c, white, roots, x);
    }
    RefsOf(g, c, white, roots);
  }

  /** Sweeping the first object of `rest` when it lives. */
  lemma WhitenStep(g: Graph, c: Colors, white: bool, roots: set<Obj>, swept: seq<Obj>, rest: seq<Obj>)
    requires Sweeping(g, c, white, roots) && ListOk(c, swept, rest) && AllCurrent(c, white, swept)
    requires rest != [] && !Dead(c, white, rest[0])
    ensures var (o, c') := (rest[0], c[rest[0] := White(white)]);
            && o in c && Sweeping(g, c', white, roots) && ListOk(c', swept + [o], rest[1..])
            && AllCurrent(c', white, swept + [o]) && Survives(g, g, c', roots)
            && (AliveOnly(g, c, white, roots) ==> AliveOnly(g, c', white, roots))
  {
    hide NoDup, Sweeping;
    SplitAt(swept, rest);
    SweepLive(g, c, white, roots, rest[0]);
    forall x | Reachable(g, roots, x) ensures x in c { ReachableNotDead(g, c, white, roots, x); }
    RefsOf(g, c, white, roots);
  }

  lemma RefsOf(g: Graph, c: Colors, white: bool, roots: set<Obj>)
    requires Sweeping(g, c, white, roots)
    ensures g.refs.Keys == c.Keys
  {
  }

  class Collector {
    /** The object graph; the mutator changes it, the collector only removes dead objects. */
    var g: Graph
    var colors: Colors
    /** The main thread, the running thread, the registry and the global metatables. */
    var roots: set<Obj>
    var state: GcState
    var white: bool
    var gray: seq<Obj>
    var grayAgain: seq<Obj>
    /** The list of all objects, split at the sweep pointer; objects are linked in at its front. */
    var swept: seq<Obj>
    var unswept: seq<Obj>

    /** In the mark phase the tri-colour invariant holds; in the others nothing that is alive is dead, and what lies
        before the sweep pointer is current white. */
    ghost predicate Valid()
      reads this
    {
      && ListOk(colors, swept, unswept) && roots <= colors.Keys
      && (KeepInvariant(state) ==> Marking(g, colors, white, gray + grayAgain, {}, true) && unswept == [])
      && (!KeepInvariant(state) ==> Sweeping(g, colors, white, roots) && AllCurrent(colors, white, swept))
      && (!state.SwpAllGc? ==> unswept == [])
    }

    /** A new state holds the main thread and nothing else. */
    constructor (main: Obj)
      ensures Valid() && state.Pause? && roots == {main}
    {
      g := Graph(map[main := Thread], map[main := []]);
      colors := map[main := White(false)];
      roots, state, white := {main}, Pause, false;
      gray, grayAgain, swept, unswept := [], [], [main], [];
      new;
      assert swept + unswept == [main];
      assert KeepsAlive(g, colors, white, main);
    }

    ghost predicate Alive(o: Obj)
      reads this
    {
      Reachable(g, roots, o)
    }

    /** What holds in a cycle that the mutator does not interrupt: only reachable objects are marked, and after the
        atomic phase only unreachable ones are dead or gone. */
    ghost predicate Exact()
      reads this
    {
      if KeepInvariant(state) then Precise(g, roots, colors) else AliveOnly(g, colors, white, roots)
    }

    /** Whatever the state, a reachable object is allocated. */
    lemma AliveIsAllocated(o: Obj)
      requires Valid() && Alive(o)
      ensures o in colors && !Dead(colors, white, o)
    {
      if KeepInvariant(state) {
        NoFlip(g, colors, white, gray + grayAgain, roots);
      }
      ReachableNotDead(g, colors, white, roots, o);
    }

    /** The main invariant of the collector: while it is to be kept, no black object refers to a white one. */
    lemma NoBlackToWhite(o: Obj, v: Obj)
      requires Valid() && KeepInvariant(state) && IsBlack(colors, o) && v in g.refs[o]
      ensures !IsWhite(colors, v)
    {
      assert RefsMarked(g, colors, o);
    }

    // ----- Marking

    /** markobject: a white object is marked, and with it what it visits on the spot. `again` is the part of the
        lists that marking does not touch. */
    method MarkObject(o: Obj, ghost again: seq<Obj>, ghost X: set<Obj>, ghost mutable: bool)
      requires o in colors && Marking(g, colors, white, gray + again, X, mutable)
      modifies `colors, `gray
      ensures Marking(g, colors, white, gray + again, X, mutable)
      ensures Darker(old(colors), colors) && !IsWhite(colors, o)
      ensures Whites(colors) == Whites(old(colors)) ==> gray == old(gray)
      ensures Precise(g, roots, old(colors)) && Reachable(g, roots, o) ==> Precise(g, roots, colors)
      decreases Whites(colors), 1
    {
      if colors[o].White? {
        ReallyMarkObject(o, again, X, mutable);
      }
    }

    method ReallyMarkObject(o: Obj, ghost again: seq<Obj>, ghost X: set<Obj>, ghost mutable: bool)
      requires IsWhite(colors, o) && Marking(g, colors, white, gray + again, X, mutable)
      modifies `colors, `gray
      ensures Marking(g, colors, white, gray + again, X, mutable)
      ensures Darker(old(colors), colors) && !IsWhite(colors, o)
      ensures Whites(colors) < Whites(old(colors))
      ensures Precise(g, roots, old(colors)) && Reachable(g, roots, o) ==> Precise(g, roots, colors)
      decreases Whites(colors), 0
    {
      hide Marking, Reachable;
      ghost var c := colors;
      KindOf(again, X, mutable, o);
      if g.kind[o].Leaf? {
        MarkLeaf(g, colors, white, gray + again, X, mutable, o);
        Blacken(g, colors, white, gray + again, X, mutable, o);
        colors := colors[o := Black];
      } else if g.kind[o].OnTheSpot? {
        Blacken(g, colors, white, gray + again, X, mutable, o);
        colors := colors[o := Black];
        MarkRefs(o, again, X + {o}, mutable);
        DarkerTrans(c, c[o := Black], colors);
        DarkerWhites(c[o := Black], colors);
        Visited(g, colors, white, gray + again, X, mutable, o);
      } else {
        MarkGray(g, colors, white, gray + again, X, mutable, o);
        assert [o] + (gray + again) == ([o] + gray) + again;
        colors := colors[o := Gray];
        gray := [o] + gray;
      }
    }

    lemma KindOf(again: seq<Obj>, X: set<Obj>, mutable: bool, o: Obj)
      requires Marking(g, colors, white, gray + again, X, mutable) && o in colors
      ensures o in g.kind && o in g.refs && forall v | v in g.refs[o] :: v in colors
    {
      assert Closed(g, colors, o);
    }

    /** Mark everything o refers to. */
    method MarkRefs(o: Obj, ghost again: seq<Obj>, ghost X: set<Obj>, ghost mutable: bool)
      requires o in colors && Marking(g, colors, white, gray + again, X, mutable)
      modifies `colors, `gray
      ensures Marking(g, colors, white, gray + again, X, mutable)
      ensures Darker(old(colors), colors) && o in g.refs && RefsMarked(g, colors, o)
      ensures Whites(colors) == Whites(old(colors)) ==> gray == old(gray)
      ensures Precise(g, roots, old(colors)) && Reachable(g, roots, o) ==> Precise(g, roots, colors)
      decreases Whites(colors), 2
    {
      hide Marking, Reachable, Precise;
      ghost var c := colors;
      KindOf(again, X, mutable, o);
      var i := 0;
      while i < |g.refs[o]|
        invariant 0 <= i <= |g.refs[o]| && Marking(g, colors, white, gray + again, X, mutable)
        invariant Darker(c, colors) && Whites(colors) <= Whites(c)
        invariant forall j | 0 <= j < i :: !IsWhite(colors, g.refs[o][j])
        invariant Whites(colors) == Whites(c) ==> gray == old(gray)
        invariant Precise(g, roots, c) && Reachable(g, roots, o) ==> Precise(g, roots, colors)
      {
        ghost var c1 := colors;
        assert g.refs[o][i] in g.refs[o];
        if Reachable(g, roots, o) { ReachNext(g, roots, o, g.refs[o][i]); }
        MarkObject(g.refs[o][i], again, X, mutable);
        DarkerTrans(c, c1, colors);
        DarkerWhites(c1, colors);
        i := i + 1;
      }
    }

    lemma Loosened(again: seq<Obj>)
      requires Marking(g, colors, white, gray + again, {}, true)
      ensures Marking(g, colors, white, gray + again, {}, false)
    {
    }

    /** propagatemark: visit the first gray object. In the propagate phase a thread stays gray, in the other list. */
    method PropagateMark(ghost again: seq<Obj>, atomic: bool)
      requires Marking(g, colors, white, gray + again, {}, !atomic) && gray != []
      requires !atomic ==> again == grayAgain
      modifies `colors, `gray, `grayAgain
      ensures Marking(g, colors, white, gray + (if atomic then again else grayAgain), {}, !atomic)
      ensures colors.Keys == old(colors).Keys && (atomic ==> grayAgain == old(grayAgain))
      ensures forall o | o in colors && !IsWhite(old(colors), o) :: !IsWhite(colors, o)
      ensures Whites(colors) <= Whites(old(colors)) && (Whites(colors) == Whites(old(colors)) ==> |gray| < |old(gray)|)
      ensures Precise(g, roots, old(colors)) ==> Precise(g, roots, colors)
    {
      hide Marking, Reachable;
      var o := gray[0];
      HeadGray(again, !atomic);
      ghost var c := colors;
      if g.kind[o].Thread? && !atomic {
        Requeue(o);
        MarkRefs(o, grayAgain, {}, true);
        DarkerWhites(c, colors);
      } else {
        PopGray(g, colors, white, gray + again, {}, !atomic);
        assert (gray + again)[0] == o && (gray + again)[1..] == gray[1..] + again && {} + {o} == {o};
        colors := colors[o := Black];
        gray := gray[1..];
        MarkRefs(o, again, {o}, !atomic);
        DarkerWhites(c[o := Black], colors);
        Visited(g, colors, white, gray + again, {}, !atomic, o);
      }
    }

    lemma HeadGray(again: seq<Obj>, mutable: bool)
      requires Marking(g, colors, white, gray + again, {}, mutable) && gray != []
      ensures gray[0] in colors && gray[0] in g.kind && IsGray(colors, gray[0])
    {
      assert (gray + again)[0] == gray[0] && gray[0] in gray + again;
    }

    /** Move the first gray object to the other list. */
    method Requeue(o: Obj)
      requires Marking(g, colors, white, gray + grayAgain, {}, true) && gray != [] && o == gray[0]
      modifies `gray, `grayAgain
      ensures Marking(g, colors, white, gray + grayAgain, {}, true)
      ensures gray == old(gray)[1..] && grayAgain == [o] + old(grayAgain)
    {
      ghost var l := gray + grayAgain;
      gray := gray[1..];
      grayAgain := [o] + grayAgain;
      Rotated(old(gray), old(grayAgain));
      Reordered(g, colors, white, l, gray + grayAgain, {}, true);
    }

    static lemma Rotated(a: seq<Obj>, b: seq<Obj>)
      requires a != [] && NoDup(a + b)
      ensures NoDup(a[1..] + ([a[0]] + b)) && forall o :: o in a[1..] + ([a[0]] + b) <==> o in a + b
    {
      var l, l', n := a + b, a[1..] + ([a[0]] + b), |a| - 1;
      assert forall i | 0 <= i < |l'| :: l'[i] == if i < n then l[i + 1] else if i == n then l[0] else l[i];
      forall i, j | 0 <= i < j < |l'| ensures l'[i] != l'[j] {
        var x, y := if i < n then i + 1 else if i == n then 0 else i, if j < n then j + 1 else if j == n then 0 else j;
        assert l'[i] == l[x] && l'[j] == l[y] && (x < y || y < x);
      }
      forall o | o in l ensures o in l' {
        var i :| 0 <= i < |l| && l[i] == o;
        assert l'[if i == 0 then n else if i <= n then i - 1 else i] == o;
      }
    }

    /** propagateall, in the atomic phase. */
    method PropagateAll(ghost again: seq<Obj>)
      requires Marking(g, colors, white, gray + again, {}, false)
      modifies `colors, `gray, `grayAgain
      ensures Marking(g, colors, white, again, {}, false) && gray == [] && colors.Keys == old(colors).Keys
      ensures grayAgain == old(grayAgain)
      ensures forall o | o in colors && !IsWhite(old(colors), o) :: !IsWhite(colors, o)
      ensures Precise(g, roots, old(colors)) ==> Precise(g, roots, colors)
    {
      hide Marking, Reachable, Precise;
      while gray != []
        invariant Marking(g, colors, white, gray + again, {}, false) && colors.Keys == old(colors).Keys
        invariant grayAgain == old(grayAgain)
        invariant forall o | o in colors && !IsWhite(old(colors), o) :: !IsWhite(colors, o)
        invariant Precise(g, roots, old(colors)) ==> Precise(g, roots, colors)
        decreases Whites(colors), |gray|
      {
        PropagateMark(again, true);
      }
      assert [] + again == again;
    }

    /** Mark the root set. */
    method MarkRoots(ghost again: seq<Obj>, ghost mutable: bool)
      requires Marking(g, colors, white, gray + again, {}, mutable) && roots <= colors.Keys
      modifies `colors, `gray
      ensures Marking(g, colors, white, gray + again, {}, mutable) && colors.Keys == old(colors).Keys
      ensures forall r | r in roots :: !IsWhite(colors, r)
      ensures Precise(g, roots, old(colors)) ==> Precise(g, roots, colors)
    {
      hide Marking, Reachable, Precise;
      var todo := roots;
      while todo != {}
        invariant todo <= roots && colors.Keys == old(colors).Keys
        invariant Marking(g, colors, white, gray + again, {}, mutable)
        invariant forall r | r in roots && r !in todo :: !IsWhite(colors, r)
        invariant Precise(g, roots, old(colors)) ==> Precise(g, roots, colors)
        decreases todo
      {
        var r :| r in todo;
        ReachRoot(g, roots, r);
        ghost var c := colors;
        MarkObject(r, again, {}, mutable);
        DarkerWhites(c, colors);
        todo := todo - {r};
      }
    }

    // ----- The atomic phase

    /** Finish marking in one step and flip the current white: from here on exactly the unmarked objects are dead. */
    method Atomic()
      requires Valid() && state.EnterAtomic?
      modifies `colors, `gray, `grayAgain, `white
      ensures Sweeping(g, colors, white, roots) && ListOk(colors, swept, unswept) && roots <= colors.Keys
      ensures gray == [] && grayAgain == []
      ensures colors.Keys == old(colors).Keys
      ensures forall o | old(Alive(o)) :: IsBlack(colors, o)
      ensures forall o | o in colors :: colors[o].Black? || Dead(colors, white, o)
      ensures old(Exact()) ==> AliveOnly(g, colors, white, roots)
    {
      hide Marking, NoDup, Reachable, Sweeping;
      Loosened(grayAgain);
      ghost var again := grayAgain;
      var saved := grayAgain;
      grayAgain := [];
      MarkRoots(again, false);
      ghost var c1 := colors;
      PropagateAll(again);
      gray := saved;
      assert gray + [] == again;
      PropagateAll([]);
      AtomicEnd();
      white := !white;
    }

    /** With nothing gray left, what the roots reach is black and the rest is dead once the white is flipped. */
    lemma AtomicEnd()
      requires Marking(g, colors, white, [], {}, false) && (forall r | r in roots :: r in colors && !IsWhite(colors, r))
      ensures Sweeping(g, colors, !white, roots) && forall o | Alive(o) :: IsBlack(colors, o)
      ensures forall o | o in colors :: colors[o].Black? || Dead(colors, !white, o)
    {
      hide Marking, Reachable;
      forall o | Alive(o) ensures IsBlack(colors, o) { AllReachableBlack(g, colors, white, roots, o); }
      Flip(g, colors, white, roots);
      NoGrayLeft();
    }

    lemma NoGrayLeft()
      requires Marking(g, colors, white, [], {}, false)
      ensures forall o | o in colors :: IsWhite(colors, o) || IsBlack(colors, o)
    {
      forall o | o in colors ensures IsWhite(colors, o) || IsBlack(colors, o) { assert !IsGray(colors, o); }
    }

    // ----- Sweeping

    /** sweeplist: visit at most `count` objects of the list, freeing the dead ones and whitening the others. */
    method SweepList(count: nat)
      requires Valid() && state.SwpAllGc?
      modifies `g, `colors, `swept, `unswept
      ensures Valid() && Survives(old(g), g, colors, roots) && colors.Keys <= old(colors).Keys
      ensures unswept == old(unswept)[if count < |old(unswept)| then count else |old(unswept)|..]
      ensures old(Exact()) ==> Exact()
    {
      hide Sweeping, NoDup, ListOk, Survives, AliveOnly;
      SelfSurvives();
      var i := 0;
      while unswept != [] && i < count
        invariant Valid() && i <= |old(unswept)| && unswept == old(unswept)[i..] && i <= count
        invariant old(Exact()) ==> Exact()
        invariant Survives(old(g), g, colors, roots) && colors.Keys <= old(colors).Keys
        decreases |unswept|
      {
        SweepOne(old(g));
        i := i + 1;
      }
    }

    lemma SelfSurvives()
      requires Valid()
      ensures Survives(g, g, colors, roots)
    {
      forall o | Alive(o) ensures o in colors { AliveIsAllocated(o); }
    }

    /** One object of the list: a dead one is freed, which the mutator cannot notice; any other turns white. */
    method SweepOne(ghost g0: Graph)
      requires Valid() && state.SwpAllGc? && unswept != [] && Survives(g0, g, colors, roots)
      modifies `g, `colors, `swept, `unswept
      ensures Valid() && unswept == old(unswept)[1..] && colors.Keys <= old(colors).Keys
      ensures Survives(g0, g, colors, roots) && (old(Exact()) ==> Exact())
      ensures if Dead(old(colors), white, old(unswept)[0])
              then swept == old(swept) && colors == old(colors) - {old(unswept)[0]} && !old(Alive(unswept[0]))
              else swept == old(swept) + [old(unswept)[0]] && colors == old(colors)[old(unswept)[0] := White(white)]
    {
      hide Sweeping, NoDup, Survives, Reachable, AliveOnly;
      var o := unswept[0];
      assert o in swept + unswept;
      ghost var g1, c1 := g, colors;
      RootsKept();
      if colors[o] == White(!white) {
        FreeStep(g, colors, white, roots, swept, unswept);
        g := Freed(g, o);
        colors := colors - {o};
      } else {
        WhitenStep(g, colors, white, roots, swept, unswept);
        colors := colors[o := White(white)];
        swept := swept + [o];
      }
      unswept := unswept[1..];
      SurvivesTrans(g0, g1, c1, g, colors, roots);
    }

    lemma RootsKept()
      requires Valid() && !KeepInvariant(state)
      ensures forall r | r in roots :: !Dead(colors, white, r)
    {
    }

    /** entersweep: start at the front of the list, free the dead objects there and whiten the first other one. */
    method EnterSweep()
      requires ListOk(colors, swept, unswept) && Sweeping(g, colors, white, roots) && roots <= colors.Keys
      requires unswept == []
      modifies `state, `g, `colors, `swept, `unswept
      ensures Valid() && state.SwpAllGc?
      ensures Survives(old(g), g, colors, roots) && colors.Keys <= old(colors).Keys
      ensures AliveOnly(old(g), old(colors), white, roots) ==> Exact()
      ensures var l, k := old(swept), FirstLive(old(colors), white, old(swept), 0);
              if k < |l| then swept == [l[k]] && unswept == l[k + 1..] else swept == [] && unswept == []
    {
      hide Sweeping, NoDup, ListOk, Survives, AliveOnly, SweptTo, FirstLive;
      ghost var l := swept;
      state := SwpAllGc;
      unswept := swept;
      swept := [];
      SameList(colors, l);
      SweptNothing(old(colors), white, l);
      SweepStarted();
      SelfSurvives();
      SweepToLive(l, g, colors);
    }

    /** Sweep until the first object that lives. */
    method SweepToLive(ghost l: seq<Obj>, ghost g0: Graph, ghost c0: Colors)
      requires Valid() && state.SwpAllGc? && (AliveOnly(g0, c0, white, roots) ==> Exact())
      requires Survives(g0, g, colors, roots) && colors.Keys <= c0.Keys
      requires SweptTo(c0, white, l, 0, colors, swept, unswept)
      modifies `g, `colors, `swept, `unswept
      ensures Valid() && (AliveOnly(g0, c0, white, roots) ==> Exact())
      ensures Survives(g0, g, colors, roots) && colors.Keys <= c0.Keys
      ensures var k := FirstLive(c0, white, l, 0);
              if k < |l| then swept == [l[k]] && unswept == l[k + 1..] else swept == [] && unswept == []
    {
      hide Sweeping, NoDup, ListOk, Survives, AliveOnly, SweptTo, FirstLive;
      ghost var k := 0;
      while unswept != [] && swept == []
        invariant Valid() && (AliveOnly(g0, c0, white, roots) ==> Exact())
        invariant Survives(g0, g, colors, roots) && colors.Keys <= c0.Keys
        invariant SweptTo(c0, white, l, k, colors, swept, unswept)
        decreases |unswept|
      {
        HeadApart();
        ghost var c1, u1 := colors, unswept;
        SweepOne(g0);
        SweptNext(c0, white, l, k, c1, u1, colors, swept, unswept);
        if swept == [] { k := k + 1; }
      }
      SweptEnd(c0, white, l, k, colors, swept, unswept);
    }

    /** The sweep starts with the whole list before it. */
    lemma SweepStarted()
      requires Sweeping(g, colors, white, roots) && roots <= colors.Keys && state.SwpAllGc? && swept == []
      requires ListOk(colors, swept, unswept)
      ensures Valid()
    {
    }

    lemma HeadApart()
      requires ListOk(colors, swept, unswept) && unswept != []
      ensures unswept[0] !in unswept[1..] && unswept[0] in colors
    {
      var l, n := swept + unswept, |swept|;
      assert l[n] == unswept[0];
      forall o | o in unswept[1..] ensures o != unswept[0] {
        var i :| 0 <= i < |unswept| - 1 && unswept[1..][i] == o;
        assert l[n + 1 + i] == o;
      }
    }

    // ----- singlestep

    /** restartcollection: clear the gray lists and mark the roots. */
    method StartCycle()
      requires Valid() && state.Pause?
      modifies `state, `colors, `gray, `grayAgain
      ensures Valid() && state.Propagate? && Exact()
      ensures Survives(g, g, colors, roots) && colors.Keys == old(colors).Keys
    {
      hide Marking, Sweeping, NoDup, Survives, Reachable;
      SelfSurvives();
      ghost var c := colors;
      AllWhite();
      Restart(g, colors, white, roots);
      gray, grayAgain := [], [];
      assert gray + grayAgain == [];
      MarkRoots([], true);
      state := Propagate;
      SameGraphSurvives(c);
    }

    /** One step of the collector, whatever its state. Nothing the mutator can reach is freed or changed. */
    method SingleStep()
      requires Valid()
      modifies this
      ensures Valid() && roots == old(roots)
      ensures Survives(old(g), g, colors, roots) && colors.Keys <= old(colors).Keys
      ensures !old(state).SwpAllGc? && !old(state).EnterAtomic? ==> g == old(g) && colors.Keys == old(colors).Keys
      ensures old(state).Pause? || old(Exact()) ==> Exact()
      ensures old(state).Pause? ==> state.Propagate?
      ensures !old(state).Pause? ==>
                || Rank(state) < Rank(old(state))
                || (state == old(state) == Propagate && Whites(colors) < Whites(old(colors)))
                || (state == old(state) == Propagate && Whites(colors) == Whites(old(colors)) && |gray| < |old(gray)|)
                || (state == old(state) == SwpAllGc && |unswept| < |old(unswept)|)
    {
      hide Marking, Sweeping, NoDup, Survives, AliveOnly, Reachable, Precise, ListOk;
      SelfSurvives();
      ghost var c := colors;
      match state
      case Pause => StartCycle();
      case Propagate =>
        if gray == [] {
          state := EnterAtomic;
        } else {
          PropagateMark(grayAgain, false);
          SameKeysList(c, colors, swept, unswept);
          SameGraphSurvives(c);
        }
      case EnterAtomic =>
        Atomic();
        EnterSweep();
      case SwpAllGc =>
        if unswept != [] {
          SweepList(GC_SWEEP_MAX);
        } else {
          state := SwpFinObj(true);
        }
      // The lists of these two states are empty, which takes a step to find out.
      case SwpFinObj(pending) => state := if pending then SwpFinObj(false) else SwpToBeFnz(true);
      case SwpToBeFnz(pending) => state := if pending then SwpToBeFnz(false) else SwpEnd;
      case SwpEnd => state := CallFin;
      case CallFin => state := Pause;
    }

    lemma SameGraphSurvives(c: Colors)
      requires Survives(g, g, c, roots) && colors.Keys == c.Keys
      ensures Survives(g, g, colors, roots)
    {
    }

    lemma AllWhite()
      requires Valid() && !KeepInvariant(state) && unswept == []
      ensures forall o | o in colors :: colors[o] == White(white)
    {
      assert swept + unswept == swept;
    }

    // ----- luaC_fullgc

    method RunUntilPause()
      requires Valid()
      modifies this
      ensures Valid() && state.Pause? && roots == old(roots)
      ensures Survives(old(g), g, colors, roots) && colors.Keys <= old(colors).Keys
      ensures old(Exact()) ==> Exact()
    {
      hide Valid, Survives, Exact;
      SelfSurvives();
      while !state.Pause?
        invariant Valid() && roots == old(roots) && (old(Exact()) ==> Exact())
        invariant Survives(old(g), g, colors, roots) && colors.Keys <= old(colors).Keys
        decreases Rank(state), if state.Propagate? then Whites(colors) else {},
                  if state.Propagate? then |gray| else |unswept|
      {
        ghost var g1, c1 := g, colors;
        SingleStep();
        SurvivesTrans(old(g), g1, c1, g, colors, roots);
      }
    }

    /** A full collection keeps exactly the reachable objects, and leaves their references as they were. */
    method FullGc()
      requires Valid()
      modifies this
      ensures Valid() && state.Pause? && roots == old(roots)
      ensures forall o :: o in colors <==> old(Alive(o))
      ensures forall o | o in colors :: o in g.refs && o in old(g.refs) && g.refs[o] == old(g.refs[o])
    {
      hide Marking, Sweeping, NoDup, Reachable, Survives;
      SelfSurvives();
      if KeepInvariant(state) {
        NoFlip(g, colors, white, gray + grayAgain, roots);
        EnterSweep();
      }
      ghost var g1, c1 := g, colors;
      RunUntilPause();
      SurvivesTrans(old(g), g1, c1, g, colors, roots);
      ghost var g2, c2 := g, colors;
      SingleStep();
      SurvivesTrans(old(g), g2, c2, g, colors, roots);
      ghost var g3, c3 := g, colors;
      RunUntilPause();
      SurvivesTrans(old(g), g3, c3, g, colors, roots);
      ExactlyAlive(old(g));
    }

    lemma ExactlyAlive(g0: Graph)
      requires Valid() && state.Pause? && Exact() && Survives(g0, g, colors, roots)
      ensures forall o :: o in colors <==> Reachable(g0, roots, o)
      ensures forall o | o in colors :: o in g.refs && o in g0.refs && g.refs[o] == g0.refs[o]
    {
      hide Sweeping, Reachable, ListOk, NoDup;
      RefsOf(g, colors, white, roots);
      AllWhite();
      forall o | o in colors ensures Reachable(g0, roots, o) {
        NotDeadAlive(o);
        SameReach(g0, o);
      }
    }

    lemma NotDeadAlive(o: Obj)
      requires !KeepInvariant(state) && Exact() && o in colors && colors[o] == White(white)
      ensures Alive(o)
    {
      hide Reachable;
    }

    lemma SameReach(g0: Graph, o: Obj)
      requires Alive(o) && Survives(g0, g, colors, roots) && g.refs.Keys == colors.Keys
      ensures Reachable(g0, roots, o)
    {
      hide Reachable;
      var S := iset x | Reachable(g0, roots, x);
      forall r | r in roots ensures r in S { ReachRoot(g0, roots, r); }
      forall x, v | x in S && x in g.refs && v in g.refs[x] ensures v in S { ReachNext(g0, roots, x, v); }
      Reached(g, roots, S, o);
    }

    // ----- The mutator and its barriers

    /** Between a store into o and its barrier, o alone may break the invariant. */
    ghost predicate Pending(o: Obj)
      reads this
    {
      && ListOk(colors, swept, unswept) && roots <= colors.Keys
      && (KeepInvariant(state) ==> Marking(g, colors, white, gray + grayAgain, {o}, true) && unswept == [])
      && (!KeepInvariant(state) ==> Sweeping(g, colors, white, roots) && AllCurrent(colors, white, swept))
      && (!state.SwpAllGc? ==> unswept == [])
    }

    lemma Settled(o: Obj)
      requires Pending(o) && o in colors
      requires KeepInvariant(state) && IsBlack(colors, o) ==>
                 o in g.refs && RefsMarked(g, colors, o) && !g.kind[o].Thread?
      ensures Valid()
    {
      if KeepInvariant(state) {
        assert {} + {o} == {o};
        Visited(g, colors, white, gray + grayAgain, {}, true, o);
      }
    }

    /** luaC_barrier_: in the mark phase the new target is marked; in a sweep the written object is whitened. */
    method BarrierForward(o: Obj, v: Obj)
      requires Pending(o) && IsBlack(colors, o) && IsWhite(colors, v) && !Dead(colors, white, v)
      requires o in g.refs && o in g.kind && !g.kind[o].Thread?
      requires forall x | x in g.refs[o] && x != v :: !IsWhite(colors, x) || !KeepInvariant(state)
      modifies `colors, `gray
      ensures Valid() && colors.Keys == old(colors).Keys
      ensures KeepInvariant(state) ==> !IsWhite(colors, v) && Darker(old(colors), colors)
      ensures !KeepInvariant(state) ==> colors == old(colors)[o := White(white)] && gray == old(gray)
    {
      hide Marking, Sweeping, NoDup;
      if KeepInvariant(state) {
        ghost var c := colors;
        ReallyMarkObject(v, grayAgain, {o}, true);
        DarkerWhites(c, colors);
        assert RefsMarked(g, colors, o);
      } else {
        RecolorSweeping(g, colors, white, roots, o, White(white));
        colors := colors[o := White(white)];
      }
      Settled(o);
    }

    /** luaC_barrierback_: the written object turns gray again, to be visited in the atomic phase. */
    method BarrierBack(o: Obj)
      requires Pending(o) && IsBlack(colors, o) && o in g.kind && g.kind[o].Traversed?
      modifies `colors, `grayAgain
      ensures Valid() && colors == old(colors)[o := Gray] && grayAgain == [o] + old(grayAgain)
    {
      hide Sweeping;
      if KeepInvariant(state) {
        Inserted(gray, grayAgain, o);
        BackMarking(g, colors, white, gray + grayAgain, gray + ([o] + grayAgain), o);
      } else {
        RecolorSweeping(g, colors, white, roots, o, Gray);
        BlackIsUnswept(o);
      }
      colors := colors[o := Gray];
      grayAgain := [o] + grayAgain;
    }

    lemma BlackIsUnswept(o: Obj)
      requires AllCurrent(colors, white, swept) && IsBlack(colors, o)
      ensures o !in swept
    {
    }

    static lemma Inserted(a: seq<Obj>, b: seq<Obj>, o: Obj)
      requires NoDup(a + b) && o !in a + b
      ensures NoDup(a + ([o] + b)) && forall p :: p in a + ([o] + b) <==> p in a + b || p == o
    {
      var l, l', n := a + b, a + ([o] + b), |a|;
      assert forall i | 0 <= i < |l'| :: l'[i] == if i < n then l[i] else if i == n then o else l[i - 1];
      assert l'[n] == o;
      forall p | p in l ensures p in l' {
        var i :| 0 <= i < |l| && l[i] == p;
        assert l'[if i < n then i else i + 1] == p;
      }
      forall i, j | 0 <= i < j < |l'| ensures l'[i] != l'[j] {
        if i == n { assert l'[j] == l[j - 1] && l[j - 1] in l; }
        else if j == n { assert l'[i] == l[i] && l[i] in l; }
        else { assert l'[i] == l[if i < n then i else i - 1] && l'[j] == l[if j < n then j else j - 1]; }
      }
    }

    /** The mutator makes o refer to v and to what it keeps of its former references, then runs the barrier of its
        choice: the backward one only for objects that can be listed. */
    method StoreRef(o: Obj, kept: seq<Obj>, v: Obj, back: bool)
      requires Valid() && Alive(o) && Alive(v)
      requires o in g.kind && !g.kind[o].Leaf? && !g.kind[o].Thread? && (back ==> g.kind[o].Traversed?)
      requires o in g.refs && forall x | x in kept :: x in g.refs[o]
      modifies `g, `colors, `gray, `grayAgain
      ensures Valid() && colors.Keys == old(colors).Keys && g == WithRefs(old(g), o, kept + [v])
    {
      hide Marking, Sweeping, NoDup, Reachable;
      AliveIsAllocated(o); AliveIsAllocated(v);
      KeptAlive(o, kept);
      if KeepInvariant(state) {
        StoreMarking(g, colors, white, gray + grayAgain, true, o, kept + [v]);
      } else {
        StoreSweeping(g, colors, white, roots, o, kept + [v]);
      }
      g := WithRefs(g, o, kept + [v]);
      if colors[o].Black? && colors[v].White? {
        if back {
          BarrierBack(o);
        } else {
          BarrierForward(o, v);
        }
      } else {
        Settled(o);
      }
    }

    /** The mutator overwrites references of o with values that are no objects: the barrier does nothing. */
    method DropRefs(o: Obj, kept: seq<Obj>)
      requires Valid() && Alive(o) && o in g.kind && !g.kind[o].Leaf? && !g.kind[o].Thread?
      requires o in g.refs && forall x | x in kept :: x in g.refs[o]
      modifies `g
      ensures Valid() && g == WithRefs(old(g), o, kept)
    {
      hide Marking, Sweeping, NoDup, Reachable;
      AliveIsAllocated(o);
      KeptAlive(o, kept);
      if KeepInvariant(state) {
        StoreMarking(g, colors, white, gray + grayAgain, true, o, kept);
      } else {
        StoreSweeping(g, colors, white, roots, o, kept);
      }
      g := WithRefs(g, o, kept);
      Settled(o);
    }

    lemma KeptAlive(o: Obj, kept: seq<Obj>)
      requires Valid() && o in colors && !Dead(colors, white, o) && o in g.refs
      requires forall x | x in kept :: x in g.refs[o]
      ensures forall x | x in kept :: x in colors && !Dead(colors, white, x)
      ensures KeepInvariant(state) && IsBlack(colors, o) ==> forall x | x in kept :: !IsWhite(colors, x)
    {
      if KeepInvariant(state) {
        NoFlip(g, colors, white, gray + grayAgain, roots);
        assert Closed(g, colors, o);
        if IsBlack(colors, o) { assert RefsMarked(g, colors, o); }
      } else {
        assert KeepsAlive(g, colors, white, o);
      }
    }

    /** The mutator writes its stack: threads have no barrier. */
    method StoreStack(th: Obj, rs: seq<Obj>)
      requires Valid() && Alive(th) && th in g.kind && g.kind[th].Thread? && forall v | v in rs :: Alive(v)
      modifies `g
      ensures Valid() && g == WithRefs(old(g), th, rs)
    {
      hide Marking, Sweeping, NoDup, Reachable;
      AliveIsAllocated(th);
      forall v | v in rs ensures v in colors && !Dead(colors, white, v) { AliveIsAllocated(v); }
      ThreadNotBlack(th);
      if KeepInvariant(state) {
        StoreMarking(g, colors, white, gray + grayAgain, true, th, rs);
      } else {
        StoreSweeping(g, colors, white, roots, th, rs);
      }
      g := WithRefs(g, th, rs);
      Settled(th);
    }

    lemma ThreadNotBlack(th: Obj)
      requires Valid() && th in g.kind && g.kind[th].Thread?
      ensures KeepInvariant(state) ==> !IsBlack(colors, th)
    {
    }

    /** luaC_newobj: a new object is current white, goes to the front of the list and onto the stack of a thread. */
    method NewObject(o: Obj, kind: Kind, th: Obj)
      requires Valid() && o !in colors && Alive(th) && th in g.kind && g.kind[th].Thread? && th in g.refs
      modifies `g, `colors, `swept
      ensures Valid() && colors == old(colors)[o := White(white)]
      ensures g == WithRefs(Added(old(g), o, kind), th, old(g.refs)[th] + [o])
    {
      hide Marking, Sweeping, NoDup, Reachable, ListOk;
      AliveIsAllocated(th);
      KeptAlive(th, g.refs[th]);
      ThreadNotBlack(th);
      ghost var rs := g.refs[th] + [o];
      if KeepInvariant(state) {
        NewMarking(g, colors, white, gray + grayAgain, o, kind);
        StoreMarking(Added(g, o, kind), colors[o := White(white)], white, gray + grayAgain, true, th, rs);
      } else {
        NewSweeping(g, colors, white, roots, o, kind);
        StoreSweeping(Added(g, o, kind), colors[o := White(white)], white, roots, th, rs);
      }
      FrontedList(colors, swept, unswept, o, white);
      g := WithRefs(Added(g, o, kind), th, g.refs[th] + [o]);
      colors := colors[o := White(white)];
      swept := [o] + swept;
      Settled(th);
    }

    static lemma FrontedList(c: Colors, a: seq<Obj>, b: seq<Obj>, o: Obj, white: bool)
      requires ListOk(c, a, b) && o !in c
      ensures ListOk(c[o := White(white)], [o] + a, b)
      ensures AllCurrent(c, white, a) ==> AllCurrent(c[o := White(white)], white, [o] + a)
    {
      hide NoDup;
      Fronted(a, b, o);
      assert forall x | x in [o] + a :: x == o || x in a;
      assert forall x | x in a :: x in a + b;
    }

    static lemma Fronted(a: seq<Obj>, b: seq<Obj>, o: Obj)
      requires NoDup(a + b) && o !in a + b
      ensures NoDup(([o] + a) + b) && forall p :: p in ([o] + a) + b <==> p in a + b || p == o
    {
      Inserted([], a + b, o);
      assert [] + (a + b) == a + b && [] + ([o] + (a + b)) == ([o] + a) + b;
    }

    /** The host changes the registry, a global metatable or the running thread: no barrier either. */
    method SetRoots(rs: set<Obj>)
      requires Valid() && forall r | r in rs :: Alive(r)
      modifies `roots
      ensures Valid() && roots == rs
    {
      hide Marking, NoDup, Reachable;
      forall r | r in rs ensures r in colors && !Dead(colors, white, r) { AliveIsAllocated(r); }
      roots := rs;
    }
  }
}
