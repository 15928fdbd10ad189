/** The tri-colour invariant of the incremental collector, on the object graph (3rdparty/lua/lgc.h:17-27, 48-56). */
module TriColor {

  type Obj = nat

  /** White comes in two shades; a sweep frees the shade that is not current. */
  datatype Color = White(shade: bool) | Gray | Black

  /** How marking treats an object: strings hold nothing; closed upvalues and userdata without user values are
      visited on the spot; threads are traversed like the rest but have no write barrier. */
  datatype Kind = Leaf | OnTheSpot | Traversed | Thread

  /** The objects and what they refer to. */
  datatype Graph = Graph(kind: map<Obj, Kind>, refs: map<Obj, seq<Obj>>)

  type Colors = map<Obj, Color>

  ghost predicate IsWhite(c: Colors, o: Obj) { o in c && c[o].White? }
  ghost predicate IsBlack(c: Colors, o: Obj) { o in c && c[o].Black? }
  ghost predicate IsGray(c: Colors, o: Obj) { o in c && c[o].Gray? }

  /** Everything o refers to exists. */
  ghost predicate Closed(g: Graph, c: Colors, o: Obj)
    requires o in g.refs
  {
    forall v | v in g.refs[o] :: v in c
  }

  ghost predicate GraphOk(g: Graph, c: Colors)
  {
    && g.kind.Keys == c.Keys && g.refs.Keys == c.Keys
    && (forall o | o in c && g.kind[o].Leaf? :: g.refs[o] == [])
  }

  /** Every reference of o leads to a marked object. */
  ghost predicate RefsMarked(g: Graph, c: Colors, o: Obj)
    requires o in g.refs
  {
    forall v | v in g.refs[o] :: !IsWhite(c, v)
  }

  ghost predicate NoDup(l: seq<Obj>)
  {
    forall i, j | 0 <= i < j < |l| :: l[i] != l[j]
  }

  /** Exactly the gray objects are listed, each once; only objects with a list link are. */
  ghost predicate GrayListed(g: Graph, c: Colors, list: seq<Obj>)
    requires g.kind.Keys == c.Keys
  {
    && NoDup(list)
    && (forall o | o in list :: IsGray(c, o) && (g.kind[o].Traversed? || g.kind[o].Thread?))
    && (forall o | IsGray(c, o) :: o in list)
  }

  /** The invariant of the mark phase. X holds the objects being visited, `list` both gray lists. While the mutator
      may run, threads are never black. */
  ghost predicate Marking(g: Graph, c: Colors, white: bool, list: seq<Obj>, X: set<Obj>, mutable: bool)
  {
    && GraphOk(g, c)
    && (forall o {:trigger Closed(g, c, o)} | o in c :: Closed(g, c, o))
    && (forall o | IsWhite(c, o) :: c[o].shade == white)
    && (forall o {:trigger RefsMarked(g, c, o)} | IsBlack(c, o) && o !in X :: RefsMarked(g, c, o))
    && GrayListed(g, c, list)
    && (mutable ==> forall o | IsBlack(c, o) && o !in X :: !g.kind[o].Thread?)
  }

  /** Marking only turns white objects gray or black. */
  ghost predicate Darker(c: Colors, c': Colors)
  {
    && c'.Keys == c.Keys
    && forall o | o in c && !c[o].White? :: c'[o] == c[o]
  }

  ghost function Whites(c: Colors): set<Obj> { set o | o in c && c[o].White? }

  lemma DarkerTrans(c: Colors, c1: Colors, c2: Colors)
    requires Darker(c, c1) && Darker(c1, c2)
    ensures Darker(c, c2)
  {
  }

  lemma DarkerWhites(c: Colors, c': Colors)
    requires Darker(c, c')
    ensures Whites(c') <= Whites(c)
    ensures forall o | o in c && !IsWhite(c, o) :: !IsWhite(c', o)
  {
  }

  // ----- Marking one object

  /** A white string turns black. */
  lemma MarkLeaf(g: Graph, c: Colors, white: bool, list: seq<Obj>, X: set<Obj>, mutable: bool, o: Obj)
    requires Marking(g, c, white, list, X, mutable) && IsWhite(c, o) && g.kind[o].Leaf?
    ensures Marking(g, c[o := Black], white, list, X, mutable) && Darker(c, c[o := Black])
  {
    Blacken(g, c, white, list, X, mutable, o);
    var c' := c[o := Black];
    assert RefsMarked(g, c', o);
  }

  /** A white object turned black is exempt until its references are marked. */
  lemma Blacken(g: Graph, c: Colors, white: bool, list: seq<Obj>, X: set<Obj>, mutable: bool, o: Obj)
    requires Marking(g, c, white, list, X, mutable) && IsWhite(c, o)
    ensures Marking(g, c[o := Black], white, list, X + {o}, mutable) && Darker(c, c[o := Black])
    ensures Whites(c[o := Black]) < Whites(c)
  {
    var c' := c[o := Black];
    forall p | p in c' ensures Closed(g, c', p) { assert Closed(g, c, p); }
    forall p | IsBlack(c', p) && p !in X + {o} ensures RefsMarked(g, c', p) { assert RefsMarked(g, c, p); }
    assert o in Whites(c) && o !in Whites(c');
    assert Whites(c') <= Whites(c);
  }

  /** Once its references are marked, a visited object needs no exemption. */
  lemma Visited(g: Graph, c: Colors, white: bool, list: seq<Obj>, X: set<Obj>, mutable: bool, o: Obj)
    requires Marking(g, c, white, list, X + {o}, mutable) && o in c && (IsBlack(c, o) ==> RefsMarked(g, c, o))
    requires mutable && IsBlack(c, o) ==> !g.kind[o].Thread?
    ensures Marking(g, c, white, list, X, mutable)
  {
  }

  /** A white object with a list link turns gray and joins the list. */
  lemma MarkGray(g: Graph, c: Colors, white: bool, list: seq<Obj>, X: set<Obj>, mutable: bool, o: Obj)
    requires Marking(g, c, white, list, X, mutable) && IsWhite(c, o) && (g.kind[o].Traversed? || g.kind[o].Thread?)
    ensures Marking(g, c[o := Gray], white, [o] + list, X, mutable) && Darker(c, c[o := Gray])
    ensures Whites(c[o := Gray]) < Whites(c)
  {
    var c', l' := c[o := Gray], [o] + list;
    forall p | p in c' ensures Closed(g, c', p) { assert Closed(g, c, p); }
    forall p | IsBlack(c', p) && p !in X ensures RefsMarked(g, c', p) { assert RefsMarked(g, c, p); }
    assert o !in list;
    assert NoDup(l');
    assert o in Whites(c) && o !in Whites(c');
    assert Whites(c') <= Whites(c);
  }

  /** The head of the gray list leaves it and turns black, exempt until its references are marked. */
  lemma PopGray(g: Graph, c: Colors, white: bool, list: seq<Obj>, X: set<Obj>, mutable: bool)
    requires Marking(g, c, white, list, X, mutable) && list != []
    ensures var o := list[0];
            && IsGray(c, o) && Marking(g, c[o := Black], white, list[1..], X + {o}, mutable)
            && Whites(c[o := Black]) == Whites(c)
  {
    var o := list[0];
    assert o in list;
    var c', l' := c[o := Black], list[1..];
    forall p | p in c' ensures Closed(g, c', p) { assert Closed(g, c, p); }
    forall p | IsBlack(c', p) && p !in X + {o} ensures RefsMarked(g, c', p) { assert RefsMarked(g, c, p); }
    forall p | IsGray(c', p) ensures p in l' {
      assert p in list;
      var i :| 0 <= i < |list| && list[i] == p;
      assert l'[i - 1] == p;
    }
    forall p | p in l' ensures IsGray(c', p) && (g.kind[p].Traversed? || g.kind[p].Thread?) {
      var i :| 0 <= i < |l'| && l'[i] == p;
      assert list[i + 1] == p && p in list;
    }
    assert NoDup(l');
  }

  /** The lists may be reordered. */
  lemma Reordered(g: Graph, c: Colors, white: bool, list: seq<Obj>, list': seq<Obj>, X: set<Obj>, mutable: bool)
    requires Marking(g, c, white, list, X, mutable) && NoDup(list') && forall o :: o in list' <==> o in list
    ensures Marking(g, c, white, list', X, mutable)
  {
  }

  // ----- Reachability

  /** p leads from a root along references. */
  ghost predicate IsPath(g: Graph, roots: set<Obj>, p: seq<Obj>)
  {
    && p != [] && p[0] in roots
    && forall i | 0 <= i < |p| - 1 :: p[i] in g.refs && p[i + 1] in g.refs[p[i]]
  }

  ghost predicate Reachable(g: Graph, roots: set<Obj>, o: Obj)
  {
    exists p :: IsPath(g, roots, p) && p[|p| - 1] == o
  }

  /** A set that holds the roots and what its members refer to holds everything reachable. */
  lemma {:induction false} ReachClosed(g: Graph, roots: set<Obj>, S: iset<Obj>, p: seq<Obj>)
    requires IsPath(g, roots, p) && (forall o | o in roots :: o in S)
    requires forall o, v | o in S && o in g.refs && v in g.refs[o] :: v in S
    ensures p[|p| - 1] in S
    decreases |p|
  {
    if |p| > 1 {
      var q := p[..|p| - 1];
      assert forall i | 0 <= i < |q| - 1 :: q[i] in g.refs && q[i + 1] in g.refs[q[i]] by {
        forall i | 0 <= i < |q| - 1 ensures q[i] in g.refs && q[i + 1] in g.refs[q[i]] {
          assert p[i] in g.refs && p[i + 1] in g.refs[p[i]];
        }
      }
      ReachClosed(g, roots, S, q);
      assert p[|p| - 2] in g.refs && p[|p| - 1] in g.refs[p[|p| - 2]];
    }
  }

  lemma Reached(g: Graph, roots: set<Obj>, S: iset<Obj>, o: Obj)
    requires (forall r | r in roots :: r in S) && Reachable(g, roots, o)
    requires forall x, v | x in S && x in g.refs && v in g.refs[x] :: v in S
    ensures o in S
  {
    var p :| IsPath(g, roots, p) && p[|p| - 1] == o;
    ReachClosed(g, roots, S, p);
  }

  /** With nothing gray and the roots marked, everything reachable is black: the end of the mark phase. */
  lemma AllReachableBlack(g: Graph, c: Colors, white: bool, roots: set<Obj>, o: Obj)
    requires Marking(g, c, white, [], {}, false) && (forall r | r in roots :: r in c && !IsWhite(c, r))
    requires Reachable(g, roots, o)
    ensures IsBlack(c, o)
  {
    var S := iset x | IsBlack(c, x);
    forall r | r in roots ensures r in S { assert !IsGray(c, r); }
    forall x, v | x in S && x in g.refs && v in g.refs[x] ensures v in S {
      assert RefsMarked(g, c, x) && Closed(g, c, x);
      assert !IsGray(c, v);
    }
    Reached(g, roots, S, o);
  }

  // ----- Sweeping

  ghost predicate Dead(c: Colors, white: bool, o: Obj) { o in c && c[o] == White(!white) }

  /** What is not dead refers only to objects that are not dead. */
  ghost predicate KeepsAlive(g: Graph, c: Colors, white: bool, o: Obj)
    requires o in g.refs
  {
    forall v | v in g.refs[o] :: v in c && !Dead(c, white, v)
  }

  /** The invariant of the sweep and pause phases. */
  ghost predicate Sweeping(g: Graph, c: Colors, white: bool, roots: set<Obj>)
  {
    && GraphOk(g, c)
    && (forall r | r in roots :: r in c && !Dead(c, white, r))
    && (forall o {:trigger KeepsAlive(g, c, white, o)} | o in c && !Dead(c, white, o) :: KeepsAlive(g, c, white, o))
  }

  /** No reachable object is dead: a sweep cannot free it. */
  lemma ReachableNotDead(g: Graph, c: Colors, white: bool, roots: set<Obj>, o: Obj)
    requires Sweeping(g, c, white, roots) && Reachable(g, roots, o)
    ensures o in c && !Dead(c, white, o)
  {
    var S := iset x | x in c && !Dead(c, white, x);
    forall x, v | x in S && x in g.refs && v in g.refs[x] ensures v in S { assert KeepsAlive(g, c, white, x); }
    Reached(g, roots, S, o);
  }

  /** Flipping the current white after marking: exactly the unmarked objects become dead. */
  lemma Flip(g: Graph, c: Colors, white: bool, roots: set<Obj>)
    requires Marking(g, c, white, [], {}, false) && (forall r | r in roots :: r in c && !IsWhite(c, r))
    ensures Sweeping(g, c, !white, roots)
    ensures forall o | o in c :: Dead(c, !white, o) <==> IsWhite(c, o)
  {
    forall o | o in c && !Dead(c, !white, o) ensures KeepsAlive(g, c, !white, o) {
      assert !IsGray(c, o) && IsBlack(c, o);
      assert RefsMarked(g, c, o) && Closed(g, c, o);
    }
  }

  /** Entering a sweep without flipping: nothing is dead, so nothing will be freed. */
  lemma NoFlip(g: Graph, c: Colors, white: bool, list: seq<Obj>, roots: set<Obj>)
    requires Marking(g, c, white, list, {}, true) && (forall r | r in roots :: r in c)
    ensures Sweeping(g, c, white, roots) && forall o :: !Dead(c, white, o)
  {
    forall o | o in c ensures KeepsAlive(g, c, white, o) { assert Closed(g, c, o); }
  }

  /** Sweeping a live object turns it current white. */
  lemma SweepLive(g: Graph, c: Colors, white: bool, roots: set<Obj>, o: Obj)
    requires Sweeping(g, c, white, roots) && o in c && !Dead(c, white, o)
    ensures Sweeping(g, c[o := White(white)], white, roots)
  {
    var c' := c[o := White(white)];
    forall p | p in c' && !Dead(c', white, p) ensures KeepsAlive(g, c', white, p) { assert KeepsAlive(g, c, white, p); }
  }

  function Freed(g: Graph, o: Obj): Graph { Graph(g.kind - {o}, g.refs - {o}) }

  /** Sweeping a dead object frees it; no live object notices. */
  lemma SweepDead(g: Graph, c: Colors, white: bool, roots: set<Obj>, o: Obj)
    requires Sweeping(g, c, white, roots) && Dead(c, white, o)
    ensures Sweeping(Freed(g, o), c - {o}, white, roots)
    ensures !Reachable(g, roots, o)
  {
    var g', c' := Freed(g, o), c - {o};
    forall p | p in c' && !Dead(c', white, p)
      ensures KeepsAlive(g', c', white, p)
    {
      assert KeepsAlive(g, c, white, p);
    }
    if Reachable(g, roots, o) { ReachableNotDead(g, c, white, roots, o); }
  }

  // ----- The mutator

  function WithRefs(g: Graph, o: Obj, rs: seq<Obj>): Graph { g.(refs := g.refs[o := rs]) }

  /** A store makes o exempt until a barrier has dealt with it. */
  lemma StoreMarking(g: Graph, c: Colors, white: bool, list: seq<Obj>, mutable: bool, o: Obj, rs: seq<Obj>)
    requires Marking(g, c, white, list, {}, mutable) && o in c && !g.kind[o].Leaf? && (forall v | v in rs :: v in c)
    ensures Marking(WithRefs(g, o, rs), c, white, list, {o}, mutable)
  {
    var g' := WithRefs(g, o, rs);
    forall p | p in c ensures Closed(g', c, p) { assert Closed(g, c, p); }
    forall p | IsBlack(c, p) && p !in {o} ensures RefsMarked(g', c, p) { assert RefsMarked(g, c, p); }
  }

  /** The backward barrier turns the written black object gray again and lists it. */
  lemma BackMarking(g: Graph, c: Colors, white: bool, list: seq<Obj>, list': seq<Obj>, o: Obj)
    requires Marking(g, c, white, list, {o}, true) && IsBlack(c, o) && g.kind[o].Traversed?
    requires NoDup(list') && forall p :: p in list' <==> p in list || p == o
    ensures Marking(g, c[o := Gray], white, list', {}, true)
  {
    hide NoDup;
    var c' := c[o := Gray];
    assert GrayListed(g, c', list') by {
      forall p | p in list'
        ensures IsGray(c', p) && (g.kind[p].Traversed? || g.kind[p].Thread?)
      {
        assert p in list || p == o;
      }
      forall p | IsGray(c', p) ensures p in list' { assert p != o ==> IsGray(c, p); }
    }
    forall p | p in c' ensures Closed(g, c', p) { assert Closed(g, c, p); }
    forall p | IsBlack(c', p) ensures RefsMarked(g, c', p) { assert RefsMarked(g, c, p); }
  }

  lemma StoreSweeping(g: Graph, c: Colors, white: bool, roots: set<Obj>, o: Obj, rs: seq<Obj>)
    requires Sweeping(g, c, white, roots) && o in c && !g.kind[o].Leaf?
    requires forall v | v in rs :: v in c && !Dead(c, white, v)
    ensures Sweeping(WithRefs(g, o, rs), c, white, roots)
  {
    var g' := WithRefs(g, o, rs);
    forall p | p in c && !Dead(c, white, p) ensures KeepsAlive(g', c, white, p) { assert KeepsAlive(g, c, white, p); }
  }

  /** Any change of colour that kills nothing. */
  lemma RecolorSweeping(g: Graph, c: Colors, white: bool, roots: set<Obj>, o: Obj, k: Color)
    requires Sweeping(g, c, white, roots) && o in c && !Dead(c, white, o) && k != White(!white)
    ensures Sweeping(g, c[o := k], white, roots)
  {
    var c' := c[o := k];
    forall p | p in c' && !Dead(c', white, p) ensures KeepsAlive(g, c', white, p) { assert KeepsAlive(g, c, white, p); }
  }

  function Added(g: Graph, o: Obj, kind: Kind): Graph { Graph(g.kind[o := kind], g.refs[o := []]) }

  lemma NewMarking(g: Graph, c: Colors, white: bool, list: seq<Obj>, o: Obj, kind: Kind)
    requires Marking(g, c, white, list, {}, true) && o !in c
    ensures Marking(Added(g, o, kind), c[o := White(white)], white, list, {}, true)
  {
    hide GrayListed, Closed, RefsMarked;
    var g', c' := Added(g, o, kind), c[o := White(white)];
    forall p | p in c' ensures Closed(g', c', p) {
      if p != o { assert Closed(g, c, p); }
      NewClosed(g, c, white, o, kind, p);
    }
    forall p | IsBlack(c', p) ensures RefsMarked(g', c', p) {
      assert IsBlack(c, p) && RefsMarked(g, c, p) && Closed(g, c, p);
      NewMarked(g, c, white, o, kind, p);
    }
    NewGrayListed(g, c, white, list, o, kind);
  }

  lemma NewClosed(g: Graph, c: Colors, white: bool, o: Obj, kind: Kind, p: Obj)
    requires p == o || (p in g.refs && Closed(g, c, p))
    ensures Closed(Added(g, o, kind), c[o := White(white)], p)
  {
  }

  lemma NewMarked(g: Graph, c: Colors, white: bool, o: Obj, kind: Kind, p: Obj)
    requires p != o && p in g.refs && Closed(g, c, p) && RefsMarked(g, c, p) && o !in c
    ensures RefsMarked(Added(g, o, kind), c[o := White(white)], p)
  {
  }

  lemma NewGrayListed(g: Graph, c: Colors, white: bool, list: seq<Obj>, o: Obj, kind: Kind)
    requires g.kind.Keys == c.Keys && GrayListed(g, c, list) && o !in c
    ensures Added(g, o, kind).kind.Keys == c[o := White(white)].Keys
    ensures GrayListed(Added(g, o, kind), c[o := White(white)], list)
  {
    hide NoDup;
    assert forall p | IsGray(c[o := White(white)], p) :: IsGray(c, p);
  }

  lemma NewSweeping(g: Graph, c: Colors, white: bool, roots: set<Obj>, o: Obj, kind: Kind)
    requires Sweeping(g, c, white, roots) && o !in c
    ensures Sweeping(Added(g, o, kind), c[o := White(white)], white, roots)
  {
    var g', c' := Added(g, o, kind), c[o := White(white)];
    forall p | p in c' && !Dead(c', white, p) ensures KeepsAlive(g', c', white, p) {
      if p != o { assert KeepsAlive(g, c, white, p); }
    }
  }

  /** With every object current white, marking can start from empty lists. */
  lemma Restart(g: Graph, c: Colors, white: bool, roots: set<Obj>)
    requires Sweeping(g, c, white, roots) && forall o | o in c :: c[o] == White(white)
    ensures Marking(g, c, white, [], {}, true)
  {
    forall o | o in c ensures Closed(g, c, o) { assert KeepsAlive(g, c, white, o); }
  }

  /** Freeing a dead object cuts no path from the roots. */
  lemma ReachFreed(g: Graph, c: Colors, white: bool, roots: set<Obj>, o: Obj, x: Obj)
    requires Sweeping(g, c, white, roots) && Dead(c, white, o) && Reachable(g, roots, x)
    ensures Reachable(Freed(g, o), roots, x)
  {
    var p :| IsPath(g, roots, p) && p[|p| - 1] == x;
    PathFreed(g, c, white, roots, o, p);
    assert IsPath(Freed(g, o), roots, p);
  }

  lemma {:induction false} PathFreed(g: Graph, c: Colors, white: bool, roots: set<Obj>, o: Obj, p: seq<Obj>)
    requires Sweeping(g, c, white, roots) && Dead(c, white, o) && IsPath(g, roots, p)
    ensures IsPath(Freed(g, o), roots, p) && p[|p| - 1] in c && !Dead(c, white, p[|p| - 1])
    decreases |p|
  {
    if |p| > 1 {
      var q := p[..|p| - 1];
      assert IsPath(g, roots, q) by {
        forall i | 0 <= i < |q| - 1 ensures q[i] in g.refs && q[i + 1] in g.refs[q[i]] {
          assert p[i] in g.refs && p[i + 1] in g.refs[p[i]];
        }
      }
      PathFreed(g, c, white, roots, o, q);
      var y := q[|q| - 1];
      assert p[|p| - 2] in g.refs && p[|p| - 1] in g.refs[p[|p| - 2]];
      assert KeepsAlive(g, c, white, y);
      var g' := Freed(g, o);
      forall i | 0 <= i < |p| - 1 ensures p[i] in g'.refs && p[i + 1] in g'.refs[p[i]] {
        if i < |q| - 1 { assert q[i] in g'.refs && q[i + 1] in g'.refs[q[i]]; }
      }
    }
  }

  /** Only reachable objects are marked. */
  ghost predicate Precise(g: Graph, roots: set<Obj>, c: Colors)
  {
    forall o | o in c && !IsWhite(c, o) :: Reachable(g, roots, o)
  }

  lemma ReachNext(g: Graph, roots: set<Obj>, o: Obj, v: Obj)
    requires Reachable(g, roots, o) && o in g.refs && v in g.refs[o]
    ensures Reachable(g, roots, v)
  {
    var p :| IsPath(g, roots, p) && p[|p| - 1] == o;
    var q := p + [v];
    assert IsPath(g, roots, q) && q[|q| - 1] == v;
  }

  lemma ReachRoot(g: Graph, roots: set<Obj>, r: Obj)
    requires r in roots
    ensures Reachable(g, roots, r)
  {
    assert IsPath(g, roots, [r]) && [r][0] == r;
  }
}
