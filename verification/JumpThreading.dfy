/** The final pass over the code of a function: jumps to jumps are shortened in place, returns adjusted
    (3rdparty/lua/lcode.c:167-175, 1826-1872). */
module JumpThreading {

  /** The arguments of an instruction: where its values are, how many, a flag, and a number. */
  datatype Args = Args(a: nat, b: nat, k: bool, c: nat)

  datatype Instr =
    | Jmp(offset: int)
    | Return0(args: Args)
    | Return1(args: Args)
    | Return(args: Args)
    | TailCall(args: Args)
    | Other(op: nat)

  const MAX_ARG_SJ: int := 0x1ff_ffff
  const OFFSET_SJ: int := 0xff_ffff

  predicate FitsJump(offset: int) { -OFFSET_SJ <= offset <= MAX_ARG_SJ - OFFSET_SJ }

  /** Every jump lands inside the code. */
  ghost predicate InCode(code: seq<Instr>)
  {
    forall i | 0 <= i < |code| && code[i].Jmp? :: 0 <= i + 1 + code[i].offset < |code|
  }

  /** Where control goes after a jump. */
  function Next(code: seq<Instr>, i: nat): (r: nat)
    requires InCode(code) && i < |code| && code[i].Jmp?
    ensures r < |code|
  {
    i + 1 + code[i].offset
  }

  /** From i, exactly n jumps lead to the non-jump instruction at t. */
  ghost predicate Leads(code: seq<Instr>, i: nat, t: nat, n: nat)
    requires InCode(code) && i < |code|
    decreases n
  {
    if n == 0 then i == t && !code[i].Jmp? else code[i].Jmp? && Leads(code, Next(code, i), t, n - 1)
  }

  /** The first instruction that is not a jump, from i on, is the one at t. Nothing is reached from a pure cycle. */
  ghost predicate Reaches(code: seq<Instr>, i: nat, t: nat)
    requires InCode(code) && i < |code|
  {
    exists n: nat :: Leads(code, i, t, n)
  }

  /** i and the k - 1 instructions after it along the jumps are jumps, and k jumps lead to x. */
  ghost predicate Hops(code: seq<Instr>, i: nat, x: nat, k: nat)
    requires InCode(code) && i < |code|
    decreases k
  {
    if k == 0 then i == x else code[i].Jmp? && Hops(code, Next(code, i), x, k - 1)
  }

  lemma {:induction false} HopsThenLeads(code: seq<Instr>, i: nat, x: nat, k: nat, t: nat, n: nat)
    requires InCode(code) && i < |code| && x < |code| && Hops(code, i, x, k) && Leads(code, x, t, n)
    ensures Leads(code, i, t, n + k)
    decreases k
  {
    if k > 0 { HopsThenLeads(code, Next(code, i), x, k - 1, t, n); }
  }

  lemma {:induction false} LeadsPastHops(code: seq<Instr>, i: nat, x: nat, k: nat, t: nat, n: nat)
    requires InCode(code) && i < |code| && x < |code| && Hops(code, i, x, k) && Leads(code, i, t, n)
    ensures k <= n && Leads(code, x, t, n - k)
    decreases k
  {
    if k > 0 { LeadsPastHops(code, Next(code, i), x, k - 1, t, n - 1); }
  }

  lemma {:induction false} HopsStep(code: seq<Instr>, i: nat, x: nat, k: nat)
    requires InCode(code) && i < |code| && x < |code| && Hops(code, i, x, k) && code[x].Jmp?
    ensures Hops(code, i, Next(code, x), k + 1)
    decreases k
  {
    if k > 0 { HopsStep(code, Next(code, i), x, k - 1); }
  }

  /** finaltarget: follow at most 100 jumps. */
  method FinalTarget(code: seq<Instr>, i: nat) returns (x: nat, ghost k: nat)
    requires InCode(code) && i < |code|
    ensures x < |code| && Hops(code, i, x, k) && (code[i].Jmp? ==> k > 0)
    ensures !code[x].Jmp? || k == 100
  {
    x, k := i, 0;
    var count := 0;
    while count < 100 && code[x].Jmp?
      invariant x < |code| && k == count <= 100 && Hops(code, i, x, k)
    {
      HopsStep(code, i, x, k);
      x := Next(code, x);
      count := count + 1;
      k := k + 1;
    }
  }

  // ----- Redirecting one jump along the chain it starts

  ghost predicate Redirected(code: seq<Instr>, code': seq<Instr>, i: nat, x: nat)
    requires InCode(code) && i < |code|
  {
    && |code'| == |code| && code[i].Jmp? && x < |code|
    && code' == code[i := Jmp(x - (i + 1))]
  }

  lemma RedirectInCode(code: seq<Instr>, code': seq<Instr>, i: nat, x: nat)
    requires InCode(code) && i < |code| && Redirected(code, code', i, x)
    ensures InCode(code')
  {
  }

  /** The same instruction is reached, in no more jumps. */
  lemma {:induction false} RedirectForward(code: seq<Instr>, code': seq<Instr>, i: nat, x: nat, k: nat, j: nat,
                                           t: nat, n: nat) returns (m: nat)
    requires InCode(code) && i < |code| && x < |code| && Hops(code, i, x, k) && k > 0
    requires Redirected(code, code', i, x) && InCode(code') && j < |code| && Leads(code, j, t, n)
    ensures m <= n && Leads(code', j, t, m)
    decreases n
  {
    if n == 0 {
      m := 0;
    } else if j == i {
      LeadsPastHops(code, i, x, k, t, n);
      m := RedirectForward(code, code', i, x, k, x, t, n - k);
      m := m + 1;
    } else {
      m := RedirectForward(code, code', i, x, k, Next(code, j), t, n - 1);
      m := m + 1;
    }
  }

  lemma {:induction false} RedirectBack(code: seq<Instr>, code': seq<Instr>, i: nat, x: nat, k: nat, j: nat, t: nat,
                                        m: nat) returns (n: nat)
    requires InCode(code) && i < |code| && x < |code| && Hops(code, i, x, k)
    requires Redirected(code, code', i, x) && InCode(code') && j < |code| && Leads(code', j, t, m)
    ensures Leads(code, j, t, n)
    decreases m
  {
    if m == 0 {
      n := 0;
    } else if j == i {
      n := RedirectBack(code, code', i, x, k, x, t, m - 1);
      HopsThenLeads(code, i, x, k, t, n);
      n := n + k;
    } else {
      n := RedirectBack(code, code', i, x, k, Next(code, j), t, m - 1);
      n := n + 1;
    }
  }

  /** Control flow is the same: from every instruction the same first non-jump is reached, if any, and no later. */
  ghost predicate SameFlow(code: seq<Instr>, code': seq<Instr>)
    requires InCode(code) && InCode(code') && |code'| == |code|
  {
    && (forall j: nat, t: nat {:trigger Reaches(code', j, t)} | j < |code| ::
          Reaches(code', j, t) <==> Reaches(code, j, t))
    && (forall j: nat, t: nat, n: nat {:trigger Leads(code, j, t, n)} | j < |code| && Leads(code, j, t, n) ::
          Sooner(code', j, t, n))
  }

  ghost predicate Sooner(code: seq<Instr>, j: nat, t: nat, n: nat)
    requires InCode(code) && j < |code|
  {
    exists m: nat :: m <= n && Leads(code, j, t, m)
  }

  lemma RedirectSameFlow(code: seq<Instr>, code': seq<Instr>, i: nat, x: nat, k: nat)
    requires InCode(code) && i < |code| && x < |code| && Hops(code, i, x, k) && k > 0 && Redirected(code, code', i, x)
    ensures InCode(code') && SameFlow(code, code')
  {
    RedirectInCode(code, code', i, x);
    forall j: nat, t: nat, n: nat | j < |code| && Leads(code, j, t, n) ensures Sooner(code', j, t, n) {
      var m := RedirectForward(code, code', i, x, k, j, t, n);
    }
    forall j: nat, t: nat | j < |code| ensures Reaches(code', j, t) <==> Reaches(code, j, t) {
      if Reaches(code, j, t) {
        var n: nat :| Leads(code, j, t, n);
        var m := RedirectForward(code, code', i, x, k, j, t, n);
      }
      if Reaches(code', j, t) {
        var m: nat :| Leads(code', j, t, m);
        var n := RedirectBack(code, code', i, x, k, j, t, m);
      }
    }
  }

  lemma SameFlowTrans(a: seq<Instr>, b: seq<Instr>, c: seq<Instr>)
    requires InCode(a) && InCode(b) && InCode(c) && |a| == |b| == |c| && SameFlow(a, b) && SameFlow(b, c)
    ensures SameFlow(a, c)
  {
    forall j: nat, t: nat, n: nat | j < |a| && Leads(a, j, t, n) ensures Sooner(c, j, t, n) {
      assert Sooner(b, j, t, n);
      var m: nat :| m <= n && Leads(b, j, t, m);
      assert Sooner(c, j, t, m);
      var l: nat :| l <= m && Leads(c, j, t, l);
    }
    forall j: nat, t: nat | j < |a| ensures Reaches(c, j, t) <==> Reaches(a, j, t) {
      assert Reaches(b, j, t) <==> Reaches(a, j, t);
      assert Reaches(c, j, t) <==> Reaches(b, j, t);
    }
  }

  // ----- Adjusting returns

  /** A return that must close upvalues or drop varargs carries that in its arguments. */
  function Adjusted(i: Instr, needClose: bool, isVararg: bool, numParams: nat): Instr
  {
    var r := if (i.Return0? || i.Return1?) && (needClose || isVararg) then Return(i.args) else i;
    match r
    case Return(args) => Return(AdjustedArgs(args, needClose, isVararg, numParams))
    case TailCall(args) => TailCall(AdjustedArgs(args, needClose, isVararg, numParams))
    case _ => r
  }

  function AdjustedArgs(args: Args, needClose: bool, isVararg: bool, numParams: nat): Args
  {
    args.(k := args.k || needClose, c := if isVararg then numParams + 1 else args.c)
  }

  // What the interpreter makes of an instruction that leaves a function (3rdparty/lua/lvm.c, OP_RETURN, OP_TAILCALL).

  predicate Leaves(i: Instr) { i.Return0? || i.Return1? || i.Return? || i.TailCall? }

  /** It can close variables and drop a vararg frame. */
  predicate General(i: Instr) { i.Return? || i.TailCall? }

  /** It closes upvalues and to-be-closed variables. */
  predicate Closes(i: Instr) { General(i) && i.args.k }

  /** It drops the frame of a vararg function with p fixed parameters. */
  predicate DropsVarargs(i: Instr, p: nat) { General(i) && i.args.c == p + 1 }

  /** Which values it passes on: where they are and how many. */
  function Values(i: Instr): (nat, nat)
    requires Leaves(i)
  {
    (i.args.a, i.args.b)
  }

  /** What the pass promises of an instruction that is not a jump: one that leaves the function passes on the same
      values, closes exactly if it has to or was told to before, drops the vararg frame exactly if there is one, and is
      a special return as long as it has neither to do; any other one is as it was. */
  ghost predicate ReturnsRight(was: Instr, now: Instr, needClose: bool, isVararg: bool, numParams: nat)
  {
    && (!Leaves(was) ==> now == was)
    && (Leaves(was) ==>
          && Leaves(now) && Values(now) == Values(was) && (now.TailCall? <==> was.TailCall?)
          && (General(now) <==> needClose || isVararg || General(was))
          && (General(now) ==>
                && (Closes(now) <==> needClose || was.args.k)
                && (if isVararg then DropsVarargs(now, numParams) else now.args.c == was.args.c))
          && (!General(now) ==> now == was))
  }

  lemma AdjustedRight(i: Instr, needClose: bool, isVararg: bool, numParams: nat)
    ensures ReturnsRight(i, Adjusted(i, needClose, isVararg, numParams), needClose, isVararg, numParams)
  {
  }

  /** These promises leave one instruction only. */
  lemma OneRight(i: Instr, a: Instr, b: Instr, needClose: bool, isVararg: bool, numParams: nat)
    requires ReturnsRight(i, a, needClose, isVararg, numParams) && ReturnsRight(i, b, needClose, isVararg, numParams)
    ensures a == b
  {
  }

  lemma AdjustedStays(i: Instr, needClose: bool, isVararg: bool, numParams: nat)
    ensures Adjusted(i, needClose, isVararg, numParams).Jmp? == i.Jmp?
  {
  }

  /** Replacing a non-jump by a non-jump leaves the flow alone. */
  lemma {:induction false} AdjustLeads(code: seq<Instr>, code': seq<Instr>, i: nat, j: nat, t: nat, n: nat)
    requires InCode(code) && InCode(code') && i < |code| == |code'| && j < |code| && !code[i].Jmp? && !code'[i].Jmp?
    requires code' == code[i := code'[i]]
    ensures Leads(code', j, t, n) <==> Leads(code, j, t, n)
    decreases n
  {
    if n > 0 && code[j].Jmp? { AdjustLeads(code, code', i, Next(code, j), t, n - 1); }
  }

  lemma AdjustSameFlow(code: seq<Instr>, code': seq<Instr>, i: nat)
    requires InCode(code) && i < |code| == |code'| && !code[i].Jmp? && !code'[i].Jmp? && code' == code[i := code'[i]]
    ensures InCode(code') && SameFlow(code, code')
  {
    forall j: nat, t: nat, n: nat | j < |code| ensures Leads(code', j, t, n) <==> Leads(code, j, t, n) {
      AdjustLeads(code, code', i, j, t, n);
    }
    forall j: nat, t: nat, n: nat | j < |code| && Leads(code, j, t, n) ensures Sooner(code', j, t, n) {
      assert Leads(code', j, t, n);
    }
    forall j: nat, t: nat | j < |code| ensures Reaches(code', j, t) <==> Reaches(code, j, t) {
      if Reaches(code, j, t) { var n: nat :| Leads(code, j, t, n); assert Leads(code', j, t, n); }
      if Reaches(code', j, t) { var n: nat :| Leads(code', j, t, n); assert Leads(code, j, t, n); }
    }
  }

  lemma SameFlowSelf(code: seq<Instr>)
    requires InCode(code)
    ensures SameFlow(code, code)
  {
    forall j: nat, t: nat, n: nat | j < |code| && Leads(code, j, t, n) ensures Sooner(code, j, t, n) {}
  }

  // ----- The pass

  /** The jump at i goes straight to the instruction that at most 100 jumps led to before. */
  ghost predicate Threaded(start: seq<Instr>, i: nat, jump: Instr)
    requires InCode(start) && i < |start|
  {
    jump.Jmp? && forall t: nat, n: nat | n <= 100 && Leads(start, i, t, n) :: i + 1 + jump.offset == t
  }

  /** The target found in the code as rewritten so far is the one of the code at the start. */
  lemma ThreadedTo(start: seq<Instr>, code: seq<Instr>, i: nat, x: nat, k: nat)
    requires InCode(start) && InCode(code) && |start| == |code| && i < |code| && x < |code|
    requires SameFlow(start, code) && code[i].Jmp? && Hops(code, i, x, k) && (!code[x].Jmp? || k == 100)
    ensures Threaded(start, i, Jmp(x - (i + 1)))
  {
    forall t: nat, n: nat | n <= 100 && Leads(start, i, t, n) ensures x == t {
      assert Sooner(code, i, t, n);
      var m: nat :| m <= n && Leads(code, i, t, m);
      LeadsPastHops(code, i, x, k, t, m);
    }
  }

  /** Everything but the offset of a jump is as the source says. */
  ghost predicate Finished(before: Instr, after: Instr, needClose: bool, isVararg: bool, numParams: nat)
  {
    if before.Jmp? then after.Jmp? else ReturnsRight(before, after, needClose, isVararg, numParams)
  }

  /** luaK_finish, in place. It fails only if a shortened jump does not fit its field. */
  method Finish(code: array<Instr>, needClose: bool, isVararg: bool, numParams: nat) returns (ok: bool)
    requires InCode(code[..])
    modifies code
    ensures InCode(code[..]) && SameFlow(old(code[..]), code[..])
    ensures code.Length <= OFFSET_SJ ==> ok
    ensures ok ==> forall i | 0 <= i < code.Length :: Finished(old(code[i]), code[i], needClose, isVararg, numParams)
    ensures ok ==> forall i | 0 <= i < code.Length && old(code[i]).Jmp? :: Threaded(old(code[..]), i, code[i])
  {
    hide SameFlow, Threaded, Hops, Adjusted, ReturnsRight;
    ghost var start := code[..];
    SameFlowSelf(start);
    var i := 0;
    while i < code.Length
      invariant 0 <= i <= code.Length && InCode(code[..]) && SameFlow(start, code[..])
      invariant forall j | 0 <= j < i :: Finished(start[j], code[j], needClose, isVararg, numParams)
      invariant forall j | 0 <= j < i && start[j].Jmp? :: Threaded(start, j, code[j])
      invariant forall j | i <= j < code.Length :: code[j] == start[j]
    {
      ghost var c := code[..];
      if code[i].Jmp? {
        var x, k := FinalTarget(code[..], i);
        var offset := x - (i + 1);
        if !FitsJump(offset) {
          return false;
        }
        ThreadedTo(start, c, i, x, k);
        code[i] := Jmp(offset);
        assert code[..] == c[i := Jmp(offset)];
        RedirectSameFlow(c, code[..], i, x, k);
      } else {
        AdjustedStays(code[i], needClose, isVararg, numParams);
        AdjustedRight(code[i], needClose, isVararg, numParams);
        code[i] := Adjusted(code[i], needClose, isVararg, numParams);
        assert code[..] == c[i := code[i]];
        AdjustSameFlow(c, code[..], i);
      }
      SameFlowTrans(start, c, code[..]);
      i := i + 1;
    }
    ok := true;
  }
}
