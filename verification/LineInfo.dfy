/** Delta-compressed line information: written by the code generator (3rdparty/lua/lcode.c:329-390, 1783-1786),
    read by the debug interface (3rdparty/lua/ldebug.c:60-95, 847-865). */
module LineInfo {

  /** The delta that stands for an absolute entry. */
  const ABS_LINE_INFO: int := -0x80
  const LIM_LINE_DIFF: int := 0x80
  const MAX_IWTHABS: int := 128

  datatype AbsLine = AbsLine(pc: nat, line: int)

  function Abs(x: int): int { if x < 0 then -x else x }

  /** The line before instruction pc. */
  function LineBefore(lines: seq<int>, start: int, pc: nat): int
    requires pc <= |lines|
  {
    if pc == 0 then start else lines[pc - 1]
  }

  /** Instructions since the last absolute entry, that one included; all of them if there is none. */
  function Since(abs: seq<AbsLine>, pc: int): int
  {
    if abs == [] then pc else pc - abs[|abs| - 1].pc
  }

  ghost predicate Near(abs: seq<AbsLine>, k: nat)
    requires 0 < k < |abs|
  {
    abs[k - 1].pc < abs[k].pc <= abs[k - 1].pc + MAX_IWTHABS
  }

  /** Absolute entries are in order and at most 128 instructions apart, from the start on. */
  ghost predicate Spaced(abs: seq<AbsLine>, pc: nat)
  {
    && (forall k | 0 <= k < |abs| :: abs[k].pc < pc)
    && (abs != [] ==> abs[0].pc <= MAX_IWTHABS)
    && (forall k {:trigger Near(abs, k)} | 0 < k < |abs| :: Near(abs, k))
    && Since(abs, pc) <= MAX_IWTHABS
  }

  ghost predicate HasAbs(abs: seq<AbsLine>, pc: nat)
  {
    exists k :: 0 <= k < |abs| && abs[k].pc == pc
  }

  /** What instruction i records is its line: a small delta, or the marker and an absolute entry. */
  ghost predicate Records(info: seq<int>, abs: seq<AbsLine>, lines: seq<int>, start: int, i: nat)
    requires i < |info| == |lines|
  {
    if HasAbs(abs, i) then
      info[i] == ABS_LINE_INFO && forall k | 0 <= k < |abs| && abs[k].pc == i :: abs[k].line == lines[i]
    else
      info[i] == lines[i] - LineBefore(lines, start, i) && Abs(info[i]) < LIM_LINE_DIFF
  }

  /** The compressed form stands for `lines`. */
  ghost predicate Encodes(info: seq<int>, abs: seq<AbsLine>, lines: seq<int>, start: int)
  {
    && |info| == |lines| && Spaced(abs, |info|)
    && forall i {:trigger Records(info, abs, lines, start, i)} | 0 <= i < |info| :: Records(info, abs, lines, start, i)
  }

  lemma EncodePrefix(info: seq<int>, abs: seq<AbsLine>, lines: seq<int>, start: int)
    requires Encodes(info, abs, lines, start) && |info| > 0 && !HasAbs(abs, |info| - 1)
    ensures Encodes(info[..|info| - 1], abs, lines[..|info| - 1], start)
  {
    var n := |info| - 1;
    forall i | 0 <= i < n
      ensures Records(info[..n], abs, lines[..n], start, i)
    {
      assert Records(info, abs, lines, start, i);
    }
    forall k | 0 <= k < |abs| ensures abs[k].pc < n { assert abs[k].pc != n; }
  }

  lemma {:induction false} AbsOrdered(abs: seq<AbsLine>, pc: nat, k: nat, l: nat)
    requires Spaced(abs, pc) && k < l < |abs|
    ensures abs[k].pc < abs[l].pc
    decreases l
  {
    assert Near(abs, l);
    if k < l - 1 { AbsOrdered(abs, pc, k, l - 1); }
  }

  /** Dropping the last instruction together with its absolute entry. */
  lemma EncodeDrop(info: seq<int>, abs: seq<AbsLine>, lines: seq<int>, start: int)
    requires Encodes(info, abs, lines, start) && |info| > 0 && HasAbs(abs, |info| - 1)
    ensures var n := |info| - 1;
            && abs != [] && abs[|abs| - 1].pc == n
            && Encodes(info[..n], abs[..|abs| - 1], lines[..n], start)
  {
    var n, m := |info| - 1, |abs| - 1;
    var k :| 0 <= k < |abs| && abs[k].pc == n;
    if k < m { AbsOrdered(abs, |info|, k, m); }
    var abs' := abs[..m];
    forall j | 0 <= j < m ensures abs'[j].pc < n { AbsOrdered(abs, |info|, j, m); }
    assert m > 0 ==> Near(abs, m);
    forall j | 0 < j < m ensures Near(abs', j) { assert Near(abs, j); }
    forall i | 0 <= i < n ensures Records(info[..n], abs', lines[..n], start, i) {
      assert Records(info, abs, lines, start, i);
      if HasAbs(abs, i) {
        var j :| 0 <= j < |abs| && abs[j].pc == i;
        assert abs'[j].pc == i;
      }
    }
  }

  lemma EncodeDelta(info: seq<int>, abs: seq<AbsLine>, lines: seq<int>, start: int, line: int)
    requires Encodes(info, abs, lines, start) && Since(abs, |info|) < MAX_IWTHABS
    requires Abs(line - LineBefore(lines, start, |lines|)) < LIM_LINE_DIFF
    ensures Encodes(info + [line - LineBefore(lines, start, |lines|)], abs, lines + [line], start)
  {
    var n := |info|;
    var info', lines' := info + [line - LineBefore(lines, start, n)], lines + [line];
    assert !HasAbs(abs, n);
    forall i | 0 <= i < n + 1 ensures Records(info', abs, lines', start, i) {
      if i < n { assert Records(info, abs, lines, start, i); }
    }
  }

  lemma EncodeAbs(info: seq<int>, abs: seq<AbsLine>, lines: seq<int>, start: int, line: int)
    requires Encodes(info, abs, lines, start)
    ensures Encodes(info + [ABS_LINE_INFO], abs + [AbsLine(|info|, line)], lines + [line], start)
  {
    var n := |info|;
    var info', abs', lines' := info + [ABS_LINE_INFO], abs + [AbsLine(n, line)], lines + [line];
    forall k | 0 < k < |abs'| ensures Near(abs', k) {
      if k < |abs| { assert Near(abs, k); }
    }
    assert abs'[|abs|].pc == n;
    forall i | 0 <= i < n + 1 ensures Records(info', abs', lines', start, i) {
      if i < n {
        assert Records(info, abs, lines, start, i);
        if HasAbs(abs, i) { var j :| 0 <= j < |abs| && abs[j].pc == i; assert abs'[j].pc == i; }
      }
    }
  }

  // ----- Writing

  class FuncState {
    const lineDefined: int
    var lineInfo: seq<int>
    var absLineInfo: seq<AbsLine>
    var iwthAbs: int
    var previousLine: int
    /** The line last recorded for each instruction. */
    ghost var lines: seq<int>

    ghost predicate Valid()
      reads this
    {
      && Encodes(lineInfo, absLineInfo, lines, lineDefined)
      && iwthAbs == Since(absLineInfo, |lineInfo|)
      && previousLine == LineBefore(lines, lineDefined, |lines|)
    }

    /** The line of the last instruction has been taken back and must be recorded again: if it was absolute, the
        counter forces the next entry to be absolute too, and the previous line is not known. */
    ghost predicate Removed()
      reads this
    {
      && Encodes(lineInfo, absLineInfo, lines, lineDefined)
      && (iwthAbs > MAX_IWTHABS
          || (iwthAbs == Since(absLineInfo, |lineInfo|) && previousLine == LineBefore(lines, lineDefined, |lines|)))
    }

    constructor (defined: int)
      ensures Valid() && lines == [] && lineDefined == defined
    {
      lineDefined := defined;
      lineInfo, absLineInfo, lines := [], [], [];
      iwthAbs, previousLine := 0, defined;
    }

    /** savelineinfo for the next instruction. */
    method SaveLineInfo(line: int)
      requires Removed()
      modifies this
      ensures Valid() && lines == old(lines) + [line]
    {
      hide Encodes;
      var linedif := line - previousLine;
      SinceBound();
      if Abs(linedif) >= LIM_LINE_DIFF || iwthAbs >= MAX_IWTHABS {
        EncodeAbs(lineInfo, absLineInfo, lines, lineDefined, line);
        absLineInfo := absLineInfo + [AbsLine(|lineInfo|, line)];
        linedif := ABS_LINE_INFO;
        iwthAbs := 1;
      } else {
        EncodeDelta(lineInfo, absLineInfo, lines, lineDefined, line);
        iwthAbs := iwthAbs + 1;
      }
      lineInfo := lineInfo + [linedif];
      previousLine := line;
      lines := lines + [line];
    }

    lemma SinceBound()
      requires Encodes(lineInfo, absLineInfo, lines, lineDefined)
      ensures |lineInfo| == |lines| && Since(absLineInfo, |lineInfo|) <= MAX_IWTHABS
    {
    }

    /** removelastlineinfo: take back the line of the last instruction. */
    method RemoveLastLineInfo()
      requires Valid() && |lines| > 0
      modifies this
      ensures Removed() && lines == old(lines)[..|old(lines)| - 1]
    {
      hide Encodes;
      var n := |lineInfo| - 1;
      LastRecord();
      if lineInfo[n] != ABS_LINE_INFO {
        EncodePrefix(lineInfo, absLineInfo, lines, lineDefined);
        previousLine := previousLine - lineInfo[n];
        iwthAbs := iwthAbs - 1;
      } else {
        EncodeDrop(lineInfo, absLineInfo, lines, lineDefined);
        absLineInfo := absLineInfo[..|absLineInfo| - 1];
        iwthAbs := MAX_IWTHABS + 1;
      }
      lineInfo := lineInfo[..n];
      lines := lines[..n];
    }

    lemma LastRecord()
      requires Valid() && |lines| > 0
      ensures var n := |lines| - 1;
              && |lineInfo| == |lines|
              && (lineInfo[n] == ABS_LINE_INFO <==> HasAbs(absLineInfo, n))
              && (lineInfo[n] != ABS_LINE_INFO ==> lineInfo[n] == lines[n] - LineBefore(lines, lineDefined, n))
              && (lineInfo[n] != ABS_LINE_INFO ==>
                   LineBefore(lines[..n], lineDefined, n) == LineBefore(lines, lineDefined, n))
    {
      assert Records(lineInfo, absLineInfo, lines, lineDefined, |lines| - 1);
    }

    /** luaK_code, as far as lines go. */
    method Emit(line: int)
      requires Valid()
      modifies this
      ensures Valid() && lines == old(lines) + [line]
    {
      SaveLineInfo(line);
    }

    /** luaK_fixline, and equally the removal of the last instruction followed by the emission of another. */
    method FixLine(line: int)
      requires Valid() && |lines| > 0
      modifies this
      ensures Valid() && lines == old(lines)[|old(lines)| - 1 := line]
    {
      RemoveLastLineInfo();
      SaveLineInfo(line);
    }
  }

  // ----- Reading

  /** The k-th absolute entry lies within the first k + 1 intervals of 128 instructions. */
  lemma {:induction false} AbsBound(abs: seq<AbsLine>, pc: nat, k: nat)
    requires Spaced(abs, pc) && k < |abs|
    ensures abs[k].pc <= (k + 1) * MAX_IWTHABS
  {
    if k > 0 {
      AbsBound(abs, pc, k - 1);
      assert Near(abs, k);
    }
  }

  /** The estimate of getbaseline is a lower bound of the entry it looks for. */
  lemma EstimateIsLow(abs: seq<AbsLine>, n: nat, pc: nat)
    requires Spaced(abs, n) && pc < n && abs != []
    ensures var i := pc / MAX_IWTHABS - 1; i < |abs| && (i >= 0 ==> abs[i].pc <= pc)
  {
    var i, m := pc / MAX_IWTHABS - 1, |abs| - 1;
    AbsBound(abs, n, m);
    assert pc < abs[m].pc + MAX_IWTHABS;
    if 0 <= i < |abs| { AbsBound(abs, n, i); }
  }

  /** getbaseline: the last absolute entry at or before pc, or the start of the function. */
  method GetBaseLine(abs: seq<AbsLine>, start: int, pc: nat, ghost n: nat) returns (line: int, basepc: int)
    requires Spaced(abs, n) && pc < n
    ensures -1 <= basepc <= pc
    ensures basepc == -1 ==> line == start && forall k | 0 <= k < |abs| :: pc < abs[k].pc
    ensures basepc >= 0 ==> exists k :: 0 <= k < |abs| && abs[k] == AbsLine(basepc, line)
    ensures forall k | 0 <= k < |abs| && abs[k].pc <= pc :: abs[k].pc <= basepc
  {
    if |abs| == 0 || pc < abs[0].pc {
      forall k | 0 <= k < |abs| ensures pc < abs[k].pc { if k > 0 { AbsOrdered(abs, n, 0, k); } }
      return start, -1;
    }
    var i := pc / MAX_IWTHABS - 1;
    EstimateIsLow(abs, n, pc);
    while i + 1 < |abs| && pc >= abs[i + 1].pc
      invariant -1 <= i < |abs| && (i >= 0 ==> abs[i].pc <= pc)
      decreases |abs| - i
    {
      i := i + 1;
    }
    forall k | 0 <= k < |abs| && abs[k].pc <= pc ensures abs[k].pc <= abs[i].pc {
      if k > i + 1 { AbsOrdered(abs, n, i + 1, k); }
      if k < i { AbsOrdered(abs, n, k, i); }
    }
    return abs[i].line, abs[i].pc;
  }

  /** luaG_getfuncline returns the line last recorded for pc. */
  method GetFuncLine(info: seq<int>, abs: seq<AbsLine>, start: int, pc: nat, ghost lines: seq<int>) returns (line: int)
    requires Encodes(info, abs, lines, start) && pc < |info|
    ensures line == lines[pc]
  {
    var basepc;
    line, basepc := GetBaseLine(abs, start, pc, |info|);
    if basepc >= 0 { assert Records(info, abs, lines, start, basepc); }
    while basepc < pc
      invariant -1 <= basepc <= pc && line == LineBefore(lines, start, basepc + 1)
      invariant forall k | 0 <= k < |abs| && abs[k].pc <= pc :: abs[k].pc <= basepc
      decreases pc - basepc
    {
      basepc := basepc + 1;
      assert Records(info, abs, lines, start, basepc);
      line := line + info[basepc];
    }
  }

  /** changedline agrees with comparing the two recorded lines. */
  method ChangedLine(info: seq<int>, abs: seq<AbsLine>, start: int, oldpc: nat, newpc: nat, ghost lines: seq<int>)
    returns (changed: bool)
    requires Encodes(info, abs, lines, start) && oldpc < newpc < |info|
    ensures changed == (lines[oldpc] != lines[newpc])
  {
    if newpc - oldpc < MAX_IWTHABS / 2 {
      var delta, pc := 0, oldpc;
      while info[pc + 1] != ABS_LINE_INFO
        invariant oldpc <= pc < newpc && delta == lines[pc] - lines[oldpc]
        decreases newpc - pc
      {
        pc := pc + 1;
        assert Records(info, abs, lines, start, pc);
        delta := delta + info[pc];
        if pc == newpc {
          return delta != 0;
        }
      }
    }
    var l1 := GetFuncLine(info, abs, start, oldpc, lines);
    var l2 := GetFuncLine(info, abs, start, newpc, lines);
    return l1 != l2;
  }
}
