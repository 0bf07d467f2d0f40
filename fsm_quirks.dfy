/** When the finite-state parser of src/backup/parser_new.c faults, and
    two inputs it reads differently from what its comments suggest. */
module FsmQuirks {
  import opened CString
  import opened Sexpr
  import opened FsmParser
  import opened FsmTheory

  /** The loop is stuck in states 1 and 4 only on a character state 1 does
      not handle: text made of white space, parentheses, quotes, letters,
      digits and '!' up to its NUL never makes the loop spin. */
  lemma {:induction false} StallNeedsStrangeChar(m: Machine, input: string, t: nat, cap: nat)
    requires t <= |input| && Ready(m, At(input, t))
    ensures var h := Run(m, input, t, cap);
      h.Failed? && h.fault == NoProgress ==>
        h.m.state == Dispatch && exists i :: t <= i < |input| && input[i] != '\0' && !Recognised(input[i])
    decreases |input| - t, Rank(m.state, At(input, t))
  {
    var c := At(input, t);
    if c != '\0' {
      StepSound(m, c, cap);
      match Step(m, c, cap)
      case Next(m', consumed) =>
        if consumed {
          StallNeedsStrangeChar(m', input, t + 1, cap);
        } else {
          StallNeedsStrangeChar(m', input, t, cap);
        }
      case Closed(_, _) =>
      case Stuck(_) =>
        assert input[t] == c;
    }
  }

  /** The atom buffer overflows only when the atom read so far plus the
      text still to read is longer than the buffer: a buffer of `cap`
      characters is never overrun by an input that fits in it. */
  lemma {:induction false} OverflowNeedsLongText(m: Machine, input: string, t: nat, cap: nat)
    requires t <= |input| && Ready(m, At(input, t))
    ensures var h := Run(m, input, t, cap);
      h.Failed? && h.fault == AtomOverflow ==> cap < |m.buf| + (|input| - t)
    decreases |input| - t, Rank(m.state, At(input, t))
  {
    var c := At(input, t);
    if c != '\0' {
      StepSound(m, c, cap);
      match Step(m, c, cap)
      case Next(m', consumed) =>
        if consumed {
          OverflowNeedsLongText(m', input, t + 1, cap);
        } else {
          OverflowNeedsLongText(m', input, t, cap);
        }
      case Closed(_, _) =>
      case Stuck(_) =>
    }
  }

  /** The other way round: state 1 spins on the first character it does
      not handle, whatever follows it. */
  lemma StrangeCharStalls(m: Machine, input: string, t: nat, cap: nat)
    requires Idle(m) && t < |input| && input[t] != '\0' && !Recognised(input[t])
    ensures Run(m, input, t, cap) == Failed(m, NoProgress)
  {
    assert Step(m, input[t], cap) == Stuck(NoProgress);
    RunStep(m, input, t, cap);
  }

  /** State 4 with room for `cap - |buf|` more characters overflows on an
      atom that goes on for one character more than that. */
  lemma {:induction false} AtomOverflows(m: Machine, input: string, t: nat, cap: nat)
    requires Inv(m) && m.state == InAtom && |m.buf| <= cap
    requires t + (cap - |m.buf|) < |input|
    requires forall i :: t <= i <= t + (cap - |m.buf|) ==> IsAtomChar(input[i])
    ensures Run(m, input, t, cap) == Failed(m.(buf := m.buf + input[t..t + (cap - |m.buf|)]), AtomOverflow)
    decreases cap - |m.buf|
  {
    var n := cap - |m.buf|;
    assert IsAtomChar(input[t]);
    if n == 0 {
      assert Step(m, input[t], cap) == Stuck(AtomOverflow);
      RunStep(m, input, t, cap);
      assert m.buf + input[t..t] == m.buf;
    } else {
      var m1 := m.(buf := m.buf + [input[t]]);
      assert Step(m, input[t], cap) == Next(m1, true);
      RunNext(m, input, t, cap, m1, true);
      AtomOverflows(m1, input, t + 1, cap);
      AppendSlice(m.buf, input, t, t + n);
    }
  }

  /** The converse of `OverflowNeedsLongText` for unquoted atoms: from
      state 1, an atom of more than `cap` characters overflows the buffer
      once it holds `cap` of them. */
  lemma LongAtomOverflows(m: Machine, input: string, t: nat, cap: nat)
    requires Idle(m) && t + cap < |input|
    requires forall i :: t <= i <= t + cap ==> IsAtomChar(input[i])
    ensures Run(m, input, t, cap) == Failed(m.(state := InAtom, buf := input[t..t + cap]), AtomOverflow)
  {
    var m1 := m.(state := InAtom, buf := "");
    assert IsAtomChar(input[t]);
    assert Step(m, input[t], cap) == Next(m1, false);
    RunNext(m, input, t, cap, m1, false);
    AtomOverflows(m1, input, t, cap);
  }

  /** A call faults for want of progress only on a character state 1 does
      not handle, and overruns its atom buffer only on a text longer than
      the buffer. */
  lemma CallFaults(c: Cont, str: string, cap: nat)
    requires Inv(c.m)
    ensures var input := if c.lastPos.Some? then c.lastPos.value else str;
      && (Resume(c, str, cap).1 == Faulted(NoProgress) ==> exists i :: 0 <= i < |input| && input[i] != '\0' && !Recognised(input[i]))
      && (Resume(c, str, cap).1 == Faulted(AtomOverflow) ==> cap < |c.m.buf| + |input|)
  {
    var input := if c.lastPos.Some? then c.lastPos.value else str;
    StallNeedsStrangeChar(c.m, input, 0, cap);
    OverflowNeedsLongText(c.m, input, 0, cap);
  }

  /** A single quote before a double quote does not quote a string: state 7
      hands the '"' to state 5 without moving past it, and state 5 takes it
      for the closing quote. The pair becomes an empty DQUOTE atom and the
      text after it is read afresh from state 1. */
  lemma TickedQuote(m: Machine, input: string, t: nat, cap: nat)
    requires Idle(m) && t + 2 < |input| && input[t] == '\'' && input[t + 1] == '"' && input[t + 2] != '\0'
    requires cap > 0
    ensures var m' := m.(buf := "", stack := AddAtom(m.stack, Value("", DQuote)));
      Idle(m') && Run(m, input, t, cap) == Run(m', input, t + 2, cap)
  {
    var m1 := m.(state := AfterQuote);
    assert Step(m, '\'', cap) == Next(m1, true);
    RunNext(m, input, t, cap, m1, true);
    var m2 := m.(state := InString, buf := "");
    assert Step(m1, '"', cap) == Next(m2, false);
    RunNext(m1, input, t + 1, cap, m2, false);
    AddAtomKeepsShape(m.stack, m.depth, Value("", DQuote));
    var m3 := m.(state := AfterString, buf := "", stack := AddAtom(m.stack, Value("", DQuote)));
    assert Step(m2, '"', cap) == Next(m3, true);
    RunNext(m2, input, t + 1, cap, m3, true);
    var m4 := m.(buf := "", stack := AddAtom(m.stack, Value("", DQuote)));
    assert Step(m3, input[t + 2], cap) == Next(m4, false);
    RunNext(m3, input, t + 2, cap, m4, false);
  }

  /** An atom outside any list is read and then dropped: `addatom` finds no
      frame to attach it to. */
  lemma AtomOutsideList(m: Machine, input: string, t: nat, e: nat, cap: nat)
    requires Idle(m) && m.depth == 0 && t < e < |input|
    requires forall i :: t <= i < e ==> IsAtomChar(input[i])
    requires input[e] != '\0' && !IsAtomChar(input[e])
    requires e - t < cap
    ensures Idle(m.(buf := input[t..e]))
    ensures Run(m, input, t, cap) == Run(m.(buf := input[t..e]), input, e, cap)
  {
    AtomToken(m, input, t, e, cap);
  }
}
