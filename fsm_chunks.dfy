/** Input given in chunks to the finite-state parser of
    src/backup/parser_new.c: when splitting the text between two calls gives
    the same result as one call on the whole, and where it does not. */
module FsmChunks {
  import opened CString
  import opened Sexpr
  import opened FsmParser
  import opened FsmTheory
  import opened FsmLists

  /** A halt of the loop on a text moved `k` characters to the right. */
  function Shift(h: Halt, k: nat): Halt
  {
    match h
    case Completed(m, root, rest) => Completed(m, root, rest + k)
    case Exhausted(m, at) => Exhausted(m, at + k)
    case Failed(_, _) => h
  }

  /** A machine ready for the NUL holds the invariant, and so is ready for
      any character. */
  lemma ReadyAtEnd(m: Machine, c: char)
    requires Ready(m, '\0')
    ensures Inv(m) && Ready(m, c)
  {
  }

  /** The loop reads only from its position onwards: text before the start
      moves where it halts and changes nothing else. */
  lemma {:induction false} RunOffset(m: Machine, p: string, b: string, s: nat, s': nat, cap: nat)
    requires s <= |b| && s' == |p| + s && Ready(m, At(b, s))
    ensures At(p + b, s') == At(b, s)
    ensures Run(m, p + b, s', cap) == Shift(Run(m, b, s, cap), |p|)
    decreases |b| - s, Rank(m.state, At(b, s)), 1
  {
    var c := At(b, s);
    assert At(p + b, s') == c;
    if c != '\0' {
      StepSound(m, c, cap);
      match Step(m, c, cap)
      case Next(m', consumed) => OffsetNext(m, m', consumed, p, b, s, s', cap);
      case Closed(_, _) =>
      case Stuck(_) =>
    }
  }

  /** One turn that goes on: the rest of the loop is shifted as well. */
  lemma {:induction false} OffsetNext(m: Machine, m': Machine, consumed: bool, p: string, b: string, s: nat, s': nat, cap: nat)
    requires s < |b| && b[s] != '\0' && s' == |p| + s && Ready(m, b[s])
    requires Step(m, b[s], cap) == Next(m', consumed)
    ensures Run(m, p + b, s', cap) == Shift(Run(m, b, s, cap), |p|)
    decreases |b| - s, Rank(m.state, At(b, s)), 0
  {
    StepSound(m, b[s], cap);
    assert (p + b)[s'] == b[s];
    var d := if consumed then 1 else 0;
    RunOffset(m', p, b, s + d, s' + d, cap);
  }

  /** The loop on `a` followed by more text does what it does on `a` alone,
      unless it reaches the end of `a`; then it goes on with the machine it
      had there, reading the text after `a`. */
  lemma {:induction false} RunPrefix(m: Machine, a: string, b: string, t: nat, cap: nat)
    requires t <= |a| && '\0' !in a && Ready(m, At(a, t)) && Ready(m, At(a + b, t))
    ensures var h := Run(m, a, t, cap);
      && (h.Exhausted? ==> h.at == |a| && Run(m, a + b, t, cap) == Shift(Run(h.m, b, 0, cap), |a|))
      && (!h.Exhausted? ==> Run(m, a + b, t, cap) == h)
    decreases |a| - t, Rank(m.state, At(a, t))
  {
    if t == |a| {
      ReadyAtEnd(m, At(b, 0));
      RunOffset(m, a, b, 0, |a|, cap);
    } else {
      var c := a[t];
      assert At(a + b, t) == c;
      StepSound(m, c, cap);
      match Step(m, c, cap)
      case Next(m', consumed) =>
        if consumed {
          RunPrefix(m', a, b, t + 1, cap);
        } else {
          RunPrefix(m', a, b, t, cap);
        }
      case Closed(_, _) =>
      case Stuck(_) =>
    }
  }

  /** The rest of a text after the first `k` characters of a prefix of
      length `k`. */
  lemma Past(a: string, b: string, k: nat, r: nat)
    requires k == |a| && r <= |b|
    ensures (a + b)[k + r..] == b[r..] && At(a + b, k + r) == At(b, r)
  {
  }

  /** A call that suspends inside an expression, followed by a call on the
      next chunk, does exactly what one call on both chunks together does:
      the atom buffer, the state, the depth and the open lists carry over. */
  lemma SuspendedSplit(c: Cont, a: string, b: string, cap: nat)
    requires Inv(c.m) && c.lastPos == None && '\0' !in a
    requires Resume(c, a, cap).1 == Suspended
    ensures Resume(Resume(c, a, cap).0, b, cap) == Resume(c, a + b, cap)
  {
    var h := Run(c.m, a, 0, cap);
    assert h.Exhausted? && h.m.depth > 0;
    var m' := h.m;
    assert Resume(c, a, cap).0 == Cont(m', None, c.lastSexpr);
    RunPrefix(c.m, a, b, 0, cap);
    assert Run(c.m, a + b, 0, cap) == Shift(Run(m', b, 0, cap), |a|);
    match Run(m', b, 0, cap)
    case Completed(_, _, rest) => Past(a, b, |a|, rest);
    case Exhausted(_, at) => Past(a, b, |a|, at);
    case Failed(_, _) =>
  }

  /** A continuation between expressions whose `lastPos` is the end of an
      earlier string, with that string still in place, ignores every later
      string: the call reads that empty rest again, reports that the input
      ran out, and replaces the last expression with the indeterminate `sx`.
      `lastPos` is modelled as the rest of the earlier string; in the
      program it is a pointer into the caller's buffer, so a caller that
      reuses that buffer is not covered. */
  lemma EndIsSticky(c: Cont, str: string, cap: nat)
    requires Inv(c.m) && c.m.depth == 0 && c.lastPos == Some("")
    ensures Resume(c, str, cap) == (c.(lastSexpr := Indeterminate), Between)
  {
  }

  /** Every call that leaves no list open leaves `lastPos` at the NUL it
      stopped on, so when the chunk held no NUL of its own, the next call is
      one of those `EndIsSticky` describes. */
  lemma BetweenIsSticky(c: Cont, str: string, cap: nat)
    requires Inv(c.m) && c.lastPos == None && '\0' !in str
    requires Resume(c, str, cap).1 == Between
    ensures Resume(c, str, cap).0.lastPos == Some("")
  {
    var h := Run(c.m, str, 0, cap);
    assert str[h.at..] == "";
  }

  /** A chunk that ends just after the first '(' stops in state 2 before the
      list is opened, with depth 0: the call reports the input ran out
      between expressions and `lastPos` is left at the end of the chunk. */
  lemma OpenAtChunkEnd(m: Machine, str: string, cap: nat)
    requires Idle(m) && m.depth == 0 && str == "("
    ensures Resume(Cont(m, None, Indeterminate), str, cap)
      == (Cont(m.(state := OpenParen), Some(""), Indeterminate), Between)
  {
    assert Step(m, '(', cap) == Next(m.(state := OpenParen), true);
    RunNext(m, str, 0, cap, m.(state := OpenParen), true);
    assert str[1..] == "";
  }

  /** `cparse_sexp` as its other exit shows it was meant to leave the
      continuation: `lastPos` is NULL whenever the position reached is the
      end of the string, and an input that runs out between expressions
      leaves the last expression alone. */
  function ResumeFixed(c: Cont, str: string, cap: nat): (r: (Cont, Status))
    requires Inv(c.m)
    ensures !r.1.Faulted? ==> Inv(r.0.m)
    ensures r.1 == Complete ==> r.0.lastSexpr.Holds? && r.0.lastSexpr.value.List? && r.0.m.depth == 0
    ensures r.1 == Between || r.1 == Suspended ==> r.0.lastPos == None && r.0.lastSexpr == c.lastSexpr
    ensures r.1 == Between <==> !r.1.Faulted? && r.0.m.depth == 0 && r.1 != Complete
    ensures !r.1.Faulted? && r.0.lastPos.Some? ==> At(r.0.lastPos.value, 0) != '\0'
  {
    var input := if c.lastPos.Some? then c.lastPos.value else str;
    match Run(c.m, input, 0, cap)
    case Completed(m, root, rest) =>
      (Cont(m, if At(input, rest) == '\0' then None else Some(input[rest..]), Holds(root)), Complete)
    case Exhausted(m, at) => (Cont(m, None, c.lastSexpr), if m.depth == 0 then Between else Suspended)
    case Failed(m, f) => (Cont(m, c.lastPos, c.lastSexpr), Faulted(f))
  }

  /** With the correction, a call agrees with `cparse_sexp` on everything
      but `lastPos`, and on the last expression except when the input ran
      out between expressions. */
  lemma FixedAgrees(c: Cont, str: string, cap: nat)
    requires Inv(c.m)
    ensures ResumeFixed(c, str, cap).0.m == Resume(c, str, cap).0.m
    ensures ResumeFixed(c, str, cap).1 == Resume(c, str, cap).1
    ensures Resume(c, str, cap).1 != Between ==> ResumeFixed(c, str, cap).0.lastSexpr == Resume(c, str, cap).0.lastSexpr
  {
  }

  /** With the correction, the input can be split anywhere: a call that
      stops at the end of a chunk, with or without a list open, followed by a
      call on the next chunk, does what one call on both does. */
  lemma FixedSplit(c: Cont, a: string, b: string, cap: nat)
    requires Inv(c.m) && c.lastPos == None && '\0' !in a
    requires ResumeFixed(c, a, cap).1 == Suspended || ResumeFixed(c, a, cap).1 == Between
    ensures ResumeFixed(ResumeFixed(c, a, cap).0, b, cap) == ResumeFixed(c, a + b, cap)
  {
    var h := Run(c.m, a, 0, cap);
    assert h.Exhausted?;
    var m' := h.m;
    assert ResumeFixed(c, a, cap).0 == Cont(m', None, c.lastSexpr);
    RunPrefix(c.m, a, b, 0, cap);
    assert Run(c.m, a + b, 0, cap) == Shift(Run(m', b, 0, cap), |a|);
    match Run(m', b, 0, cap)
    case Completed(_, _, rest) => Past(a, b, |a|, rest);
    case Exhausted(_, at) => Past(a, b, |a|, at);
    case Failed(_, _) =>
  }

  /** "(a)" parsed from a fresh continuation. */
  lemma OneA(cap: nat)
    requires cap >= 2
    ensures Resume(Fresh(), "(a)", cap)
      == (Cont(Machine(Dispatch, 0, 0, "a", []), Some(""), Holds(List([Value("a", Basic)]))), Complete)
  {
    var toks := [Bare("a")];
    assert Layout(toks) == "a";
    assert "(a)" == "(" + Layout(toks) + ")" + "";
    FlatList(Fresh(), "(a)", toks, "", cap);
    assert Children(toks) == [Value("a", Basic)];
  }

  /** Two chunks "(a)" and "(b)": the second call never reads "(b)", and it
      replaces the finished "(a)" with the indeterminate `sx`. */
  lemma SecondChunkIgnored(cap: nat)
    requires cap >= 2
    ensures var c1 := Resume(Fresh(), "(a)", cap).0;
      && c1.lastSexpr == Holds(List([Value("a", Basic)]))
      && Resume(c1, "(b)", cap) == (c1.(lastSexpr := Indeterminate), Between)
  {
    OneA(cap);
    EndIsSticky(Resume(Fresh(), "(a)", cap).0, "(b)", cap);
  }

  /** The same two chunks with the correction: each call parses its own
      expression. */
  lemma SecondChunkFixed(cap: nat)
    requires cap >= 2
    ensures var c1 := ResumeFixed(Fresh(), "(a)", cap).0;
      && c1.lastSexpr == Holds(List([Value("a", Basic)])) && c1.lastPos == None
      && ResumeFixed(c1, "(b)", cap).1 == Complete
      && ResumeFixed(c1, "(b)", cap).0.lastSexpr == Holds(List([Value("b", Basic)]))
  {
    OneA(cap);
    FixedAgrees(Fresh(), "(a)", cap);
    var c1 := ResumeFixed(Fresh(), "(a)", cap).0;
    assert At("(a)", 3) == '\0';
    assert c1 == Cont(Machine(Dispatch, 0, 0, "a", []), None, Holds(List([Value("a", Basic)])));
    var toks := [Bare("b")];
    assert Layout(toks) == "b";
    assert "(b)" == "(" + Layout(toks) + ")" + "";
    FlatList(c1, "(b)", toks, "", cap);
    assert Children(toks) == [Value("b", Basic)];
    FixedAgrees(c1, "(b)", cap);
  }
}
