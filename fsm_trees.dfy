/** Whole nested lists through the finite-state parser of
    src/backup/parser_new.c: a tree of lists whose leaves are simple tokens,
    written with one fixed run of white space between the elements of each
    list, is parsed back into the same tree. */
module FsmTrees {
  import opened CString
  import opened Sexpr
  import opened FsmParser
  import opened FsmTheory
  import opened FsmLists

  /** A nested list of simple tokens. */
  datatype Tree = Leaf(k: Token) | Group(ts: seq<Tree>)

  /** A run of white space that separates the elements of a list. */
  predicate Gap(sp: string)
  {
    |sp| > 0 && forall i :: 0 <= i < |sp| ==> IsSpace(sp[i])
  }

  /** The tree written out, with `sp` between the elements of each list. */
  function Print(tr: Tree, sp: string): string
    decreases tr
  {
    match tr
    case Leaf(k) => Spell(k)
    case Group(ts) => "(" + Row(ts, sp) + ")"
  }

  function Row(ts: seq<Tree>, sp: string): string
    decreases ts
  {
    if |ts| == 0 then ""
    else if |ts| == 1 then Print(ts[0], sp)
    else Print(ts[0], sp) + sp + Row(ts[1..], sp)
  }

  /** The node the parser builds for a tree. */
  function NodeOf(tr: Tree): Node
    decreases tr
  {
    match tr
    case Leaf(k) => Child(k)
    case Group(ts) => List(Nodes(ts))
  }

  function Nodes(ts: seq<Tree>): (r: seq<Node>)
    ensures |r| == |ts|
    decreases ts
  {
    if |ts| == 0 then [] else [NodeOf(ts[0])] + Nodes(ts[1..])
  }

  /** Every leaf is a token the parser reads whole with a buffer of `cap`. */
  predicate Fits(tr: Tree, cap: nat)
    decreases tr
  {
    match tr
    case Leaf(k) => Simple(k, cap)
    case Group(ts) => AllFit(ts, cap)
  }

  predicate AllFit(ts: seq<Tree>, cap: nat)
    decreases ts
  {
    |ts| == 0 || (Fits(ts[0], cap) && AllFit(ts[1..], cap))
  }

  /** What the atom buffer holds after the tree, when it held `buf` before:
      the text of the last token that leaves one. */
  function TreeResidue(tr: Tree, buf: string): string
    decreases tr
  {
    match tr
    case Leaf(k) => Residue(k)
    case Group(ts) => RowResidue(ts, buf)
  }

  function RowResidue(ts: seq<Tree>, buf: string): string
    decreases ts
  {
    if |ts| == 0 then buf else RowResidue(ts[1..], TreeResidue(ts[0], buf))
  }

  /** The machine after reading a tree: its node joins the current list. */
  function After(m: Machine, tr: Tree): Machine
  {
    m.(buf := TreeResidue(tr, m.buf), stack := AddAtom(m.stack, NodeOf(tr)))
  }

  /** The machine after reading the elements of a list. */
  function AfterRow(m: Machine, ts: seq<Tree>): Machine
    requires |m.stack| > 0
  {
    m.(buf := RowResidue(ts, m.buf), stack := AppendTop(m.stack, Nodes(ts)))
  }

  /** A written tree starts with a character that is not NUL. */
  lemma PrintStart(tr: Tree, sp: string, cap: nat)
    requires Fits(tr, cap)
    ensures |Print(tr, sp)| > 0 && Print(tr, sp)[0] != '\0'
  {
    if tr.Leaf? && tr.k.Bare? {
      assert IsAtomChar(tr.k.w[0]);
    }
  }

  /** The elements of a list and its ')' start with a character that is
      not NUL. */
  lemma RowStart(ts: seq<Tree>, sp: string, cap: nat)
    requires AllFit(ts, cap)
    ensures (Row(ts, sp) + ")")[0] != '\0'
  {
    if |ts| > 0 {
      PrintStart(ts[0], sp, cap);
      assert Row(ts, sp)[0] == Print(ts[0], sp)[0];
    }
  }

  /** The first character of a text spelled in the input. */
  lemma SpelledFirst(input: string, t: nat, w: string)
    requires SpelledAt(input, t, w) && |w| > 0
    ensures t < |input| && input[t] == w[0]
  {
  }

  /** State 1 skips a run of white space. */
  lemma {:induction false} SkipGap(m: Machine, input: string, t: nat, sp: string, cap: nat)
    requires Idle(m) && SpelledAt(input, t, sp)
    requires forall i :: 0 <= i < |sp| ==> IsSpace(sp[i])
    ensures Run(m, input, t, cap) == Run(m, input, t + |sp|, cap)
    decreases |sp|
  {
    if |sp| > 0 {
      SkipSpace(m, input, t, cap);
      SkipGap(m, input, t + 1, sp[1..], cap);
    }
  }

  /** Closing a list whose elements were read into a fresh frame adds the
      list to the frame below. */
  lemma CloseAfterOpen(st: Stack, ns: seq<Node>)
    requires |st| > 0
    ensures |OpenList(st)| >= 2 && EndsInList(OpenList(st)[|OpenList(st)| - 2])
    ensures CloseList(AppendTop(OpenList(st), ns)) == AddAtom(st, List(ns))
  {
    var o := OpenList(st);
    var a := AppendTop(o, ns);
    assert a[|a| - 1] == ns;
    assert a[|a| - 2] == st[|st| - 1] + [List([])];
    var below := a[|a| - 2];
    assert below[..|below| - 1] == st[|st| - 1];
  }

  /** Reading one element, then the rest of the list, is reading the list. */
  lemma AfterRowCons(m: Machine, ts: seq<Tree>)
    requires |ts| > 0 && |m.stack| > 0
    ensures AfterRow(After(m, ts[0]), ts[1..]) == AfterRow(m, ts)
  {
    AppendTopAfterAdd(m.stack, NodeOf(ts[0]), Nodes(ts[1..]));
  }

  lemma AfterRowEmpty(m: Machine)
    requires |m.stack| > 0
    ensures AfterRow(m, []) == m
  {
    var st := m.stack;
    assert st[|st| - 1] + [] == st[|st| - 1];
    assert st[..|st| - 1] + [st[|st| - 1]] == st;
  }

  /** A written tree inside an open list, followed by a space or a ')', is
      read whole: its node joins the current list and the machine is back
      in state 1 just after it. */
  lemma {:induction false} TreeRun(m: Machine, input: string, t: nat, tr: Tree, sp: string, e: nat, cap: nat)
    requires Idle(m) && m.depth >= 1 && Fits(tr, cap) && Gap(sp)
    requires SpelledAt(input, t, Print(tr, sp)) && e == t + |Print(tr, sp)|
    requires e < |input| && (IsSpace(input[e]) || input[e] == ')')
    ensures Idle(After(m, tr)) && After(m, tr).depth == m.depth
    ensures Run(m, input, t, cap) == Run(After(m, tr), input, e, cap)
    decreases tr, 2
  {
    match tr
    case Leaf(k) =>
      TokenRun(m, input, t, k, cap);
    case Group(ts) =>
      var row := Row(ts, sp);
      assert Print(tr, sp) == "(" + (row + ")");
      SplitSpelled(input, t, "(", row + ")");
      SplitSpelled(input, t + 1, row, ")");
      var m1 := m.(depth := m.depth + 1, stack := OpenList(m.stack));
      RowStart(ts, sp, cap);
      SpelledFirst(input, t + 1, row + ")");
      OpenToken(m, input, t, cap);
      RowRun(m1, input, t + 1, ts, sp, e - 1, cap);
      var m2 := AfterRow(m1, ts);
      CloseToken(m2, input, e - 1, cap);
      CloseAfterOpen(m.stack, Nodes(ts));
  }

  /** The written elements of a list, followed by its ')', are read in
      order: each node is appended to the current list. */
  lemma {:induction false} RowRun(m: Machine, input: string, t: nat, ts: seq<Tree>, sp: string, e: nat, cap: nat)
    requires Idle(m) && m.depth >= 1 && AllFit(ts, cap) && Gap(sp)
    requires SpelledAt(input, t, Row(ts, sp)) && e == t + |Row(ts, sp)|
    requires e < |input| && input[e] == ')'
    ensures Idle(AfterRow(m, ts)) && AfterRow(m, ts).depth == m.depth
    ensures Run(m, input, t, cap) == Run(AfterRow(m, ts), input, e, cap)
    decreases ts, 1
  {
    if |ts| == 0 {
      AfterRowEmpty(m);
    } else if |ts| == 1 {
      TreeRun(m, input, t, ts[0], sp, e, cap);
      AfterRowCons(m, ts);
      AfterRowEmpty(After(m, ts[0]));
    } else {
      RowCons(m, input, t, ts, sp, e, cap);
    }
  }

  /** A list of two or more elements: the first, its gap, then the rest. */
  lemma {:induction false} RowCons(m: Machine, input: string, t: nat, ts: seq<Tree>, sp: string, e: nat, cap: nat)
    requires Idle(m) && m.depth >= 1 && |ts| >= 2 && AllFit(ts, cap) && Gap(sp)
    requires SpelledAt(input, t, Row(ts, sp)) && e == t + |Row(ts, sp)|
    requires e < |input| && input[e] == ')'
    ensures Idle(AfterRow(m, ts)) && AfterRow(m, ts).depth == m.depth
    ensures Run(m, input, t, cap) == Run(AfterRow(m, ts), input, e, cap)
    decreases ts, 0
  {
    var first, rest := Print(ts[0], sp), Row(ts[1..], sp);
    assert Row(ts, sp) == first + sp + rest;
    SplitSpelled(input, t, first + sp, rest);
    SplitSpelled(input, t, first, sp);
    var e0 := t + |first|;
    SpelledFirst(input, e0, sp);
    TreeRun(m, input, t, ts[0], sp, e0, cap);
    var m1 := After(m, ts[0]);
    SkipGap(m1, input, e0, sp, cap);
    RowRun(m1, input, e0 + |sp|, ts[1..], sp, e, cap);
    AfterRowCons(m, ts);
  }

  /** The loop over a written tree of lists, between expressions: the
      list closes at its ')' with the elements' nodes as its children. */
  lemma TreeTop(input: string, ts: seq<Tree>, sp: string, buf: string, cap: nat)
    requires AllFit(ts, cap) && Gap(sp) && '\0' !in buf
    requires 1 < |input| && input[0] == '(' && input[1] != '\0'
    requires SpelledAt(input, 1, Row(ts, sp)) && 1 + |Row(ts, sp)| < |input| && input[1 + |Row(ts, sp)|] == ')'
    ensures Run(Machine(Dispatch, 0, 0, buf, []), input, 0, cap)
      == Completed(Machine(Dispatch, 0, 0, RowResidue(ts, buf), []), List(Nodes(ts)), 2 + |Row(ts, sp)|)
  {
    var m1 := Machine(Dispatch, 1, 0, buf, [[List([])], []]);
    var e := 1 + |Row(ts, sp)|;
    FirstOpen(input, buf, cap);
    RowRun(m1, input, 1, ts, sp, e, cap);
    var m2 := AfterRow(m1, ts);
    var none: Frame := [];
    assert none + Nodes(ts) == Nodes(ts);
    assert m2.stack == [[List([])], Nodes(ts)];
    assert m2.(depth := 0, stack := []) == Machine(Dispatch, 0, 0, RowResidue(ts, buf), []);
    CloseToken(m2, input, e, cap);
  }

  /** A written tree of lists, parsed by a continuation between expressions
      that reads its own string, completes with that tree; the continuation
      resumes just past the closing ')'. */
  lemma TreeList(c: Cont, input: string, ts: seq<Tree>, sp: string, rest: string, cap: nat)
    requires Idle(c.m) && c.m.depth == 0 && c.lastPos == None
    requires AllFit(ts, cap) && Gap(sp)
    requires input == Print(Group(ts), sp) + rest
    ensures Resume(c, input, cap)
      == (Cont(Machine(Dispatch, 0, 0, RowResidue(ts, c.m.buf), []), Some(rest), Holds(NodeOf(Group(ts)))), Complete)
  {
    var row := Row(ts, sp);
    assert input == "(" + row + ")" + rest;
    Framed(input, row, rest);
    assert c.m == Machine(Dispatch, 0, 0, c.m.buf, []);
    RowStart(ts, sp, cap);
    assert input[1] == (row + ")")[0];
    TreeTop(input, ts, sp, c.m.buf, cap);
  }

  /** The trees of (a (b c) d). */
  function NestedTrees(): seq<Tree>
  {
    [Leaf(Bare("a")), Group([Leaf(Bare("b")), Leaf(Bare("c"))]), Leaf(Bare("d"))]
  }

  /** (a (b c) d), read whole from a fresh continuation. */
  lemma NestedList(cap: nat)
    requires cap >= 2
    ensures Resume(Fresh(), "(a (b c) d)", cap)
      == (Cont(Machine(Dispatch, 0, 0, "d", []), Some(""), Holds(List([
           Value("a", Basic), List([Value("b", Basic), Value("c", Basic)]), Value("d", Basic)]))),
          Complete)
  {
    NestedText();
    NestedFit(cap);
    NestedNodes();
    TreeList(Fresh(), "(a (b c) d)", NestedTrees(), " ", "", cap);
  }

  lemma NestedText()
    ensures Print(Group(NestedTrees()), " ") + "" == "(a (b c) d)"
  {
    var ts := NestedTrees();
    var inner := ts[1];
    assert Row([Leaf(Bare("c"))], " ") == "c";
    assert Print(inner, " ") == "(b c)";
    assert Row(ts[2..], " ") == "d";
    assert Row(ts[1..], " ") == "(b c) d";
    assert Row(ts, " ") == "a (b c) d";
  }

  lemma NestedFit(cap: nat)
    requires cap >= 2
    ensures AllFit(NestedTrees(), cap)
  {
    var ts := NestedTrees();
    var inner := ts[1];
    assert IsAtomChar('a') && IsAtomChar('b') && IsAtomChar('c') && IsAtomChar('d');
    assert ts[2..][1..] == [] && AllFit(ts[2..], cap);
    assert AllFit([Leaf(Bare("c"))], cap);
    assert Fits(inner, cap);
    assert AllFit(ts[1..], cap);
  }

  lemma NestedNodes()
    ensures NodeOf(Group(NestedTrees()))
      == List([Value("a", Basic), List([Value("b", Basic), Value("c", Basic)]), Value("d", Basic)])
    ensures RowResidue(NestedTrees(), Fresh().m.buf) == "d"
  {
    var ts := NestedTrees();
    var inner := ts[1];
    assert Nodes(ts[2..]) == [Value("d", Basic)];
    assert Nodes([Leaf(Bare("c"))]) == [Value("c", Basic)];
    assert NodeOf(inner) == List([Value("b", Basic), Value("c", Basic)]);
    assert Nodes(ts[1..]) == [NodeOf(inner), Value("d", Basic)];
    assert RowResidue(ts[2..], TreeResidue(inner, "a")) == "d";
    assert RowResidue(ts, Fresh().m.buf) == "d";
    assert Nodes(ts) == [Value("a", Basic), NodeOf(inner), Value("d", Basic)];
  }
}
