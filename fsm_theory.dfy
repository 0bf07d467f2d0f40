/** What the finite-state parser of src/backup/parser_new.c does with whole
    tokens and whole inputs, proved from the one-character `Step`. */
module FsmTheory {
  import opened CString
  import opened Sexpr
  import opened FsmParser

  /** Between tokens the machine waits in state 1 with the invariant. */
  predicate Idle(m: Machine)
  {
    Inv(m) && m.state == Dispatch
  }

  /** One turn of the loop, on a character that is not NUL. */
  lemma RunStep(m: Machine, input: string, t: nat, cap: nat)
    requires t < |input| && input[t] != '\0' && Ready(m, input[t])
    ensures (StepSound(m, input[t], cap); match Step(m, input[t], cap)
      case Next(m', consumed) => Run(m, input, t, cap) == Run(m', input, if consumed then t + 1 else t, cap)
      case Closed(m', root) => Run(m, input, t, cap) == Completed(m', root, t + 1)
      case Stuck(f) => Run(m, input, t, cap) == Failed(m, f))
  {
  }

  lemma RunNext(m: Machine, input: string, t: nat, cap: nat, m': Machine, consumed: bool)
    requires t < |input| && input[t] != '\0' && Ready(m, input[t])
    requires Step(m, input[t], cap) == Next(m', consumed)
    ensures (StepSound(m, input[t], cap); Run(m, input, t, cap) == Run(m', input, if consumed then t + 1 else t, cap))
  {
  }

  /** One more character of a slice, appended to a buffer. */
  lemma AppendSlice(b: string, s: string, t: nat, e: nat)
    requires t < e <= |s|
    ensures (b + [s[t]]) + s[t + 1..e] == b + s[t..e]
  {
    assert s[t..e] == [s[t]] + s[t + 1..e];
  }

  // ---------------------------------------------------------------------
  // Tokens
  // ---------------------------------------------------------------------

  /** State 1 skips white space. */
  lemma SkipSpace(m: Machine, input: string, t: nat, cap: nat)
    requires Idle(m) && t < |input| && IsSpace(input[t])
    ensures Run(m, input, t, cap) == Run(m, input, t + 1, cap)
  {
    assert Step(m, input[t], cap) == Next(m, true);
    RunNext(m, input, t, cap, m, true);
  }

  /** A '(' followed by any character opens a list one level deeper. */
  lemma OpenToken(m: Machine, input: string, t: nat, cap: nat)
    requires Idle(m) && t + 1 < |input| && input[t] == '(' && input[t + 1] != '\0'
    ensures var m' := m.(depth := m.depth + 1, stack := OpenList(m.stack));
      Idle(m') && Run(m, input, t, cap) == Run(m', input, t + 1, cap)
  {
    var m1 := m.(state := OpenParen);
    assert Step(m, '(', cap) == Next(m1, true);
    RunNext(m, input, t, cap, m1, true);
    OpenListKeepsShape(m.stack, m.depth);
    var m2 := m.(depth := m.depth + 1, stack := OpenList(m.stack));
    assert Step(m1, input[t + 1], cap) == Next(m2, false);
    RunNext(m1, input, t + 1, cap, m2, false);
  }

  /** A ')' closes the innermost list; closing the outermost one ends the
      call with the finished tree, just past the ')'. */
  lemma CloseToken(m: Machine, input: string, t: nat, cap: nat)
    requires Idle(m) && t < |input| && input[t] == ')' && m.depth >= 1
    ensures m.depth >= 2 ==>
      var m' := m.(depth := m.depth - 1, stack := CloseList(m.stack));
      Idle(m') && Run(m, input, t, cap) == Run(m', input, t + 1, cap)
    ensures m.depth == 1 ==>
      Run(m, input, t, cap) == Completed(m.(depth := 0, stack := []), List(m.stack[1]), t + 1)
  {
    var m1 := m.(state := CloseParen);
    assert Step(m, ')', cap) == Next(m1, false);
    RunNext(m, input, t, cap, m1, false);
    CloseListKeepsShape(m.stack, m.depth);
    if m.depth >= 2 {
      var m' := m.(depth := m.depth - 1, stack := CloseList(m.stack));
      assert Step(m1, ')', cap) == Next(m', true);
      RunNext(m1, input, t, cap, m', true);
    } else {
      assert Step(m1, ')', cap) == Closed(m.(depth := 0, stack := []), List(m.stack[1]));
      RunStep(m1, input, t, cap);
    }
  }

  /** A ')' with no list open is the fault of popping an empty stack. */
  lemma UnmatchedCloseFaults(m: Machine, input: string, t: nat, cap: nat)
    requires Idle(m) && t < |input| && input[t] == ')' && m.depth == 0
    ensures Run(m, input, t, cap) == Failed(m.(state := CloseParen), UnmatchedClose)
  {
    var m1 := m.(state := CloseParen);
    assert Step(m, ')', cap) == Next(m1, false);
    RunNext(m, input, t, cap, m1, false);
    RunStep(m1, input, t, cap);
  }

  /** The rest of an unquoted atom: state 4 copies atom characters into the
      buffer, and on the first other character adds the atom to the current
      list and goes back to state 1 without moving past that character. */
  lemma {:induction false} AtomRun(m: Machine, input: string, t: nat, e: nat, cap: nat)
    requires Inv(m) && m.state == InAtom && t <= e < |input|
    requires forall i :: t <= i < e ==> IsAtomChar(input[i])
    requires input[e] != '\0' && !IsAtomChar(input[e])
    requires |m.buf| + (e - t) < cap
    ensures var text := m.buf + input[t..e];
      var m' := m.(state := Dispatch, buf := text, stack := AddAtom(m.stack, Value(text, Basic)));
      Idle(m') && Run(m, input, t, cap) == Run(m', input, e, cap)
    decreases e - t
  {
    if t < e {
      var m1 := m.(buf := m.buf + [input[t]]);
      assert IsAtomChar(input[t]);
      assert Inv(m1);
      assert Step(m, input[t], cap) == Next(m1, true);
      RunNext(m, input, t, cap, m1, true);
      AtomRun(m1, input, t + 1, e, cap);
      var text := m.buf + input[t..e];
      AppendSlice(m.buf, input, t, e);
      assert m1.(state := Dispatch, buf := text) == m.(state := Dispatch, buf := text);
    } else {
      AddAtomKeepsShape(m.stack, m.depth, Value(m.buf, Basic));
      var m' := m.(state := Dispatch, stack := AddAtom(m.stack, Value(m.buf, Basic)));
      assert Step(m, input[t], cap) == Next(m', false);
      RunNext(m, input, t, cap, m', false);
      assert m.buf + input[t..e] == m.buf;
    }
  }

  /** An unquoted atom: a run of letters, digits and '!' ended by any other
      character becomes a BASIC atom of the current list. */
  lemma AtomToken(m: Machine, input: string, t: nat, e: nat, cap: nat)
    requires Idle(m) && t < e < |input|
    requires forall i :: t <= i < e ==> IsAtomChar(input[i])
    requires input[e] != '\0' && !IsAtomChar(input[e])
    requires e - t < cap
    ensures var text := input[t..e];
      var m' := m.(buf := text, stack := AddAtom(m.stack, Value(text, Basic)));
      Idle(m') && Run(m, input, t, cap) == Run(m', input, e, cap)
  {
    var m1 := m.(state := InAtom, buf := "");
    assert Step(m, input[t], cap) == Next(m1, false);
    RunNext(m, input, t, cap, m1, false);
    AtomRun(m1, input, t, e, cap);
    assert m1.buf + input[t..e] == input[t..e];
  }

  /** A single quote before an atom is dropped: state 7 hands the atom's
      first character to state 4, as state 1 does without the quote. */
  lemma QuoteSkipped(m: Machine, input: string, t: nat, cap: nat)
    requires Idle(m) && t + 1 < |input| && input[t] == '\'' && IsAtomChar(input[t + 1])
    ensures Run(m, input, t, cap) == Run(m, input, t + 1, cap)
  {
    var m1 := m.(state := AfterQuote);
    var m2 := m.(state := InAtom, buf := "");
    assert Step(m, '\'', cap) == Next(m1, true);
    RunNext(m, input, t, cap, m1, true);
    assert Step(m1, input[t + 1], cap) == Next(m2, false);
    RunNext(m1, input, t + 1, cap, m2, false);
    assert Step(m, input[t + 1], cap) == Next(m2, false);
    RunNext(m, input, t + 1, cap, m2, false);
  }

  /** A single quote before an atom is dropped, and the atom is BASIC. */
  lemma QuotedAtomToken(m: Machine, input: string, t: nat, e: nat, cap: nat)
    requires Idle(m) && t + 1 < e < |input| && input[t] == '\''
    requires forall i :: t + 1 <= i < e ==> IsAtomChar(input[i])
    requires input[e] != '\0' && !IsAtomChar(input[e])
    requires e - t - 1 < cap
    ensures var text := input[t + 1..e];
      var m' := m.(buf := text, stack := AddAtom(m.stack, Value(text, Basic)));
      Idle(m') && Run(m, input, t, cap) == Run(m', input, e, cap)
  {
    QuoteSkipped(m, input, t, cap);
    AtomToken(m, input, t + 1, e, cap);
  }

  /** The rest of a double-quoted string: state 5 copies every character up to
      the closing '"', then adds the DQUOTE atom and moves past the quote. */
  lemma {:induction false} StringRun(m: Machine, input: string, t: nat, e: nat, cap: nat)
    requires Inv(m) && m.state == InString && t <= e < |input|
    requires forall i :: t <= i < e ==> input[i] != '"' && input[i] != '\0'
    requires input[e] == '"'
    requires |m.buf| + (e - t) < cap
    ensures var text := m.buf + input[t..e];
      var m' := m.(state := AfterString, buf := text, stack := AddAtom(m.stack, Value(text, DQuote)));
      Inv(m') && Run(m, input, t, cap) == Run(m', input, e + 1, cap)
    decreases e - t
  {
    if t < e {
      var m1 := m.(buf := m.buf + [input[t]]);
      assert input[t] != '"' && input[t] != '\0';
      assert Inv(m1);
      assert Step(m, input[t], cap) == Next(m1, true);
      RunNext(m, input, t, cap, m1, true);
      StringRun(m1, input, t + 1, e, cap);
      var text := m.buf + input[t..e];
      AppendSlice(m.buf, input, t, e);
      assert m1.(state := AfterString, buf := text) == m.(state := AfterString, buf := text);
    } else {
      AddAtomKeepsShape(m.stack, m.depth, Value(m.buf, DQuote));
      var m' := m.(state := AfterString, stack := AddAtom(m.stack, Value(m.buf, DQuote)));
      assert Step(m, input[t], cap) == Next(m', true);
      RunNext(m, input, t, cap, m', true);
      assert m.buf + input[t..e] == m.buf;
    }
  }

  /** A double-quoted string followed by any character becomes a DQUOTE atom
      holding the text between the quotes, which may hold any character but
      '"' and NUL. */
  lemma StringToken(m: Machine, input: string, t: nat, e: nat, cap: nat)
    requires Idle(m) && t < e && e + 1 < |input| && input[t] == '"'
    requires forall i :: t + 1 <= i < e ==> input[i] != '"' && input[i] != '\0'
    requires input[e] == '"' && input[e + 1] != '\0'
    requires e - t - 1 < cap
    ensures var text := input[t + 1..e];
      var m' := m.(buf := "", stack := AddAtom(m.stack, Value(text, DQuote)));
      Idle(m') && Run(m, input, t, cap) == Run(m', input, e + 1, cap)
  {
    StringOpens(m, input, t, cap);
    var m1 := m.(state := InString, buf := "");
    StringRun(m1, input, t + 1, e, cap);
    var text := input[t + 1..e];
    assert m1.buf + input[t + 1..e] == text;
    StringCloses(m, input, e, text, cap);
  }

  /** The opening '"' empties the buffer and goes to state 5. */
  lemma StringOpens(m: Machine, input: string, t: nat, cap: nat)
    requires Idle(m) && t < |input| && input[t] == '"'
    ensures Inv(m.(state := InString, buf := ""))
    ensures Run(m, input, t, cap) == Run(m.(state := InString, buf := ""), input, t + 1, cap)
  {
    var m1 := m.(state := InString, buf := "");
    assert Step(m, '"', cap) == Next(m1, true);
    RunNext(m, input, t, cap, m1, true);
  }

  /** After the closing '"', state 6 empties the buffer and goes back to
      state 1 without reading. */
  lemma StringCloses(m: Machine, input: string, e: nat, text: string, cap: nat)
    requires Idle(m) && e + 1 < |input| && input[e + 1] != '\0' && '\0' !in text
    ensures var m' := m.(buf := "", stack := AddAtom(m.stack, Value(text, DQuote)));
      Idle(m') && Run(m.(state := AfterString, buf := text, stack := AddAtom(m.stack, Value(text, DQuote))), input, e + 1, cap)
        == Run(m', input, e + 1, cap)
  {
    AddAtomKeepsShape(m.stack, m.depth, Value(text, DQuote));
    var m2 := m.(state := AfterString, buf := text, stack := AddAtom(m.stack, Value(text, DQuote)));
    var m3 := m.(buf := "", stack := AddAtom(m.stack, Value(text, DQuote)));
    assert Step(m2, input[e + 1], cap) == Next(m3, false);
    RunNext(m2, input, e + 1, cap, m3, false);
  }

  /** The count of open parentheses after one more character of a quoted
      expression (`qdepth` in states 8 and 9). */
  function Count(q: int, c: char): int
  {
    if c == '(' then q + 1 else if c == ')' then q - 1 else q
  }

  /** From position `t`, with `q` parentheses open, the quoted expression
      holds no NUL, never closes before `e`, and the ')' at `e` closes it. */
  predicate Quoted(input: string, t: nat, e: nat, q: int)
    decreases e - t
  {
    t <= e < |input| && q >= 1 && input[t] != '\0' &&
    if t == e then input[e] == ')' && q == 1
    else Quoted(input, t + 1, e, Count(q, input[t]))
  }

  /** The rest of a quoted expression: state 8 copies every character up to
      and including the ')' that brings the count back to zero, counting
      inner parentheses, and state 9 returns to state 8 after every inner
      ')'. */
  lemma {:induction false} RawRun(m: Machine, input: string, t: nat, e: nat, cap: nat)
    requires Inv(m) && m.state == InRaw && Quoted(input, t, e, m.qdepth)
    requires |m.buf| + (e - t) < cap
    ensures var m' := m.(state := AfterRawClose, qdepth := 0, buf := m.buf + input[t..e + 1]);
      Inv(m') && Run(m, input, t, cap) == Run(m', input, e + 1, cap)
    decreases e - t
  {
    var c := input[t];
    var text := m.buf + input[t..e + 1];
    if t < e {
      var m1 := m.(qdepth := Count(m.qdepth, c), buf := m.buf + [c]);
      var m' := m.(state := AfterRawClose, qdepth := 0, buf := text);
      RawAdvance(m, input, t, cap);
      RawRun(m1, input, t + 1, e, cap);
      AppendSlice(m.buf, input, t, e + 1);
      assert m1.(state := AfterRawClose, qdepth := 0, buf := m1.buf + input[t + 1..e + 1]) == m';
      assert Run(m, input, t, cap) == Run(m1, input, t + 1, cap);
    } else {
      var m' := m.(state := AfterRawClose, qdepth := 0, buf := m.buf + [')']);
      assert Step(m, ')', cap) == Next(m', true);
      RunNext(m, input, t, cap, m', true);
      assert input[t..e + 1] == [')'];
    }
  }

  /** One character inside a quoted expression that does not close it: it
      is copied, and the count of open parentheses follows it; after an
      inner ')' state 9 hands back to state 8. */
  lemma RawAdvance(m: Machine, input: string, t: nat, cap: nat)
    requires Inv(m) && m.state == InRaw && m.qdepth >= 1 && t + 1 < |input| && input[t + 1] != '\0'
    requires input[t] != '\0'
    requires Count(m.qdepth, input[t]) >= 1 && |m.buf| < cap
    ensures var m1 := m.(qdepth := Count(m.qdepth, input[t]), buf := m.buf + [input[t]]);
      Inv(m1) && Run(m, input, t, cap) == Run(m1, input, t + 1, cap)
  {
    var c := input[t];
    var m1 := m.(qdepth := Count(m.qdepth, c), buf := m.buf + [c]);
    if c == ')' {
      var m0 := m1.(state := AfterRawClose);
      assert Step(m, c, cap) == Next(m0, true);
      RunNext(m, input, t, cap, m0, true);
      assert Step(m0, input[t + 1], cap) == Next(m1, false);
      RunNext(m0, input, t + 1, cap, m1, false);
    } else {
      assert Step(m, c, cap) == Next(m1, true);
      RunNext(m, input, t, cap, m1, true);
    }
  }

  /** A quoted parenthesised expression, followed by any character, becomes
      one SQUOTE atom holding its text, inner parentheses and all, without
      the quote. */
  lemma RawToken(m: Machine, input: string, t: nat, e: nat, cap: nat)
    requires Idle(m) && t + 1 < |input| && input[t] == '\'' && input[t + 1] == '('
    requires Quoted(input, t + 2, e, 1) && e + 1 < |input| && input[e + 1] != '\0'
    requires e - t < cap
    ensures var text := input[t + 1..e + 1];
      var m' := m.(buf := text, stack := AddAtom(m.stack, Value(text, SQuote)));
      Idle(m') && Run(m, input, t, cap) == Run(m', input, e + 1, cap)
  {
    RawOpens(m, input, t, cap);
    var m3 := m.(state := InRaw, qdepth := 1, buf := "(");
    RawRun(m3, input, t + 2, e, cap);
    var text := input[t + 1..e + 1];
    assert m3.buf + input[t + 2..e + 1] == text;
    RawCloses(m, input, e, text, cap);
  }

  /** The quote and the '(' after it: state 7 hands the '(' to state 8,
      which copies it and counts one open parenthesis. */
  lemma RawOpens(m: Machine, input: string, t: nat, cap: nat)
    requires Idle(m) && t + 1 < |input| && input[t] == '\'' && input[t + 1] == '(' && 0 < cap
    ensures Inv(m.(state := InRaw, qdepth := 1, buf := "("))
    ensures Run(m, input, t, cap) == Run(m.(state := InRaw, qdepth := 1, buf := "("), input, t + 2, cap)
  {
    var m1 := m.(state := AfterQuote);
    assert Step(m, '\'', cap) == Next(m1, true);
    RunNext(m, input, t, cap, m1, true);
    var m2 := m.(state := InRaw, buf := "");
    assert Step(m1, '(', cap) == Next(m2, false);
    RunNext(m1, input, t + 1, cap, m2, false);
    var m3 := m.(state := InRaw, qdepth := 1, buf := "(");
    assert Step(m2, '(', cap) == Next(m3, true);
    RunNext(m2, input, t + 1, cap, m3, true);
  }

  /** After the closing ')', state 9 with no parenthesis left open adds the
      SQUOTE atom and goes back to state 1 without reading. */
  lemma RawCloses(m: Machine, input: string, e: nat, text: string, cap: nat)
    requires Idle(m) && e + 1 < |input| && input[e + 1] != '\0' && '\0' !in text && |text| < cap
    ensures var m' := m.(buf := text, stack := AddAtom(m.stack, Value(text, SQuote)));
      Idle(m') && Run(m.(state := AfterRawClose, buf := text), input, e + 1, cap) == Run(m', input, e + 1, cap)
  {
    var m4 := m.(state := AfterRawClose, buf := text);
    AddAtomKeepsShape(m.stack, m.depth, Value(text, SQuote));
    var m5 := m.(buf := text, stack := AddAtom(m.stack, Value(text, SQuote)));
    assert Step(m4, input[e + 1], cap) == Next(m5, false);
    RunNext(m4, input, e + 1, cap, m5, false);
  }

  /** The quoted expression '(a (b) c) is one SQUOTE atom: the inner
      parentheses are counted, not taken for the end of the quote. */
  lemma NestedQuote(m: Machine, cap: nat)
    requires Idle(m) && cap >= 11
    ensures var input := "'(a (b) c) ";
      var text := "(a (b) c)";
      Run(m, input, 0, cap) == Run(m.(buf := text, stack := AddAtom(m.stack, Value(text, SQuote))), input, 10, cap)
  {
    var input := "'(a (b) c) ";
    NestedQuoted(input);
    RawToken(m, input, 0, 9, cap);
    assert input[1..10] == "(a (b) c)";
  }

  /** The count in "'(a (b) c) " goes 1, 2, 1 and reaches zero at the last ')'. */
  lemma NestedQuoted(input: string)
    requires input == "'(a (b) c) "
    ensures Quoted(input, 2, 9, 1)
  {
    assert Quoted(input, 9, 9, 1);
    assert Quoted(input, 8, 9, 1);
    assert Quoted(input, 7, 9, 1);
    assert Quoted(input, 6, 9, 2);
    assert Quoted(input, 5, 9, 2);
    assert Quoted(input, 4, 9, 1);
    assert Quoted(input, 3, 9, 1);
  }
}
