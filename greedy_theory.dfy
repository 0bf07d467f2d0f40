/** What the greedy parser of src/backup/parser_old.c does with atoms, with
    a continuation used for a second expression, and with input split
    between calls. */
module GreedyTheory {
  import opened CString
  import opened Sexpr
  import opened GreedyParser

  /** The size of the atom buffer decides only whether an atom fits, never
      what it is: with a buffer large enough for the rest of the input the
      scan always succeeds, and with any buffer it gives that same text when
      the text fits and overruns when it does not. */
  lemma {:induction false} ScanBound(input: string, t: nat, w: string, cap: nat, big: nat)
    requires t <= |input| && |w| <= cap && big >= |w| + (|input| - t)
    ensures Scan(input, t, w, big).Text?
    ensures Scan(input, t, w, cap) == if |Scan(input, t, w, big).w| <= cap then Scan(input, t, w, big) else Overrun
    decreases |input| - t
  {
    var c := At(input, t);
    if !Ends(c) {
      if c == '\\' && Escapable(At(input, t + 1)) {
        var w' := w + [c, input[t + 1]];
        ScanBound(input, t + 2, w', |w'|, big);
        ScanGrows(input, t + 2, w', big);
        if |w'| <= cap {
          ScanBound(input, t + 2, w', cap, big);
        }
      } else {
        var w' := w + [c];
        ScanBound(input, t + 1, w', |w'|, big);
        ScanGrows(input, t + 1, w', big);
        if |w'| <= cap {
          ScanBound(input, t + 1, w', cap, big);
        }
      }
    }
  }

  /** The scan only appends to the text it starts with. */
  lemma {:induction false} ScanGrows(input: string, t: nat, w: string, cap: nat)
    requires t <= |input|
    ensures Scan(input, t, w, cap).Text? ==> |w| <= |Scan(input, t, w, cap).w|
    decreases |input| - t
  {
    var c := At(input, t);
    if !Ends(c) && |w| < cap {
      if c == '\\' && Escapable(At(input, t + 1)) {
        if |w| + 1 < cap {
          ScanGrows(input, t + 2, w + [c, input[t + 1]], cap);
        }
      } else {
        ScanGrows(input, t + 1, w + [c], cap);
      }
    }
  }

  /** An atom is the text of the input as written: a backslash and the
      character it escapes are both kept, nothing is decoded. */
  lemma {:induction false} ScanSlice(input: string, t: nat, w: string, cap: nat)
    requires t <= |input|
    ensures var r := Scan(input, t, w, cap);
      r.Text? ==> r.w == w + input[t..r.e]
    decreases |input| - t
  {
    var c := At(input, t);
    if Ends(c) {
      assert input[t..t] == [];
    } else if |w| < cap {
      var k := if c == '\\' && Escapable(At(input, t + 1)) then 2 else 1;
      if k == 1 || |w| + 1 < cap {
        var w' := w + input[t..t + k];
        ScanOnce(input, t, w, k, cap);
        ScanSlice(input, t + k, w', cap);
        var r := Scan(input, t + k, w', cap);
        if r.Text? {
          SliceJoin(input, t, t + k, r.e);
          assert w' + input[t + k..r.e] == w + input[t..r.e];
        }
      }
    }
  }

  /** One step of the scan: a character, or a backslash and the character
      it escapes, joins the text. */
  lemma ScanOnce(input: string, t: nat, w: string, k: nat, cap: nat)
    requires t < |input| && !Ends(input[t]) && |w| < cap
    requires k == if input[t] == '\\' && Escapable(At(input, t + 1)) then 2 else 1
    requires k == 1 || |w| + 1 < cap
    ensures t + k <= |input| && Scan(input, t, w, cap) == Scan(input, t + k, w + input[t..t + k], cap)
  {
    if k == 2 {
      assert input[t..t + 2] == [input[t], input[t + 1]];
    } else {
      assert input[t..t + 1] == [input[t]];
    }
  }

  lemma SliceJoin(s: string, i: nat, j: nat, k: nat)
    requires i <= j <= k <= |s|
    ensures s[i..k] == s[i..j] + s[j..k]
  {
  }

  /** `cparse_sexp` frees the stack when an expression is complete and never
      makes a new one: once a call has returned with no list open, no later
      call on the continuation returns an expression or returns between
      expressions again. */
  lemma FreedForGood(c: GCont, str: string, cap: nat)
    requires Usable(c) && !c.live
    ensures GResume(c, str, cap).1 != Complete && GResume(c, str, cap).1 != Between
  {
  }

  /** A call after a complete expression faults as soon as it reaches a
      parenthesis: the freed stack is read again. */
  lemma ParenAfterFree(c: GCont, str: string, cap: nat)
    requires Usable(c) && !c.live && !c.hasVal && c.lastPos == None
    requires var s := SkipWhite(str, 0); s < |str| && (str[s] == '(' || str[s] == ')')
    ensures GResume(c, str, cap).1 == Faulted(UseAfterFree)
  {
    var s := SkipWhite(str, 0);
    if IsWhite(At(str, 0)) {
      assert Flush(Entry(c), str, cap) == Start(Entry(c).(cur := Null), s);
    } else {
      assert s == 0;
    }
  }

  /** Closing the outermost list leaves the root frame holding it. */
  lemma CloseRoot(ns: seq<Node>)
    ensures CloseList([[List([])], ns]) == [[List(ns)]]
  {
    var st: Stack := [[List([])], ns];
    var below := st[0];
    assert below[..0] + [List(ns)] == [List(ns)];
    assert st[..0] + [[List(ns)]] == [[List(ns)]];
  }

  /** Closing a list that is the first element of the outermost one. */
  lemma CloseInner(ns: seq<Node>)
    ensures CloseList([[List([])], [List([])], ns]) == [[List([])], [List(ns)]]
  {
    var st: Stack := [[List([])], [List([])], ns];
    var below := st[1];
    assert below[..0] + [List(ns)] == [List(ns)];
    assert st[..1] + [[List(ns)]] == [[List([])], [List(ns)]];
  }

  /** An atom inside the outermost list joins its children. */
  lemma AddToRoot(ns: seq<Node>, n: Node)
    ensures AddAtom([[List([])], ns], n) == [[List([])], ns + [n]]
  {
  }

  /** The continuation after a first chunk "(ab" that ends inside the atom:
      one list open and the atom's text saved behind `cc->vcur`. */
  function OpenAb(): GCont
  {
    GCont(1, [[List([])], []], true, true, Holds("ab"), None, Null)
  }

  lemma FirstChunkAb(cap: nat)
    requires cap >= 3
    ensures GResume(NewCont(), "(ab", cap) == (OpenAb(), Suspended)
  {
    var input := "(ab";
    var g0 := Entry(NewCont());
    assert Flush(g0, input, cap) == Start(g0, 0);
    var g1 := g0.(depth := 1, stack := [[List([])], []]);
    assert Loop(g0, input, 0, cap) == Loop(g1, input, 1, cap);
    assert SkipWhite(input, 1) == 1;
    assert Scan(input, 3, "ab", cap) == Text("ab", 3);
    assert Scan(input, 1, "", cap) == Text("ab", 3);
    assert Loop(g1, input, 1, cap) == CutOff(g1.(cur := Holds("ab"), pending := Holds("ab")), 3);
  }

  /** An atom cut by the end of a chunk is lost when the next chunk starts
      with ')': the ')' clears `cc->vcur` without finishing the atom. Read
      in one piece, "(ab)" is the list (ab); in the chunks "(ab" and ")" it
      is the empty list. */
  lemma CloseDropsCutAtom(cap: nat)
    requires cap >= 3
    ensures GResume(NewCont(), "(ab)", cap).1 == Complete
    ensures GResume(NewCont(), "(ab)", cap).0.lastSexpr == Holds(List([Value("ab", Unset)]))
    ensures GResume(NewCont(), "(ab", cap).1 == Suspended
    ensures GResume(GResume(NewCont(), "(ab", cap).0, ")", cap).1 == Complete
    ensures GResume(GResume(NewCont(), "(ab", cap).0, ")", cap).0.lastSexpr == Holds(List([]))
  {
    FirstChunkAb(cap);
    var g0 := Entry(OpenAb());
    assert Flush(g0, ")", cap) == Start(g0, 0);
    CloseRoot([]);
    assert CloseTurn(g0, 0) == Go(g0.(pending := Null, depth := 0, stack := [[List([])]]), 1);
    assert Loop(g0, ")", 0, cap) == Exit(g0.(pending := Null, depth := 0, stack := [[List([])]]), 1);
    WholeAb(cap);
  }

  /** "(ab)" read in one piece. */
  lemma WholeAb(cap: nat)
    requires cap >= 3
    ensures GResume(NewCont(), "(ab)", cap).1 == Complete
    ensures GResume(NewCont(), "(ab)", cap).0.lastSexpr == Holds(List([Value("ab", Unset)]))
  {
    var input := "(ab)";
    var n := Value("ab", Unset);
    var g0 := GMachine(0, [], true, Indeterminate, Null);
    assert Entry(NewCont()) == g0;
    assert Flush(g0, input, cap) == Start(g0, 0);
    ResumeStart(NewCont(), input, cap);
    AbOpen(cap);
    AbAtom(cap);
    AbClose(cap);
    var g3 := GMachine(0, [[List([n])]], true, Holds("ab"), Null);
    assert Loop(g0, input, 0, cap) == Exit(g3, 4);
  }

  /** "(" of "(ab)" opens the list in a new root frame. */
  lemma AbOpen(cap: nat)
    ensures Loop(GMachine(0, [], true, Indeterminate, Null), "(ab)", 0, cap)
      == Loop(GMachine(1, [[List([])], []], true, Indeterminate, Null), "(ab)", 1, cap)
  {
    var none: seq<Node> := [];
    assert none + [List([])] == [List([])];
    assert OpenList([]) == [[List([])], []];
    LoopOnce(GMachine(0, [], true, Indeterminate, Null), "(ab)", 0, cap);
  }

  /** "ab" of "(ab)" is read and attached to the list. */
  lemma AbAtom(cap: nat)
    requires cap >= 3
    ensures Loop(GMachine(1, [[List([])], []], true, Indeterminate, Null), "(ab)", 1, cap)
      == Loop(GMachine(1, [[List([])], [Value("ab", Unset)]], true, Holds("ab"), Null), "(ab)", 3, cap)
  {
    var input := "(ab)";
    var n := Value("ab", Unset);
    var g1 := GMachine(1, [[List([])], []], true, Indeterminate, Null);
    var none: seq<Node> := [];
    assert SkipWhite(input, 1) == 1;
    assert Scan(input, 3, "ab", cap) == Text("ab", 3);
    assert Scan(input, 1, "", cap) == Text("ab", 3);
    assert none + [n] == [n];
    assert Finish(g1, "ab", cap) == Attached(g1.(cur := Holds("ab"), pending := Null, stack := [[List([])], [n]]));
    LoopOnce(g1, input, 1, cap);
  }

  /** ")" of "(ab)" closes the list, and the loop stops. */
  lemma AbClose(cap: nat)
    ensures Loop(GMachine(1, [[List([])], [Value("ab", Unset)]], true, Holds("ab"), Null), "(ab)", 3, cap)
      == Exit(GMachine(0, [[List([Value("ab", Unset)])]], true, Holds("ab"), Null), 4)
  {
    CloseRoot([Value("ab", Unset)]);
    LoopOnce(GMachine(1, [[List([])], [Value("ab", Unset)]], true, Holds("ab"), Null), "(ab)", 3, cap);
  }

  /** The continuation after a first chunk "((b)": the inner list is closed,
      the outer one open, and the local cursor, still just past "b", has
      been saved in `cc->vcur`. */
  function InnerClosed(): GCont
  {
    GCont(1, [[List([])], [List([Value("b", Unset)])]], true, true, Holds("b"), None, Null)
  }

  lemma FirstChunkInner(cap: nat)
    requires cap >= 2
    ensures GResume(NewCont(), "((b)", cap) == (InnerClosed(), Suspended)
  {
    var input := "((b)";
    var n := Value("b", Unset);
    var g0 := GMachine(0, [], true, Indeterminate, Null);
    assert Entry(NewCont()) == g0;
    assert Flush(g0, input, cap) == Start(g0, 0);
    ResumeStart(NewCont(), input, cap);
    InnerOpen(cap);
    InnerOpenInner(cap);
    InnerAtom(cap);
    InnerClose(cap);
    var g4 := GMachine(1, [[List([])], [List([n])]], true, Holds("b"), Null);
    assert Loop(g0, input, 0, cap) == Exit(g4, 4);
  }

  /** The first "(" of "((b)" opens the outer list in a new root frame. */
  lemma InnerOpen(cap: nat)
    ensures Loop(GMachine(0, [], true, Indeterminate, Null), "((b)", 0, cap)
      == Loop(GMachine(1, [[List([])], []], true, Indeterminate, Null), "((b)", 1, cap)
  {
    var none: seq<Node> := [];
    assert none + [List([])] == [List([])];
    assert OpenList([]) == [[List([])], []];
    LoopOnce(GMachine(0, [], true, Indeterminate, Null), "((b)", 0, cap);
  }

  /** The second "(" of "((b)" opens the inner list. */
  lemma InnerOpenInner(cap: nat)
    ensures Loop(GMachine(1, [[List([])], []], true, Indeterminate, Null), "((b)", 1, cap)
      == Loop(GMachine(2, [[List([])], [List([])], []], true, Indeterminate, Null), "((b)", 2, cap)
  {
    var none: seq<Node> := [];
    assert none + [List([])] == [List([])];
    assert OpenList([[List([])], []]) == [[List([])], [List([])], []];
    LoopOnce(GMachine(1, [[List([])], []], true, Indeterminate, Null), "((b)", 1, cap);
  }

  /** "b" of "((b)" is read and attached to the inner list. */
  lemma InnerAtom(cap: nat)
    requires cap >= 2
    ensures Loop(GMachine(2, [[List([])], [List([])], []], true, Indeterminate, Null), "((b)", 2, cap)
      == Loop(GMachine(2, [[List([])], [List([])], [Value("b", Unset)]], true, Holds("b"), Null), "((b)", 3, cap)
  {
    var input := "((b)";
    var n := Value("b", Unset);
    var g2 := GMachine(2, [[List([])], [List([])], []], true, Indeterminate, Null);
    var none: seq<Node> := [];
    assert SkipWhite(input, 2) == 2;
    assert Scan(input, 3, "b", cap) == Text("b", 3);
    assert Scan(input, 2, "", cap) == Text("b", 3);
    assert none + [n] == [n];
    assert Finish(g2, "b", cap) == Attached(g2.(cur := Holds("b"), pending := Null, stack := [[List([])], [List([])], [n]]));
    LoopOnce(g2, input, 2, cap);
  }

  /** ")" of "((b)" closes the inner list; the outer one stays open at the
      end of the chunk. */
  lemma InnerClose(cap: nat)
    ensures Loop(GMachine(2, [[List([])], [List([])], [Value("b", Unset)]], true, Holds("b"), Null), "((b)", 3, cap)
      == Exit(GMachine(1, [[List([])], [List([Value("b", Unset)])]], true, Holds("b"), Null), 4)
  {
    CloseInner([Value("b", Unset)]);
    LoopOnce(GMachine(2, [[List([])], [List([])], [Value("b", Unset)]], true, Holds("b"), Null), "((b)", 3, cap);
  }

  /** A chunk that ends just after a ')' with a list still open saves the
      local cursor, which still points past the last atom read, and the next
      chunk starting with white space finishes that atom a second time:
      "((b) c)" is ((b) c) in one piece but ((b) b c) in the chunks "((b)"
      and " c)". */
  lemma StaleCursorRepeatsAtom(cap: nat)
    requires cap >= 2
    ensures var b := Value("b", Unset);
      GResume(GResume(NewCont(), "((b)", cap).0, " c)", cap).1 == Complete
      && GResume(GResume(NewCont(), "((b)", cap).0, " c)", cap).0.lastSexpr == Holds(List([List([b]), b, Value("c", Unset)]))
  {
    FirstChunkInner(cap);
    var b := Value("b", Unset);
    var g0 := GMachine(1, [[List([])], [List([b])]], true, Holds("b"), Holds("b"));
    assert Entry(InnerClosed()) == g0;
    RepeatFlush(cap);
    RepeatLoop(cap);
  }

  /** The second chunk " c)" begins with white space, so the atom behind the
      saved cursor is finished again. */
  lemma RepeatFlush(cap: nat)
    requires cap >= 2
    ensures var b := Value("b", Unset);
      Flush(GMachine(1, [[List([])], [List([b])]], true, Holds("b"), Holds("b")), " c)", cap)
        == Start(GMachine(1, [[List([])], [List([b]), b]], true, Null, Null), 1)
  {
    var b := Value("b", Unset);
    var g0 := GMachine(1, [[List([])], [List([b])]], true, Holds("b"), Holds("b"));
    assert SkipWhite(" c)", 1) == 1 && SkipWhite(" c)", 0) == 1;
    assert [List([b])] + [b] == [List([b]), b];
    assert Finish(g0, "b", cap) == Attached(g0.(cur := Holds("b"), pending := Null, stack := [[List([])], [List([b]), b]]));
  }

  lemma RepeatLoop(cap: nat)
    requires cap >= 2
    ensures var b := Value("b", Unset);
      Loop(GMachine(1, [[List([])], [List([b]), b]], true, Null, Null), " c)", 1, cap)
        == Exit(GMachine(0, [[List([List([b]), b, Value("c", Unset)])]], true, Holds("c"), Null), 3)
  {
    var input := " c)";
    var b := Value("b", Unset);
    var c := Value("c", Unset);
    var g2 := GMachine(1, [[List([])], [List([b]), b]], true, Null, Null);
    assert SkipWhite(input, 1) == 1;
    assert Scan(input, 2, "c", cap) == Text("c", 2);
    assert Scan(input, 1, "", cap) == Text("c", 2);
    var g3 := g2.(cur := Holds("c"), pending := Null, stack := [[List([])], [List([b]), b, c]]);
    assert [List([b]), b] + [c] == [List([b]), b, c];
    assert Finish(g2, "c", cap) == Attached(g3);
    assert AtomTurn(g2, input, 1, cap) == Go(g3, 2);
    assert Loop(g2, input, 1, cap) == Loop(g3, input, 2, cap);
    CloseRoot([List([b]), b, c]);
    var g4 := g3.(depth := 0, stack := [[List([List([b]), b, c])]]);
    assert CloseTurn(g3, 2) == Go(g4, 3);
  }

  /** The same saved cursor makes the next chunk's first atom continue the
      old one: "((b)" and "c)" give ((b) bc). */
  lemma StaleCursorGlues(cap: nat)
    requires cap >= 3
    ensures var b := Value("b", Unset);
      GResume(GResume(NewCont(), "((b)", cap).0, "c)", cap).1 == Complete
      && GResume(GResume(NewCont(), "((b)", cap).0, "c)", cap).0.lastSexpr == Holds(List([List([b]), Value("bc", Unset)]))
  {
    FirstChunkInner(cap);
    var input := "c)";
    var b := Value("b", Unset);
    var bc := Value("bc", Unset);
    var g0 := GMachine(1, [[List([])], [List([b])]], true, Holds("b"), Holds("b"));
    assert Entry(InnerClosed()) == g0;
    assert Flush(g0, input, cap) == Start(g0, 0);
    ResumeStart(InnerClosed(), input, cap);
    GluedAtom(cap);
    GluedClose(cap);
    var g2 := GMachine(0, [[List([List([b]), bc])]], true, Holds("bc"), Null);
    assert Loop(g0, input, 0, cap) == Exit(g2, 2);
  }

  /** "c" goes on from the saved "b" and "bc" is attached to the outer list. */
  lemma GluedAtom(cap: nat)
    requires cap >= 3
    ensures var b := Value("b", Unset);
      Loop(GMachine(1, [[List([])], [List([b])]], true, Holds("b"), Holds("b")), "c)", 0, cap)
        == Loop(GMachine(1, [[List([])], [List([b]), Value("bc", Unset)]], true, Holds("bc"), Null), "c)", 1, cap)
  {
    var input := "c)";
    var b := Value("b", Unset);
    var bc := Value("bc", Unset);
    var g0 := GMachine(1, [[List([])], [List([b])]], true, Holds("b"), Holds("b"));
    assert SkipWhite(input, 0) == 0;
    assert Scan(input, 1, "bc", cap) == Text("bc", 1);
    assert Scan(input, 0, "b", cap) == Text("bc", 1);
    assert [List([b])] + [bc] == [List([b]), bc];
    assert Finish(g0, "bc", cap) == Attached(g0.(cur := Holds("bc"), pending := Null, stack := [[List([])], [List([b]), bc]]));
    LoopOnce(g0, input, 0, cap);
  }

  /** ")" closes the outer list, and the loop stops. */
  lemma GluedClose(cap: nat)
    ensures var b := Value("b", Unset);
      Loop(GMachine(1, [[List([])], [List([b]), Value("bc", Unset)]], true, Holds("bc"), Null), "c)", 1, cap)
        == Exit(GMachine(0, [[List([List([b]), Value("bc", Unset)])]], true, Holds("bc"), Null), 2)
  {
    var b := Value("b", Unset);
    CloseRoot([List([b]), Value("bc", Unset)]);
    LoopOnce(GMachine(1, [[List([])], [List([b]), Value("bc", Unset)]], true, Holds("bc"), Null), "c)", 1, cap);
  }

  /** A chunk that ends just after the first '(' saves the local cursor
      before anything was assigned to it, and the next chunk's first atom
      reads that indeterminate pointer. */
  lemma OpenThenAtom(cap: nat)
    ensures GResume(NewCont(), "(", cap).1 == Suspended
    ensures GResume(NewCont(), "(", cap).0.pending == Indeterminate
    ensures GResume(GResume(NewCont(), "(", cap).0, "a)", cap).1 == Faulted(WildCursor)
    ensures GResume(GResume(NewCont(), "(", cap).0, " a)", cap).1 == Faulted(WildCursor)
  {
    var g0 := GMachine(0, [], true, Indeterminate, Null);
    assert Entry(NewCont()) == g0;
    assert Flush(g0, "(", cap) == Start(g0, 0);
    var g1 := GMachine(1, [[List([])], []], true, Indeterminate, Null);
    assert Loop(g0, "(", 0, cap) == Exit(g1, 1);
    var c1 := GCont(1, [[List([])], []], true, true, Indeterminate, None, Null);
    assert GResume(NewCont(), "(", cap) == (c1, Suspended);
    var h := GMachine(1, [[List([])], []], true, Indeterminate, Indeterminate);
    assert Entry(c1) == h;
    assert Flush(h, "a)", cap) == Start(h, 0);
    assert Loop(h, "a)", 0, cap) == Fail(WildCursor);
    assert SkipWhite(" a)", 0) == 1;
  }

  /** The halt a loop turn leads to, given the loop from where the turn ends. */
  function AfterTurn(r: GMove, rest: GHalt): GHalt
  {
    match r
    case Stop(f) => Fail(f)
    case Cut(g', e) => CutOff(g', e)
    case Go(g', e) => if g'.depth == 0 then Exit(g', e) else rest
  }

  /** The loop from where a turn that leaves a list open ends. */
  function RestOf(r: GMove, s: string, cap: nat): GHalt
  {
    if r.Go? && r.g.depth != 0 && r.t <= |s| && (Shaped(r.g.stack, r.g.depth) || !r.g.live) then Loop(r.g, s, r.t, cap)
    else Fail(NoFrame)
  }

  /** One turn of the loop on any string. */
  lemma LoopOnce(g: GMachine, s: string, t: nat, cap: nat)
    requires t < |s| && s[t] != '\0' && (Shaped(g.stack, g.depth) || !g.live)
    ensures Loop(g, s, t, cap) == AfterTurn(Iter(g, s, t, cap), RestOf(Iter(g, s, t, cap), s, cap))
  {
    assert At(s, t) != '\0';
  }

  /** What a call makes of the way its loop halted (parser_old.c:374-431). */
  function Conclude(c: GCont, input: string, h: GHalt): (GCont, Status)
    requires h.Exit? ==> GInv(h.g) && h.g.live == c.live && h.t <= |input|
  {
    match h
    case Fail(f) => (c, Faulted(f))
    case CutOff(g, _) => (c.(depth := g.depth, stack := g.stack, hasVal := true, pending := g.pending), Suspended)
    case Exit(g, e) => Settle(c, g, input, e)
  }

  /** A call whose run-in starts the loop ends as `Conclude` says. */
  lemma ResumeStart(c: GCont, str: string, cap: nat)
    requires Usable(c) && c.lastPos == None && Flush(Entry(c), str, cap).Start?
    ensures var p := Flush(Entry(c), str, cap);
      GResume(c, str, cap) == Conclude(c, str, Loop(p.g, str, p.t, cap))
  {
  }
}
