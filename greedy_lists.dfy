/** Whole flat lists through the greedy parser of src/backup/parser_old.c:
    a list of plain words, one space between them, read in one call on a
    fresh continuation, is the List of those words' atoms. */
module GreedyLists {
  import opened CString
  import opened Sexpr
  import opened GreedyParser
  import opened GreedyTheory

  /** A word the atom loop copies whole into a buffer of `cap` characters:
      no character of it ends an atom or starts an escape. */
  predicate Word(w: string, cap: nat)
  {
    0 < |w| < cap && forall i :: 0 <= i < |w| ==> !Ends(w[i]) && w[i] != '\\'
  }

  /** The words written one after the other with one space between. */
  function Spaced(ws: seq<string>): string
  {
    if |ws| == 0 then ""
    else if |ws| == 1 then ws[0]
    else ws[0] + " " + Spaced(ws[1..])
  }

  /** The atoms the parser makes of the words, in order. */
  function Atoms(ws: seq<string>): (r: seq<Node>)
    ensures |r| == |ws| && forall i :: 0 <= i < |ws| ==> r[i] == Value(ws[i], Unset)
  {
    if |ws| == 0 then [] else [Value(ws[0], Unset)] + Atoms(ws[1..])
  }

  /** The registers while the outermost list, holding `f` so far, is the
      only one open and no atom is pending. */
  function Inside(f: seq<Node>, cur: Slot<string>): GMachine
  {
    GMachine(1, [[List([])], f], true, cur, Null)
  }

  /** The atom loop copies a word up to the character that ends it. */
  lemma {:induction false} ScanWord(input: string, t: nat, w: string, i: nat, cap: nat)
    requires Word(w, cap) && i <= |w| && t + |w| < |input|
    requires input[t..t + |w|] == w && Ends(input[t + |w|])
    ensures Scan(input, t + i, w[..i], cap) == Text(w, t + |w|)
    decreases |w| - i
  {
    if i == |w| {
      assert w[..i] == w;
    } else {
      assert input[t + i] == input[t..t + |w|][i] == w[i];
      assert w[..i] + [w[i]] == w[..i + 1];
      ScanWord(input, t, w, i + 1, cap);
    }
  }

  /** One turn of the loop at a word, or at the space before it: the word
      joins the list and the loop goes on at the character after it. */
  lemma WordTurn(f: seq<Node>, cur: Slot<string>, input: string, s: nat, t: nat, w: string, cap: nat)
    requires Word(w, cap) && t + |w| < |input| && input[t..t + |w|] == w
    requires s == t || (s + 1 == t && input[s] == ' ')
    requires input[t + |w|] == ' ' || input[t + |w|] == ')'
    ensures Iter(Inside(f, cur), input, s, cap) == Go(Inside(f + [Value(w, Unset)], Holds(w)), t + |w|)
  {
    assert input[t] == input[t..t + |w|][0] == w[0];
    assert SkipWhite(input, t) == t;
    assert SkipWhite(input, s) == t;
    ScanWord(input, t, w, 0, cap);
    assert w[..0] == "";
    AddToRoot(f, Value(w, Unset));
  }

  /** Where the two parts of a text sit in the input that holds it. */
  lemma SliceParts(input: string, t: nat, x: string, y: string)
    requires t + |x + y| <= |input| && input[t..t + |x + y|] == x + y
    ensures input[t..t + |x|] == x && input[t + |x|..t + |x| + |y|] == y
  {
    assert input[t..t + |x|] == input[t..t + |x + y|][..|x|];
    assert input[t + |x|..t + |x| + |y|] == input[t..t + |x + y|][|x|..];
  }

  /** The loop from registers whose stack has the shape of the open lists. */
  function Run(g: GMachine, input: string, s: nat, cap: nat): GHalt
  {
    if s <= |input| && (Shaped(g.stack, g.depth) || !g.live) then Loop(g, input, s, cap) else Fail(NoFrame)
  }

  /** One turn of the loop, stated on `Run`. */
  lemma RunOnce(g: GMachine, input: string, s: nat, cap: nat)
    requires s < |input| && input[s] != '\0' && (Shaped(g.stack, g.depth) || !g.live)
    ensures Run(g, input, s, cap) == AfterTurn(Iter(g, input, s, cap), RestOf(Iter(g, input, s, cap), input, cap))
  {
    LoopOnce(g, input, s, cap);
  }

  /** The rest of the loop after a turn that goes on with a list open. */
  lemma RestRun(r: GMove, g: GMachine, e: nat, input: string, cap: nat)
    requires r == Go(g, e) && g.depth != 0
    ensures AfterTurn(r, RestOf(r, input, cap)) == Run(g, input, e, cap)
  {
  }

  /** A word read from inside the list, then the rest of the loop. */
  lemma WordStep(f: seq<Node>, cur: Slot<string>, input: string, s: nat, t: nat, w: string, cap: nat)
    requires Word(w, cap) && t + |w| < |input| && input[t..t + |w|] == w
    requires s == t || (s + 1 == t && input[s] == ' ')
    requires input[t + |w|] == ' ' || input[t + |w|] == ')'
    ensures Run(Inside(f, cur), input, s, cap) == Run(Inside(f + [Value(w, Unset)], Holds(w)), input, t + |w|, cap)
  {
    var g, g' := Inside(f, cur), Inside(f + [Value(w, Unset)], Holds(w));
    assert input[t] == input[t..t + |w|][0] == w[0];
    InsideShaped(f, cur);
    WordTurn(f, cur, input, s, t, w, cap);
    RunOnce(g, input, s, cap);
    RestRun(Iter(g, input, s, cap), g', t + |w|, input, cap);
  }

  lemma InsideShaped(f: seq<Node>, cur: Slot<string>)
    ensures Shaped(Inside(f, cur).stack, 1) && Inside(f, cur).depth == 1
  {
  }

  /** Where the first word, its space and the other words sit. */
  lemma SpacedParts(input: string, t: nat, ws: seq<string>)
    requires |ws| >= 2 && t + |Spaced(ws)| <= |input| && input[t..t + |Spaced(ws)|] == Spaced(ws)
    ensures var w, t' := ws[0], t + |ws[0]| + 1;
      && input[t..t + |w|] == w && input[t + |w|] == ' '
      && t' + |Spaced(ws[1..])| == t + |Spaced(ws)|
      && input[t'..t' + |Spaced(ws[1..])|] == Spaced(ws[1..])
  {
    var w, more := ws[0], Spaced(ws[1..]);
    assert Spaced(ws) == (w + " ") + more;
    SliceParts(input, t, w + " ", more);
    SliceParts(input, t, w, " ");
    assert input[t + |w|] == input[t + |w|..t + |w| + 1][0];
  }

  /** The words laid out from `t`, one space between them, up to a ')'. */
  predicate Laid(input: string, t: nat, ws: seq<string>)
    decreases |ws|
  {
    && |ws| > 0 && t + |ws[0]| < |input| && input[t..t + |ws[0]|] == ws[0]
    && if |ws| == 1 then input[t + |ws[0]|] == ')'
       else input[t + |ws[0]|] == ' ' && Laid(input, t + |ws[0]| + 1, ws[1..])
  }

  lemma {:induction false} SpacedLaid(input: string, t: nat, ws: seq<string>)
    requires |ws| > 0 && t + |Spaced(ws)| < |input| && input[t..t + |Spaced(ws)|] == Spaced(ws)
    requires input[t + |Spaced(ws)|] == ')'
    ensures Laid(input, t, ws)
    decreases |ws|
  {
    if |ws| > 1 {
      SpacedParts(input, t, ws);
      SpacedLaid(input, t + |ws[0]| + 1, ws[1..]);
    }
  }

  lemma SpacedLength(ws: seq<string>)
    requires |ws| > 1
    ensures |Spaced(ws)| == |ws[0]| + 1 + |Spaced(ws[1..])|
  {
  }

  /** The registers after the words `ws` have joined the list that holds
      `f`, the local cursor past the last of them. */
  function Filled(f: seq<Node>, ws: seq<string>): GMachine
    requires |ws| > 0
  {
    Inside(f + Atoms(ws), Holds(ws[|ws| - 1]))
  }

  /** The loop over the words of a list, up to its ')'. */
  lemma {:induction false} WordsRun(f: seq<Node>, cur: Slot<string>, input: string, s: nat, t: nat, ws: seq<string>, e: nat, cap: nat)
    requires |ws| > 0 && forall i :: 0 <= i < |ws| ==> Word(ws[i], cap)
    requires Laid(input, t, ws) && e == t + |Spaced(ws)| && e < |input|
    requires s == t || (s + 1 == t && input[s] == ' ')
    ensures Run(Inside(f, cur), input, s, cap) == Run(Filled(f, ws), input, e, cap)
    decreases |ws|, 1
  {
    if |ws| == 1 {
      assert Atoms(ws) == [Value(ws[0], Unset)];
      WordStep(f, cur, input, s, t, ws[0], cap);
    } else {
      WordsMore(f, cur, input, s, t, ws, e, cap);
    }
  }

  /** Two words or more: the first, then the others from the space after it. */
  lemma {:induction false} WordsMore(f: seq<Node>, cur: Slot<string>, input: string, s: nat, t: nat, ws: seq<string>, e: nat, cap: nat)
    requires |ws| > 1 && forall i :: 0 <= i < |ws| ==> Word(ws[i], cap)
    requires Laid(input, t, ws) && e == t + |Spaced(ws)| && e < |input|
    requires s == t || (s + 1 == t && input[s] == ' ')
    ensures Run(Inside(f, cur), input, s, cap) == Run(Filled(f, ws), input, e, cap)
    decreases |ws|, 0
  {
    var w, rest := ws[0], ws[1..];
    SpacedLength(ws);
    WordStep(f, cur, input, s, t, w, cap);
    WordsRun(f + [Value(w, Unset)], Holds(w), input, t + |w|, t + |w| + 1, rest, e, cap);
    InsideMore(f, w, rest, ws);
  }

  /** The registers after the first word and then the others are those
      after all the words. */
  lemma InsideMore(f: seq<Node>, w: string, rest: seq<string>, ws: seq<string>)
    requires |ws| > 1 && w == ws[0] && rest == ws[1..]
    ensures Filled(f + [Value(w, Unset)], rest) == Filled(f, ws)
  {
    assert f + [Value(w, Unset)] + Atoms(rest) == f + Atoms(ws);
  }

  /** Where the parts of a parenthesised list sit in the input. */
  lemma Parenthesised(input: string, text: string, rest: string)
    requires input == "(" + text + ")" + rest
    ensures |input| == |text| + 2 + |rest| && input[0] == '(' && input[1 + |text|] == ')'
    ensures input[1..1 + |text|] == text && input[2 + |text|..] == rest
  {
  }

  /** The ')' that closes the outermost list ends the loop. */
  lemma CloseOuter(ns: seq<Node>, last: Slot<string>, input: string, e: nat, cap: nat)
    requires e < |input| && input[e] == ')'
    ensures Loop(Inside(ns, last), input, e, cap) == Exit(GMachine(0, [[List(ns)]], true, last, Null), e + 1)
  {
    CloseRoot(ns);
    InsideShaped(ns, last);
  }

  /** The opening '(' on a fresh continuation. */
  lemma FreshOpen(input: string, cap: nat)
    requires 1 < |input| && input[0] == '('
    ensures Flush(Entry(NewCont()), input, cap) == Start(Entry(NewCont()), 0)
    ensures Loop(Entry(NewCont()), input, 0, cap) == Loop(Inside([], Indeterminate), input, 1, cap)
  {
    var g0 := GMachine(0, [], true, Indeterminate, Null);
    assert Entry(NewCont()) == g0;
    assert Iter(g0, input, 0, cap) == Go(Inside([], Indeterminate), 1);
  }

  /** The loop of one call on a parenthesised list of words. */
  lemma FlatLoop(ws: seq<string>, input: string, rest: string, cap: nat)
    requires forall i :: 0 <= i < |ws| ==> Word(ws[i], cap)
    requires input == "(" + Spaced(ws) + ")" + rest
    ensures var last := if |ws| == 0 then Indeterminate else Holds(ws[|ws| - 1]);
      Loop(Entry(NewCont()), input, 0, cap)
        == Exit(GMachine(0, [[List(Atoms(ws))]], true, last, Null), 2 + |Spaced(ws)|)
  {
    var e := 1 + |Spaced(ws)|;
    Parenthesised(input, Spaced(ws), rest);
    FreshOpen(input, cap);
    var last := if |ws| == 0 then Indeterminate else Holds(ws[|ws| - 1]);
    InsideShaped([], Indeterminate);
    InsideShaped(Atoms(ws), last);
    assert Run(Inside([], Indeterminate), input, 1, cap) == Run(Inside(Atoms(ws), last), input, e, cap) by {
      if |ws| > 0 {
        SpacedLaid(input, 1, ws);
        WordsRun([], Indeterminate, input, 1, 1, ws, e, cap);
        assert [] + Atoms(ws) == Atoms(ws);
        assert Filled([], ws) == Inside(Atoms(ws), last);
      }
    }
    CloseOuter(Atoms(ws), last, input, e, cap);
  }

  /** A flat list of words, read in one call on a fresh continuation, is
      complete: its List holds the words' atoms in input order, the stack is
      freed, and `lastPos` is left at the rest of the string. */
  lemma GreedyFlat(ws: seq<string>, rest: string, cap: nat)
    requires forall i :: 0 <= i < |ws| ==> Word(ws[i], cap)
    ensures GResume(NewCont(), "(" + Spaced(ws) + ")" + rest, cap)
      == (GCont(0, [], false, false, Null, if At(rest, 0) == '\0' then None else Some(rest), Holds(List(Atoms(ws)))), Complete)
  {
    var input := "(" + Spaced(ws) + ")" + rest;
    var e := 2 + |Spaced(ws)|;
    Parenthesised(input, Spaced(ws), rest);
    FreshOpen(input, cap);
    ResumeStart(NewCont(), input, cap);
    FlatLoop(ws, input, rest, cap);
    var last := if |ws| == 0 then Indeterminate else Holds(ws[|ws| - 1]);
    SettleFlat(Atoms(ws), last, input, e);
    assert At(input, e) == At(rest, 0);
  }

  /** A loop that closed the outermost list completes the call. */
  lemma SettleFlat(ns: seq<Node>, last: Slot<string>, input: string, e: nat)
    requires e <= |input|
    ensures Conclude(NewCont(), input, Exit(GMachine(0, [[List(ns)]], true, last, Null), e))
      == (GCont(0, [], false, false, Null, if At(input, e) == '\0' then None else Some(input[e..]), Holds(List(ns))), Complete)
  {
    assert Drained([[List(ns)]], Indeterminate) == Holds(List(ns));
  }

  /** (ab cd) in one call. */
  lemma FlatAbCd(cap: nat)
    requires cap >= 3
    ensures GResume(NewCont(), "(ab cd)", cap).1 == Complete
    ensures GResume(NewCont(), "(ab cd)", cap).0.lastSexpr == Holds(List([Value("ab", Unset), Value("cd", Unset)]))
  {
    var ws := ["ab", "cd"];
    assert Spaced(ws[1..]) == "cd";
    assert Spaced(ws) == "ab cd";
    assert "(" + Spaced(ws) + ")" + "" == "(ab cd)";
    assert Word("ab", cap) && Word("cd", cap);
    GreedyFlat(ws, "", cap);
    assert Atoms(ws) == [Value("ab", Unset), Value("cd", Unset)];
  }
}
