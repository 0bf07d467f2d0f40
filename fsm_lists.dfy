/** Whole flat lists through the finite-state parser of src/backup/parser_new.c:
    a list of simple tokens separated by single spaces becomes a List whose
    children are the tokens' atoms, in input order. The expression of
    tests/bug.c is an instance. */
module FsmLists {
  import opened CString
  import opened Sexpr
  import opened FsmParser
  import opened FsmTheory

  /** The tokens the lemmas of FsmTheory read in one piece. */
  datatype Token =
    | Bare(w: string)    // an unquoted atom
    | Str(w: string)     // a double-quoted string "w"
    | Raw(w: string)     // a quoted expression '(w), inner parentheses balanced
    | Ticked(w: string)  // a quoted atom 'w

  function Spell(k: Token): string
  {
    match k
    case Bare(w) => w
    case Str(w) => "\"" + w + "\""
    case Raw(w) => "'(" + w + ")"
    case Ticked(w) => "'" + w
  }

  /** The atom the parser makes of a token. */
  function Child(k: Token): Node
  {
    match k
    case Bare(w) => Value(w, Basic)
    case Str(w) => Value(w, DQuote)
    case Raw(w) => Value("(" + w + ")", SQuote)
    case Ticked(w) => Value(w, Basic)
  }

  /** What the token leaves in the atom buffer: a string's text is dropped
      when state 6 resets `vcur`, the others stay. */
  function Residue(k: Token): string
  {
    if k.Str? then "" else Child(k).text
  }

  /** A token the parser reads whole with an atom buffer of `cap`
      characters: the text and its terminating NUL fit, and the characters
      are those the token's state keeps. */
  predicate Simple(k: Token, cap: nat)
  {
    match k
    case Bare(w) => 0 < |w| < cap && forall i :: 0 <= i < |w| ==> IsAtomChar(w[i])
    case Ticked(w) => 0 < |w| < cap && forall i :: 0 <= i < |w| ==> IsAtomChar(w[i])
    case Str(w) => |w| < cap && forall i :: 0 <= i < |w| ==> w[i] != '"' && w[i] != '\0'
    case Raw(w) => |w| + 2 < cap && Quoted(w + ")", 0, |w|, 1)
  }

  /** The tokens written one after the other with one space between. The
      recursion is in `Spelled`: a lemma's conclusion about a recursive
      function reaches its callers at a different unfolding depth, so the
      lemmas below state theirs on this non-recursive name. */
  function Layout(toks: seq<Token>): string
  {
    Spelled(toks)
  }

  function Spelled(toks: seq<Token>): string
  {
    if |toks| == 0 then ""
    else if |toks| == 1 then Spell(toks[0])
    else Spell(toks[0]) + [' '] + Spelled(toks[1..])
  }

  function Children(toks: seq<Token>): (r: seq<Node>)
    ensures |r| == |toks|
    ensures forall i :: 0 <= i < |toks| ==> r[i] == Child(toks[i])
  {
    if |toks| == 0 then [] else [Child(toks[0])] + Children(toks[1..])
  }

  /** The atom buffer after the tokens, when it held `buf` before them. */
  function LastResidue(toks: seq<Token>, buf: string): string
  {
    if |toks| == 0 then buf else Residue(toks[|toks| - 1])
  }

  /** The top frame of the stack with `ns` appended to its chain. */
  function AppendTop(st: Stack, ns: seq<Node>): (r: Stack)
    requires |st| > 0
    ensures |r| == |st| && r[..|st| - 1] == st[..|st| - 1] && r[|st| - 1] == st[|st| - 1] + ns
  {
    st[..|st| - 1] + [st[|st| - 1] + ns]
  }

  lemma AppendTopAfterAdd(st: Stack, n: Node, ns: seq<Node>)
    requires |st| > 0
    ensures AppendTop(AddAtom(st, n), ns) == AppendTop(st, [n] + ns)
  {
    var r := AppendTop(st, [n] + ns);
    assert st[|st| - 1] + [n] + ns == st[|st| - 1] + ([n] + ns);
    assert AppendTop(AddAtom(st, n), ns)[..|st| - 1] == r[..|st| - 1];
  }

  /** The text `w` is at position `t` of the input. */
  predicate SpelledAt(input: string, t: nat, w: string)
    decreases |w|
  {
    t + |w| <= |input| && (|w| == 0 || (input[t] == w[0] && SpelledAt(input, t + 1, w[1..])))
  }

  lemma {:induction false} SplitSpelled(input: string, t: nat, a: string, b: string)
    requires SpelledAt(input, t, a + b)
    ensures SpelledAt(input, t, a) && SpelledAt(input, t + |a|, b)
    decreases |a|
  {
    if |a| == 0 {
      assert a + b == b;
    } else {
      assert (a + b)[1..] == a[1..] + b;
      SplitSpelled(input, t + 1, a[1..], b);
    }
  }

  lemma SpelledSplit(input: string, t: nat, a: string, c: char, b: string)
    requires SpelledAt(input, t, a + [c] + b)
    ensures SpelledAt(input, t + |a| + 1, b) && SpelledAt(input, t, a) && input[t + |a|] == c
  {
    SplitSpelled(input, t, a + [c], b);
    SplitSpelled(input, t, a, [c]);
  }

  /** The characters of a spelled text, read from the input. */
  lemma {:induction false} SpelledChars(input: string, t: nat, s: string)
    requires SpelledAt(input, t, s)
    ensures t + |s| <= |input|
    ensures forall i :: t <= i < t + |s| ==> input[i] == s[i - t]
    ensures input[t..t + |s|] == s
    decreases |s|
  {
    if |s| > 0 {
      SpelledChars(input, t + 1, s[1..]);
      assert input[t..t + |s|] == [input[t]] + input[t + 1..t + |s|];
    }
  }

  /** The converse: a slice of the input spells itself. */
  lemma {:induction false} SliceSpelled(input: string, t: nat, s: string)
    requires t + |s| <= |input| && input[t..t + |s|] == s
    ensures SpelledAt(input, t, s)
    decreases |s|
  {
    if |s| > 0 {
      assert input[t + 1..t + |s|] == s[1..];
      SliceSpelled(input, t + 1, s[1..]);
    }
  }

  lemma SpelledHead(input: string, t: nat, w: string)
    requires SpelledAt(input, t, w) && |w| > 0
    ensures input[t] == w[0]
  {
  }

  /** A simple token of kind `k` at `t`, followed by white space or a ')'. */
  predicate TokenIn(input: string, t: nat, k: Token, cap: nat)
  {
    && Simple(k, cap) && SpelledAt(input, t, Spell(k))
    && t + |Spell(k)| < |input|
    && (IsSpace(input[t + |Spell(k)|]) || input[t + |Spell(k)|] == ')')
  }

  /** The premise of every token lemma below. */
  predicate TokenAt(m: Machine, input: string, t: nat, k: Token, cap: nat)
  {
    Idle(m) && TokenIn(input, t, k, cap)
  }

  /** What reading token `k` from `m` leaves. */
  function AfterToken(m: Machine, k: Token): Machine
  {
    m.(buf := Residue(k), stack := AddAtom(m.stack, Child(k)))
  }

  /** Where a quoted token's marks and text sit in the input. */
  lemma TickedChars(input: string, t: nat, w: string)
    requires SpelledAt(input, t, "'" + w)
    ensures t + 1 + |w| <= |input| && input[t] == '\'' && input[t + 1..t + 1 + |w|] == w
    ensures forall i :: t + 1 <= i < t + 1 + |w| ==> input[i] == w[i - t - 1]
  {
    SplitSpelled(input, t, "'", w);
    SpelledChars(input, t + 1, w);
  }

  lemma StrChars(input: string, t: nat, w: string)
    requires SpelledAt(input, t, "\"" + w + "\"")
    ensures t + 2 + |w| <= |input| && input[t] == '"' && input[t + 1 + |w|] == '"'
    ensures input[t + 1..t + 1 + |w|] == w
    ensures forall i :: t + 1 <= i < t + 1 + |w| ==> input[i] == w[i - t - 1]
  {
    SplitSpelled(input, t, "\"" + w, "\"");
    SplitSpelled(input, t, "\"", w);
    SpelledChars(input, t + 1, w);
  }

  lemma RawChars(input: string, t: nat, w: string)
    requires SpelledAt(input, t, "'(" + w + ")")
    ensures t + 3 + |w| <= |input| && input[t] == '\'' && input[t + 1] == '(' && input[t + 2 + |w|] == ')'
    ensures input[t + 1..t + 3 + |w|] == "(" + w + ")"
    ensures forall i :: t + 2 <= i < t + 2 + |w| ==> input[i] == w[i - t - 2]
  {
    SplitSpelled(input, t, "'(" + w, ")");
    SplitSpelled(input, t, "'(", w);
    SplitSpelled(input, t, "'", "(");
    SpelledChars(input, t + 2, w);
    var e := t + 2 + |w|;
    assert input[t + 1..e + 1] == [input[t + 1]] + input[t + 2..e] + [input[e]];
  }

  /** A quoted expression read at an offset of the text that holds it. */
  lemma {:induction false} QuotedShift(s: string, input: string, off: nat, i: nat, e: nat, q: int)
    requires Quoted(s, i, e, q) && off + e < |input|
    requires forall j :: i <= j <= e ==> input[off + j] == s[j]
    ensures Quoted(input, off + i, off + e, q)
    decreases e - i
  {
    if i < e {
      QuotedShift(s, input, off, i + 1, e, Count(q, s[i]));
    }
  }

  /** Text with no parentheses and no NUL, closed by ')', is a quoted
      expression at depth one. */
  lemma {:induction false} PlainQuoted(s: string, i: nat, e: nat)
    requires i <= e < |s| && s[e] == ')'
    requires forall j :: i <= j < e ==> s[j] != '(' && s[j] != ')' && s[j] != '\0'
    ensures Quoted(s, i, e, 1)
    decreases e - i
  {
    if i < e {
      PlainQuoted(s, i + 1, e);
    }
  }

  lemma BareRun(m: Machine, input: string, t: nat, k: Token, cap: nat)
    requires k.Bare? && TokenAt(m, input, t, k, cap)
    ensures Idle(AfterToken(m, k)) && Run(m, input, t, cap) == Run(AfterToken(m, k), input, t + |Spell(k)|, cap)
  {
    SpelledChars(input, t, k.w);
    AtomToken(m, input, t, t + |k.w|, cap);
  }

  lemma TickedRun(m: Machine, input: string, t: nat, k: Token, cap: nat)
    requires k.Ticked? && TokenAt(m, input, t, k, cap)
    ensures Idle(AfterToken(m, k)) && Run(m, input, t, cap) == Run(AfterToken(m, k), input, t + |Spell(k)|, cap)
  {
    TickedChars(input, t, k.w);
    QuotedAtomToken(m, input, t, t + 1 + |k.w|, cap);
  }

  lemma StrRun(m: Machine, input: string, t: nat, k: Token, cap: nat)
    requires k.Str? && TokenAt(m, input, t, k, cap)
    ensures Idle(AfterToken(m, k)) && Run(m, input, t, cap) == Run(AfterToken(m, k), input, t + |Spell(k)|, cap)
  {
    StrChars(input, t, k.w);
    StringToken(m, input, t, t + 1 + |k.w|, cap);
  }

  lemma RawTokenRun(m: Machine, input: string, t: nat, k: Token, cap: nat)
    requires k.Raw? && TokenAt(m, input, t, k, cap)
    ensures Idle(AfterToken(m, k)) && Run(m, input, t, cap) == Run(AfterToken(m, k), input, t + |Spell(k)|, cap)
  {
    var w := k.w;
    RawIn(input, t, w);
    var text := input[t + 1..t + 3 + |w|];
    assert |Spell(k)| == 3 + |w| && Child(k) == Value(text, SQuote);
    assert AfterToken(m, k) == m.(buf := text, stack := AddAtom(m.stack, Value(text, SQuote)));
    RawToken(m, input, t, t + 2 + |w|, cap);
  }

  /** Where a quoted expression token sits in the input, in the terms the
      machine reads it. */
  lemma RawIn(input: string, t: nat, w: string)
    requires SpelledAt(input, t, "'(" + w + ")") && Quoted(w + ")", 0, |w|, 1)
    requires t + 3 + |w| < |input|
    ensures input[t] == '\'' && input[t + 1] == '('
    ensures Quoted(input, t + 2, t + 2 + |w|, 1)
    ensures input[t + 1..t + 3 + |w|] == "(" + w + ")"
  {
    RawChars(input, t, w);
    forall j | 0 <= j <= |w| ensures input[t + 2 + j] == (w + ")")[j] {
      if j < |w| {
        assert input[t + 2 + j] == w[j];
      }
    }
    QuotedShift(w + ")", input, t + 2, 0, |w|, 1);
  }

  /** A simple token followed by white space or a ')' is read whole, from
      state 1 back to state 1, and its atom joins the current list. */
  lemma TokenRun(m: Machine, input: string, t: nat, k: Token, cap: nat)
    requires TokenAt(m, input, t, k, cap)
    ensures Idle(AfterToken(m, k)) && Run(m, input, t, cap) == Run(AfterToken(m, k), input, t + |Spell(k)|, cap)
  {
    match k
    case Bare(_) => BareRun(m, input, t, k, cap);
    case Ticked(_) => TickedRun(m, input, t, k, cap);
    case Str(_) => StrRun(m, input, t, k, cap);
    case Raw(_) => RawTokenRun(m, input, t, k, cap);
  }

  /** Where the first token and the rest of a layout sit in the input. */
  lemma LayoutSplit(input: string, t: nat, toks: seq<Token>)
    requires |toks| >= 1 && SpelledAt(input, t, Layout(toks))
    ensures SpelledAt(input, t, Spell(toks[0]))
    ensures |toks| == 1 ==> |Layout(toks)| == |Spell(toks[0])|
    ensures |toks| > 1 ==>
      && |Layout(toks)| == |Spell(toks[0])| + 1 + |Layout(toks[1..])|
      && SpelledAt(input, t + |Spell(toks[0])| + 1, Layout(toks[1..]))
      && input[t + |Spell(toks[0])|] == ' '
  {
    var w := Spell(toks[0]);
    if |toks| > 1 {
      var rest := Layout(toks[1..]);
      assert Layout(toks) == w + [' '] + rest;
      SpelledSplit(input, t, w, ' ', rest);
    }
  }

  /** What reading the tokens `toks` from `m` leaves: their atoms appended
      to the top frame, and the last one's text in the buffer. */
  function AfterTokens(m: Machine, toks: seq<Token>): Machine
    requires |m.stack| > 0
  {
    m.(buf := LastResidue(toks, m.buf), stack := AppendTop(m.stack, Children(toks)))
  }

  /** Reading the first token and then the rest is reading all of them. */
  lemma AfterTokensCons(m: Machine, toks: seq<Token>)
    requires |toks| > 0 && |m.stack| > 0
    ensures AfterTokens(AfterToken(m, toks[0]), toks[1..]) == AfterTokens(m, toks)
  {
    AppendTopAfterAdd(m.stack, Child(toks[0]), Children(toks[1..]));
    assert Children(toks) == [Child(toks[0])] + Children(toks[1..]);
  }

  lemma AfterNoTokens(m: Machine)
    requires |m.stack| > 0
    ensures AfterTokens(m, []) == m
  {
    var st := m.stack;
    assert st[|st| - 1] + [] == st[|st| - 1];
    assert st[..|st| - 1] + [st[|st| - 1]] == st;
  }

  /** Reading the tokens one at a time. */
  function Reading(m: Machine, toks: seq<Token>): Machine
    decreases |toks|
  {
    if |toks| == 0 then m else Reading(AfterToken(m, toks[0]), toks[1..])
  }

  /** Reading tokens one at a time appends all their atoms to the top frame. */
  lemma {:induction false} ReadingAppends(m: Machine, toks: seq<Token>)
    requires |m.stack| > 0
    ensures Reading(m, toks) == AfterTokens(m, toks)
    decreases |toks|
  {
    if |toks| == 0 {
      AfterNoTokens(m);
    } else {
      ReadingAppends(AfterToken(m, toks[0]), toks[1..]);
      AfterTokensCons(m, toks);
    }
  }

  lemma SimpleRest(toks: seq<Token>, cap: nat)
    requires |toks| > 0 && forall i :: 0 <= i < |toks| ==> Simple(toks[i], cap)
    ensures forall i :: 0 <= i < |toks[1..]| ==> Simple(toks[1..][i], cap)
  {
    forall i | 0 <= i < |toks[1..]| ensures Simple(toks[1..][i], cap) {
      assert toks[1..][i] == toks[i + 1];
    }
  }

  /** Where each of the tokens `toks` starts when they are written from
      position `t` with one separator after each: the last entry is one past
      the separator after the last token. */
  function Starts(t: nat, toks: seq<Token>): (ps: seq<nat>)
    ensures |ps| == |toks| + 1 && ps[0] == t
  {
    Positions(t, toks)
  }

  function Positions(t: nat, toks: seq<Token>): (ps: seq<nat>)
    ensures |ps| == |toks| + 1 && ps[0] == t
    decreases |toks|
  {
    if |toks| == 0 then [t] else [t] + Positions(t + |Spell(toks[0])| + 1, toks[1..])
  }

  /** Where the separator after the last token is (the first position when
      there is no token). */
  function CloseAt(ps: seq<nat>, toks: seq<Token>): nat
    requires |ps| == |toks| + 1
  {
    if |toks| == 0 then ps[0] else ps[|toks| - 1] + |Spell(toks[|toks| - 1])|
  }

  /** The `i`-th of the tokens `toks` at its position in `ps`, followed by
      a space unless it is the last. */
  predicate Cell(input: string, ps: seq<nat>, toks: seq<Token>, i: nat, cap: nat)
    requires |ps| == |toks| + 1 && i < |toks|
  {
    && TokenIn(input, ps[i], toks[i], cap)
    && ps[i + 1] == ps[i] + |Spell(toks[i])| + 1
    && (i < |toks| - 1 ==> input[ps[i] + |Spell(toks[i])|] == ' ')
  }

  /** The tokens `toks` in the input at the positions `ps`, each followed by
      one space except the last, which is followed by a ')'. */
  predicate Laid(input: string, ps: seq<nat>, toks: seq<Token>, cap: nat)
  {
    && |ps| == |toks| + 1
    && (forall i :: 0 <= i < |toks| ==> Cell(input, ps, toks, i, cap))
    && CloseAt(ps, toks) < |input| && input[CloseAt(ps, toks)] == ')'
  }

  /** Dropping the first token renumbers the others. */
  lemma CellShift(input: string, ps: seq<nat>, toks: seq<Token>, i: nat, cap: nat)
    requires |ps| == |toks| + 1 && i + 1 < |toks|
    ensures Cell(input, ps[1..], toks[1..], i, cap) == Cell(input, ps, toks, i + 1, cap)
  {
    assert ps[1..][i] == ps[i + 1] && ps[1..][i + 1] == ps[i + 2] && toks[1..][i] == toks[i + 1];
  }

  /** The first of several laid tokens, and the rest laid after it. */
  lemma LaidRest(input: string, ps: seq<nat>, toks: seq<Token>, cap: nat)
    requires |toks| >= 1 && Laid(input, ps, toks, cap)
    ensures TokenIn(input, ps[0], toks[0], cap)
    ensures |toks| == 1 ==> CloseAt(ps, toks) == ps[0] + |Spell(toks[0])|
    ensures |toks| >= 2 ==>
      && input[ps[0] + |Spell(toks[0])|] == ' ' && ps[1..][0] == ps[0] + |Spell(toks[0])| + 1
      && Laid(input, ps[1..], toks[1..], cap) && CloseAt(ps[1..], toks[1..]) == CloseAt(ps, toks)
  {
    assert Cell(input, ps, toks, 0, cap);
    if |toks| >= 2 {
      var ps', toks' := ps[1..], toks[1..];
      forall i | 0 <= i < |toks'| ensures Cell(input, ps', toks', i, cap) {
        CellShift(input, ps, toks, i, cap);
      }
      assert ps'[|toks'| - 1] == ps[|toks| - 1] && toks'[|toks'| - 1] == toks[|toks| - 1];
    }
  }

  lemma StartsTail(t: nat, toks: seq<Token>)
    requires |toks| > 0
    ensures Starts(t, toks)[1..] == Starts(t + |Spell(toks[0])| + 1, toks[1..])
    ensures Starts(t, toks)[1] == t + |Spell(toks[0])| + 1
  {
  }

  /** The converse: a token, a space, and laid tokens after it. */
  lemma LaidCons(input: string, t: nat, ps: seq<nat>, toks: seq<Token>, cap: nat)
    requires |toks| >= 2 && |ps| == |toks| + 1 && ps[0] == t
    requires Simple(toks[0], cap) && SpelledAt(input, t, Spell(toks[0]))
    requires t + |Spell(toks[0])| < |input| && input[t + |Spell(toks[0])|] == ' '
    requires ps[1] == t + |Spell(toks[0])| + 1 && Laid(input, ps[1..], toks[1..], cap)
    ensures Laid(input, ps, toks, cap) && CloseAt(ps, toks) == CloseAt(ps[1..], toks[1..])
  {
    var ps', toks' := ps[1..], toks[1..];
    forall i | 0 <= i < |toks| ensures Cell(input, ps, toks, i, cap) {
      if i > 0 {
        CellShift(input, ps, toks, i - 1, cap);
      }
    }
    assert ps'[|toks'| - 1] == ps[|toks| - 1] && toks'[|toks'| - 1] == toks[|toks| - 1];
  }

  /** A single token before a ')'. */
  lemma LaidOne(input: string, t: nat, toks: seq<Token>, cap: nat)
    requires |toks| == 1 && Simple(toks[0], cap)
    requires SpelledAt(input, t, Layout(toks)) && t + |Layout(toks)| < |input|
    requires input[t + |Layout(toks)|] == ')'
    ensures Laid(input, Starts(t, toks), toks, cap) && CloseAt(Starts(t, toks), toks) == t + |Layout(toks)|
  {
    LayoutSplit(input, t, toks);
    var ps := Starts(t, toks);
    assert ps == [t, t + |Spell(toks[0])| + 1];
  }

  /** The first token of a layout of several, and the layout after it. */
  lemma LaidHead(input: string, t: nat, toks: seq<Token>, cap: nat)
    requires |toks| >= 2 && forall i :: 0 <= i < |toks| ==> Simple(toks[i], cap)
    requires SpelledAt(input, t, Layout(toks)) && t + |Layout(toks)| < |input|
    ensures Simple(toks[0], cap) && SpelledAt(input, t, Spell(toks[0]))
    ensures t + |Spell(toks[0])| < |input| && input[t + |Spell(toks[0])|] == ' '
    ensures forall i :: 0 <= i < |toks[1..]| ==> Simple(toks[1..][i], cap)
    ensures SpelledAt(input, t + |Spell(toks[0])| + 1, Layout(toks[1..]))
    ensures t + |Spell(toks[0])| + 1 + |Layout(toks[1..])| == t + |Layout(toks)|
  {
    LayoutSplit(input, t, toks);
    SimpleRest(toks, cap);
  }

  /** Several tokens are laid out from `t` when the first is followed by a
      space and the rest are laid out after it. */
  lemma LaidMoreOut(input: string, t: nat, t1: nat, toks: seq<Token>, e: nat, cap: nat)
    requires |toks| >= 2 && Simple(toks[0], cap) && SpelledAt(input, t, Spell(toks[0]))
    requires t + |Spell(toks[0])| < |input| && input[t + |Spell(toks[0])|] == ' '
    requires t1 == t + |Spell(toks[0])| + 1
    requires Laid(input, Starts(t1, toks[1..]), toks[1..], cap) && CloseAt(Starts(t1, toks[1..]), toks[1..]) == e
    ensures Laid(input, Starts(t, toks), toks, cap) && CloseAt(Starts(t, toks), toks) == e
  {
    StartsTail(t, toks);
    LaidCons(input, t, Starts(t, toks), toks, cap);
  }

  /** A layout of simple tokens followed by a ')' is laid out. */
  lemma {:induction false} LaidOut(input: string, t: nat, toks: seq<Token>, cap: nat)
    requires forall i :: 0 <= i < |toks| ==> Simple(toks[i], cap)
    requires SpelledAt(input, t, Layout(toks)) && t + |Layout(toks)| < |input|
    requires input[t + |Layout(toks)|] == ')'
    ensures Laid(input, Starts(t, toks), toks, cap) && CloseAt(Starts(t, toks), toks) == t + |Layout(toks)|
    decreases |toks|
  {
    if |toks| == 1 {
      LaidOne(input, t, toks, cap);
    } else if |toks| > 1 {
      var t1 := t + |Spell(toks[0])| + 1;
      LaidHead(input, t, toks, cap);
      LaidOut(input, t1, toks[1..], cap);
      LaidMoreOut(input, t, t1, toks, t + |Layout(toks)|, cap);
    }
  }

  /** The last token, before the ')'. */
  lemma LayoutLast(m: Machine, input: string, ps: seq<nat>, toks: seq<Token>, cap: nat)
    requires Idle(m) && |toks| == 1 && Laid(input, ps, toks, cap) && ps[0] <= |input|
    ensures Idle(Reading(m, toks))
    ensures Run(m, input, ps[0], cap) == Run(Reading(m, toks), input, CloseAt(ps, toks), cap)
  {
    LaidRest(input, ps, toks, cap);
    LastToken(m, input, ps, toks, cap);
  }

  lemma LastToken(m: Machine, input: string, ps: seq<nat>, toks: seq<Token>, cap: nat)
    requires |toks| == 1 && |ps| == 2 && TokenAt(m, input, ps[0], toks[0], cap)
    requires CloseAt(ps, toks) == ps[0] + |Spell(toks[0])|
    ensures Idle(Reading(m, toks))
    ensures Run(m, input, ps[0], cap) == Run(Reading(m, toks), input, CloseAt(ps, toks), cap)
  {
    var k, t := toks[0], ps[0];
    ReadingOne(m, toks);
    var m' := AfterToken(m, k);
    assert Reading(m, toks) == m';
    TokenRun(m, input, t, k, cap);
    assert Run(m, input, t, cap) == Run(m', input, t + |Spell(k)|, cap);
  }

  lemma ReadingOne(m: Machine, toks: seq<Token>)
    requires |toks| == 1
    ensures Reading(m, toks) == AfterToken(m, toks[0])
  {
    assert toks[1..] == [];
  }

  /** A token that is not the last, and the space after it. */
  lemma SpacedToken(m: Machine, input: string, t: nat, k: Token, t': nat, cap: nat)
    requires Idle(m) && TokenIn(input, t, k, cap) && input[t + |Spell(k)|] == ' '
    requires t' == t + |Spell(k)| + 1
    ensures Idle(AfterToken(m, k)) && AfterToken(m, k).depth == m.depth
    ensures Run(m, input, t, cap) == Run(AfterToken(m, k), input, t', cap)
  {
    var m', e := AfterToken(m, k), t + |Spell(k)|;
    TokenRun(m, input, t, k, cap);
    assert Run(m, input, t, cap) == Run(m', input, e, cap);
    SkipSpace(m', input, e, cap);
    assert Run(m', input, e, cap) == Run(m', input, t', cap);
  }

  /** The first of several laid tokens is read, with the space after it. */
  lemma LayoutStep(m: Machine, input: string, ps: seq<nat>, toks: seq<Token>, cap: nat)
    requires Idle(m) && |toks| >= 2 && |ps| == |toks| + 1 && Cell(input, ps, toks, 0, cap)
    ensures Idle(AfterToken(m, toks[0])) && AfterToken(m, toks[0]).depth == m.depth
    ensures Run(m, input, ps[0], cap) == Run(AfterToken(m, toks[0]), input, ps[1], cap)
  {
    var k, t, t' := toks[0], ps[0], ps[1];
    var m' := AfterToken(m, k);
    SpacedToken(m, input, t, k, t', cap);
    assert Run(m, input, t, cap) == Run(m', input, t', cap);
  }

  /** Laid tokens are read in order: each one's atom is appended to the
      current list, and the machine stops in state 1 before the ')'. */
  lemma {:induction false} LayoutRun(m: Machine, input: string, ps: seq<nat>, toks: seq<Token>, cap: nat)
    requires Idle(m) && m.depth >= 1 && Laid(input, ps, toks, cap) && ps[0] <= |input|
    ensures Idle(Reading(m, toks))
    ensures Run(m, input, ps[0], cap) == Run(Reading(m, toks), input, CloseAt(ps, toks), cap)
    decreases |toks|
  {
    if |toks| == 1 {
      LayoutLast(m, input, ps, toks, cap);
    } else if |toks| > 1 {
      var k := toks[0];
      assert Cell(input, ps, toks, 0, cap);
      LayoutStep(m, input, ps, toks, cap);
      LaidRest(input, ps, toks, cap);
      LayoutRun(AfterToken(m, k), input, ps[1..], toks[1..], cap);
    }
  }

  /** A parenthesised text followed by the rest of the input. */
  lemma Framed(input: string, lay: string, rest: string)
    requires input == "(" + lay + ")" + rest
    ensures input[0] == '(' && SpelledAt(input, 1, lay) && input[1 + |lay|] == ')'
    ensures |input| == 2 + |lay| + |rest| && input[2 + |lay|..] == rest
  {
    var closed := "(" + lay + ")";
    FramedParts(input, closed, rest);
    FramedText(closed, lay);
    assert input[1..1 + |lay|] == closed[1..1 + |lay|];
    SliceSpelled(input, 1, lay);
  }

  lemma FramedParts(input: string, closed: string, rest: string)
    requires input == closed + rest
    ensures |input| == |closed| + |rest| && input[..|closed|] == closed && input[|closed|..] == rest
    ensures forall i :: 0 <= i < |closed| ==> input[i] == closed[i]
  {
  }

  lemma FramedText(closed: string, lay: string)
    requires closed == "(" + lay + ")"
    ensures |closed| == |lay| + 2 && closed[0] == '(' && closed[1 + |lay|] == ')' && closed[1..1 + |lay|] == lay
  {
  }

  /** A layout of simple tokens starts with a character that is not NUL. */
  lemma LayoutHead(toks: seq<Token>, cap: nat)
    requires |toks| > 0 && Simple(toks[0], cap)
    ensures |Layout(toks)| > 0 && Layout(toks)[0] != '\0'
  {
    var s := Spell(toks[0]);
    assert |s| > 0 && s[0] != '\0';
    if |toks| > 1 {
      assert Layout(toks) == s + [' '] + Layout(toks[1..]);
    }
  }

  /** Where the parts of a parenthesised layout sit in the input. */
  lemma FlatInput(input: string, toks: seq<Token>, rest: string, cap: nat)
    requires forall i :: 0 <= i < |toks| ==> Simple(toks[i], cap)
    requires input == "(" + Layout(toks) + ")" + rest
    ensures 1 < |input| && input[0] == '(' && input[1] != '\0'
    ensures Laid(input, Starts(1, toks), toks, cap) && CloseAt(Starts(1, toks), toks) == 1 + |Layout(toks)|
    ensures |input| == 2 + |Layout(toks)| + |rest| && input[2 + |Layout(toks)|..] == rest
  {
    var lay := Layout(toks);
    Framed(input, lay, rest);
    if |toks| > 0 {
      LayoutHead(toks, cap);
      SpelledHead(input, 1, lay);
    }
    LaidOut(input, 1, toks, cap);
  }

  /** The machine after the opening '(' and the laid tokens. */
  lemma FlatStack(toks: seq<Token>, buf: string)
    ensures var m2 := AfterTokens(Machine(Dispatch, 1, 0, buf, [[List([])], []]), toks);
      && m2.depth == 1 && |m2.stack| == 2 && m2.stack[1] == Children(toks)
      && m2.(depth := 0, stack := []) == Machine(Dispatch, 0, 0, LastResidue(toks, buf), [])
  {
    var e: Frame := [];
    assert e + Children(toks) == Children(toks);
  }

  /** The opening '(' read between expressions. */
  lemma FirstOpen(input: string, buf: string, cap: nat)
    requires 1 < |input| && input[0] == '(' && input[1] != '\0' && '\0' !in buf
    ensures Idle(Machine(Dispatch, 1, 0, buf, [[List([])], []]))
    ensures Run(Machine(Dispatch, 0, 0, buf, []), input, 0, cap) == Run(Machine(Dispatch, 1, 0, buf, [[List([])], []]), input, 1, cap)
  {
    var m0 := Machine(Dispatch, 0, 0, buf, []);
    OpenToken(m0, input, 0, cap);
    assert m0.(depth := m0.depth + 1, stack := OpenList(m0.stack)) == Machine(Dispatch, 1, 0, buf, [[List([])], []]);
  }

  /** The loop over a parenthesised layout, between expressions: the list
      closes at the ')' with the tokens' atoms as its children. */
  lemma FlatRun(input: string, ps: seq<nat>, toks: seq<Token>, buf: string, cap: nat)
    requires 1 < |input| && input[0] == '(' && input[1] != '\0' && '\0' !in buf
    requires Laid(input, ps, toks, cap) && ps[0] == 1
    ensures Run(Machine(Dispatch, 0, 0, buf, []), input, 0, cap)
      == Completed(Machine(Dispatch, 0, 0, LastResidue(toks, buf), []), List(Children(toks)), CloseAt(ps, toks) + 1)
  {
    var m1 := Machine(Dispatch, 1, 0, buf, [[List([])], []]);
    var e := CloseAt(ps, toks);
    FirstOpen(input, buf, cap);
    LayoutRun(m1, input, ps, toks, cap);
    ReadingAppends(m1, toks);
    FlatStack(toks, buf);
    var m2 := AfterTokens(m1, toks);
    CloseToken(m2, input, e, cap);
  }

  /** A flat list of simple tokens, parsed by a continuation between
      expressions that reads its own string, completes with a List of the
      tokens' atoms in input order; the continuation resumes just past the
      closing ')'. */
  lemma FlatList(c: Cont, input: string, toks: seq<Token>, rest: string, cap: nat)
    requires Idle(c.m) && c.m.depth == 0 && c.lastPos == None
    requires forall i :: 0 <= i < |toks| ==> Simple(toks[i], cap)
    requires input == "(" + Layout(toks) + ")" + rest
    ensures Resume(c, input, cap)
      == (Cont(Machine(Dispatch, 0, 0, LastResidue(toks, c.m.buf), []), Some(rest), Holds(List(Children(toks)))), Complete)
  {
    assert c.m == Machine(Dispatch, 0, 0, c.m.buf, []);
    FlatInput(input, toks, rest, cap);
    FlatRun(input, Starts(1, toks), toks, c.m.buf, cap);
  }

  /** The tokens of the expression in tests/bug.c, with the text of the last
      atom as a parameter (it is "atoms"): a list whose every element is a
      literal would have the verifier evaluate its layout in one go. */
  function BugTokens(w: string): seq<Token>
  {
    [Bare("i"), Bare("am"), Bare("the"), Bare("test"), Raw("expression"), Str("with"), Ticked("weird"), Bare(w)]
  }

  lemma BugSimple(w: string, cap: nat)
    requires w == "atoms" && cap >= 13
    ensures forall i :: 0 <= i < |BugTokens(w)| ==> Simple(BugTokens(w)[i], cap)
  {
    var b := BugTokens(w);
    forall i | 0 <= i < |b| ensures Simple(b[i], cap) {
      var v := b[i].w;
      assert forall j :: 0 <= j < |v| ==> 'a' <= v[j] <= 'z';
      if i == 4 {
        var s := v + ")";
        assert forall j :: 0 <= j < |v| ==> s[j] == v[j];
        PlainQuoted(s, 0, |v|);
      }
    }
  }

  /** The expression of tests/bug.c, (i am the test '(expression) "with"
      'weird atoms), with its quoted expression, string and quoted atom,
      parsed whole from a fresh continuation. */
  lemma BugFlat(w: string, cap: nat)
    requires w == "atoms" && cap >= 13
    ensures Resume(Fresh(), "(" + Layout(BugTokens(w)) + ")", cap)
      == (Cont(Machine(Dispatch, 0, 0, w, []), Some(""), Holds(List([
           Value("i", Basic), Value("am", Basic), Value("the", Basic), Value("test", Basic),
           Value("(expression)", SQuote), Value("with", DQuote), Value("weird", Basic), Value(w, Basic)]))),
          Complete)
  {
    var toks := BugTokens(w);
    var input := "(" + Layout(toks) + ")";
    assert input == "(" + Layout(toks) + ")" + "";
    BugSimple(w, cap);
    FlatList(Fresh(), input, toks, "", cap);
    BugChildren(w);
  }

  /** The atoms of the tokens of tests/bug.c. */
  lemma BugChildren(w: string)
    ensures LastResidue(BugTokens(w), "") == w
    ensures Children(BugTokens(w)) == [
      Value("i", Basic), Value("am", Basic), Value("the", Basic), Value("test", Basic),
      Value("(expression)", SQuote), Value("with", DQuote), Value("weird", Basic), Value(w, Basic)]
  {
    var toks := BugTokens(w);
    assert Child(toks[4]) == Value("(expression)", SQuote);
    assert Children(toks) == [Child(toks[0]), Child(toks[1]), Child(toks[2]), Child(toks[3]), Child(toks[4]), Child(toks[5]), Child(toks[6]), Child(toks[7])];
  }

  lemma BugExpression(cap: nat)
    requires cap >= 13
    ensures Resume(Fresh(), "(" + Layout(BugTokens("atoms")) + ")", cap)
      == (Cont(Machine(Dispatch, 0, 0, "atoms", []), Some(""), Holds(List([
           Value("i", Basic), Value("am", Basic), Value("the", Basic), Value("test", Basic),
           Value("(expression)", SQuote), Value("with", DQuote), Value("weird", Basic), Value("atoms", Basic)]))),
          Complete)
  {
    BugFlat("atoms", cap);
  }
}
