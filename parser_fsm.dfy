/** The finite-state s-expression parser with continuations
    (src/backup/parser_new.c: cparse_sexp and its helpers).

    The parser reads a C string one character at a time and switches on one of
    nine states. It keeps the atom being read in a buffer `val` of fixed size,
    the open lists on a stack of frames, and hands everything back in a
    continuation when the input runs out in the middle of an expression, so
    that the next call can go on with the next chunk of text.

    The model is in two layers. `Step`, `Run` and `Resume` say, as functions
    over values, what one iteration of the main loop, the loop, and a whole
    call do. The class `Continuation` holds the same state in fields and an
    array and its `Parse` method runs the loop in place; its postcondition
    ties the new fields to `Resume` of the old ones. */
module FsmParser {
  import opened CString
  import opened Sexpr

  /** The nine states of the machine, numbered 1 to 9 in the C code, in this
      order. */
  datatype State =
    | Dispatch       // 1: look at the next character and decide
    | OpenParen      // 2: a '(' was read; open a list
    | CloseParen     // 3: a ')' is next; close the innermost list
    | InAtom         // 4: inside an unquoted atom
    | InString       // 5: inside a double-quoted string
    | AfterString    // 6: just after the closing double quote
    | AfterQuote     // 7: just after a single quote
    | InRaw          // 8: inside a quoted parenthesised expression, kept as text
    | AfterRawClose  // 9: just after a ')' inside a quoted expression

  /** Space, tab, newline and carriage return. */
  predicate IsSpace(c: char)
  {
    c == ' ' || c == '\t' || c == '\n' || c == '\r'
  }

  /** The characters an unquoted atom may hold: letters, digits and '!'. */
  predicate IsAtomChar(c: char)
  {
    ('a' <= c <= 'z') || ('A' <= c <= 'Z') || ('0' <= c <= '9') || c == '!'
  }

  /** The characters state 1 can make progress on. Any other character sends
      the machine from state 1 to state 4, which ends an empty atom without
      moving past it and goes back to state 1, forever. */
  predicate Recognised(c: char)
  {
    IsSpace(c) || c == '(' || c == ')' || c == '"' || c == '\'' || IsAtomChar(c)
  }

  /** The machine's registers. `buf` is the part of `val` before `vcur`: the
      characters of the atom read so far. */
  datatype Machine = Machine(state: State, depth: nat, qdepth: nat, buf: string, stack: Stack)

  /** Ways the C code goes wrong instead of returning. */
  datatype Fault =
    | UnmatchedClose  // ')' with no list open: `pop` on an empty stack
    | AtomOverflow    // a write to `val` at or past its end
    | NoProgress      // state 1 on a character it cannot handle: an endless loop

  /** The state kept between characters: the frame stack has the shape of
      the open lists, the atom text holds no NUL, and `qdepth` counts open
      parentheses only inside a quoted expression. */
  predicate Inv(m: Machine)
  {
    && Shaped(m.stack, m.depth)
    && '\0' !in m.buf
    && (m.state == InRaw ==> m.qdepth >= 1)
    && (m.state != InRaw && m.state != AfterRawClose ==> m.qdepth == 0)
  }

  /** The state before looking at character `c`: as `Inv`, except that state 8
      is entered from state 7 with `qdepth` zero, on the '(' it counts first. */
  predicate Ready(m: Machine, c: char)
  {
    && Shaped(m.stack, m.depth)
    && '\0' !in m.buf
    && (m.state == InRaw ==> m.qdepth >= 1 || c == '(')
    && (m.state != InRaw && m.state != AfterRawClose ==> m.qdepth == 0)
  }

  /** How many more iterations may look at the same character `c` without
      moving past it. */
  function Rank(s: State, c: char): nat
  {
    match s
    case Dispatch => if c == ')' || IsAtomChar(c) then 1 else 0
    case InAtom => if IsAtomChar(c) then 0 else 2
    case OpenParen => 3
    case AfterString => 3
    case AfterQuote => 3
    case AfterRawClose => 2
    case _ => 0
  }

  datatype Move =
    | Next(m: Machine, consumed: bool)  // go on, past `c` or not
    | Closed(m: Machine, root: Node)    // the outermost list was closed
    | Stuck(fault: Fault)

  /** One iteration of the main loop (parser_new.c:170-358) on the current
      character `c`, with an atom buffer of `cap` characters: the `case` of
      the current state. */
  function Step(m: Machine, c: char, cap: nat): (r: Move)
    requires c != '\0' && Ready(m, c)
    ensures r.Closed? ==> m.state == CloseParen && m.depth == 1
    ensures m.state in {OpenParen, AfterString, AfterQuote} ==> r.Next? && !r.consumed
  {
    match m.state
    case Dispatch => DispatchStep(m, c)
    case OpenParen => OpenStep(m)
    case CloseParen => CloseStep(m)
    case InAtom => AtomStep(m, c, cap)
    case InString => StringStep(m, c, cap)
    case AfterString => Next(m.(state := Dispatch, buf := ""), false)
    case AfterQuote => QuoteStep(m, c)
    case InRaw => RawStep(m, c, cap)
    case AfterRawClose => RawCloseStep(m, cap)
  }

  /** State 1 (parser_new.c:172-211): white space, '(', '"' and '\'' are
      read here, ')' and the first character of an atom are left for the
      state that handles them, and the stack is not touched. */
  function DispatchStep(m: Machine, c: char): (r: Move)
    ensures r.Stuck? <==> !Recognised(c)
    ensures r.Next? ==> (r.consumed <==> c != ')' && !IsAtomChar(c))
    ensures r.Next? ==> r.m.depth == m.depth && r.m.stack == m.stack && r.m.qdepth == m.qdepth
  {
    if IsSpace(c) then Next(m, true)
    else if c == '(' then Next(m.(state := OpenParen), true)
    else if c == ')' then Next(m.(state := CloseParen), false)
    else if c == '"' then Next(m.(state := InString, buf := ""), true)
    else if c == '\'' then Next(m.(state := AfterQuote), true)
    else if IsAtomChar(c) then Next(m.(state := InAtom, buf := ""), false)
    else Stuck(NoProgress)
  }

  /** State 2 (parser_new.c:212-237): one level deeper, with a new empty
      frame on top of the stack. */
  function OpenStep(m: Machine): (r: Move)
    ensures r.Next? && !r.consumed && r.m.state == Dispatch
    ensures r.m.depth == m.depth + 1 && |r.m.stack| > |m.stack| && r.m.stack[|r.m.stack| - 1] == []
  {
    Next(m.(state := Dispatch, depth := m.depth + 1, stack := OpenList(m.stack)), false)
  }

  /** State 3 (parser_new.c:238-279): with no list open the `pop` fails;
      closing the outermost list hands back the tree; any other close goes
      one level up and drops the top frame. */
  function CloseStep(m: Machine): (r: Move)
    requires Shaped(m.stack, m.depth)
    ensures r.Stuck? <==> m.depth == 0
    ensures r.Closed? <==> m.depth == 1
    ensures r.Closed? ==> r.root.List? && r.m.depth == 0 && r.m.stack == []
    ensures r.Next? ==> r.consumed && r.m.depth == m.depth - 1 && |r.m.stack| == |m.stack| - 1
  {
    if m.depth == 0 then Stuck(UnmatchedClose)
    else if m.depth == 1 then Closed(m.(state := Dispatch, depth := 0, stack := []), List(m.stack[1]))
    else Next(m.(state := Dispatch, depth := m.depth - 1, stack := CloseList(m.stack)), true)
  }

  /** State 4 (parser_new.c:280-295): atom characters are appended while
      the buffer has room; any other character ends the atom, which goes on
      the top frame untyped (`Basic`), and is looked at again in state 1. */
  function AtomStep(m: Machine, c: char, cap: nat): (r: Move)
    ensures r.Stuck? <==> |m.buf| >= cap
    ensures r.Next? ==> (r.consumed <==> IsAtomChar(c))
    ensures r.Next? && r.consumed ==> r.m.buf == m.buf + [c] && r.m.stack == m.stack
    ensures r.Next? && !r.consumed ==> r.m.state == Dispatch && r.m.stack == AddAtom(m.stack, Value(m.buf, Basic))
  {
    if |m.buf| >= cap then Stuck(AtomOverflow)
    else if IsAtomChar(c) then Next(m.(buf := m.buf + [c]), true)
    else Next(m.(state := Dispatch, stack := AddAtom(m.stack, Value(m.buf, Basic))), false)
  }

  /** State 5 (parser_new.c:296-309): every character up to the closing
      double quote, parentheses and backslashes included, is kept as it is;
      the closing quote adds the string to the top frame. */
  function StringStep(m: Machine, c: char, cap: nat): (r: Move)
    ensures r.Stuck? <==> |m.buf| >= cap
    ensures r.Next? ==> r.consumed && r.m.state == (if c == '"' then AfterString else m.state)
    ensures r.Next? && c != '"' ==> r.m.buf == m.buf + [c] && r.m.stack == m.stack
    ensures r.Next? && c == '"' ==> r.m.stack == AddAtom(m.stack, Value(m.buf, DQuote))
  {
    if |m.buf| >= cap then Stuck(AtomOverflow)
    else if c == '"' then Next(m.(state := AfterString, stack := AddAtom(m.stack, Value(m.buf, DQuote))), true)
    else Next(m.(buf := m.buf + [c]), true)
  }

  /** State 7 (parser_new.c:314-330): after a single quote, a '(' starts
      a quoted expression kept as text, a '"' a string, and anything else an
      atom; the character is looked at again in that state. */
  function QuoteStep(m: Machine, c: char): (r: Move)
    ensures r.Next? && !r.consumed && r.m.buf == "" && r.m.stack == m.stack && r.m.depth == m.depth
    ensures r.m.state == InRaw <==> c == '('
    ensures r.m.state == InString <==> c == '"'
    ensures r.m.state in {InRaw, InString, InAtom}
  {
    if c == '"' then Next(m.(state := InString, buf := ""), false)
    else if c == '(' then Next(m.(state := InRaw, buf := ""), false)
    else Next(m.(state := InAtom, buf := ""), false)
  }

  /** State 8 (parser_new.c:331-344): every character is kept as text;
      `qdepth` counts the parentheses still open inside the quote, and a
      ')' hands over to state 9. */
  function RawStep(m: Machine, c: char, cap: nat): (r: Move)
    requires m.qdepth >= 1 || c == '('
    ensures r.Stuck? <==> |m.buf| >= cap
    ensures r.Next? ==> r.consumed && r.m.buf == m.buf + [c] && r.m.stack == m.stack
    ensures r.Next? ==> r.m.qdepth + (if c == ')' then 1 else 0) == m.qdepth + (if c == '(' then 1 else 0)
    ensures r.Next? ==> r.m.state == (if c == ')' then AfterRawClose else m.state)
  {
    if |m.buf| >= cap then Stuck(AtomOverflow)
    else if c == '(' then Next(m.(qdepth := m.qdepth + 1, buf := m.buf + [c]), true)
    else if c == ')' then Next(m.(state := AfterRawClose, qdepth := m.qdepth - 1, buf := m.buf + [c]), true)
    else Next(m.(buf := m.buf + [c]), true)
  }

  /** State 9 (parser_new.c:345-357): while a parenthesis is still open
      inside the quote the machine goes back to state 8; once the count is
      zero the whole quoted text becomes one `SQuote` atom on the top frame. */
  function RawCloseStep(m: Machine, cap: nat): (r: Move)
    ensures r.Stuck? <==> m.qdepth == 0 && |m.buf| >= cap
    ensures r.Next? ==> !r.consumed && (r.m.state == InRaw <==> m.qdepth > 0)
    ensures r.Next? && m.qdepth == 0 ==> r.m.state == Dispatch && r.m.stack == AddAtom(m.stack, Value(m.buf, SQuote))
  {
    if m.qdepth > 0 then Next(m.(state := InRaw), false)
    else if |m.buf| >= cap then Stuck(AtomOverflow)
    else Next(m.(state := Dispatch, stack := AddAtom(m.stack, Value(m.buf, SQuote))), false)
  }

  /** What one iteration promises: an iteration that moves past `c` leaves
      the invariant; one that does not leaves the machine ready for `c`
      again, with fewer iterations left on it; the buffer grows by at most
      the character consumed and never past `cap`; closing the outermost
      list leaves no frame; and each fault has its one cause. */
  predicate StepFacts(m: Machine, c: char, cap: nat, r: Move)
  {
    && (r.Next? && r.consumed ==> Inv(r.m))
    && (r.Next? && !r.consumed ==> Ready(r.m, c) && Rank(r.m.state, c) < Rank(m.state, c))
    && (r.Next? ==> |r.m.buf| <= |m.buf| + (if r.consumed then 1 else 0))
    && (r.Next? ==> |r.m.buf| <= |m.buf| || |r.m.buf| <= cap)
    && (r.Closed? ==> Inv(r.m) && r.m.depth == 0 && r.m.stack == [] && r.root.List?)
    && (r.Stuck? && r.fault == NoProgress <==> m.state == Dispatch && !Recognised(c))
    && (r.Stuck? && r.fault == UnmatchedClose <==> m.state == CloseParen && m.depth == 0)
    && (r.Stuck? && r.fault == AtomOverflow ==> |m.buf| >= cap)
  }

  lemma DispatchSound(m: Machine, c: char, cap: nat)
    requires c != '\0' && Ready(m, c) && m.state == Dispatch
    ensures StepFacts(m, c, cap, Step(m, c, cap))
  {
  }

  lemma ListSound(m: Machine, c: char, cap: nat)
    requires c != '\0' && Ready(m, c) && (m.state == OpenParen || m.state == CloseParen)
    ensures StepFacts(m, c, cap, Step(m, c, cap))
  {
    if m.state == OpenParen {
      OpenListKeepsShape(m.stack, m.depth);
    } else if m.depth > 0 {
      CloseListKeepsShape(m.stack, m.depth);
    }
  }

  lemma TextSound(m: Machine, c: char, cap: nat)
    requires c != '\0' && Ready(m, c) && (m.state == InAtom || m.state == InString || m.state == AfterString)
    ensures StepFacts(m, c, cap, Step(m, c, cap))
  {
    AddAtomKeepsShape(m.stack, m.depth, Value(m.buf, if m.state == InAtom then Basic else DQuote));
  }

  lemma QuoteSound(m: Machine, c: char, cap: nat)
    requires c != '\0' && Ready(m, c) && (m.state == AfterQuote || m.state == InRaw || m.state == AfterRawClose)
    ensures StepFacts(m, c, cap, Step(m, c, cap))
  {
    AddAtomKeepsShape(m.stack, m.depth, Value(m.buf, SQuote));
  }

  lemma StepSound(m: Machine, c: char, cap: nat)
    requires c != '\0' && Ready(m, c)
    ensures StepFacts(m, c, cap, Step(m, c, cap))
  {
    match m.state
    case Dispatch => DispatchSound(m, c, cap);
    case OpenParen => ListSound(m, c, cap);
    case CloseParen => ListSound(m, c, cap);
    case InAtom => TextSound(m, c, cap);
    case InString => TextSound(m, c, cap);
    case AfterString => TextSound(m, c, cap);
    case AfterQuote => QuoteSound(m, c, cap);
    case InRaw => QuoteSound(m, c, cap);
    case AfterRawClose => QuoteSound(m, c, cap);
  }

  datatype Halt =
    | Completed(m: Machine, root: Node, rest: nat)  // the outermost list closed; `rest` is past its ')'
    | Exhausted(m: Machine, at: nat)                // the loop met the NUL at `at`
    | Failed(m: Machine, fault: Fault)              // `m` is the state before the faulting iteration

  /** The main loop `while (t[0] != '\0')` (parser_new.c:166-359), run from
      position `t` of `input`. */
  function Run(m: Machine, input: string, t: nat, cap: nat): (h: Halt)
    requires t <= |input| && Ready(m, At(input, t))
    ensures h.Completed? ==> Inv(h.m) && h.m.depth == 0 && h.m.stack == [] && h.root.List? && t < h.rest <= |input|
    ensures h.Exhausted? ==> Inv(h.m) && t <= h.at <= |input| && At(input, h.at) == '\0'
    ensures h.Failed? ==> h.fault == UnmatchedClose ==> h.m.state == CloseParen && h.m.depth == 0
    decreases |input| - t, Rank(m.state, At(input, t))
  {
    var c := At(input, t);
    if c == '\0' then Exhausted(m, t)
    else
      StepSound(m, c, cap);
      match Step(m, c, cap)
      case Stuck(f) => Failed(m, f)
      case Closed(m', root) => Completed(m', root, t + 1)
      case Next(m', consumed) =>
        if consumed then Run(m', input, t + 1, cap) else Run(m', input, t, cap)
  }

  /** One turn of the loop seen from outside: an iteration that did what
      `Step` says leaves a machine from which the loop ends as it would have
      from the one before. */
  lemma RunFollows(m: Machine, input: string, t: nat, cap: nat, o: Outcome, m': Machine)
    requires t < |input| && input[t] != '\0' && Ready(m, input[t])
    requires Follows(Step(m, input[t], cap), o, m, m')
    ensures o.Moved? ==>
      var t' := if o.consumed then t + 1 else t;
      && Ready(m', At(input, t'))
      && (!o.consumed ==> Rank(m'.state, input[t]) < Rank(m.state, input[t]))
      && Run(m, input, t, cap) == Run(m', input, t', cap)
    ensures o.Finished? ==> Run(m, input, t, cap) == Completed(m', o.root, t + 1)
    ensures o.Fault? ==> m' == m && Run(m, input, t, cap) == Failed(m, o.fault)
  {
    StepSound(m, input[t], cap);
  }

  /** What `cparse_sexp` keeps in a continuation (pcont_t) besides the atom
      buffer's capacity: the registers, the position `lastPos` where the next
      call resumes (the rest of an earlier input; NULL when the next call reads
      its own string), and the last expression parsed. */
  datatype Cont = Cont(m: Machine, lastPos: Option<string>, lastSexpr: Slot<Node>)

  datatype Status =
    | Complete        // an expression was finished; it is in `lastSexpr`
    | Between         // the input ran out with no list open
    | Suspended       // the input ran out inside an expression
    | Faulted(fault: Fault)

  /** A fresh continuation, as the call with a NULL continuation sets it up
      (parser_new.c:119-121, 147-160): state 1, no list open, an empty atom. Its
      `last_sexpr` is never assigned. */
  function Fresh(): (c: Cont)
    ensures Inv(c.m) && c.lastPos == None
  {
    Cont(Machine(Dispatch, 0, 0, "", []), None, Indeterminate)
  }

  /** One call of `cparse_sexp(str, len, c)` (parser_new.c:133-391). The call
      goes on from `lastPos` when that is set, and from the start of `str`
      otherwise; `len` is not read. */
  function Resume(c: Cont, str: string, cap: nat): (r: (Cont, Status))
    requires Inv(c.m)
    ensures !r.1.Faulted? ==> Inv(r.0.m)
    ensures r.1 == Complete ==> r.0.lastSexpr.Holds? && r.0.lastSexpr.value.List? && r.0.m.depth == 0
    ensures r.1 == Suspended <==> r.0.lastPos == None && !r.1.Faulted?
    ensures r.1 == Suspended ==> r.0.m.depth > 0 && r.0.lastSexpr == c.lastSexpr
    ensures r.1 == Between ==> r.0.m.depth == 0 && r.0.lastSexpr == Indeterminate
  {
    var input := if c.lastPos.Some? then c.lastPos.value else str;
    match Run(c.m, input, 0, cap)
    case Completed(m, root, rest) => (Cont(m, Some(input[rest..]), Holds(root)), Complete)
    case Exhausted(m, at) =>
      if m.depth == 0 then (Cont(m, Some(input[at..]), Drained(m.stack, Indeterminate)), Between)
      else (Cont(m, None, c.lastSexpr), Suspended)
    case Failed(m, f) => (Cont(m, c.lastPos, c.lastSexpr), Faulted(f))
  }

  /** What one iteration of the loop tells the loop. */
  datatype Outcome = Moved(consumed: bool) | Finished(root: Node) | Fault(fault: Fault)

  /** An iteration that reports `o` and leaves the registers `after` did
      what `Step` says, starting from `before`: a fault changes nothing. */
  predicate Follows(mv: Move, o: Outcome, before: Machine, after: Machine)
  {
    match mv
    case Next(m, consumed) => o == Moved(consumed) && after == m
    case Closed(m, root) => o == Finished(root) && after == m
    case Stuck(f) => o == Fault(f) && after == before
  }

  /** A continuation (pcont_t) together with the buffers it owns. */
  class Continuation {
    /** The atom buffer `val`, MAX_SEXPR_ATOM_SIZE characters long. */
    const val: array<char>
    /** `vcur - val`: where the next atom character goes. */
    var vcur: nat
    var state: State
    var depth: nat
    var qdepth: nat
    var stack: Stack
    var lastPos: Option<string>
    var lastSexpr: Slot<Node>

    ghost function Registers(): Machine
      requires vcur <= val.Length
      reads this, val
    {
      Machine(state, depth, qdepth, val[..vcur], stack)
    }

    ghost predicate Valid()
      reads this, val
    {
      vcur <= val.Length && Inv(Registers())
    }

    ghost function Model(): Cont
      requires vcur <= val.Length
      reads this, val
    {
      Cont(Registers(), lastPos, lastSexpr)
    }

    /** The set-up of a call with no continuation (parser_new.c:147-160). */
    constructor (capacity: nat)
      ensures Valid() && Model() == Fresh()
      ensures val.Length == capacity && fresh(val)
    {
      val := new char[capacity];
      vcur := 0;
      state := Dispatch;
      depth := 0;
      qdepth := 0;
      stack := [];
      lastPos := None;
      lastSexpr := Indeterminate;
    }

    /** One iteration of the main loop on the character `c`
        (parser_new.c:170-358). Nothing is changed when the iteration would
        fault. */
    method Advance(c: char) returns (o: Outcome)
      requires vcur <= val.Length && c != '\0' && Ready(Registers(), c)
      modifies this, val
      ensures vcur <= val.Length
      ensures lastPos == old(lastPos) && lastSexpr == old(lastSexpr)
      ensures Follows(Step(old(Registers()), c, val.Length), o, old(Registers()), Registers())
    {
      match state
      case Dispatch =>
        if IsSpace(c) {
          o := Moved(true);
        } else if c == '(' {
          state := OpenParen;
          o := Moved(true);
        } else if c == ')' {
          state := CloseParen;
          o := Moved(false);
        } else if c == '"' {
          state := InString;
          vcur := 0;
          o := Moved(true);
        } else if c == '\'' {
          state := AfterQuote;
          o := Moved(true);
        } else if IsAtomChar(c) {
          vcur := 0;
          state := InAtom;
          o := Moved(false);
        } else {
          o := Fault(NoProgress);
        }
      case OpenParen =>
        depth := depth + 1;
        stack := OpenList(stack);
        state := Dispatch;
        o := Moved(false);
      case CloseParen =>
        o := CloseChar();
      case InAtom =>
        o := AtomChar(c);
      case InString =>
        o := StringChar(c);
      case AfterString =>
        vcur := 0;
        state := Dispatch;
        o := Moved(false);
      case AfterQuote =>
        vcur := 0;
        if c == '"' {
          state := InString;
        } else if c == '(' {
          state := InRaw;
        } else {
          state := InAtom;
        }
        o := Moved(false);
      case InRaw =>
        o := RawChar(c);
      case AfterRawClose =>
        if qdepth > 0 {
          state := InRaw;
          o := Moved(false);
        } else if vcur >= val.Length {
          o := Fault(AtomOverflow);
        } else {
          state := Dispatch;
          val[vcur] := '\0';
          var text := TerminatedText();
          stack := AddAtom(stack, Value(text, SQuote));
          o := Moved(false);
        }
    }

    /** State 3 (parser_new.c:238-279). */
    method CloseChar() returns (o: Outcome)
      requires vcur <= val.Length && state == CloseParen && Inv(Registers())
      modifies this
      ensures vcur <= val.Length
      ensures lastPos == old(lastPos) && lastSexpr == old(lastSexpr)
      ensures Follows(Step(old(Registers()), ')', val.Length), o, old(Registers()), Registers())
    {
      ghost var m := Registers();
      if depth == 0 {
        o := Fault(UnmatchedClose);
      } else {
        CloseListKeepsShape(stack, depth);
        depth := depth - 1;
        var sx := First(stack[|stack| - 1]);
        stack := CloseList(stack);
        state := Dispatch;
        if depth == 0 {
          sx := PopAll(stack, sx);
          assert sx == Holds(List(m.stack[1]));
          stack := [];
          o := Finished(sx.value);
          assert Registers() == m.(state := Dispatch, depth := 0, stack := []);
        } else {
          o := Moved(true);
          assert Registers() == m.(state := Dispatch, depth := m.depth - 1, stack := CloseList(m.stack));
        }
      }
    }

    /** State 4 (parser_new.c:280-295). */
    method AtomChar(c: char) returns (o: Outcome)
      requires vcur <= val.Length && state == InAtom && c != '\0' && Inv(Registers())
      modifies this, val
      ensures vcur <= val.Length
      ensures lastPos == old(lastPos) && lastSexpr == old(lastSexpr)
      ensures Follows(Step(old(Registers()), c, val.Length), o, old(Registers()), Registers())
    {
      if vcur >= val.Length {
        o := Fault(AtomOverflow);
      } else if IsAtomChar(c) {
        val[vcur] := c;
        vcur := vcur + 1;
        o := Moved(true);
      } else {
        val[vcur] := '\0';
        var text := TerminatedText();
        stack := AddAtom(stack, Value(text, Basic));
        state := Dispatch;
        o := Moved(false);
      }
    }

    /** State 5 (parser_new.c:296-309). */
    method StringChar(c: char) returns (o: Outcome)
      requires vcur <= val.Length && state == InString && c != '\0' && Inv(Registers())
      modifies this, val
      ensures vcur <= val.Length
      ensures lastPos == old(lastPos) && lastSexpr == old(lastSexpr)
      ensures Follows(Step(old(Registers()), c, val.Length), o, old(Registers()), Registers())
    {
      if vcur >= val.Length {
        o := Fault(AtomOverflow);
      } else if c == '"' {
        state := AfterString;
        val[vcur] := '\0';
        var text := TerminatedText();
        stack := AddAtom(stack, Value(text, DQuote));
        o := Moved(true);
      } else {
        val[vcur] := c;
        vcur := vcur + 1;
        o := Moved(true);
      }
    }

    /** State 8 (parser_new.c:331-344). */
    method RawChar(c: char) returns (o: Outcome)
      requires vcur <= val.Length && state == InRaw && c != '\0' && Ready(Registers(), c)
      modifies this, val
      ensures vcur <= val.Length
      ensures lastPos == old(lastPos) && lastSexpr == old(lastSexpr)
      ensures Follows(Step(old(Registers()), c, val.Length), o, old(Registers()), Registers())
    {
      if vcur >= val.Length {
        o := Fault(AtomOverflow);
      } else {
        if c == '(' {
          qdepth := qdepth + 1;
        } else if c == ')' {
          qdepth := qdepth - 1;
          state := AfterRawClose;
        }
        val[vcur] := c;
        vcur := vcur + 1;
        o := Moved(true);
      }
    }

    /** `newatom(val)`: the C string in the atom buffer, which is the text
        before `vcur` once a NUL has been written there. */
    method TerminatedText() returns (text: string)
      requires vcur < val.Length && val[vcur] == '\0' && '\0' !in val[..vcur]
      ensures text == val[..vcur]
    {
      text := CStr(val[..]);
      CStrOfTerminated(val[..], vcur);
    }

    /** The main loop (parser_new.c:166-359) over `input`: iterate until the
        NUL, a fault, or the close of the outermost list, and report which
        with where it stopped. */
    method Drive(input: string) returns (t: nat, o: Outcome)
      requires vcur <= val.Length && Ready(Registers(), At(input, 0))
      modifies this, val
      ensures vcur <= val.Length && t <= |input|
      ensures lastPos == old(lastPos) && lastSexpr == old(lastSexpr)
      ensures o.Moved? ==> Run(old(Registers()), input, 0, val.Length) == Exhausted(Registers(), t)
      ensures o.Finished? ==> t < |input| && Run(old(Registers()), input, 0, val.Length) == Completed(Registers(), o.root, t + 1)
      ensures o.Fault? ==> Run(old(Registers()), input, 0, val.Length) == Failed(Registers(), o.fault)
    {
      t := 0;
      o := Moved(false);
      ghost var h := Run(Registers(), input, 0, val.Length);
      while At(input, t) != '\0'
        invariant vcur <= val.Length && t <= |input| && Ready(Registers(), At(input, t))
        invariant Run(Registers(), input, t, val.Length) == h
        invariant lastPos == old(lastPos) && lastSexpr == old(lastSexpr)
        invariant o.Moved?
        decreases |input| - t, Rank(state, At(input, t))
      {
        ghost var before := Registers();
        o := Advance(At(input, t));
        RunFollows(before, input, t, val.Length, o, Registers());
        if !o.Moved? {
          return;
        }
        if o.consumed {
          t := t + 1;
        }
      }
    }

    /** `cparse_sexp(str, len, this)` (parser_new.c:133-391): go on parsing
        from where the last call stopped. */
    method Parse(str: string) returns (status: Status)
      requires Valid()
      modifies this, val
      ensures vcur <= val.Length && (Model(), status) == Resume(old(Model()), str, val.Length)
      ensures !status.Faulted? ==> Valid()
    {
      var input := if lastPos.Some? then lastPos.value else str;
      var t, o := Drive(input);
      match o {
        case Fault(f) =>
          status := Faulted(f);
        case Finished(root) =>
          lastPos := Some(input[t + 1..]);
          lastSexpr := Holds(root);
          status := Complete;
        case Moved(_) =>
          if depth == 0 {
            lastPos := Some(input[t..]);
            var sx := PopAll(stack, Indeterminate);
            stack := [];
            lastSexpr := sx;
            status := Between;
          } else {
            lastPos := None;
            status := Suspended;
          }
      }
    }

    /** `last_sexp` (parser_new.c:76-88): hand out the last expression and
        forget it. */
    method LastSexp() returns (s: Slot<Node>)
      requires Valid()
      modifies this
      ensures Valid() && s == old(lastSexpr)
      ensures Model() == old(Model()).(lastSexpr := Null)
    {
      s := Null;
      if lastSexpr != Null {
        s := lastSexpr;
        lastSexpr := Null;
      }
    }
  }

  /** `cparse_sexp(str, len, NULL)`: a call with no continuation allocates a
      fresh one with an atom buffer of `capacity` characters. */
  method Begin(str: string, capacity: nat) returns (cc: Continuation, status: Status)
    ensures fresh(cc) && fresh(cc.val) && cc.val.Length == capacity
    ensures cc.vcur <= cc.val.Length && (cc.Model(), status) == Resume(Fresh(), str, capacity)
  {
    cc := new Continuation(capacity);
    status := cc.Parse(str);
  }

  /** `parse_sexp` (parser_new.c:95-103): parse one expression with a fresh
      continuation and return its `last_sexpr`. */
  method ParseSexp(s: string, capacity: nat) returns (r: Slot<Node>, status: Status)
    ensures status == Resume(Fresh(), s, capacity).1
    ensures r == Resume(Fresh(), s, capacity).0.lastSexpr
  {
    var cc;
    cc, status := Begin(s, capacity);
    r := cc.lastSexpr;
  }
}
