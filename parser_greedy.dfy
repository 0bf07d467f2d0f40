/** The earlier, greedy s-expression parser with continuations
    (src/backup/parser_old.c: cparse_sexp, new_cont, last_sexp, parse_sexp).

    There are no states: each turn of the main loop looks at one character
    and opens a list at '(', closes one at ')', and otherwise skips white
    space and copies an atom into the buffer `val` through the cursor `vcur`.
    A call that meets the NUL in the middle of an atom returns at once,
    saving the cursor in the continuation; the next call either goes on with
    that atom or, when its string starts with white space, finishes it first.

    As for the finite-state parser, `Flush`, `Scan`, `Iter`, `Loop` and
    `GResume` say over values what the parts of one call do, and the class
    `GreedyContinuation` runs the same loops in place; its `Parse` is proved
    against `GResume`. */
module GreedyParser {
  import opened CString
  import opened Sexpr

  /** Space, tab, newline and carriage return. */
  predicate IsWhite(c: char)
  {
    c == ' ' || c == '\t' || c == '\n' || c == '\r'
  }

  /** The characters an atom stops at. */
  predicate Ends(c: char)
  {
    IsWhite(c) || c == '(' || c == ')' || c == '\0'
  }

  /** The characters a backslash escapes: both are kept in the atom and the
      second does not end it. */
  predicate Escapable(c: char)
  {
    c == ')' || c == '(' || c == '\'' || c == '"' || c == '\\' || c == 'n'
    || c == 't' || c == 'r' || c == 'v' || c == 'f' || c == 'b' || c == 'a'
  }

  /** Ways the C code goes wrong instead of returning. */
  datatype Fault =
    | UnmatchedClose  // ')' with no list open: `depth` wraps and `pop` meets an empty stack
    | NoFrame         // an atom with no list open: `data` is read before it is set
    | AtomOverflow    // a write to `val` at or past its end
    | WildCursor      // `cc->vcur` read while it holds an indeterminate pointer
    | UseAfterFree    // the stack freed by an earlier call is used again

  /** The first position at or after `t` that is not white space. */
  function SkipWhite(input: string, t: nat): (r: nat)
    requires t <= |input|
    ensures t <= r <= |input| && !IsWhite(At(input, r))
    ensures forall i :: t <= i < r ==> IsWhite(input[i])
    decreases |input| - t
  {
    if IsWhite(At(input, t)) then SkipWhite(input, t + 1) else t
  }

  datatype Scanned = Text(w: string, e: nat) | Overrun

  /** The atom loop (parser_old.c:229-259) from position `t`, with `w` the
      text already before the cursor in a buffer of `cap` characters. Each
      character is written at the cursor; a backslash followed by an
      escapable character writes both and moves past both. */
  function Scan(input: string, t: nat, w: string, cap: nat): (r: Scanned)
    requires t <= |input|
    ensures r.Text? ==> t <= r.e <= |input| && Ends(At(input, r.e))
    ensures r.Text? && |w| <= cap ==> |r.w| <= cap
    ensures r.Text? && '\0' !in w ==> '\0' !in r.w
    decreases |input| - t
  {
    var c := At(input, t);
    if Ends(c) then Text(w, t)
    else if |w| >= cap then Overrun
    else if c == '\\' && Escapable(At(input, t + 1)) then
      if |w| + 1 >= cap then Overrun else Scan(input, t + 2, w + [c, input[t + 1]], cap)
    else Scan(input, t + 1, w + [c], cap)
  }

  /** The local registers of a call: the nesting depth, the frame stack and
      whether it is still allocated, the local cursor `vcur` and the saved
      one `cc->vcur`. A cursor that points into the buffer is represented by
      the text before it. */
  datatype GMachine = GMachine(depth: nat, stack: Stack, live: bool, cur: Slot<string>, pending: Slot<string>)

  /** The root frame alone, holding the finished outermost list. */
  predicate Rooted(st: Stack)
  {
    |st| == 1 && |st[0]| == 1 && st[0][0].List?
  }

  /** What the loop keeps: a live stack has the shape of the open lists, or
      holds only the root frame once the outermost list is closed. */
  predicate GInv(g: GMachine)
  {
    g.live ==> Shaped(g.stack, g.depth) || (g.depth == 0 && Rooted(g.stack))
  }

  datatype GMove =
    | Go(g: GMachine, t: nat)   // go on from position `t`
    | Cut(g: GMachine, t: nat)  // the NUL was met inside an atom: return at once
    | Stop(fault: Fault)

  datatype Attach = Attached(g: GMachine) | Refused(fault: Fault)

  /** A finished atom `w` (parser_old.c:268-299, and 177-205 before the
      loop): the NUL is written at the cursor, and a nonempty atom is
      appended to the top frame. */
  function Finish(g: GMachine, w: string, cap: nat): (r: Attach)
    requires Shaped(g.stack, g.depth) || !g.live
    ensures r.Attached? ==> r.g.live == g.live && r.g.depth == g.depth && (r.g.live ==> Shaped(r.g.stack, r.g.depth))
  {
    if |w| >= cap then Refused(AtomOverflow)
    else if w == "" then Attached(g.(cur := Holds(w), pending := Null))
    else if !g.live then Refused(UseAfterFree)
    else if |g.stack| == 0 then Refused(NoFrame)
    else
      AddAtomKeepsShape(g.stack, g.depth, Value(w, Unset));
      Attached(g.(cur := Holds(w), pending := Null, stack := AddAtom(g.stack, Value(w, Unset))))
  }

  /** '(' (parser_old.c:302-347): open a list, as the last node of the top
      frame or, with no frame, in a new root frame, and push a frame for its
      children. */
  function OpenTurn(g: GMachine, t: nat): (r: GMove)
    requires Shaped(g.stack, g.depth) || !g.live
    ensures r.Go? ==> r.t == t + 1 && r.g.live == g.live && r.g.depth == g.depth + 1 && Shaped(r.g.stack, r.g.depth)
    ensures !r.Cut?
  {
    if !g.live then Stop(UseAfterFree)
    else
      OpenListKeepsShape(g.stack, g.depth);
      Go(g.(depth := g.depth + 1, stack := OpenList(g.stack)), t + 1)
  }

  /** ')' (parser_old.c:348-372): clear `cc->vcur`, pop the top frame and
      make its chain the children of the list that opened it. */
  function CloseTurn(g: GMachine, t: nat): (r: GMove)
    requires Shaped(g.stack, g.depth) || !g.live
    ensures r.Go? ==> r.t == t + 1 && r.g.live == g.live && GInv(r.g) && r.g.depth + 1 == g.depth
    ensures !r.Cut?
  {
    if !g.live then Stop(UseAfterFree)
    else if g.depth == 0 then Stop(UnmatchedClose)
    else
      CloseListKeepsShape(g.stack, g.depth);
      Go(g.(pending := Null, depth := g.depth - 1, stack := CloseList(g.stack)), t + 1)
  }

  /** Any other character (parser_old.c:220-300): skip white space, go on
      with the atom `cc->vcur` points into or start one, and finish it at a
      character that ends it; at the NUL, save the cursor and return. */
  function AtomTurn(g: GMachine, input: string, t: nat, cap: nat): (r: GMove)
    requires t < |input| && (Shaped(g.stack, g.depth) || !g.live)
    ensures r.Go? ==> t <= r.t <= |input| && r.g.live == g.live && r.g.depth == g.depth && (r.g.live ==> Shaped(r.g.stack, r.g.depth))
    ensures r.Cut? ==> t <= r.t <= |input| && At(input, r.t) == '\0' && r.g.stack == g.stack && r.g.depth == g.depth
    ensures r.Cut? ==> r.g.live == g.live && r.g.pending.Holds? && r.g.pending == r.g.cur
  {
    var s := SkipWhite(input, t);
    if g.pending.Indeterminate? then Stop(WildCursor)
    else
      match Scan(input, s, if g.pending.Holds? then g.pending.value else "", cap)
      case Overrun => Stop(AtomOverflow)
      case Text(w, e) =>
        if At(input, e) == '\0' then Cut(g.(cur := Holds(w), pending := Holds(w)), e)
        else
          match Finish(g, w, cap)
          case Attached(g') => Go(g', e)
          case Refused(f) => Stop(f)
  }

  /** One turn of the main loop (parser_old.c:219-373) at position `t`. */
  function Iter(g: GMachine, input: string, t: nat, cap: nat): (r: GMove)
    requires t < |input| && input[t] != '\0' && (Shaped(g.stack, g.depth) || !g.live)
    ensures r.Go? ==> t < r.t <= |input| && r.g.live == g.live && GInv(r.g)
    ensures r.Cut? ==> t < r.t <= |input| && At(input, r.t) == '\0' && r.g.stack == g.stack && r.g.depth == g.depth
    ensures r.Cut? ==> r.g.live == g.live && r.g.pending.Holds? && r.g.pending == r.g.cur
  {
    if input[t] == '(' then OpenTurn(g, t)
    else if input[t] == ')' then CloseTurn(g, t)
    else AtomTurn(g, input, t, cap)
  }

  datatype GHalt =
    | Exit(g: GMachine, t: nat)    // the loop ended at the NUL or with no list open
    | CutOff(g: GMachine, t: nat)  // a turn met the NUL inside an atom
    | Fail(fault: Fault)

  /** The main loop `while (t[0] != 0)` (parser_old.c:215-376), which also
      stops after any turn that leaves no list open. */
  function Loop(g: GMachine, input: string, t: nat, cap: nat): (h: GHalt)
    requires t <= |input| && (Shaped(g.stack, g.depth) || !g.live)
    ensures h.Exit? ==> GInv(h.g) && h.g.live == g.live && t <= h.t <= |input|
    ensures h.Exit? ==> h.g.depth == 0 || At(input, h.t) == '\0'
    ensures h.CutOff? ==> h.g.live == g.live && (h.g.live ==> Shaped(h.g.stack, h.g.depth)) && h.g.pending.Holds?
    ensures h.CutOff? ==> h.g.cur == h.g.pending
    decreases |input| - t
  {
    if At(input, t) == '\0' then Exit(g, t)
    else match Iter(g, input, t, cap)
      case Stop(f) => Fail(f)
      case Cut(g', e) => CutOff(g', e)
      case Go(g', e) => if g'.depth == 0 then Exit(g', e) else Loop(g', input, e, cap)
  }

  datatype Pre = Start(g: GMachine, t: nat) | Abort(fault: Fault)

  /** Before the loop (parser_old.c:174-212): when the string starts with
      white space, an atom left unfinished by the last call is finished and
      the white space skipped. */
  function Flush(g: GMachine, input: string, cap: nat): (r: Pre)
    requires Shaped(g.stack, g.depth) || !g.live
    ensures r.Start? ==> r.t <= |input| && r.g.live == g.live && r.g.depth == g.depth
    ensures r.Start? ==> Shaped(r.g.stack, r.g.depth) || !r.g.live
  {
    if !IsWhite(At(input, 0)) then Start(g, 0)
    else
      var t := SkipWhite(input, 0);
      match g.pending
      case Indeterminate => Abort(WildCursor)
      case Null => Start(g.(cur := Null), t)
      case Holds(w) =>
        match Finish(g, w, cap)
        case Attached(g') => Start(g'.(cur := Null), t)
        case Refused(f) => Abort(f)
  }

  /** What `cparse_sexp` keeps in a continuation (pcont_t): the saved depth,
      the frame stack and whether it is still allocated, whether `val` is
      allocated, the saved cursor, `lastPos` and the last expression. */
  datatype GCont = GCont(
    depth: nat, stack: Stack, live: bool, hasVal: bool,
    pending: Slot<string>, lastPos: Option<string>, lastSexpr: Slot<Node>)

  datatype Status =
    | Complete        // the outermost list closed; it is in `lastSexpr`
    | Between         // the input ran out with no list open
    | Suspended       // the input ran out inside an expression
    | Faulted(fault: Fault)

  /** `new_cont` (parser_old.c:67-76): an empty stack, depth 0, and no
      buffer, cursor, position or expression. */
  function NewCont(): (c: GCont)
    ensures c.live && c.stack == [] && c.depth == 0 && !c.hasVal
    ensures c.pending == Null && c.lastPos == None && c.lastSexpr == Null
  {
    GCont(0, [], true, false, Null, None, Null)
  }

  /** The state a continuation must be in for a call on it. */
  predicate Usable(c: GCont)
  {
    c.live ==> Shaped(c.stack, c.depth)
  }

  /** The registers a call starts with (parser_old.c:139-164): the local
      cursor is `cc->vcur` when a buffer was kept and indeterminate when one
      is allocated, and then `cc->vcur` is cleared. */
  function Entry(c: GCont): (g: GMachine)
    ensures g.depth == c.depth && g.stack == c.stack && g.live == c.live
  {
    GMachine(c.depth, c.stack, c.live,
      if c.hasVal then c.pending else Indeterminate, if c.hasVal then c.pending else Null)
  }

  /** After the loop (parser_old.c:378-431). With a list open the call
      suspends, saving the local cursor in `cc->vcur`. Otherwise every frame
      is popped, the bottom frame's first node becomes the last expression,
      the buffer and the stack are freed, and `lastPos` is left at the rest
      of the input, or NULL at its end. `cc->depth` is not written. */
  function Settle(c: GCont, g: GMachine, input: string, e: nat): (r: (GCont, Status))
    requires GInv(g) && g.live == c.live && e <= |input|
    ensures !r.1.Faulted? ==> Usable(r.0)
    ensures r.1 == Complete ==> r.0.lastSexpr.Holds? && r.0.lastSexpr.value.List?
    ensures r.1 == Complete || r.1 == Between ==> !r.0.live && !r.0.hasVal && r.0.depth == c.depth
    ensures r.1 == Suspended ==> r.0.hasVal && r.0.live == c.live && r.0.lastSexpr == c.lastSexpr
  {
    if g.depth > 0 then
      (c.(depth := g.depth, stack := g.stack, hasVal := true, pending := g.cur, lastPos := None), Suspended)
    else if !g.live then (c, Faulted(UseAfterFree))
    else
      var sx := Drained(g.stack, Indeterminate);
      (c.(stack := [], live := false, hasVal := false, pending := g.pending,
          lastPos := if At(input, e) == '\0' then None else Some(input[e..]), lastSexpr := sx),
       if sx.Holds? then Complete else Between)
  }

  /** One call `cparse_sexp(s, len, pc)` (parser_old.c:118-432). The call
      reads from `lastPos` when that is set and from `s` otherwise; `len` is
      not read. A call that meets the NUL inside an atom returns with
      `cc->vcur`, `cc->depth` and the stack saved and `lastPos` untouched.
      After a fault the continuation is left as it was. */
  function GResume(c: GCont, str: string, cap: nat): (r: (GCont, Status))
    requires Usable(c)
    ensures !r.1.Faulted? ==> Usable(r.0)
    ensures r.1 == Complete ==> r.0.lastSexpr.Holds? && r.0.lastSexpr.value.List?
    ensures r.1 == Complete || r.1 == Between ==> !r.0.live && !r.0.hasVal && r.0.depth == c.depth
    ensures r.1 == Suspended ==> r.0.hasVal && r.0.live == c.live && r.0.lastSexpr == c.lastSexpr
  {
    var input := if c.lastPos.Some? then c.lastPos.value else str;
    match Flush(Entry(c), input, cap)
    case Abort(f) => (c, Faulted(f))
    case Start(g1, t1) =>
      match Loop(g1, input, t1, cap)
      case Fail(f) => (c, Faulted(f))
      case CutOff(g, _) => (c.(depth := g.depth, stack := g.stack, hasVal := true, pending := g.pending), Suspended)
      case Exit(g, e) => Settle(c, g, input, e)
  }

  /** How a method running part of a call ended: it goes on from position
      `t`, it saved its place at the NUL at `t`, or the C code faults. */
  datatype Turn = Went(t: nat) | Saved(t: nat) | Crashed(fault: Fault)

  /** A turn of the loop reported `o` and left the registers `g`, as the
      move `m` says. */
  ghost predicate Mirrors(m: GMove, o: Turn, g: GMachine)
  {
    match m
    case Go(g', t) => o == Went(t) && g == g'
    case Cut(g', t) => o == Saved(t) && g == g'
    case Stop(f) => o == Crashed(f)
  }

  /** The loop reported `o` and left the registers `g`, as the halt `h`
      says. */
  ghost predicate MirrorsHalt(h: GHalt, o: Turn, g: GMachine)
  {
    match h
    case Exit(g', t) => o == Went(t) && g == g'
    case CutOff(g', t) => o == Saved(t) && g == g'
    case Fail(f) => o == Crashed(f)
  }

  /** The loops `while (IsWhite(t[0]) && t[0] != 0) t++` of
      parser_old.c:210-211 and 225-226. */
  method SkipSpaces(input: string, t: nat) returns (s: nat)
    requires t <= |input|
    ensures s == SkipWhite(input, t)
  {
    s := t;
    while IsWhite(At(input, s))
      invariant t <= s <= |input| && SkipWhite(input, s) == SkipWhite(input, t)
      decreases |input| - s
    {
      s := s + 1;
    }
  }

  /** A continuation `pcont_t` of the greedy parser, updated in place by
      each call. */
  class GreedyContinuation {
    /** The atom buffer `val`, MAX_SEXPR_ATOM_SIZE characters long. The
        buffers successive calls allocate are modelled by one array. */
    const val: array<char>
    /** `cc->val != NULL`: a buffer is allocated. */
    var hasVal: bool
    /** `cc->vcur` as an offset into `val`. */
    var vcur: Slot<nat>
    var depth: nat
    var stack: Stack
    /** The frame stack has not been freed by `destroy_stack`. */
    var live: bool
    var lastPos: Option<string>
    var lastSexpr: Slot<Node>

    /** A cursor that, if it points into the buffer, has a C string before it. */
    ghost predicate Fits(p: Slot<nat>)
      reads val
    {
      p.Holds? ==> p.value <= val.Length && '\0' !in val[..p.value]
    }

    /** The text before a cursor. */
    ghost function Before(p: Slot<nat>): Slot<string>
      requires Fits(p)
      reads val
    {
      match p
      case Indeterminate => Indeterminate
      case Null => Null
      case Holds(n) => Holds(val[..n])
    }

    /** The registers of a call whose local cursor is `cur`. */
    ghost function Registers(cur: Slot<nat>): GMachine
      requires Fits(cur) && Fits(vcur)
      reads this, val
    {
      GMachine(depth, stack, live, Before(cur), Before(vcur))
    }

    ghost function Model(): GCont
      requires Fits(vcur)
      reads this, val
    {
      GCont(depth, stack, live, hasVal, Before(vcur), lastPos, lastSexpr)
    }

    ghost predicate Valid()
      reads this, val
    {
      Fits(vcur) && Usable(Model())
    }

    /** `new_cont` (parser_old.c:67-76). */
    constructor (capacity: nat)
      ensures Valid() && Model() == NewCont()
      ensures val.Length == capacity && fresh(val)
    {
      val := new char[capacity];
      hasVal := false;
      vcur := Null;
      depth := 0;
      stack := [];
      live := true;
      lastPos := None;
      lastSexpr := Null;
    }

    /** The atom loop (parser_old.c:229-259): copy atom characters into the
        buffer from offset `n0`, both characters of an escape pair, until a
        character that ends the atom. */
    method ScanAtom(input: string, t: nat, n0: nat) returns (ok: bool, n: nat, e: nat)
      requires t <= |input| && Fits(Holds(n0))
      modifies val
      ensures val[..n0] == old(val[..n0])
      ensures ok == Scan(input, t, old(val[..n0]), val.Length).Text?
      ensures ok ==> Fits(Holds(n)) && n0 <= n && Scan(input, t, old(val[..n0]), val.Length) == Text(val[..n], e)
    {
      ghost var w0 := val[..n0];
      n, e := n0, t;
      while !Ends(At(input, e))
        invariant t <= e <= |input| && n0 <= n <= val.Length && '\0' !in val[..n]
        invariant val[..n0] == w0
        invariant Scan(input, t, w0, val.Length) == Scan(input, e, val[..n], val.Length)
        decreases |input| - e
      {
        var c := input[e];
        if n >= val.Length {
          return false, n, e;
        }
        ghost var w := val[..n];
        val[n] := c;
        if c == '\\' && Escapable(At(input, e + 1)) {
          if n + 1 >= val.Length {
            return false, n, e;
          }
          val[n + 1] := input[e + 1];
          assert val[..n + 2] == w + [c, input[e + 1]];
          n, e := n + 2, e + 2;
        } else {
          assert val[..n + 1] == w + [c];
          n, e := n + 1, e + 1;
        }
      }
      ok := true;
    }

    /** The end of an atom at offset `n` (parser_old.c:268-299, and
        177-207 before the loop): write the NUL, append a nonempty atom to
        the top frame as a fresh node, and clear `cc->vcur`. */
    method FinishAtom(n: nat) returns (f: Option<Fault>)
      requires Fits(Holds(n)) && Fits(vcur) && (Shaped(stack, depth) || !live)
      modifies this, val
      ensures hasVal == old(hasVal) && lastPos == old(lastPos) && lastSexpr == old(lastSexpr)
      ensures match Finish(old(Registers(Null)), old(val[..n]), val.Length)
        case Attached(g) => f == None && Fits(Holds(n)) && Fits(vcur) && Registers(Holds(n)) == g
        case Refused(x) => f == Some(x)
    {
      if n >= val.Length {
        return Some(AtomOverflow);
      }
      val[n] := '\0';
      assert val[..n] == old(val[..n]);
      if n != 0 {
        if !live {
          return Some(UseAfterFree);
        }
        if |stack| == 0 {
          return Some(NoFrame);
        }
        var text := CStr(val[..]);
        CStrOfTerminated(val[..], n);
        stack := AddAtom(stack, Value(text, Unset));
      }
      vcur := Null;
      f := None;
    }

    /** '(' (parser_old.c:302-347). */
    method OpenChar(t: nat, ghost cur: Slot<nat>) returns (o: Turn)
      requires Fits(cur) && Fits(vcur) && (Shaped(stack, depth) || !live)
      modifies this
      ensures hasVal == old(hasVal) && lastPos == old(lastPos) && lastSexpr == old(lastSexpr) && vcur == old(vcur)
      ensures Mirrors(OpenTurn(old(Registers(cur)), t), o, Registers(cur))
    {
      if !live {
        return Crashed(UseAfterFree);
      }
      depth := depth + 1;
      stack := OpenList(stack);
      o := Went(t + 1);
    }

    /** ')' (parser_old.c:348-372). */
    method CloseChar(t: nat, ghost cur: Slot<nat>) returns (o: Turn)
      requires Fits(cur) && Fits(vcur) && (Shaped(stack, depth) || !live)
      modifies this
      ensures hasVal == old(hasVal) && lastPos == old(lastPos) && lastSexpr == old(lastSexpr) && Fits(vcur)
      ensures Mirrors(CloseTurn(old(Registers(cur)), t), o, Registers(cur))
    {
      if !live {
        return Crashed(UseAfterFree);
      }
      if depth == 0 {
        return Crashed(UnmatchedClose);
      }
      CloseListKeepsShape(stack, depth);
      vcur := Null;
      depth := depth - 1;
      stack := CloseList(stack);
      o := Went(t + 1);
    }

    /** Any other character (parser_old.c:220-300). */
    method AtomChars(input: string, t: nat, cur: Slot<nat>) returns (o: Turn, cur': Slot<nat>)
      requires t < |input| && Fits(cur) && Fits(vcur) && (Shaped(stack, depth) || !live)
      modifies this, val
      ensures hasVal == old(hasVal) && lastPos == old(lastPos) && lastSexpr == old(lastSexpr)
      ensures o.Crashed? ==> AtomTurn(old(Registers(cur)), input, t, val.Length) == Stop(o.fault)
      ensures !o.Crashed? ==> Fits(cur') && Fits(vcur) && Mirrors(AtomTurn(old(Registers(cur)), input, t, val.Length), o, Registers(cur'))
    {
      cur' := cur;
      var s := SkipSpaces(input, t);
      var n0: nat;
      match vcur {
        case Indeterminate =>
          return Crashed(WildCursor), cur';
        case Null =>
          n0 := 0;
        case Holds(m) =>
          n0 := m;
      }
      var ok, n, e := ScanAtom(input, s, n0);
      if !ok {
        return Crashed(AtomOverflow), cur';
      }
      cur' := Holds(n);
      if At(input, e) == '\0' {
        vcur := Holds(n);
        o := Saved(e);
      } else {
        var f := FinishAtom(n);
        o := if f.Some? then Crashed(f.value) else Went(e);
      }
    }

    /** One turn of the main loop (parser_old.c:219-373) at position `t`,
        with `cur` the local cursor. */
    method Iterate(input: string, t: nat, cur: Slot<nat>) returns (o: Turn, cur': Slot<nat>)
      requires t < |input| && input[t] != '\0'
      requires Fits(cur) && Fits(vcur) && (Shaped(stack, depth) || !live)
      modifies this, val
      ensures hasVal == old(hasVal) && lastPos == old(lastPos) && lastSexpr == old(lastSexpr)
      ensures o.Crashed? ==> Iter(old(Registers(cur)), input, t, val.Length) == Stop(o.fault)
      ensures !o.Crashed? ==> Fits(cur') && Fits(vcur) && Mirrors(Iter(old(Registers(cur)), input, t, val.Length), o, Registers(cur'))
    {
      cur' := cur;
      if input[t] == '(' {
        o := OpenChar(t, cur);
      } else if input[t] == ')' {
        o := CloseChar(t, cur);
      } else {
        o, cur' := AtomChars(input, t, cur);
      }
    }

    /** The main loop (parser_old.c:215-376) from position `t0`: turn until
        the NUL, a fault, a NUL met inside an atom, or a turn that leaves no
        list open. */
    method Drive(input: string, t0: nat, cur0: Slot<nat>) returns (o: Turn, cur: Slot<nat>)
      requires t0 <= |input| && Fits(cur0) && Fits(vcur) && (Shaped(stack, depth) || !live)
      modifies this, val
      ensures hasVal == old(hasVal) && lastPos == old(lastPos) && lastSexpr == old(lastSexpr)
      ensures o.Crashed? ==> Loop(old(Registers(cur0)), input, t0, val.Length) == Fail(o.fault)
      ensures !o.Crashed? ==> Fits(cur) && Fits(vcur) && MirrorsHalt(Loop(old(Registers(cur0)), input, t0, val.Length), o, Registers(cur))
    {
      var t := t0;
      cur := cur0;
      ghost var h := Loop(Registers(cur), input, t, val.Length);
      while At(input, t) != '\0'
        invariant t <= |input| && Fits(cur) && Fits(vcur) && (Shaped(stack, depth) || !live)
        invariant Loop(Registers(cur), input, t, val.Length) == h
        invariant hasVal == old(hasVal) && lastPos == old(lastPos) && lastSexpr == old(lastSexpr)
        decreases |input| - t
      {
        o, cur := Iterate(input, t, cur);
        if !o.Went? || depth == 0 {
          return;
        }
        t := o.t;
      }
      o := Went(t);
    }

    /** Before the loop (parser_old.c:174-212), with `cur` the local
        cursor: report the position the loop starts from. */
    method LeadIn(input: string, cur: Slot<nat>) returns (o: Turn, cur': Slot<nat>)
      requires Fits(cur) && Fits(vcur) && (Shaped(stack, depth) || !live)
      modifies this, val
      ensures hasVal == old(hasVal) && lastPos == old(lastPos) && lastSexpr == old(lastSexpr)
      ensures !o.Saved?
      ensures o.Crashed? ==> Flush(old(Registers(cur)), input, val.Length) == Abort(o.fault)
      ensures o.Went? ==> Fits(cur') && Fits(vcur) && Flush(old(Registers(cur)), input, val.Length) == Start(Registers(cur'), o.t)
    {
      cur' := cur;
      if !IsWhite(At(input, 0)) {
        return Went(0), cur';
      }
      match vcur {
        case Indeterminate =>
          return Crashed(WildCursor), cur';
        case Null =>
        case Holds(n) =>
          var f := FinishAtom(n);
          if f.Some? {
            return Crashed(f.value), cur';
          }
      }
      vcur := Null;
      cur' := Null;
      var t := SkipSpaces(input, 0);
      o := Went(t);
    }

    /** After the loop left no atom unfinished (parser_old.c:378-431). */
    method Wrap(input: string, e: nat, cur: Slot<nat>, savedDepth: nat) returns (status: Status)
      requires e <= |input| && Fits(cur) && Fits(vcur) && GInv(Registers(cur))
      modifies this
      ensures var c := old(Model()).(depth := savedDepth);
        var r := Settle(c, old(Registers(cur)), input, e);
        status == r.1 && (!status.Faulted? ==> Fits(vcur) && Model() == r.0)
    {
      if depth > 0 {
        vcur := cur;
        lastPos := None;
        hasVal := true;
        status := Suspended;
      } else if !live {
        status := Faulted(UseAfterFree);
      } else {
        var sx := PopAll(stack, Indeterminate);
        lastPos := if At(input, e) == '\0' then None else Some(input[e..]);
        hasVal := false;
        lastSexpr := sx;
        stack := [];
        live := false;
        // `cc->depth` is written only on the paths that suspend.
        depth := savedDepth;
        status := if sx.Holds? then Complete else Between;
      }
    }

    /** `cparse_sexp(str, len, this)` (parser_old.c:118-432). After a fault
        the C code has undefined behaviour, so only the fault is stated. */
    method Parse(str: string) returns (status: Status)
      requires Valid()
      modifies this, val
      ensures status == GResume(old(Model()), str, val.Length).1
      ensures !status.Faulted? ==> Valid() && Model() == GResume(old(Model()), str, val.Length).0
    {
      var input := if lastPos.Some? then lastPos.value else str;
      var savedDepth := depth;
      var cur: Slot<nat>;
      if hasVal {
        cur := vcur;
      } else {
        cur := Indeterminate;
        vcur := Null;
        hasVal := true;
      }
      assert Registers(cur) == Entry(old(Model()));
      var o;
      o, cur := LeadIn(input, cur);
      if o.Crashed? {
        return Faulted(o.fault);
      }
      o, cur := Drive(input, o.t, cur);
      match o {
        case Crashed(f) =>
          status := Faulted(f);
        case Saved(_) =>
          status := Suspended;
        case Went(e) =>
          status := Wrap(input, e, cur, savedDepth);
      }
    }

    /** `last_sexp` (parser_old.c:88-97): hand out the last expression and
        forget it. */
    method LastSexp() returns (s: Slot<Node>)
      requires Valid()
      modifies this
      ensures Valid() && s == old(lastSexpr)
      ensures Model() == old(Model()).(lastSexpr := Null)
    {
      s := Null;
      if lastSexpr != Null {
        s := lastSexpr;
        lastSexpr := Null;
      }
    }
  }

  /** `cparse_sexp(str, len, NULL)`: a call with no continuation makes one
      with `new_cont`. */
  method Begin(str: string, capacity: nat) returns (cc: GreedyContinuation, status: Status)
    ensures fresh(cc) && fresh(cc.val) && cc.val.Length == capacity
    ensures status == GResume(NewCont(), str, capacity).1
    ensures !status.Faulted? ==> cc.Valid() && cc.Model() == GResume(NewCont(), str, capacity).0
  {
    cc := new GreedyContinuation(capacity);
    status := cc.Parse(str);
  }

  /** `parse_sexp` (parser_old.c:104-110): parse with a fresh continuation
      and return its `last_sexpr`. */
  method ParseSexp(s: string, capacity: nat) returns (r: Slot<Node>, status: Status)
    ensures status == GResume(NewCont(), s, capacity).1
    ensures !status.Faulted? ==> r == GResume(NewCont(), s, capacity).0.lastSexpr
  {
    var cc;
    cc, status := Begin(s, capacity);
    r := cc.lastSexpr;
  }
}
