/** The helpers of the slisp interpreter in examples/slisp/slisp_util.c
    that look at one sexp_t cell: `tokenize` names the operator an atom
    spells, `derive_type` classifies an atom as a number or a string, and
    `deep_copy_sexp` copies a tree.

    Here a cell is the whole C record, field by field, with the pointers
    and counters the copy may leave unset; `View` and `Chain` read back the
    tree such a record stands for. */
module SlispUtil {
  import opened CString
  import opened Sexpr

  /** The `ty` field: SEXP_VALUE or SEXP_LIST. */
  datatype EltType = ValueElt | ListElt

  /** The `aty` field: the four atom types of the library, or any other
      value the field may hold (a cell whose `aty` was never assigned). */
  datatype AtomType = SexpBasic | SexpSQuote | SexpDQuote | SexpBinary | Stray

  /** A sexp_t record. Pointers are NULL, unset or set; counters are unset
      or set (`Null` is not used for them). A buffer is the string of the
      bytes known to be in it; as everywhere in this model, reading past
      them reads a NUL. */
  datatype Cell = Cell(
    ty: EltType, aty: AtomType,
    val: Slot<string>, valUsed: Slot<nat>, valAllocated: Slot<nat>,
    bindata: Slot<string>, binlength: Slot<nat>,
    list: Slot<Cell>, next: Slot<Cell>)

  predicate IsText(aty: AtomType)
  {
    aty == SexpBasic || aty == SexpSQuote || aty == SexpDQuote
  }

  /** What a program reading the tree sees in one element. */
  datatype Item =
    | Atom(aty: AtomType, bytes: string, size: nat)  // the first `val_used` bytes of a buffer of `val_allocated`
    | Blob(data: string)                             // the `binlength` bytes of a binary atom
    | Odd                                            // an atom of no known type
    | Sub(items: seq<Item>)                          // a list and its elements

  /** The element a cell stands for, without its siblings; None when that
      needs a field that is unset or a buffer shorter than its counters. */
  function View(c: Cell): Option<Item>
    decreases c, 1
  {
    if c.ty == ValueElt then
      if IsText(c.aty) then
        if c.val.Holds? && c.valUsed.Holds? && c.valAllocated.Holds?
           && c.valUsed.value <= |c.val.value| && c.valUsed.value <= c.valAllocated.value
        then Some(Atom(c.aty, c.val.value[..c.valUsed.value], c.valAllocated.value))
        else None
      else if c.aty == SexpBinary then
        if c.bindata.Holds? && c.binlength.Holds? && c.binlength.value <= |c.bindata.value|
        then Some(Blob(c.bindata.value[..c.binlength.value]))
        else None
      else Some(Odd)
    else
      match Chain(c.list)
      case Some(xs) => Some(Sub(xs))
      case None => None
  }

  /** The elements a `next` chain stands for, from the given pointer on. */
  function Chain(s: Slot<Cell>): Option<seq<Item>>
    decreases s, 0
  {
    match s
    case Null => Some([])
    case Indeterminate => None
    case Holds(c) =>
      match View(c)
      case None => None
      case Some(x) =>
        match Chain(c.next)
        case Some(xs) => Some([x] + xs)
        case None => None
  }

  /** What `deep_copy_sexp` reads: a pointer that is NULL or set, and in a
      set cell the counters and buffers its atom type uses, or, for a list,
      its `list` and `next` chains. The `next` of an atom is never read. */
  predicate Copyable(s: Slot<Cell>)
  {
    match s
    case Null => true
    case Indeterminate => false
    case Holds(c) =>
      if c.ty == ValueElt then c.aty == Stray || View(c).Some?
      else Copyable(c.list) && Copyable(c.next)
  }

  /** The fields `deep_copy_sexp` gives the copy of an atom (lines 61-91);
      its `list` and `next` are the ones passed in. */
  function CopyAtom(c: Cell, list: Slot<Cell>, next: Slot<Cell>): (r: Cell)
    requires c.ty == ValueElt && (c.aty == Stray || View(c).Some?)
    ensures r.ty == c.ty && r.aty == c.aty && r.list == list && r.next == next
    ensures View(r) == View(c)
  {
    if IsText(c.aty) then
      var u := c.valUsed.value;
      assert c.val.value[..u][..u] == c.val.value[..u];
      Cell(c.ty, c.aty, Holds(c.val.value[..u]), Holds(u), c.valAllocated, Null, Holds(0), list, next)
    else if c.aty == SexpBinary then
      var n := c.binlength.value;
      assert c.bindata.value[..n][..n] == c.bindata.value[..n];
      Cell(c.ty, c.aty, Null, Holds(0), Holds(0), Holds(c.bindata.value[..n]), Holds(n), list, next)
    else
      // the `default` case only reports the unknown type
      Cell(c.ty, c.aty, Indeterminate, Indeterminate, Indeterminate, Indeterminate, Indeterminate, list, next)
  }

  /** `deep_copy_sexp` as written: an atom is copied alone, with its `list`
      and `next` left unset, while a list is copied with its elements and
      with every sibling that follows it. */
  function DeepCopy(s: Slot<Cell>): (r: Slot<Cell>)
    requires Copyable(s)
    ensures s == Null <==> r == Null
    ensures r.Holds? ==> r.value.ty == s.value.ty && r.value.aty == s.value.aty
    ensures r.Holds? && r.value.ty == ValueElt ==>
      View(r.value) == View(s.value) && r.value.list == Indeterminate && r.value.next == Indeterminate
  {
    match s
    case Null => Null
    case Holds(c) =>
      if c.ty == ValueElt then Holds(CopyAtom(c, Indeterminate, Indeterminate))
      else Holds(Cell(ListElt, c.aty, Null, Holds(0), Holds(0), Null, Holds(0), DeepCopy(c.list), DeepCopy(c.next)))
  }

  /** Some atom is reached from the pointer through `list` and `next`. */
  predicate HasAtom(s: Slot<Cell>)
  {
    match s
    case Null => false
    case Indeterminate => false
    case Holds(c) => c.ty == ValueElt || HasAtom(c.list) || HasAtom(c.next)
  }

  /** The copy stands for the same elements as the original exactly when
      no atom is copied: the copy of an atom ends in an unset `next`, so a
      copy holding one stands for no tree at all. */
  lemma {:induction false} CopyIsTreeIff(s: Slot<Cell>)
    requires Copyable(s)
    ensures HasAtom(s) ==> Chain(DeepCopy(s)) == None
    ensures !HasAtom(s) ==> Chain(DeepCopy(s)) == Chain(s) && Chain(s).Some?
  {
    match s
    case Null =>
    case Holds(c) =>
      var r := DeepCopy(s).value;
      if c.ty == ValueElt {
        assert Chain(r.next) == None;
      } else {
        CopyIsTreeIff(c.list);
        CopyIsTreeIff(c.next);
      }
  }

  /** The list `(a b)`: an atom followed by a sibling. */
  function AB(): Cell
  {
    var b := Cell(ValueElt, SexpBasic, Holds("b\0"), Holds(2), Holds(2), Null, Holds(0), Null, Null);
    var a := Cell(ValueElt, SexpBasic, Holds("a\0"), Holds(2), Holds(2), Null, Holds(0), Null, Holds(b));
    Cell(ListElt, SexpBasic, Null, Holds(0), Holds(0), Null, Holds(0), Holds(a), Null)
  }

  /** Copying `(a b)` gives a list whose first element has its `next` unset:
      the copy no longer stands for any tree, and `b` is not in it. */
  lemma CopyLosesSibling()
    ensures Copyable(Holds(AB()))
    ensures Chain(Holds(AB())) == Some([Sub([Atom(SexpBasic, "a\0", 2), Atom(SexpBasic, "b\0", 2)])])
    ensures var r := DeepCopy(Holds(AB())).value;
      r.list.Holds? && r.list.value.next == Indeterminate && Chain(Holds(r)) == None
  {
    var c := AB();
    var a := c.list.value;
    var b := a.next.value;
    assert "a\0"[..2] == "a\0" && "b\0"[..2] == "b\0";
    assert View(b) == Some(Atom(SexpBasic, "b\0", 2));
    assert Chain(b.next) == Some([]);
    assert [Atom(SexpBasic, "b\0", 2)] + [] == [Atom(SexpBasic, "b\0", 2)];
    assert Chain(a.next) == Some([Atom(SexpBasic, "b\0", 2)]);
    assert View(a) == Some(Atom(SexpBasic, "a\0", 2));
    assert [Atom(SexpBasic, "a\0", 2)] + [Atom(SexpBasic, "b\0", 2)] == [Atom(SexpBasic, "a\0", 2), Atom(SexpBasic, "b\0", 2)];
    assert Chain(c.list) == Some([Atom(SexpBasic, "a\0", 2), Atom(SexpBasic, "b\0", 2)]);
    assert Chain(c.next) == Some([]);
    assert [Sub([Atom(SexpBasic, "a\0", 2), Atom(SexpBasic, "b\0", 2)])] + [] == [Sub([Atom(SexpBasic, "a\0", 2), Atom(SexpBasic, "b\0", 2)])];
    var r := DeepCopy(Holds(c)).value;
    assert Chain(r.list) == None;
  }

  /** Everything reachable through `list` and `next` is set and readable. */
  predicate Whole(s: Slot<Cell>)
  {
    match s
    case Null => true
    case Indeterminate => false
    case Holds(c) =>
      (if c.ty == ValueElt then c.aty == Stray || View(c).Some? else Whole(c.list)) && Whole(c.next)
  }

  /** `deep_copy_sexp` with atoms treated as lists are: an atom's `list` is
      NULL and its following siblings are copied, so that the copy of a
      chain is always the copy of the whole chain, as the interpreter's
      `cdr` (examples/slisp/slisp_eval.c:385) expects. */
  function DeepCopyChain(s: Slot<Cell>): (r: Slot<Cell>)
    requires Whole(s)
    ensures s == Null <==> r == Null
    ensures r.Holds? ==> r.value.ty == s.value.ty && r.value.aty == s.value.aty
  {
    match s
    case Null => Null
    case Holds(c) =>
      if c.ty == ValueElt then Holds(CopyAtom(c, Null, DeepCopyChain(c.next)))
      else Holds(Cell(ListElt, c.aty, Null, Holds(0), Holds(0), Null, Holds(0), DeepCopyChain(c.list), DeepCopyChain(c.next)))
  }

  /** The corrected copy stands for exactly the elements the original
      does. */
  lemma {:induction false} ChainCopyKeeps(s: Slot<Cell>)
    requires Whole(s)
    ensures Chain(DeepCopyChain(s)) == Chain(s) && Chain(s).Some?
  {
    match s
    case Null =>
    case Holds(c) =>
      var r := DeepCopyChain(s).value;
      ChainCopyKeeps(c.next);
      if c.ty == ValueElt {
        assert View(r) == View(c);
      } else {
        ChainCopyKeeps(c.list);
        assert View(r) == View(c);
      }
  }

  /** The corrected copy of `(a b)` stands for `(a b)`. */
  lemma CopyChainKeepsSibling()
    ensures Whole(Holds(AB())) && Chain(DeepCopyChain(Holds(AB()))) == Chain(Holds(AB()))
  {
    ChainCopyKeeps(Holds(AB()));
  }

  // ---- tokenize -----------------------------------------------------------

  /** The operator tokens of slisp_op_t, in the order the header lists them. */
  datatype Op =
    | Eq | Gt | Lt | Ne | Geq | Leq
    | Not
    | Plus | Minus | Mult | Divide | Exp
    | Sqrt
    | Cons | Cdr | Car
    | Fold | MapOp
    | Sort
    | IfOp
    | Lambda
    | Unknown

  /** How each operator is written. */
  function Spelling(op: Op): string
  {
    match op
    case Eq => "=" case Gt => ">" case Lt => "<" case Ne => "<>"
    case Geq => ">=" case Leq => "<="
    case Not => "not"
    case Plus => "+" case Minus => "-" case Mult => "*" case Divide => "/" case Exp => "^"
    case Sqrt => "sqrt"
    case Cons => "cons" case Cdr => "cdr" case Car => "car"
    case Fold => "fold" case MapOp => "map"
    case Sort => "sort"
    case IfOp => "if"
    case Lambda => "lambda"
    case Unknown => ""
  }

  /** The chain of `strcmp` tests in `tokenize`: the operator spelled `s`,
      or Unknown when `s` spells none. */
  function OpNamed(s: string): (r: Op)
    ensures r != Unknown ==> Spelling(r) == s
    ensures r == Unknown ==> forall op :: op != Unknown ==> Spelling(op) != s
  {
    if s == "+" then Plus
    else if s == "-" then Minus
    else if s == "*" then Mult
    else if s == "/" then Divide
    else if s == "^" then Exp
    else if s == "=" then Eq
    else if s == ">" then Gt
    else if s == "<" then Lt
    else if s == "<=" then Leq
    else if s == ">=" then Geq
    else if s == "<>" then Ne
    else if s == "if" then IfOp
    else if s == "not" then Not
    else if s == "cdr" then Cdr
    else if s == "car" then Car
    else if s == "map" then MapOp
    else if s == "cons" then Cons
    else if s == "fold" then Fold
    else if s == "sort" then Sort
    else if s == "sqrt" then Sqrt
    else if s == "lambda" then Lambda
    else Unknown
  }

  /** Every operator is recognised from its spelling, so no two operators
      share one. */
  lemma SpellingsDistinct(op: Op, op': Op)
    requires op != Unknown
    ensures OpNamed(Spelling(op)) == op
    ensures op' != op ==> Spelling(op') != Spelling(op)
  {
    assert OpNamed(Spelling(op)) == op;
  }

  /** `tokenize`: Unknown for a list; for an atom, the operator its C string
      spells, if any. The string is read through `val`, so an atom needs a
      buffer. */
  function Tokenize(c: Cell): (r: Op)
    requires c.ty == ValueElt ==> c.val.Holds?
    ensures r != Unknown <==> c.ty == ValueElt && exists op :: op != Unknown && Spelling(op) == CStr(c.val.value)
    ensures r != Unknown ==> Spelling(r) == CStr(c.val.value)
  {
    if c.ty != ValueElt then Unknown else OpNamed(CStr(c.val.value))
  }

  // ---- derive_type --------------------------------------------------------

  /** The element types of slisp_val_t. */
  datatype ValType = IntType | FloatType | StringType | SexpType | InvalidType

  predicate IsDigit(c: char)
  {
    '0' <= c <= '9'
  }

  /** How many '.' characters `s` holds. */
  function Dots(s: string): (n: nat)
    ensures n <= |s|
  {
    if |s| == 0 then 0 else Dots(s[..|s| - 1]) + (if s[|s| - 1] == '.' then 1 else 0)
  }

  /** Every character is a digit or a '.'. */
  predicate Numeric(s: string)
  {
    forall i :: 0 <= i < |s| ==> IsDigit(s[i]) || s[i] == '.'
  }

  /** The type of an atom's text once a leading '-' is dropped: digits only
      make an integer, digits and one '.' a float, anything else a string. */
  function NumberType(s: string): (r: ValType)
    ensures r == IntType || r == FloatType || r == StringType
  {
    if !Numeric(s) || Dots(s) >= 2 then StringType
    else if Dots(s) == 1 then FloatType
    else IntType
  }

  lemma {:induction false} DotsAppend(s: string, t: string)
    ensures Dots(s + t) == Dots(s) + Dots(t)
    decreases |t|
  {
    if |t| == 0 {
      assert s + t == s;
    } else {
      DotsAppend(s, t[..|t| - 1]);
      assert (s + t)[..|s + t| - 1] == s + t[..|t| - 1];
    }
  }

  /** The text `derive_type` classifies: the C string of the buffer, after
      one leading '-' if there is one. */
  function Unsigned(s: string): string
  {
    var w := CStr(s);
    if |w| > 0 && w[0] == '-' then w[1..] else w
  }

  /** The type `derive_type` gives a cell. */
  function TypeOf(c: Cell): (r: ValType)
    requires c.ty == ValueElt ==> !c.val.Indeterminate?
    ensures r == SexpType <==> c.ty == ListElt
    ensures r == InvalidType <==> c.ty == ValueElt && c.val.Null?
    ensures c.ty == ValueElt && c.val.Holds? ==> r in {IntType, FloatType, StringType}
  {
    if c.ty == ListElt then SexpType
    else if c.val.Null? then InvalidType
    else NumberType(Unsigned(c.val.value))
  }

  /** One more character, as the loop of `derive_type` takes it. */
  lemma NumberTypeStep(s: string, c: char)
    requires NumberType(s) != StringType
    ensures NumberType(s + [c]) ==
      if c == '.' then (if NumberType(s) == IntType then FloatType else StringType)
      else if !IsDigit(c) then StringType
      else NumberType(s)
  {
    var s' := s + [c];
    assert s'[..|s'| - 1] == s;
    if !IsDigit(c) && c != '.' {
      assert !IsDigit(s'[|s|]) && s'[|s|] != '.';
    }
  }

  /** The step `NumberTypeStep` inside a text, from index `p0` to `p`. */
  lemma NumberTypeAt(w: string, p0: nat, p: nat)
    requires p0 <= p < |w| && NumberType(w[p0..p]) != StringType
    ensures NumberType(w[p0..p + 1]) ==
      if w[p] == '.' then (if NumberType(w[p0..p]) == IntType then FloatType else StringType)
      else if !IsDigit(w[p]) then StringType
      else NumberType(w[p0..p])
  {
    var a, b := w[p0..p], w[p0..p + 1];
    assert b == a + [w[p]];
    NumberTypeStep(a, w[p]);
  }

  /** Once the text is a string, more text keeps it one: the loop of
      `derive_type` may stop at the first sign of a string. */
  lemma StringSticks(s: string, t: string)
    requires NumberType(s) == StringType
    ensures NumberType(s + t) == StringType
  {
    DotsAppend(s, t);
    if !Numeric(s) {
      var i :| 0 <= i < |s| && !IsDigit(s[i]) && s[i] != '.';
      assert (s + t)[i] == s[i];
    }
  }

  /** A buffer without a NUL holds a C string of all its characters. */
  lemma Unterminated(s: string)
    requires '\0' !in s
    ensures CStr(s) == s
  {
    CStrOfTerminated(s, |s|);
  }

  /** Up to its NUL, a buffer reads as the C string it holds. */
  lemma ReadsCStr(v: string, p: nat)
    requires p <= |CStr(v)|
    ensures At(v, p) == At(CStr(v), p)
  {
    var w := CStr(v);
    if p < |w| {
      assert v[..|w|][p] == v[p];
    }
  }

  /** `derive_type`: the walk of the cursor `p` over the atom's text. */
  method DeriveType(c: Cell) returns (ty: ValType)
    requires c.ty == ValueElt ==> !c.val.Indeterminate?
    ensures ty == TypeOf(c)
  {
    ty := IntType;
    if c.ty == ListElt {
      return SexpType;
    }
    if c.val.Null? {
      return InvalidType;
    }
    var v := c.val.value;
    var p := 0;
    if At(v, 0) == '-' {
      p := 1;
    }
    var p0 := p;
    var w := CStr(v);
    ReadsCStr(v, 0);
    while At(v, p) != '\0' && ty != StringType
      invariant p0 <= p <= |w|
      invariant ty == NumberType(w[p0..p])
      decreases |w| - p
    {
      ReadsCStr(v, p);
      NumberTypeAt(w, p0, p);
      if At(v, p) == '.' {
        if ty == IntType {
          ty := FloatType;
        } else {
          ty := StringType;
        }
      } else if At(v, p) > '9' || At(v, p) < '0' {
        ty := StringType;
      }
      p := p + 1;
    }
    ReadsCStr(v, p);
    if ty == StringType {
      StringSticks(w[p0..p], w[p..]);
      assert w[p0..p] + w[p..] == w[p0..];
    } else {
      assert p == |w|;
      assert w[p0..p] == w[p0..];
    }
    assert Unsigned(v) == w[p0..] by {
      if p0 == 0 { assert w[0..] == w; }
    }
    assert Unsigned(v) == w[p0..];
  }

  /** The cases the comment in `derive_type` leaves open: no digits at all
      make an integer, a lone '.' a float, and a '-' after the first
      character a string. */
  lemma DeriveTypeEdges()
    ensures NumberType(Unsigned("")) == IntType
    ensures NumberType(Unsigned("-")) == IntType
    ensures NumberType(Unsigned(".")) == FloatType
    ensures NumberType(Unsigned("--1")) == StringType
    ensures NumberType(Unsigned("-1.5")) == FloatType
  {
    Unterminated("-");
    Unterminated(".");
    assert Dots(".") == 1 by { assert "."[..0] == ""; }
    Unterminated("--1");
    assert Unsigned("--1") == "-1";
    assert !IsDigit("-1"[0]);
    Unterminated("-1.5");
    assert Unsigned("-1.5") == "1.5";
    assert Dots("1.5") == 1 by { assert "1.5"[..2] == "1."; assert "1."[..1] == "1"; assert "1"[..0] == ""; }
  }
}
