/** The tree both parsers build (sexpr_t) and the nesting-frame stack
    (parse_data_t frames on a faststack) they build it with.

    The C tree links children through a `list` pointer to the first child and
    `next` pointers between siblings; here a List node owns the sequence of its
    children. A frame holds the chain `fst .. lst` of the list being filled at
    one nesting level, so a frame is a sequence of nodes and the stack a
    sequence of frames, bottom first. */
module Sexpr {

  /** The `aty` tag of a value node: BASIC, DQUOTE or SQUOTE as the
      finite-state parser sets it, or never assigned, as in the nodes of the
      greedy parser. */
  datatype AtomKind = Basic | DQuote | SQuote | Unset

  datatype Node = List(children: seq<Node>) | Value(text: string, aty: AtomKind)

  datatype Option<T> = None | Some(value: T)

  /** A C pointer variable: never assigned (its content is indeterminate),
      NULL, or holding a value. */
  datatype Slot<T> = Indeterminate | Null | Holds(value: T)

  type Frame = seq<Node>
  type Stack = seq<Frame>

  predicate EndsInList(f: Frame)
  {
    |f| > 0 && f[|f| - 1].List?
  }

  /** The shape both parsers keep: no frame between expressions; while
      `depth` lists are open, a root frame holding the one outermost List plus
      one frame per open list; every frame but the top ends with the List
      whose children the frame above is collecting. */
  predicate Shaped(st: Stack, depth: nat)
  {
    && |st| == (if depth == 0 then 0 else depth + 1)
    && (depth > 0 ==> |st[0]| == 1)
    && forall i :: 0 <= i < |st| - 1 ==> EndsInList(st[i])
  }

  /** `addatom` (and the greedy parser's inline copy of it): the node goes at
      the end of the top frame's chain; with no frame open it is not attached. */
  function AddAtom(st: Stack, n: Node): (r: Stack)
    ensures |r| == |st|
    ensures |st| == 0 ==> r == st
    ensures |st| > 0 ==> r[..|st| - 1] == st[..|st| - 1] && r[|st| - 1] == st[|st| - 1] + [n]
  {
    if |st| == 0 then st else st[..|st| - 1] + [st[|st| - 1] + [n]]
  }

  /** An open parenthesis: a new List with no children goes at the end of the
      top frame's chain (or alone into a new root frame when no frame is
      open), and an empty frame is pushed to collect its children. */
  function OpenList(st: Stack): (r: Stack)
    ensures |r| == (if |st| == 0 then 2 else |st| + 1)
    ensures r[|r| - 1] == []
    ensures |st| == 0 ==> r[0] == [List([])]
    ensures |st| > 0 ==> r[..|st| - 1] == st[..|st| - 1] && r[|st| - 1] == st[|st| - 1] + [List([])]
  {
    if |st| < 1 then [[List([])], []]
    else st[..|st| - 1] + [st[|st| - 1] + [List([])], []]
  }

  /** A close parenthesis: the top frame is popped and its chain becomes the
      children of the List that ends the frame below (`data->lst->list = sx`). */
  function CloseList(st: Stack): (r: Stack)
    requires |st| >= 2 && EndsInList(st[|st| - 2])
    ensures |r| == |st| - 1
    ensures r[..|r| - 1] == st[..|r| - 1]
    ensures var below := st[|st| - 2];
      r[|r| - 1] == below[..|below| - 1] + [List(st[|st| - 1])]
  {
    var below := st[|st| - 2];
    st[..|st| - 2] + [below[..|below| - 1] + [List(st[|st| - 1])]]
  }

  /** A frame's `fst` pointer: its first node, NULL for an empty chain. */
  function First(f: Frame): Slot<Node>
  {
    if |f| == 0 then Null else Holds(f[0])
  }

  /** What the local `sx` holds after the completion code pops every frame:
      the first node of the bottom frame, or, when no frame was left, whatever
      it held before. */
  function Drained(st: Stack, sx: Slot<Node>): (r: Slot<Node>)
    ensures |st| > 0 && |st[0]| > 0 ==> r == Holds(st[0][0])
    ensures |st| > 0 && |st[0]| == 0 ==> r == Null
    ensures |st| == 0 ==> r == sx
  {
    if |st| == 0 then sx else First(st[0])
  }

  /** The completion code's loop `while (stack->top != NULL)`: pop every
      frame, keeping in `sx` the first node of the frame popped last. */
  method PopAll(st: Stack, sx0: Slot<Node>) returns (sx: Slot<Node>)
    ensures sx == Drained(st, sx0)
  {
    var rest := st;
    sx := sx0;
    while |rest| > 0
      invariant rest == st[..|rest|]
      invariant sx == if |rest| == |st| then sx0 else First(st[|rest|])
    {
      sx := First(rest[|rest| - 1]);
      rest := rest[..|rest| - 1];
    }
  }

  lemma AddAtomKeepsShape(st: Stack, depth: nat, n: Node)
    requires Shaped(st, depth)
    ensures Shaped(AddAtom(st, n), depth)
  {
    var r := AddAtom(st, n);
    if |st| > 0 {
      forall i | 0 <= i < |r| - 1 ensures EndsInList(r[i]) {
        assert r[i] == st[i];
      }
      if depth == 1 {
        assert r[0] == st[0];
      }
    }
  }

  lemma OpenListKeepsShape(st: Stack, depth: nat)
    requires Shaped(st, depth)
    ensures Shaped(OpenList(st), depth + 1)
  {
    var r := OpenList(st);
    if |st| > 0 {
      forall i | 0 <= i < |r| - 1 ensures EndsInList(r[i]) {
        if i < |st| - 1 { assert r[i] == st[i]; }
      }
      if depth > 0 { assert r[0] == st[0]; }
    }
  }

  /** Closing an inner list keeps the shape one level down; closing the
      outermost list leaves the root frame alone, holding the finished tree. */
  lemma CloseListKeepsShape(st: Stack, depth: nat)
    requires Shaped(st, depth) && depth >= 1
    ensures depth >= 2 ==> Shaped(CloseList(st), depth - 1)
    ensures depth == 1 ==> CloseList(st) == [[List(st[1])]]
  {
    var r := CloseList(st);
    if depth >= 2 {
      forall i | 0 <= i < |r| - 1 ensures EndsInList(r[i]) {
        assert r[i] == st[i];
      }
      assert r[0] == st[0];
    } else {
      assert r[0] == st[0][..0] + [List(st[1])] == [List(st[1])];
      assert r == [r[0]];
    }
  }
}
