/** Input split between calls of the greedy parser of src/backup/parser_old.c.
    A call that meets the NUL inside an atom saves the atom's text behind
    `cc->vcur`; when the next string goes on with that atom, the two calls
    read exactly what one call on the joined string reads. The lemmas of
    GreedyTheory show the splits where they do not. */
module GreedyChunks {
  import opened CString
  import opened Sexpr
  import opened GreedyParser
  import opened GreedyTheory

  /** A scan result with its end position moved `k` characters on. */
  function MovedScan(r: Scanned, k: nat): Scanned
  {
    match r
    case Overrun => Overrun
    case Text(w, e) => Text(w, e + k)
  }

  function MovedMove(r: GMove, k: nat): GMove
  {
    match r
    case Go(g, t) => Go(g, t + k)
    case Cut(g, t) => Cut(g, t + k)
    case Stop(f) => Stop(f)
  }

  function MovedHalt(h: GHalt, k: nat): GHalt
  {
    match h
    case Exit(g, t) => Exit(g, t + k)
    case CutOff(g, t) => CutOff(g, t + k)
    case Fail(f) => Fail(f)
  }

  /** A chunk the next call can go on with an atom from: it starts with a
      character that neither ends an atom nor starts an escape. */
  predicate GoesOn(b: string)
  {
    |b| > 0 && !Ends(b[0]) && b[0] != '\\'
  }

  /** `x` reads as `y` from position `from` of `y` on, `k` positions
      later; both end there together. */
  predicate Agree(x: string, y: string, k: nat, from: nat)
  {
    |x| == |y| + k && forall p :: from <= p < |y| ==> x[p + k] == y[p]
  }

  lemma AgreeConcat(a: string, b: string)
    ensures Agree(a + b, b, |a|, 0)
  {
  }

  lemma AgreeAt(x: string, y: string, k: nat, from: nat, p: nat)
    requires Agree(x, y, k, from) && from <= p
    ensures At(x, p + k) == At(y, p)
  {
  }

  lemma AgreeLater(x: string, y: string, k: nat, from: nat, p: nat)
    requires Agree(x, y, k, from) && from <= p
    ensures Agree(x, y, k, p)
  {
  }

  /** Reading `x` where it agrees with `y` is reading `y`, at positions
      moved by `k`. */
  lemma {:induction false} SkipMoved(x: string, y: string, k: nat, j: nat)
    requires j <= |y| && Agree(x, y, k, j)
    ensures SkipWhite(x, j + k) == SkipWhite(y, j) + k
    decreases |y| - j
  {
    AgreeAt(x, y, k, j, j);
    if IsWhite(At(y, j)) {
      SkipMoved(x, y, k, j + 1);
    }
  }

  lemma {:induction false} ScanMoved(x: string, y: string, k: nat, j: nat, w: string, cap: nat)
    requires j <= |y| && Agree(x, y, k, j)
    ensures Scan(x, j + k, w, cap) == MovedScan(Scan(y, j, w, cap), k)
    decreases |y| - j
  {
    var c := At(y, j);
    AgreeAt(x, y, k, j, j);
    AgreeAt(x, y, k, j, j + 1);
    if !Ends(c) && |w| < cap {
      if c == '\\' && Escapable(At(y, j + 1)) {
        if |w| + 1 < cap {
          ScanMoved(x, y, k, j + 2, w + [c, y[j + 1]], cap);
        }
      } else {
        ScanMoved(x, y, k, j + 1, w + [c], cap);
      }
    }
  }

  /** The atom being continued from a saved cursor, or none. */
  function Carried(g: GMachine): string
  {
    if g.pending.Holds? then g.pending.value else ""
  }

  /** An atom turn reads its input only through the white space it skips,
      the atom it scans and the character that ends it: two inputs that
      agree on those, at positions `k` apart, give the same turn. */
  lemma AtomTurnMoved(g: GMachine, x: string, tx: nat, y: string, ty: nat, k: nat, cap: nat)
    requires tx < |x| && ty < |y| && (Shaped(g.stack, g.depth) || !g.live)
    requires SkipWhite(x, tx) == SkipWhite(y, ty) + k
    requires Scan(x, SkipWhite(x, tx), Carried(g), cap) == MovedScan(Scan(y, SkipWhite(y, ty), Carried(g), cap), k)
    requires Scan(y, SkipWhite(y, ty), Carried(g), cap).Text? ==>
      At(x, Scan(y, SkipWhite(y, ty), Carried(g), cap).e + k) == At(y, Scan(y, SkipWhite(y, ty), Carried(g), cap).e)
    ensures AtomTurn(g, x, tx, cap) == MovedMove(AtomTurn(g, y, ty, cap), k)
  {
  }

  lemma AtomMoved(g: GMachine, x: string, y: string, k: nat, j: nat, cap: nat)
    requires j < |y| && Agree(x, y, k, j) && (Shaped(g.stack, g.depth) || !g.live)
    ensures AtomTurn(g, x, j + k, cap) == MovedMove(AtomTurn(g, y, j, cap), k)
  {
    SkipMoved(x, y, k, j);
    var s := SkipWhite(y, j);
    ScanMoved(x, y, k, s, Carried(g), cap);
    var r := Scan(y, s, Carried(g), cap);
    if r.Text? {
      AgreeAt(x, y, k, j, r.e);
    }
    AtomTurnMoved(g, x, j + k, y, j, k, cap);
  }

  lemma IterMoved(g: GMachine, x: string, y: string, k: nat, j: nat, cap: nat)
    requires j < |y| && y[j] != '\0' && Agree(x, y, k, j) && (Shaped(g.stack, g.depth) || !g.live)
    ensures Iter(g, x, j + k, cap) == MovedMove(Iter(g, y, j, cap), k)
  {
    AgreeAt(x, y, k, j, j);
    if y[j] != '(' && y[j] != ')' {
      AtomMoved(g, x, y, k, j, cap);
    }
  }

  /** One turn of the loop on `y` and the same turn on `x`, `k` characters on. */
  lemma LoopTurns(g: GMachine, x: string, y: string, k: nat, j: nat, cap: nat) returns (r: GMove)
    requires j < |y| && y[j] != '\0' && Agree(x, y, k, j) && (Shaped(g.stack, g.depth) || !g.live)
    ensures r.Go? ==> GInv(r.g) && j < r.t <= |y|
    ensures Loop(g, y, j, cap) == AfterTurn(r, RestOf(r, y, cap))
    ensures Loop(g, x, j + k, cap) == AfterTurn(MovedMove(r, k), RestOf(MovedMove(r, k), x, cap))
  {
    r := Iter(g, y, j, cap);
    AgreeAt(x, y, k, j, j);
    IterMoved(g, x, y, k, j, cap);
    LoopOnce(g, x, j + k, cap);
    LoopOnce(g, y, j, cap);
  }

  lemma AfterTurnMoved(r: GMove, k: nat, restx: GHalt, resty: GHalt)
    requires r.Go? && r.g.depth != 0 ==> restx == MovedHalt(resty, k)
    ensures AfterTurn(MovedMove(r, k), restx) == MovedHalt(AfterTurn(r, resty), k)
  {
  }

  lemma RestMoved(r: GMove, x: string, y: string, k: nat, cap: nat)
    requires r.Go? ==> GInv(r.g) && r.t <= |y|
    requires r.Go? && r.g.depth != 0 ==> r.t + k <= |x| && Loop(r.g, x, r.t + k, cap) == MovedHalt(Loop(r.g, y, r.t, cap), k)
    ensures r.Go? && r.g.depth != 0 ==> RestOf(MovedMove(r, k), x, cap) == MovedHalt(RestOf(r, y, cap), k)
  {
  }

  /** A turn and the loop after it, moved `k` characters on. */
  lemma TurnMoved(r: GMove, x: string, y: string, k: nat, cap: nat, hx: GHalt, hy: GHalt)
    requires r.Go? ==> GInv(r.g) && r.t <= |y|
    requires r.Go? && r.g.depth != 0 ==> r.t + k <= |x| && Loop(r.g, x, r.t + k, cap) == MovedHalt(Loop(r.g, y, r.t, cap), k)
    requires hx == AfterTurn(MovedMove(r, k), RestOf(MovedMove(r, k), x, cap))
    requires hy == AfterTurn(r, RestOf(r, y, cap))
    ensures hx == MovedHalt(hy, k)
  {
    RestMoved(r, x, y, k, cap);
    AfterTurnMoved(r, k, RestOf(MovedMove(r, k), x, cap), RestOf(r, y, cap));
  }

  lemma {:induction false} LoopMoved(g: GMachine, x: string, y: string, k: nat, j: nat, cap: nat)
    requires j <= |y| && Agree(x, y, k, j) && (Shaped(g.stack, g.depth) || !g.live)
    ensures Loop(g, x, j + k, cap) == MovedHalt(Loop(g, y, j, cap), k)
    decreases |y| - j
  {
    if j < |y| && y[j] != '\0' {
      var r := LoopTurns(g, x, y, k, j, cap);
      if r.Go? && r.g.depth != 0 {
        AgreeLater(x, y, k, j, r.t);
        LoopMoved(r.g, x, y, k, r.t, cap);
      }
      TurnMoved(r, x, y, k, cap, Loop(g, x, j + k, cap), Loop(g, y, j, cap));
    } else {
      AgreeAt(x, y, k, j, j);
    }
  }

  /** `x` is `a` followed by `b`. */
  predicate Joined(x: string, a: string, b: string)
  {
    && |x| == |a| + |b|
    && (forall p :: 0 <= p < |a| ==> x[p] == a[p])
    && Agree(x, b, |a|, 0)
  }

  lemma JoinedIff(x: string, a: string, b: string)
    ensures Joined(x, a, b) <==> x == a + b
  {
    if Joined(x, a, b) {
      forall p | 0 <= p < |x|
        ensures x[p] == (a + b)[p]
      {
        if p >= |a| {
          assert x[(p - |a|) + |a|] == b[p - |a|];
        }
      }
    }
  }

  lemma JoinedAt(x: string, a: string, b: string, p: nat)
    requires Joined(x, a, b)
    ensures At(x, p) == if p < |a| then At(a, p) else At(b, p - |a|)
  {
    if p >= |a| {
      AgreeAt(x, b, |a|, 0, p - |a|);
    }
  }

  /** Reading `a` up to a point before its end does not look at what follows. */
  lemma {:induction false} SkipPrefix(x: string, a: string, b: string, t: nat)
    requires Joined(x, a, b) && t <= |a|
    requires SkipWhite(a, t) < |a| || (|b| > 0 && !IsWhite(b[0]))
    ensures SkipWhite(x, t) == SkipWhite(a, t)
    decreases |a| - t
  {
    JoinedAt(x, a, b, t);
    if t < |a| && IsWhite(a[t]) {
      SkipPrefix(x, a, b, t + 1);
    }
  }

  lemma {:induction false} ScanPrefix(x: string, a: string, b: string, p: nat, w: string, cap: nat)
    requires Joined(x, a, b) && p <= |a|
    requires Scan(a, p, w, cap).Text? && Scan(a, p, w, cap).e < |a|
    ensures Scan(x, p, w, cap) == Scan(a, p, w, cap)
    decreases |a| - p
  {
    JoinedAt(x, a, b, p);
    JoinedAt(x, a, b, p + 1);
    var c := a[p];
    if !Ends(c) {
      assert p + 1 < |a|;
      if c == '\\' && Escapable(At(a, p + 1)) {
        ScanPrefix(x, a, b, p + 2, w + [c, a[p + 1]], cap);
      } else {
        ScanPrefix(x, a, b, p + 1, w + [c], cap);
      }
    }
  }

  /** An atom that runs to the end of `a` goes on into `b` with the text
      already read: the scan of the joined string is the scan of `b` that
      starts from that text. */
  lemma {:induction false} ScanJoin(x: string, a: string, b: string, p: nat, w: string, cap: nat)
    requires Joined(x, a, b) && p <= |a| && GoesOn(b)
    requires Scan(a, p, w, cap).Text? && Scan(a, p, w, cap).e == |a|
    ensures Scan(x, p, w, cap) == MovedScan(Scan(b, 0, Scan(a, p, w, cap).w, cap), |a|)
    decreases |a| - p
  {
    JoinedAt(x, a, b, p);
    JoinedAt(x, a, b, p + 1);
    if p == |a| {
      ScanMoved(x, b, |a|, 0, w, cap);
    } else {
      var c := a[p];
      if p + 1 < |a| {
        if c == '\\' && Escapable(a[p + 1]) {
          ScanJoin(x, a, b, p + 2, w + [c, a[p + 1]], cap);
        } else {
          ScanJoin(x, a, b, p + 1, w + [c], cap);
        }
      } else if c == '\\' && Escapable(b[0]) {
        if |w| + 1 < cap {
          ScanMoved(x, b, |a|, 1, w + [c, b[0]], cap);
          assert w + [c] + [b[0]] == w + [c, b[0]];
        }
      } else {
        ScanJoin(x, a, b, p + 1, w + [c], cap);
      }
    }
  }

  /** A turn that ends before the end of `a` is the same on the joined string. */
  lemma AtomPrefix(g: GMachine, x: string, a: string, b: string, t: nat, cap: nat)
    requires Joined(x, a, b) && t < |a| && (Shaped(g.stack, g.depth) || !g.live)
    requires AtomTurn(g, a, t, cap).Go?
    ensures AtomTurn(g, x, t, cap) == AtomTurn(g, a, t, cap)
  {
    var s := SkipWhite(a, t);
    var r := Scan(a, s, Carried(g), cap);
    assert r.Text? && At(a, r.e) != '\0';
    SkipPrefix(x, a, b, t);
    ScanPrefix(x, a, b, s, Carried(g), cap);
    JoinedAt(x, a, b, r.e);
    AtomTurnMoved(g, x, t, a, t, 0, cap);
  }

  lemma IterPrefix(g: GMachine, x: string, a: string, b: string, t: nat, cap: nat)
    requires Joined(x, a, b) && t < |a| && a[t] != '\0' && (Shaped(g.stack, g.depth) || !g.live)
    requires Iter(g, a, t, cap).Go?
    ensures Iter(g, x, t, cap) == Iter(g, a, t, cap)
  {
    JoinedAt(x, a, b, t);
    if a[t] != '(' && a[t] != ')' {
      AtomPrefix(g, x, a, b, t, cap);
    }
  }

  /** The turn cut by the end of `a`, on the joined string, is that turn
      followed by the first turn of the next call on `b`. */
  lemma IterJoin(g: GMachine, x: string, a: string, b: string, t: nat, cap: nat)
    requires Joined(x, a, b) && t < |a| && a[t] != '\0' && GoesOn(b) && (Shaped(g.stack, g.depth) || !g.live)
    requires Iter(g, a, t, cap).Cut? && Iter(g, a, t, cap).t == |a|
    ensures Shaped(Iter(g, a, t, cap).g.stack, Iter(g, a, t, cap).g.depth) || !Iter(g, a, t, cap).g.live
    ensures Iter(g, x, t, cap) == MovedMove(Iter(Iter(g, a, t, cap).g, b, 0, cap), |a|)
  {
    JoinedAt(x, a, b, t);
    var s := SkipWhite(a, t);
    var w := Scan(a, s, Carried(g), cap).w;
    var g' := g.(cur := Holds(w), pending := Holds(w));
    assert Iter(g, a, t, cap) == Cut(g', |a|);
    SkipPrefix(x, a, b, t);
    ScanJoin(x, a, b, s, Carried(g), cap);
    assert SkipWhite(b, 0) == 0;
    var r := Scan(b, 0, w, cap);
    if r.Text? {
      JoinedAt(x, a, b, r.e + |a|);
      if At(b, r.e) != '\0' {
        assert Finish(g, r.w, cap) == Finish(g', r.w, cap);
      }
    }
  }

  /** The loop on the joined string from a turn cut by the end of `a`. */
  lemma CutJoin(g: GMachine, x: string, a: string, b: string, t: nat, cap: nat)
    requires Joined(x, a, b) && t < |a| && a[t] != '\0' && GoesOn(b) && (Shaped(g.stack, g.depth) || !g.live)
    requires Iter(g, a, t, cap).Cut? && Iter(g, a, t, cap).t == |a|
    ensures Shaped(Iter(g, a, t, cap).g.stack, Iter(g, a, t, cap).g.depth) || !Iter(g, a, t, cap).g.live
    ensures Loop(g, x, t, cap) == MovedHalt(Loop(Iter(g, a, t, cap).g, b, 0, cap), |a|)
  {
    var g' := Iter(g, a, t, cap).g;
    IterJoin(g, x, a, b, t, cap);
    JoinedAt(x, a, b, t);
    assert At(b, 0) == b[0];
    match Iter(g', b, 0, cap)
    case Stop(_) =>
    case Cut(_, _) =>
    case Go(g2, e2) =>
      if g2.depth != 0 {
        LoopMoved(g2, x, b, |a|, e2, cap);
      }
  }

  /** A loop on `a` that is cut inside an atom at the end of `a`, on the
      joined string, is that loop followed by the loop of the next call
      on `b`. */
  lemma {:induction false} LoopJoin(g: GMachine, x: string, a: string, b: string, t: nat, cap: nat)
    requires Joined(x, a, b) && t <= |a| && '\0' !in a && GoesOn(b) && (Shaped(g.stack, g.depth) || !g.live)
    requires Loop(g, a, t, cap).CutOff?
    ensures Loop(g, x, t, cap) == MovedHalt(Loop(Loop(g, a, t, cap).g, b, 0, cap), |a|)
    decreases |a| - t
  {
    if t < |a| {
      JoinedAt(x, a, b, t);
      match Iter(g, a, t, cap)
      case Stop(_) =>
      case Cut(g', e) =>
        assert e == |a|;
        CutJoin(g, x, a, b, t, cap);
      case Go(g', e) =>
        IterPrefix(g, x, a, b, t, cap);
        LoopJoin(g', x, a, b, e, cap);
    }
  }

  /** An atom turn that goes on stops before the end of its input. */
  lemma AtomGoInside(g: GMachine, input: string, t: nat, cap: nat)
    requires t < |input| && (Shaped(g.stack, g.depth) || !g.live)
    requires AtomTurn(g, input, t, cap).Go?
    ensures At(input, AtomTurn(g, input, t, cap).t) != '\0'
  {
  }

  /** A loop that stops at the end of a string with no NUL, having read a
      character, stopped just after a parenthesis. */
  lemma {:induction false} ExitAtEnd(g: GMachine, a: string, t: nat, cap: nat)
    requires t < |a| && '\0' !in a && (Shaped(g.stack, g.depth) || !g.live)
    requires Loop(g, a, t, cap).Exit? && Loop(g, a, t, cap).t == |a|
    ensures a[|a| - 1] == '(' || a[|a| - 1] == ')'
    decreases |a| - t
  {
    if a[t] != '(' && a[t] != ')' {
      if AtomTurn(g, a, t, cap).Go? {
        AtomGoInside(g, a, t, cap);
      }
    }
    match Iter(g, a, t, cap)
    case Stop(_) =>
    case Cut(_, _) =>
    case Go(g', e) =>
      if g'.depth != 0 && e < |a| {
        ExitAtEnd(g', a, e, cap);
      }
  }

  /** A call that suspends on a string ending in an atom character was cut
      inside that atom. */
  lemma CutInAtom(c: GCont, a: string, cap: nat)
    requires Usable(c) && c.lastPos == None
    requires |a| > 0 && '\0' !in a && !Ends(a[|a| - 1])
    requires GResume(c, a, cap).1 == Suspended
    ensures Flush(Entry(c), a, cap).Start?
    ensures var p := Flush(Entry(c), a, cap); p.t < |a| && Loop(p.g, a, p.t, cap).CutOff?
  {
    var p := Flush(Entry(c), a, cap);
    if p.Start? {
      match Loop(p.g, a, p.t, cap)
      case Exit(g, e) =>
        if e == |a| && p.t < |a| {
          ExitAtEnd(p.g, a, p.t, cap);
        }
      case CutOff(_, _) =>
      case Fail(_) =>
    }
  }

  /** The run-in before the loop reads the same in `a` and in the joined
      string when `a` does not end in white space. */
  lemma FlushPrefix(g: GMachine, x: string, a: string, b: string, cap: nat)
    requires Joined(x, a, b) && |a| > 0 && !IsWhite(a[|a| - 1]) && (Shaped(g.stack, g.depth) || !g.live)
    ensures Flush(g, x, cap) == Flush(g, a, cap)
  {
    JoinedAt(x, a, b, 0);
    if IsWhite(At(a, 0)) {
      SkipPrefix(x, a, b, 0);
    }
  }

  lemma AgreeSuffix(x: string, y: string, k: nat, e: nat)
    requires Agree(x, y, k, 0) && e <= |y|
    ensures x[e + k..] == y[e..]
  {
  }

  /** A continuation that differs from `c` only in the registers a call
      sets before it returns concludes, on a string that agrees with the
      joined one, as `c` does on the joined one; the depth is the only
      register a finished call leaves as it found it. */
  lemma ConcludeMoved(c: GCont, c1: GCont, x: string, b: string, k: nat, h: GHalt)
    requires Agree(x, b, k, 0) && c.lastPos == None && c1.lastPos == None
    requires c1 == c.(depth := c1.depth, stack := c1.stack, hasVal := c1.hasVal, pending := c1.pending)
    requires h.Exit? ==> GInv(h.g) && h.g.live == c.live && h.t <= |b|
    ensures var whole := Conclude(c, x, MovedHalt(h, k));
      var split := Conclude(c1, b, h);
      && split.1 == whole.1
      && (whole.1 == Suspended ==> split.0 == whole.0)
      && (whole.1 == Complete || whole.1 == Between ==> split.0 == whole.0.(depth := c1.depth))
  {
    match h
    case Fail(_) =>
    case CutOff(_, _) =>
    case Exit(g, e) =>
      AgreeAt(x, b, k, 0, e);
      if At(b, e) != '\0' {
        AgreeSuffix(x, b, k, e);
      }
  }

  /** Splitting a string inside an atom changes nothing: when a call on `a`
      suspends in the middle of an atom and the next string `b` goes on
      with it, the second call ends as one call on the joined string `x`
      would, and leaves the same continuation, except that `cc->depth`,
      written only on the paths that suspend, keeps the value the first
      call saved. */
  lemma GreedySplit(c: GCont, a: string, b: string, x: string, cap: nat)
    requires Usable(c) && c.lastPos == None && Joined(x, a, b)
    requires |a| > 0 && '\0' !in a && !Ends(a[|a| - 1]) && GoesOn(b)
    requires GResume(c, a, cap).1 == Suspended
    ensures var c1 := GResume(c, a, cap).0;
      var whole := GResume(c, x, cap);
      var split := GResume(c1, b, cap);
      && split.1 == whole.1
      && (whole.1 == Suspended ==> split.0 == whole.0)
      && (whole.1 == Complete || whole.1 == Between ==> split.0 == whole.0.(depth := c1.depth))
  {
    CutInAtom(c, a, cap);
    var p := Flush(Entry(c), a, cap);
    FlushPrefix(Entry(c), x, a, b, cap);
    LoopJoin(p.g, x, a, b, p.t, cap);
    var g1 := Loop(p.g, a, p.t, cap).g;
    var c1 := c.(depth := g1.depth, stack := g1.stack, hasVal := true, pending := g1.pending);
    ResumeStart(c, a, cap);
    assert GResume(c, a, cap).0 == c1;
    ResumeStart(c, x, cap);
    assert Entry(c1) == g1;
    assert Flush(g1, b, cap) == Start(g1, 0);
    ResumeStart(c1, b, cap);
    ConcludeMoved(c, c1, x, b, |a|, Loop(g1, b, 0, cap));
  }

  /** The same, for `a + b` itself. */
  lemma GreedySplitConcat(c: GCont, a: string, b: string, cap: nat)
    requires Usable(c) && c.lastPos == None
    requires |a| > 0 && '\0' !in a && !Ends(a[|a| - 1]) && GoesOn(b)
    requires GResume(c, a, cap).1 == Suspended
    ensures var c1 := GResume(c, a, cap).0;
      var whole := GResume(c, a + b, cap);
      var split := GResume(c1, b, cap);
      && split.1 == whole.1
      && (whole.1 == Suspended ==> split.0 == whole.0)
      && (whole.1 == Complete || whole.1 == Between ==> split.0 == whole.0.(depth := c1.depth))
  {
    JoinedIff(a + b, a, b);
    GreedySplit(c, a, b, a + b, cap);
  }

  /** The continuation after "(ab", with the atom "ab" saved. */
  lemma FirstChunk(cap: nat)
    requires cap >= 3
    ensures GResume(NewCont(), "(ab", cap).1 == Suspended
    ensures GResume(NewCont(), "(ab", cap).0.pending == Holds("ab")
  {
    var input := "(ab";
    var g0 := Entry(NewCont());
    assert Flush(g0, input, cap) == Start(g0, 0);
    var g1 := g0.(depth := 1, stack := [[List([])], []]);
    assert Loop(g0, input, 0, cap) == Loop(g1, input, 1, cap);
    assert SkipWhite(input, 1) == 1;
    assert Scan(input, 3, "ab", cap) == Text("ab", 3);
    assert Scan(input, 1, "", cap) == Text("ab", 3);
  }

  /** "(ab" then "c)" reads as "(abc)": the atom is carried across. */
  lemma CarriedAtom(cap: nat)
    requires cap >= 4
    ensures var c1 := GResume(NewCont(), "(ab", cap).0;
      GResume(c1, "c)", cap).1 == GResume(NewCont(), "(abc)", cap).1
  {
    FirstChunk(cap);
    assert "(ab" + "c)" == "(abc)";
    assert GoesOn("c)");
    GreedySplitConcat(NewCont(), "(ab", "c)", cap);
  }

  /** A '(' does not finish the atom a chunk was cut in: it stays pending
      and the next atom read goes on with it. "(ab" then "(c))" gives
      ((abc)), where "(ab(c))" in one piece gives (ab (c)). */
  lemma OpenKeepsCutAtom(cap: nat)
    requires cap >= 4
    ensures var ab := Value("ab", Unset); var c := Value("c", Unset);
      GResume(NewCont(), "(ab(c))", cap).0.lastSexpr == Holds(List([ab, List([c])]))
    ensures GResume(GResume(NewCont(), "(ab", cap).0, "(c))", cap).0.lastSexpr
      == Holds(List([List([Value("abc", Unset)])]))
  {
    WholeAbC(cap);
    ChunkedAbC(cap);
  }

  lemma WholeAbC(cap: nat)
    requires cap >= 3
    ensures var ab := Value("ab", Unset); var c := Value("c", Unset);
      GResume(NewCont(), "(ab(c))", cap).0.lastSexpr == Holds(List([ab, List([c])]))
  {
    var input := "(ab(c))";
    var ab := Value("ab", Unset);
    var c := Value("c", Unset);
    var g0 := GMachine(0, [], true, Indeterminate, Null);
    assert Entry(NewCont()) == g0;
    assert Flush(g0, input, cap) == Start(g0, 0);
    var g3 := GMachine(2, [[List([])], [ab, List([])], []], true, Holds("ab"), Null);
    var g6 := GMachine(0, [[List([ab, List([c])])]], true, Holds("c"), Null);
    WholeOpen(cap);
    WholeAtomAb(cap);
    WholeOpenInner(cap);
    WholeAtomC(cap);
    WholeCloseInner(cap);
    WholeCloseRoot(cap);
    assert Loop(g0, input, 0, cap) == Exit(g6, 7);
    CloseRoot([ab, List([c])]);
  }

  /** "(" opens the outer list in a new root frame. */
  lemma WholeOpen(cap: nat)
    ensures Loop(GMachine(0, [], true, Indeterminate, Null), "(ab(c))", 0, cap)
      == Loop(GMachine(1, [[List([])], []], true, Indeterminate, Null), "(ab(c))", 1, cap)
  {
    var none: seq<Node> := [];
    assert none + [List([])] == [List([])];
    assert OpenList([]) == [[List([])], []];
    LoopOnce(GMachine(0, [], true, Indeterminate, Null), "(ab(c))", 0, cap);
  }

  /** "ab" is read and attached to the outer list. */
  lemma WholeAtomAb(cap: nat)
    requires cap >= 3
    ensures Loop(GMachine(1, [[List([])], []], true, Indeterminate, Null), "(ab(c))", 1, cap)
      == Loop(GMachine(1, [[List([])], [Value("ab", Unset)]], true, Holds("ab"), Null), "(ab(c))", 3, cap)
  {
    var input := "(ab(c))";
    var ab := Value("ab", Unset);
    var g1 := GMachine(1, [[List([])], []], true, Indeterminate, Null);
    var none: seq<Node> := [];
    assert SkipWhite(input, 1) == 1;
    assert Scan(input, 3, "ab", cap) == Text("ab", 3);
    assert Scan(input, 1, "", cap) == Text("ab", 3);
    assert none + [ab] == [ab];
    assert Finish(g1, "ab", cap) == Attached(g1.(cur := Holds("ab"), pending := Null, stack := [[List([])], [ab]]));
    LoopOnce(g1, input, 1, cap);
  }

  /** "(" opens the inner list after "ab". */
  lemma WholeOpenInner(cap: nat)
    ensures Loop(GMachine(1, [[List([])], [Value("ab", Unset)]], true, Holds("ab"), Null), "(ab(c))", 3, cap)
      == Loop(GMachine(2, [[List([])], [Value("ab", Unset), List([])], []], true, Holds("ab"), Null), "(ab(c))", 4, cap)
  {
    var ab := Value("ab", Unset);
    assert [ab] + [List([])] == [ab, List([])];
    assert OpenList([[List([])], [ab]]) == [[List([])], [ab, List([])], []];
    LoopOnce(GMachine(1, [[List([])], [Value("ab", Unset)]], true, Holds("ab"), Null), "(ab(c))", 3, cap);
  }

  /** "c" is read and attached to the inner list. */
  lemma WholeAtomC(cap: nat)
    requires cap >= 3
    ensures Loop(GMachine(2, [[List([])], [Value("ab", Unset), List([])], []], true, Holds("ab"), Null), "(ab(c))", 4, cap)
      == Loop(GMachine(2, [[List([])], [Value("ab", Unset), List([])], [Value("c", Unset)]], true, Holds("c"), Null), "(ab(c))", 5, cap)
  {
    var input := "(ab(c))";
    var ab := Value("ab", Unset);
    var c := Value("c", Unset);
    var g3 := GMachine(2, [[List([])], [Value("ab", Unset), List([])], []], true, Holds("ab"), Null);
    var none: seq<Node> := [];
    assert SkipWhite(input, 4) == 4;
    assert Scan(input, 5, "c", cap) == Text("c", 5);
    assert Scan(input, 4, "", cap) == Text("c", 5);
    assert none + [c] == [c];
    assert Finish(g3, "c", cap) == Attached(g3.(cur := Holds("c"), pending := Null, stack := [[List([])], [ab, List([])], [c]]));
    LoopOnce(g3, input, 4, cap);
  }

  /** ")" closes the inner list. */
  lemma WholeCloseInner(cap: nat)
    ensures Loop(GMachine(2, [[List([])], [Value("ab", Unset), List([])], [Value("c", Unset)]], true, Holds("c"), Null), "(ab(c))", 5, cap)
      == Loop(GMachine(1, [[List([])], [Value("ab", Unset), List([Value("c", Unset)])]], true, Holds("c"), Null), "(ab(c))", 6, cap)
  {
    var ab := Value("ab", Unset);
    var c := Value("c", Unset);
    assert [ab, List([])][..1] + [List([c])] == [ab, List([c])];
    assert CloseList([[List([])], [ab, List([])], [c]]) == [[List([])], [ab, List([c])]];
    LoopOnce(GMachine(2, [[List([])], [Value("ab", Unset), List([])], [Value("c", Unset)]], true, Holds("c"), Null), "(ab(c))", 5, cap);
  }

  /** ")" closes the outer list, and the loop stops. */
  lemma WholeCloseRoot(cap: nat)
    ensures Loop(GMachine(1, [[List([])], [Value("ab", Unset), List([Value("c", Unset)])]], true, Holds("c"), Null), "(ab(c))", 6, cap)
      == Exit(GMachine(0, [[List([Value("ab", Unset), List([Value("c", Unset)])])]], true, Holds("c"), Null), 7)
  {
    CloseRoot([Value("ab", Unset), List([Value("c", Unset)])]);
    LoopOnce(GMachine(1, [[List([])], [Value("ab", Unset), List([Value("c", Unset)])]], true, Holds("c"), Null), "(ab(c))", 6, cap);
  }

  lemma ChunkedAbC(cap: nat)
    requires cap >= 4
    ensures GResume(GResume(NewCont(), "(ab", cap).0, "(c))", cap).0.lastSexpr
      == Holds(List([List([Value("abc", Unset)])]))
  {
    FirstChunk(cap);
    var input := "(c))";
    var abc := Value("abc", Unset);
    var c1 := GResume(NewCont(), "(ab", cap).0;
    assert c1 == GCont(1, [[List([])], []], true, true, Holds("ab"), None, Null);
    var g0 := GMachine(1, [[List([])], []], true, Holds("ab"), Holds("ab"));
    assert Entry(c1) == g0;
    assert Flush(g0, input, cap) == Start(g0, 0);
    var g4 := GMachine(0, [[List([List([abc])])]], true, Holds("abc"), Null);
    ChunkedAbCLoop(cap);
    assert Loop(g0, input, 0, cap) == Exit(g4, 4);
    CloseRoot([List([abc])]);
  }

  /** "(c))" after the saved "ab": the atom goes on as "abc" inside a new
      list, and both lists close. */
  lemma ChunkedAbCLoop(cap: nat)
    requires cap >= 4
    ensures Loop(GMachine(1, [[List([])], []], true, Holds("ab"), Holds("ab")), "(c))", 0, cap)
      == Exit(GMachine(0, [[List([List([Value("abc", Unset)])])]], true, Holds("abc"), Null), 4)
  {
    ChunkedOpen(cap);
    ChunkedAtom(cap);
    ChunkedClose(cap);
    ChunkedCloseRoot(cap);
  }

  lemma ChunkedOpen(cap: nat)
    ensures Loop(GMachine(1, [[List([])], []], true, Holds("ab"), Holds("ab")), "(c))", 0, cap)
      == Loop(GMachine(2, [[List([])], [List([])], []], true, Holds("ab"), Holds("ab")), "(c))", 1, cap)
  {
    var g0 := GMachine(1, [[List([])], []], true, Holds("ab"), Holds("ab"));
    var none: seq<Node> := [];
    assert none + [List([])] == [List([])];
    assert OpenList(g0.stack) == [[List([])], [List([])], []];
    LoopOnce(g0, "(c))", 0, cap);
  }

  lemma ChunkedAtom(cap: nat)
    requires cap >= 4
    ensures Loop(GMachine(2, [[List([])], [List([])], []], true, Holds("ab"), Holds("ab")), "(c))", 1, cap)
      == Loop(GMachine(2, [[List([])], [List([])], [Value("abc", Unset)]], true, Holds("abc"), Null), "(c))", 2, cap)
  {
    var input := "(c))";
    var abc := Value("abc", Unset);
    var g1 := GMachine(2, [[List([])], [List([])], []], true, Holds("ab"), Holds("ab"));
    var g2 := g1.(cur := Holds("abc"), pending := Null, stack := [[List([])], [List([])], [abc]]);
    var none: seq<Node> := [];
    assert SkipWhite(input, 1) == 1;
    assert Scan(input, 2, "abc", cap) == Text("abc", 2);
    assert Scan(input, 1, "ab", cap) == Text("abc", 2);
    assert none + [abc] == [abc];
    assert Finish(g1, "abc", cap) == Attached(g2);
    LoopOnce(g1, input, 1, cap);
  }

  lemma ChunkedClose(cap: nat)
    ensures Loop(GMachine(2, [[List([])], [List([])], [Value("abc", Unset)]], true, Holds("abc"), Null), "(c))", 2, cap)
      == Loop(GMachine(1, [[List([])], [List([Value("abc", Unset)])]], true, Holds("abc"), Null), "(c))", 3, cap)
  {
    var abc := Value("abc", Unset);
    var g2 := GMachine(2, [[List([])], [List([])], [abc]], true, Holds("abc"), Null);
    assert [List([])][..0] + [List([abc])] == [List([abc])];
    assert CloseList(g2.stack) == [[List([])], [List([abc])]];
    LoopOnce(g2, "(c))", 2, cap);
  }

  lemma ChunkedCloseRoot(cap: nat)
    ensures Loop(GMachine(1, [[List([])], [List([Value("abc", Unset)])]], true, Holds("abc"), Null), "(c))", 3, cap)
      == Exit(GMachine(0, [[List([List([Value("abc", Unset)])])]], true, Holds("abc"), Null), 4)
  {
    var g3 := GMachine(1, [[List([])], [List([Value("abc", Unset)])]], true, Holds("abc"), Null);
    CloseRoot([List([Value("abc", Unset)])]);
    LoopOnce(g3, "(c))", 3, cap);
  }
}
