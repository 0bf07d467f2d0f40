/** The variable scopes of the slisp interpreter (examples/slisp/slisp_env.c):
    a chain of scope records, each pointing to the scope it is nested in,
    with `numvars` slots of parallel name and binding arrays and a count
    `numfree` of the slots not bound yet.

    `add_varname` and `bind_variable` compute the slot they write as
    `numvars - (numvars - numfree)`, which is `numfree`: on a fresh scope,
    where `numfree == numvars`, that is one past the end of the arrays.
    `add_varname` then stores NULL in `varnames[strlen(name)]`. The pure
    functions below state what each writes, as written and with the slot
    `numfree - 1` that fills the arrays from the end; the class `Scope`
    performs the writes on arrays and is proved to agree with them. A write
    outside the arrays is undefined behaviour in C; the model reports it and
    does not perform it. */
module SlispEnv {
  import opened CString
  import opened Sexpr

  /** What `lookup_binding` comes back with: the binding found, NULL when
      no scope names the variable, or the undefined behaviour of handing
      `strcmp` a slot that was never named. */
  datatype Found = Binding(b: Slot<Node>) | NotFound | NullName

  /** The search of one scope's slots, first slot first. */
  function Scan(names: seq<Slot<string>>, binds: seq<Slot<Node>>, key: string): Found
    requires |names| <= |binds|
  {
    if |names| == 0 then NotFound
    else if !names[0].Holds? then NullName
    else if names[0].value == key then Binding(binds[0])
    else Scan(names[1..], binds[1..], key)
  }

  /** The variables a scope defines, each with the binding of the first
      slot naming it. */
  function Local(names: seq<Slot<string>>, binds: seq<Slot<Node>>): map<string, Slot<Node>>
    requires |names| <= |binds|
  {
    if |names| == 0 then map[]
    else if names[0].Holds? then Local(names[1..], binds[1..])[names[0].value := binds[0]]
    else Local(names[1..], binds[1..])
  }

  /** Once every slot is named, the search finds what `Local` says. */
  lemma {:induction false} ScanIsLocal(names: seq<Slot<string>>, binds: seq<Slot<Node>>, key: string)
    requires |names| <= |binds| && forall i :: 0 <= i < |names| ==> names[i].Holds?
    ensures Scan(names, binds, key) == if key in Local(names, binds) then Binding(Local(names, binds)[key]) else NotFound
    decreases |names|
  {
    if |names| > 0 {
      ScanIsLocal(names[1..], binds[1..], key);
    }
  }

  /** The outcome of `add_varname`: the names after it, or the names as far
      as the model goes when a write falls outside the array. */
  datatype Named = Named(names: seq<Slot<string>>) | NameOverrun(names: seq<Slot<string>>)

  /** `add_varname` as written: the name goes into slot `numfree`, then slot
      `strlen(name)` is set to NULL. */
  function AddAsWritten(names: seq<Slot<string>>, free: nat, name: string): (r: Named)
    ensures |r.names| == |names|
    ensures r.Named? <==> free < |names| && |CStr(name)| < |names|
    ensures forall i :: 0 <= i < |names| && i != free && i != |CStr(name)| ==> r.names[i] == names[i]
    ensures r.Named? ==> r.names[|CStr(name)|] == Null
    ensures r.Named? && free != |CStr(name)| ==> r.names[free] == Holds(CStr(name))
  {
    var idx := free;
    var w := CStr(name);
    if idx >= |names| then NameOverrun(names)
    else
      var named := names[idx := Holds(w)];
      if |w| >= |names| then NameOverrun(named)
      else Named(named[|w| := Null])
  }

  /** `add_varname` with the slot `numfree - 1`, the next one `bind_variable`
      fills from the end, and without the stray NULL. */
  function AddFixed(names: seq<Slot<string>>, free: nat, name: string): (r: Named)
    requires free <= |names|
    ensures |r.names| == |names|
    ensures r.Named? <==> free > 0
    ensures r.Named? ==> r.names[free - 1] == Holds(CStr(name))
    ensures forall i :: 0 <= i < |names| && i != free - 1 ==> r.names[i] == names[i]
  {
    if free == 0 then NameOverrun(names) else Named(names[free - 1 := Holds(CStr(name))])
  }

  /** The outcome of `bind_variable`. On `BindOverrun` the write fell
      outside the array and is not performed; the free count is still
      decremented, as the program does after the write. */
  datatype Bind = Bound(binds: seq<Slot<Node>>, free: nat) | NoFree | BindOverrun(binds: seq<Slot<Node>>, free: nat)

  /** `bind_variable` as written: slot `numfree` gets the binding. */
  function BindAsWritten(binds: seq<Slot<Node>>, free: nat, sx: Node): (r: Bind)
    requires free <= |binds|
    ensures r.NoFree? <==> free == 0
    ensures r.BindOverrun? <==> 0 < free == |binds|
    ensures r.BindOverrun? ==> r.binds == binds
    ensures !r.NoFree? ==> r.free == free - 1 && |r.binds| == |binds|
    ensures r.Bound? ==> r.binds[free] == Holds(sx)
    ensures r.Bound? ==> forall i :: 0 <= i < |binds| && i != free ==> r.binds[i] == binds[i]
  {
    if free == 0 then NoFree
    else if free >= |binds| then BindOverrun(binds, free - 1)
    else Bound(binds[free := Holds(sx)], free - 1)
  }

  /** `bind_variable` with the slot `numfree - 1`. */
  function BindFixed(binds: seq<Slot<Node>>, free: nat, sx: Node): (r: Bind)
    requires free <= |binds|
    ensures r.NoFree? <==> free == 0
    ensures !r.BindOverrun?
    ensures r.Bound? ==> r.free == free - 1 && |r.binds| == |binds| && r.binds[free - 1] == Holds(sx)
    ensures r.Bound? ==> forall i :: 0 <= i < |binds| && i != free - 1 ==> r.binds[i] == binds[i]
  {
    if free == 0 then NoFree else Bound(binds[free - 1 := Holds(sx)], free - 1)
  }

  /** On a fresh scope, where every slot is free, the first binding as
      written never lands in the array: with no slot it reports the error,
      otherwise it writes past the end. The free count still drops by one,
      so the binding is lost while a slot is used up. */
  lemma FirstBindOverruns(binds: seq<Slot<Node>>, sx: Node)
    ensures BindAsWritten(binds, |binds|, sx)
      == if |binds| == 0 then NoFree else BindOverrun(binds, |binds| - 1)
  {
  }

  /** The bindings and free count after `bind_variable` as written is
      called once for each of `sxs` in turn; a refusal leaves them as
      they are. */
  function BindAll(binds: seq<Slot<Node>>, free: nat, sxs: seq<Node>): (r: (seq<Slot<Node>>, nat))
    requires free <= |binds|
    ensures |r.0| == |binds| && r.1 <= free
    decreases |sxs|
  {
    if sxs == [] then (binds, free)
    else match BindAsWritten(binds, free, sxs[0])
      case Bound(b, f) => BindAll(b, f, sxs[1..])
      case BindOverrun(b, f) => BindAll(b, f, sxs[1..])
      case NoFree => (binds, free)
  }

  /** Binding as written `k` times from the free count `free` fills the
      slots above `free - k` up to `free` (those inside the array) and
      leaves every other slot as it was. */
  lemma {:induction false} BindAllSlots(binds: seq<Slot<Node>>, free: nat, sxs: seq<Node>)
    requires |sxs| <= free <= |binds|
    ensures BindAll(binds, free, sxs).1 == free - |sxs|
    ensures forall i :: free - |sxs| < i <= free && i < |binds| ==> BindAll(binds, free, sxs).0[i].Holds?
    ensures forall i :: 0 <= i < |binds| && !(free - |sxs| < i <= free) ==> BindAll(binds, free, sxs).0[i] == binds[i]
    decreases |sxs|
  {
    if sxs != [] {
      match BindAsWritten(binds, free, sxs[0])
      case Bound(b, f) => BindAllSlots(b, f, sxs[1..]);
      case BindOverrun(b, f) => BindAllSlots(b, f, sxs[1..]);
    }
  }

  /** Binding as many values as a fresh scope has slots uses up every free
      slot, yet slot 0 is never written: the first value is lost past the
      end and the last variable named stays unbound. */
  lemma FreshMissesFirst(binds: seq<Slot<Node>>, sxs: seq<Node>)
    requires 0 < |sxs| == |binds|
    ensures BindAll(binds, |binds|, sxs).1 == 0
    ensures BindAll(binds, |binds|, sxs).0[0] == binds[0]
  {
    BindAllSlots(binds, |binds|, sxs);
  }

  /** As written, adding a name to slot `numfree` keeps it there exactly
      when the name's length is not that slot's index; a name as long as
      its slot's index is erased by the NULL meant to end it. */
  lemma AddKeepsNameIff(names: seq<Slot<string>>, free: nat, name: string)
    requires free < |names| && |CStr(name)| < |names|
    ensures AddAsWritten(names, free, name).Named?
    ensures AddAsWritten(names, free, name).names[free] == Holds(CStr(name)) <==> |CStr(name)| != free
    ensures forall i :: 0 <= i < |names| && i != free && i != |CStr(name)| ==> AddAsWritten(names, free, name).names[i] == names[i]
  {
  }

  /** Slots `free` to the end are named and bound: the part of the arrays
      the fill from the end has reached. */
  predicate Filled(names: seq<Slot<string>>, binds: seq<Slot<Node>>, free: nat)
  {
    forall i :: free <= i < |names| && i < |binds| ==> names[i].Holds? && binds[i].Holds?
  }

  /** With the slot `numfree - 1`, adding a name and binding it fills one
      more slot from the end, pairing the name with its binding; the
      slots already filled are kept. */
  lemma FillStep(names: seq<Slot<string>>, binds: seq<Slot<Node>>, free: nat, name: string, sx: Node)
    requires |names| == |binds| && 0 < free <= |names| && Filled(names, binds, free)
    ensures AddFixed(names, free, name).Named? && BindFixed(binds, free, sx).Bound?
    ensures var names', b := AddFixed(names, free, name).names, BindFixed(binds, free, sx);
      && b.free == free - 1 && Filled(names', b.binds, free - 1)
      && names'[free - 1] == Holds(CStr(name)) && b.binds[free - 1] == Holds(sx)
      && names'[free..] == names[free..] && b.binds[free..] == binds[free..]
  {
  }

  /** A scope record (slisp_env_t). `depth`, `numvars`, the two arrays and
      `parent` are set once when the scope is entered; `Repr` is the scope
      with its arrays and every enclosing scope. */
  class Scope {
    const depth: nat
    const numvars: nat
    var numfree: nat
    const varnames: array<Slot<string>>
    const bindings: array<Slot<Node>>
    var body: Slot<Node>
    const parent: Scope?
    ghost const Repr: set<object>

    /** The record's counts agree with its arrays, and the enclosing scopes
        are one level shallower each, down to depth 0, and separate from
        this one. */
    ghost predicate Valid()
      reads Repr
      decreases depth
    {
      && this in Repr && varnames in Repr && bindings in Repr
      && varnames.Length == numvars && bindings.Length == numvars && numfree <= numvars
      && (parent == null ==> depth == 0)
      && (parent != null ==>
            && parent in Repr && parent.Repr <= Repr
            && this !in parent.Repr && varnames !in parent.Repr && bindings !in parent.Repr
            && parent.depth + 1 == depth && parent.Valid())
    }

    /** `lookup_binding` on this scope: its own slots first, then the
        enclosing scopes. */
    function Find(name: string): (r: Found)
      reads Repr
      requires Valid()
      ensures Scan(varnames[..], bindings[..], CStr(name)) != NotFound ==> r == Scan(varnames[..], bindings[..], CStr(name))
      ensures r == NotFound ==> Scan(varnames[..], bindings[..], CStr(name)) == NotFound
      ensures r == NotFound && parent != null ==> parent.Find(name) == NotFound
      decreases depth
    {
      match Scan(varnames[..], bindings[..], CStr(name))
      case NotFound => if parent == null then NotFound else parent.Find(name)
      case r => r
    }

    /** Every slot of this scope and of the enclosing ones is named. */
    ghost predicate AllNamed()
      reads Repr
      requires Valid()
      decreases depth
    {
      && (forall i :: 0 <= i < numvars ==> varnames[i].Holds?)
      && (parent != null ==> parent.AllNamed())
    }

    /** The variables visible here: those of the enclosing scopes, with the
        ones this scope defines in their place. */
    ghost function Visible(): map<string, Slot<Node>>
      reads Repr
      requires Valid()
      decreases depth
    {
      (if parent == null then map[] else parent.Visible()) + Local(varnames[..], bindings[..])
    }

    /** Once every slot on the chain is named, the lookup finds the innermost
        binding of a name, and NULL for a name no scope defines. */
    lemma {:induction false} FindIsInnermost(name: string)
      requires Valid() && AllNamed()
      ensures Find(name) == if CStr(name) in Visible() then Binding(Visible()[CStr(name)]) else NotFound
      decreases depth
    {
      ScanIsLocal(varnames[..], bindings[..], CStr(name));
      if parent != null {
        parent.FindIsInnermost(name);
      }
    }

    /** A name this scope defines hides the enclosing scopes' variable of
        that name. */
    lemma Shadows(name: string)
      requires Valid() && forall i :: 0 <= i < numvars ==> varnames[i].Holds?
      requires CStr(name) in Local(varnames[..], bindings[..])
      ensures Find(name) == Binding(Local(varnames[..], bindings[..])[CStr(name)])
    {
      ScanIsLocal(varnames[..], bindings[..], CStr(name));
    }

    /** `enter_scope`: a scope nested in `cur`, or an outermost one, with
        `n` free slots, no name, no binding and no body. */
    constructor (cur: Scope?, n: nat)
      requires cur != null ==> cur.Valid()
      ensures Valid() && parent == cur && numvars == n && numfree == n && body == Null
      ensures depth == if cur == null then 0 else cur.depth + 1
      ensures forall i :: 0 <= i < n ==> varnames[i] == Null && bindings[i] == Null
      ensures fresh(varnames) && fresh(bindings)
      ensures Repr == {this, varnames, bindings} + (if cur == null then {} else cur.Repr)
    {
      depth := if cur == null then 0 else cur.depth + 1;
      parent := cur;
      numvars := n;
      numfree := n;
      varnames := new Slot<string>[n](_ => Null);
      bindings := new Slot<Node>[n](_ => Null);
      body := Null;
      Repr := {this, varnames, bindings} + (if cur == null then {} else cur.Repr);
    }

    /** `add_varname` as written. */
    method AddVarname(name: string) returns (r: Named)
      requires Valid()
      modifies varnames
      ensures Valid()
      ensures r == AddAsWritten(old(varnames[..]), numfree, name) && varnames[..] == r.names
    {
      var idx := numvars - (numvars - numfree);
      var w := CStr(name);
      if idx >= varnames.Length {
        return NameOverrun(varnames[..]);
      }
      varnames[idx] := Holds(w);
      if |w| >= varnames.Length {
        return NameOverrun(varnames[..]);
      }
      varnames[|w|] := Null;
      r := Named(varnames[..]);
    }

    /** `add_varname` with the slot `numfree - 1`. */
    method AddVarnameFixed(name: string) returns (r: Named)
      requires Valid()
      modifies varnames
      ensures Valid()
      ensures r == AddFixed(old(varnames[..]), numfree, name) && varnames[..] == r.names
    {
      if numfree == 0 {
        return NameOverrun(varnames[..]);
      }
      varnames[numfree - 1] := Holds(CStr(name));
      r := Named(varnames[..]);
    }

    /** `bind_variable` as written. With no free slot it reports an error
        (on stderr, left out) and changes nothing; when the slot is past
        the array the write is skipped and only the free count drops. */
    method BindVariable(sx: Node) returns (r: Bind)
      requires Valid()
      modifies this, bindings
      ensures Valid() && body == old(body)
      ensures r == BindAsWritten(old(bindings[..]), old(numfree), sx)
      ensures !r.NoFree? ==> bindings[..] == r.binds && numfree == r.free
      ensures r.NoFree? ==> bindings[..] == old(bindings[..]) && numfree == old(numfree)
    {
      if numfree == 0 {
        return NoFree;
      }
      var idx := numvars - (numvars - numfree);
      if idx >= bindings.Length {
        numfree := numfree - 1;
        return BindOverrun(bindings[..], numfree);
      }
      bindings[idx] := Holds(sx);
      numfree := numfree - 1;
      r := Bound(bindings[..], numfree);
    }

    /** `bind_variable` with the slot `numfree - 1`. */
    method BindVariableFixed(sx: Node) returns (r: Bind)
      requires Valid()
      modifies this, bindings
      ensures Valid() && body == old(body)
      ensures r == BindFixed(old(bindings[..]), old(numfree), sx)
      ensures r.Bound? ==> bindings[..] == r.binds && numfree == r.free
      ensures !r.Bound? ==> bindings[..] == old(bindings[..]) && numfree == old(numfree)
    {
      if numfree == 0 {
        return NoFree;
      }
      bindings[numfree - 1] := Holds(sx);
      numfree := numfree - 1;
      r := Bound(bindings[..], numfree);
    }

    /** `set_body`: only the body changes, and every lookup gives what it
        gave before. */
    method SetBody(b: Node)
      requires Valid()
      modifies this
      ensures Valid() && body == Holds(b) && numfree == old(numfree)
      ensures forall name :: Find(name) == old(Find(name))
    {
      body := Holds(b);
    }

    /** `lookup_binding`: the `for` loop over this scope's slots, then the
        same search in the enclosing scope. */
    method LookupBinding(name: string) returns (r: Found)
      requires Valid()
      ensures r == Find(name)
      decreases depth
    {
      var key := CStr(name);
      var i := 0;
      while i < numvars
        invariant 0 <= i <= numvars
        invariant Scan(varnames[..], bindings[..], key) == Scan(varnames[i..], bindings[i..], key)
      {
        assert varnames[i..][1..] == varnames[i + 1..] && bindings[i..][1..] == bindings[i + 1..];
        if !varnames[i].Holds? {
          // strcmp is handed the NULL of a slot never named
          return NullName;
        }
        if varnames[i].value == key {
          return Binding(bindings[i]);
        }
        i := i + 1;
      }
      if parent != null {
        r := parent.LookupBinding(name);
        return;
      }
      return NotFound;
    }
  }

  /** `exit_scope`: the enclosing scope of the one left (the record is
      freed; memory is not modelled). */
  method ExitScope(cur: Scope) returns (p: Scope?)
    ensures p == cur.parent
  {
    p := cur.parent;
  }
}
