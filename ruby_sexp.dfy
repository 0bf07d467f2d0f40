/** `infer_sval_type` of the Ruby binding (ruby/Sexp.c), which guesses
    whether an atom's text is an integer, a real number or a string before
    the binding turns it into a Ruby object.

    The text is read as decimal after an optional '-' and an optional
    leading '0'; a "0x" prefix is meant to introduce a hexadecimal number.
    The flag that should switch the loop to hexadecimal digits is set to 2
    but tested against 1, so the hexadecimal digits are read as decimal
    ones. `InferWith` takes the value the flag is set to, so that the model
    holds the code as written (`InferSvalType`, flag 2) and as intended
    (`InferSvalTypeFixed`, flag 1). */
module RubySexp {
  import opened CString
  import opened Sexpr
  import opened SlispUtil

  /** sval_type. */
  datatype Sval = SvalString | SvalInteger | SvalReal | SvalNone

  predicate IsHexDigit(c: char)
  {
    ('0' <= c <= '9') || ('a' <= c <= 'f') || ('A' <= c <= 'F')
  }

  predicate AllHex(s: string)
  {
    forall i :: 0 <= i < |s| ==> IsHexDigit(s[i])
  }

  /** A decimal text's type, in the binding's terms. */
  function Decimal(s: string): Sval
  {
    match NumberType(s)
    case IntType => SvalInteger
    case FloatType => SvalReal
    case _ => SvalString
  }

  /** What the loop makes of the text after the prefix: in hexadecimal mode
      an integer when every character is a hexadecimal digit; otherwise the
      decimal reading. */
  function Tail(s: string, hex: bool): Sval
  {
    if hex then (if AllHex(s) then SvalInteger else SvalString) else Decimal(s)
  }

  predicate HexMark(s: string, i: nat)
  {
    i + 1 < |s| && s[i] == '0' && (s[i + 1] == 'x' || s[i + 1] == 'X')
  }

  /** The type of a C string: a "0x" or "0X" prefix after a '-' makes a
      string, and so does one followed by anything but a hexadecimal digit;
      otherwise the text after it is read by the loop, in hexadecimal mode
      when `hexWorks`. A '0' without an 'x' is skipped, and the rest is
      decimal. */
  function Inferred(s: string, hexWorks: bool): (r: Sval)
    ensures r != SvalNone
    ensures |s| > 0 && s[0] == '-' && HexMark(s, 1) ==> r == SvalString
    ensures HexMark(s, 0) && (|s| == 2 || !IsHexDigit(s[2])) ==> r == SvalString
  {
    var neg := |s| > 0 && s[0] == '-';
    var r := if neg then s[1..] else s;
    if HexMark(r, 0) then
      if neg then SvalString
      else if |r| > 2 && IsHexDigit(r[2]) then Tail(r[2..], hexWorks)
      else SvalString
    else if |r| > 0 && r[0] == '0' then Decimal(r[1..])
    else Decimal(r)
  }

  /** The type of a node: none for NULL, for a node with no text and for a
      list. */
  function InferredOf(sx: Slot<Cell>, hexWorks: bool): (r: Sval)
    requires !sx.Indeterminate? && (sx.Holds? ==> !sx.value.val.Indeterminate?)
    ensures r == SvalNone <==> sx.Null? || sx.value.val.Null? || sx.value.ty != ValueElt
  {
    if sx.Null? || sx.value.val.Null? || sx.value.ty != ValueElt then SvalNone
    else Inferred(CStr(sx.value.val.value), hexWorks)
  }

  /** Text that is a string from index `p` on stays one to its end. */
  lemma StringToEnd(w: string, p0: nat, p: nat)
    requires p0 <= p < |w| && NumberType(w[p0..p + 1]) == StringType
    ensures NumberType(w[p0..]) == StringType
  {
    StringSticks(w[p0..p + 1], w[p + 1..]);
    assert w[p0..p + 1] + w[p + 1..] == w[p0..];
  }

  /** The loop over the text from `p0` (lines 103-127), with `ishex` the
      value the flag was set to. */
  method ScanTail(v: string, p0: nat, ishex: int) returns (r: Sval)
    requires p0 <= |CStr(v)|
    ensures r == Tail(CStr(v)[p0..], ishex == 1)
  {
    ghost var w := CStr(v);
    var sawdecimal := 0;
    var p := p0;
    while At(v, p) != '\0'
      invariant p0 <= p <= |w|
      invariant ishex == 1 ==> AllHex(w[p0..p])
      invariant ishex != 1 ==> NumberType(w[p0..p]) == if sawdecimal == 1 then FloatType else IntType
      decreases |w| - p
    {
      ReadsCStr(v, p);
      if ishex == 1 {
        if !IsHexDigit(At(v, p)) {
          assert w[p0..][p - p0] == w[p];
          return SvalString;
        }
        assert w[p0..p + 1] == w[p0..p] + [w[p]];
      } else {
        NumberTypeAt(w, p0, p);
        if At(v, p) == '.' {
          if sawdecimal == 0 {
            sawdecimal := 1;
          } else {
            StringToEnd(w, p0, p);
            return SvalString;
          }
        } else if !('0' <= At(v, p) <= '9') {
          StringToEnd(w, p0, p);
          return SvalString;
        }
      }
      p := p + 1;
    }
    ReadsCStr(v, p);
    assert p == |w|;
    assert w[p0..p] == w[p0..];
    if ishex == 1 {
      return SvalInteger;
    }
    if sawdecimal == 1 {
      return SvalReal;
    }
    return SvalInteger;
  }

  /** `infer_sval_type` with the hexadecimal flag set to `hexMark` when the
      text starts "0x" and a hexadecimal digit (lines 55-128). */
  method InferWith(sx: Slot<Cell>, hexMark: int) returns (r: Sval)
    requires !sx.Indeterminate? && (sx.Holds? ==> !sx.value.val.Indeterminate?)
    ensures r == InferredOf(sx, hexMark == 1)
  {
    if sx.Null? || sx.value.val.Null? || sx.value.ty != ValueElt {
      return SvalNone;
    }
    var v := sx.value.val.value;
    ghost var w := CStr(v);
    var ishex := 0;
    var isnegative := 0;
    var c := 0;
    ReadsCStr(v, 0);
    if At(v, c) == '-' {
      isnegative := 1;
      c := c + 1;
    }
    ghost var rest := w[c..];
    assert rest == if |w| > 0 && w[0] == '-' then w[1..] else w;
    ReadsCStr(v, c);
    if At(v, c) == '0' {
      c := c + 1;
      ReadsCStr(v, c);
      if At(v, c) == 'x' || At(v, c) == 'X' {
        if isnegative == 1 {
          return SvalString;
        }
        c := c + 1;
        ReadsCStr(v, c);
        if IsHexDigit(At(v, c)) {
          ishex := hexMark;
        } else {
          return SvalString;
        }
        assert rest[2..] == w[c..];
      } else {
        ishex := 0;
        assert rest[1..] == w[c..];
      }
    }
    r := ScanTail(v, c, ishex);
  }

  /** `infer_sval_type` as written: the flag is set to 2. */
  method InferSvalType(sx: Slot<Cell>) returns (r: Sval)
    requires !sx.Indeterminate? && (sx.Holds? ==> !sx.value.val.Indeterminate?)
    ensures r == InferredOf(sx, false)
  {
    r := InferWith(sx, 2);
  }

  /** `infer_sval_type` with the flag set to the 1 the loop tests for. */
  method InferSvalTypeFixed(sx: Slot<Cell>) returns (r: Sval)
    requires !sx.Indeterminate? && (sx.Holds? ==> !sx.value.val.Indeterminate?)
    ensures r == InferredOf(sx, true)
  {
    r := InferWith(sx, 1);
  }

  /** As written, a "0x" number is an integer exactly when its digits are
      all decimal ones: hexadecimal letters make it a string. */
  lemma {:induction false} HexReadAsDecimal(h: string)
    ensures Inferred("0x" + h, false) == SvalInteger <==> |h| > 0 && forall i :: 0 <= i < |h| ==> IsDigit(h[i])
  {
    var s := "0x" + h;
    assert s[0] == '0' && s[1] == 'x' && s[2..] == h;
    if |h| > 0 && forall i :: 0 <= i < |h| ==> IsDigit(h[i]) {
      NoDots(h);
    }
    if Inferred(s, false) == SvalInteger {
      assert |h| > 0 && Numeric(h) && Dots(h) == 0;
      forall i | 0 <= i < |h| ensures IsDigit(h[i]) {
        if h[i] == '.' {
          DotCounted(h, i);
        }
      }
    }
  }

  /** A text with a '.' in it counts at least one. */
  lemma DotCounted(h: string, i: nat)
    requires i < |h| && h[i] == '.'
    ensures Dots(h) >= 1
  {
    DotsAppend(h[..i + 1], h[i + 1..]);
    assert h[..i + 1] + h[i + 1..] == h;
    assert h[..i + 1][..i] == h[..i];
  }

  /** A text of digits only holds no '.'. */
  lemma {:induction false} NoDots(h: string)
    requires forall i :: 0 <= i < |h| ==> IsDigit(h[i])
    ensures Dots(h) == 0
    decreases |h|
  {
    if |h| > 0 {
      NoDots(h[..|h| - 1]);
    }
  }

  /** With the flag set to 1, a "0x" number is an integer exactly when it
      has at least one digit and all its digits are hexadecimal. */
  lemma HexFixed(h: string)
    ensures Inferred("0x" + h, true) == SvalInteger <==> |h| > 0 && AllHex(h)
    ensures Inferred("0X" + h, true) == SvalInteger <==> |h| > 0 && AllHex(h)
  {
    var s, s' := "0x" + h, "0X" + h;
    assert s[2..] == h && s'[2..] == h;
    if |h| > 0 && AllHex(h) {
      assert IsHexDigit(h[0]);
    }
  }

  /** The two texts that show the flag is never seen: "0x12" is an integer
      because its digits happen to be decimal, "0x1F" is a string; with the
      flag set to 1 both are integers. */
  lemma HexFlagNeverSeen()
    ensures Inferred("0x12", false) == SvalInteger
    ensures Inferred("0x1F", false) == SvalString
    ensures Inferred("0x1F", true) == SvalInteger
  {
    assert "0x12" == "0x" + "12";
    HexReadAsDecimal("12");
    assert "0x1F" == "0x" + "1F";
    HexReadAsDecimal("1F");
    assert !IsDigit("1F"[1]);
    HexFixed("1F");
  }

  /** A '-' before "0x" makes a string, whatever follows. */
  lemma NegativeHex(h: string, hexWorks: bool)
    ensures Inferred("-0x" + h, hexWorks) == SvalString && Inferred("-0X" + h, hexWorks) == SvalString
  {
    var s, s' := "-0x" + h, "-0X" + h;
    assert s[1..][0] == '0' && s[1..][1] == 'x';
    assert s'[1..][0] == '0' && s'[1..][1] == 'X';
  }

  /** A leading '0' does not change a decimal text's type. */
  lemma ZeroPrefix(b: string)
    ensures NumberType("0" + b) == NumberType(b)
  {
    DotsAppend("0", b);
    assert Dots("0") == 0 by { assert "0"[..0] == ""; }
    var z := "0" + b;
    assert forall i :: 0 <= i < |b| ==> z[i + 1] == b[i];
    if !Numeric(b) {
      var i :| 0 <= i < |b| && !IsDigit(b[i]) && b[i] != '.';
      assert z[i + 1] == b[i];
    }
  }

  /** Away from a "0x" prefix, the Ruby binding and the slisp interpreter's
      `derive_type` agree: integer, real and string are `SL_INT`, `SL_FLOAT`
      and `SL_STRING`. */
  lemma AgreesWithDeriveType(c: Cell, hexWorks: bool)
    requires c.ty == ValueElt && c.val.Holds?
    requires !HexMark(Unsigned(c.val.value), 0)
    ensures InferredOf(Holds(c), hexWorks) == Decimal(Unsigned(c.val.value))
    ensures Decimal(Unsigned(c.val.value)) == match TypeOf(c)
      case IntType => SvalInteger
      case FloatType => SvalReal
      case _ => SvalString
  {
    var r := Unsigned(c.val.value);
    if |r| > 0 && r[0] == '0' {
      assert r == "0" + r[1..];
      ZeroPrefix(r[1..]);
    }
  }

  /** The texts the loop never runs on are integers, a lone '.' after a
      '0' makes a real, and "0x" alone is a string. */
  lemma InferEdges(hexWorks: bool)
    ensures Inferred("", hexWorks) == SvalInteger
    ensures Inferred("-", hexWorks) == SvalInteger
    ensures Inferred("0.5", hexWorks) == SvalReal
    ensures Inferred("0x", hexWorks) == SvalString
  {
    assert "-"[1..] == "";
    assert "0.5"[1..] == ".5";
    assert Dots(".5") == 1 by { assert ".5"[..1] == "."; assert "."[..0] == ""; }
  }
}
