/**
  Strings of binary digits as the TCL client builds and reads them: Python's
  `format(v, '0Nb')` (binary digits of an integer, zero-padded on the left to
  N characters) and `int(s, 2)` (the value of a string of binary digits),
  together with the round trips between the two.
*/
module BitStrings {

  datatype Option<T> = None | Some(value: T)

  /** Every character is a binary digit. */
  predicate IsBits(s: string)
  {
    forall i :: 0 <= i < |s| ==> s[i] == '0' || s[i] == '1'
  }

  /** Python's `c * n` for a one-character string c. */
  function Repeat(c: char, n: nat): (r: string)
  {
    seq(n, _ => c)
  }

  function Pow2(n: nat): (r: nat)
    ensures r >= 1
  {
    if n == 0 then 1 else 2 * Pow2(n - 1)
  }

  function Digit(b: nat): char
    requires b < 2
  {
    if b == 0 then '0' else '1'
  }

  /** The binary digits of v, most significant first, without leading
      zeros ("0" for zero). */
  function Binary(v: nat): (r: string)
    decreases v
  {
    if v < 2 then [Digit(v)] else Binary(v / 2) + [Digit(v % 2)]
  }

  /** s preceded by as many '0' as make it `width` long; never shortened. */
  function PadLeft(s: string, width: int): (r: string)
  {
    if |s| >= width then s else Repeat('0', width - |s|) + s
  }

  /** Python's `format(v, '0Nb')` with N = width: the binary digits of v
      zero-padded on the left to `width` characters.  A value that needs
      more digits is not cut; a negative value gets its '-' sign in front
      of the digits of its magnitude, padded to `width - 1`. */
  function Format(v: int, width: nat): string
  {
    if v < 0 then "-" + PadLeft(Binary(-v), width - 1)
    else PadLeft(Binary(v), width)
  }

  /** The number a string of binary digits denotes. */
  function Value(s: string): nat
    requires IsBits(s)
  {
    if s == [] then 0 else 2 * Value(s[..|s| - 1]) + (if s[|s| - 1] == '1' then 1 else 0)
  }

  /** Python's `int(s, 2)` on the strings this model admits: a non-empty
      string of binary digits has its value; anything else raises, shown
      here as None. */
  function ParseBin(s: string): (r: Option<nat>)
    ensures r.Some? <==> s != [] && IsBits(s)
    ensures r.Some? ==> r.value < Pow2(|s|)
  {
    if s != [] && IsBits(s) then
      ValueBound(s);
      Some(Value(s))
    else None
  }

  // ---------------------------------------------------------------------
  // Lemmas
  // ---------------------------------------------------------------------

  /** A concatenation is binary exactly when both parts are. */
  lemma BitsConcat(a: string, b: string)
    ensures IsBits(a + b) <==> IsBits(a) && IsBits(b)
  {
    assert forall i :: 0 <= i < |a| ==> a[i] == (a + b)[i];
    assert forall i :: 0 <= i < |b| ==> b[i] == (a + b)[|a| + i];
  }

  /** k binary digits denote less than 2^k. */
  lemma {:induction false} ValueBound(s: string)
    requires IsBits(s)
    ensures Value(s) < Pow2(|s|)
  {
    if s != [] {
      ValueBound(s[..|s| - 1]);
    }
  }

  /** Binary(v) is a string of binary digits that denotes v, and it fits in
      n characters exactly when v < 2^n. */
  lemma {:induction false} BinaryValue(v: nat, n: nat)
    ensures IsBits(Binary(v)) && Value(Binary(v)) == v
    ensures n >= 1 ==> (|Binary(v)| <= n <==> v < Pow2(n))
    decreases v
  {
    var b := Binary(v);
    if v >= 2 {
      var top := Binary(v / 2);
      assert b == top + [Digit(v % 2)];
      BinaryValue(v / 2, if n >= 1 then n - 1 else 0);
      assert b[..|b| - 1] == top;
    } else if n >= 1 {
      assert Pow2(n) >= 2 by {
        assert Pow2(n) == 2 * Pow2(n - 1);
      }
    }
  }

  /** Leading zeros do not change the value of a string of binary digits. */
  lemma {:induction false} ZerosValue(k: nat, s: string)
    requires IsBits(s)
    ensures IsBits(Repeat('0', k) + s) && Value(Repeat('0', k) + s) == Value(s)
    decreases |s|
  {
    var z := Repeat('0', k) + s;
    if s == [] {
      assert z == Repeat('0', k);
      AllZerosValue(k);
    } else {
      ZerosValue(k, s[..|s| - 1]);
      assert z[..|z| - 1] == Repeat('0', k) + s[..|s| - 1];
    }
  }

  lemma {:induction false} AllZerosValue(k: nat)
    ensures IsBits(Repeat('0', k)) && Value(Repeat('0', k)) == 0
  {
    if k > 0 {
      AllZerosValue(k - 1);
      assert Repeat('0', k)[..k - 1] == Repeat('0', k - 1);
    }
  }

  /** A string of binary digits with value 0 is all zeros. */
  lemma {:induction false} ZeroValueZeros(s: string)
    requires IsBits(s) && Value(s) == 0
    ensures s == Repeat('0', |s|)
  {
    if s != [] {
      ZeroValueZeros(s[..|s| - 1]);
      assert s == s[..|s| - 1] + [s[|s| - 1]];
    }
  }

  /** format(v, '0Nb') of a non-negative v below 2^N is exactly N binary
      digits that denote v. */
  lemma FormatFits(v: int, width: nat)
    requires 0 <= v < Pow2(width) && width >= 1
    ensures |Format(v, width)| == width && IsBits(Format(v, width)) && Value(Format(v, width)) == v
  {
    BinaryValue(v, width);
    if |Binary(v)| < width {
      ZerosValue(width - |Binary(v)|, Binary(v));
    }
  }

  /** Reading back what format wrote: int(format(v, '0Nb'), 2) == v for
      every v >= 0, whatever the width. */
  lemma ParseFormat(v: int, width: nat)
    requires v >= 0
    ensures ParseBin(Format(v, width)) == Some(v)
  {
    BinaryValue(v, 0);
    if |Binary(v)| < width {
      ZerosValue(width - |Binary(v)|, Binary(v));
    }
  }

  /** Writing back what int(_, 2) read: a string of N >= 1 binary digits is
      format(int(s, 2), '0Nb'), leading zeros included. */
  lemma {:induction false} FormatValue(s: string)
    requires IsBits(s) && s != []
    ensures Format(Value(s), |s|) == s
    decreases |s|
  {
    var t, c := s[..|s| - 1], s[|s| - 1];
    var b := if c == '1' then 1 else 0;
    assert s == t + [c];
    var v := Value(t);
    assert Value(s) == 2 * v + b;
    if v == 0 {
      ZeroValueZeros(t);
      assert Binary(Value(s)) == [c];
    } else {
      FormatValue(t);
      assert Binary(Value(s)) == Binary(v) + [c] by {
        assert (2 * v + b) / 2 == v && (2 * v + b) % 2 == b;
      }
      ValueBound(t);
      BinaryValue(v, |t|);
      PadLeftSnoc(Binary(v), c, |t|);
    }
  }

  lemma PadLeftSnoc(b: string, c: char, w: nat)
    requires |b| <= w
    ensures PadLeft(b + [c], w + 1) == PadLeft(b, w) + [c]
  {
    if |b| < w {
      assert Repeat('0', w + 1 - |b + [c]|) == Repeat('0', w - |b|);
    }
  }
}
