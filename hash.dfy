/**
 * The x31 string hash of src/util/hash.h: h := (h << 5) - h + c over uint64,
 * once over a NUL-terminated buffer and once over a whole string-like range.
 * Characters are given by their integer codes, which may be negative when the
 * host's char type is signed; the conversion to uint64 is then modulo 2^64.
 */
module Hash {
  const Modulus: int := 0x1_0000_0000_0000_0000

  type U64 = x: int | 0 <= x < Modulus

  /** The hash as a left fold: the reference definition the loops are proved against. */
  function X31(s: seq<int>): (h: U64)
  {
    if s == [] then 0 else (31 * X31(s[..|s| - 1]) + s[|s| - 1]) % Modulus
  }

  /** One step as the source writes it: shift, subtract, add, all wrapping at 2^64. */
  function Step(h: U64, c: int): (r: U64)
    ensures r == (31 * h + c) % Modulus
  {
    ShiftStep(h, c);
    (((h * 32) % Modulus - h) % Modulus + c % Modulus) % Modulus
  }

  lemma ShiftStep(h: U64, c: int)
    ensures (((h * 32) % Modulus - h) % Modulus + c % Modulus) % Modulus == (31 * h + c) % Modulus
  {
    var a := (h * 32) % Modulus;
    assert (a - h) % Modulus == (h * 32 - h) % Modulus by {
      assert h * 32 == a + (h * 32 / Modulus) * Modulus;
      ModShift(a - h, h * 32 / Modulus);
    }
    ModAdd(31 * h, c);
  }

  lemma ModShift(x: int, k: int)
    ensures (x + k * Modulus) % Modulus == x % Modulus
  {
  }

  lemma ModAdd(x: int, y: int)
    ensures ((x % Modulus) + (y % Modulus)) % Modulus == (x + y) % Modulus
  {
    var qx, qy := x / Modulus, y / Modulus;
    assert x == qx * Modulus + x % Modulus;
    assert y == qy * Modulus + y % Modulus;
    ModShift((x % Modulus) + (y % Modulus), qx + qy);
  }

  /** Index of the first NUL in a buffer that holds one. */
  function NulIndex(s: seq<int>): (n: nat)
    requires exists i :: 0 <= i < |s| && s[i] == 0
    ensures n < |s| && s[n] == 0
    ensures forall j :: 0 <= j < n ==> s[j] != 0
  {
    if s[0] == 0 then 0 else NulIndex(s[1..]) + 1
  }

  /** x31_hash(T s): the range overload, a for loop over every character. */
  method HashRange(s: seq<int>) returns (h: U64)
    ensures h == X31(s)
    ensures s == [] ==> h == 0
  {
    h := 0;
    var i := 0;
    while i < |s|
      invariant 0 <= i <= |s|
      invariant h == X31(s[..i])
    {
      assert s[..i + 1][..i] == s[..i];
      h := Step(h, s[i]);
      i := i + 1;
    }
    assert s[..|s|] == s;
  }

  /** x31_hash(T* s): the pointer overload, which stops at the first NUL. */
  method HashPointer(s: seq<int>) returns (h: U64)
    requires exists i :: 0 <= i < |s| && s[i] == 0
    ensures h == X31(s[..NulIndex(s)])
  {
    h := 0;
    var i := 0;
    while s[i] != 0
      invariant 0 <= i <= NulIndex(s)
      invariant h == X31(s[..i])
      decreases NulIndex(s) - i
    {
      assert s[..i + 1][..i] == s[..i];
      h := Step(h, s[i]);
      i := i + 1;
    }
  }

  /** Appending one character multiplies by 31 and adds its code, modulo 2^64. */
  lemma HashSnoc(s: seq<int>, c: int)
    ensures X31(s + [c]) == (31 * X31(s) + c) % Modulus
  {
    assert (s + [c])[..|s|] == s;
  }

  function Pow31(n: nat): (r: nat)
    ensures r >= 1
  {
    if n == 0 then 1 else 31 * Pow31(n - 1)
  }

  /**
   * The hash of a concatenation is determined by the hashes of its parts:
   * x31(s + t) = 31^|t| * x31(s) + x31(t) modulo 2^64.
   */
  lemma {:induction false} HashAppend(s: seq<int>, t: seq<int>)
    ensures X31(s + t) == (Pow31(|t|) * X31(s) + X31(t)) % Modulus
    decreases |t|
  {
    if t == [] {
      assert s + t == s;
    } else {
      var t' := t[..|t| - 1];
      assert t == t' + [t[|t| - 1]];
      HashAppend(s, t');
      HashAppendSnoc(s, t', t[|t| - 1]);
    }
  }

  /** HashAppend for t' + [c] from HashAppend for t'. */
  lemma HashAppendSnoc(s: seq<int>, t': seq<int>, c: int)
    requires X31(s + t') == (Pow31(|t'|) * X31(s) + X31(t')) % Modulus
    ensures X31(s + (t' + [c])) == (Pow31(|t' + [c]|) * X31(s) + X31(t' + [c])) % Modulus
  {
    assert s + (t' + [c]) == (s + t') + [c];
    HashSnoc(s + t', c);
    HashSnoc(t', c);
    AppendStep(Pow31(|t'|), Pow31(|t'| + 1), X31(s), X31(t'), c, X31(s + t'), X31(s + t' + [c]), X31(t' + [c]));
  }

  /** The inductive step of HashAppend, over the hashes as plain numbers. */
  lemma AppendStep(p: int, p': int, x: int, b: int, c: int, h: int, h': int, b': int)
    requires p' == 31 * p && h == (p * x + b) % Modulus
    requires h' == (31 * h + c) % Modulus && b' == (31 * b + c) % Modulus
    ensures h' == (p' * x + b') % Modulus
  {
    ModMulAdd(p * x + b, c);
    assert 31 * (p * x) == (31 * p) * x;
    assert 31 * (p * x + b) + c == (31 * p) * x + (31 * b + c);
    ModAddRight((31 * p) * x, 31 * b + c);
  }

  lemma ModAddRight(x: int, y: int)
    ensures (x + y % Modulus) % Modulus == (x + y) % Modulus
  {
    var q := y / Modulus;
    assert y == q * Modulus + y % Modulus;
    ModShift(x + y % Modulus, q);
  }

  lemma ModMulAdd(x: int, c: int)
    ensures (31 * (x % Modulus) + c) % Modulus == (31 * x + c) % Modulus
  {
    var q := x / Modulus;
    assert x == q * Modulus + x % Modulus;
    assert 31 * x + c == (31 * (x % Modulus) + c) + (31 * q) * Modulus;
    ModShift(31 * (x % Modulus) + c, 31 * q);
  }

  /** Both overloads agree: the pointer form hashes exactly the prefix before the NUL. */
  lemma PointerHashIsPrefixHash(p: seq<int>, rest: seq<int>)
    requires forall j :: 0 <= j < |p| ==> p[j] != 0
    ensures (p + [0] + rest)[|p|] == 0
    ensures NulIndex(p + [0] + rest) == |p|
  {
    var s := p + [0] + rest;
    assert s[|p|] == 0;
    assert forall j :: 0 <= j < |p| ==> s[j] == p[j];
  }
}
