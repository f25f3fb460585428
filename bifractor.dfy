/**
 * Bifractor position keys (src/util/bifractor.cpp, src/util/bifractor.h).
 * A key is a non-empty byte string ordered like memcmp: byte by byte, a
 * proper prefix first. Keys can be made as 0 (00), 1 (FF) or a short key
 * between two others, and are rendered as upper-case hex for the shell.
 */
module Bifractor {
  import opened Wrappers
  import Text
  import JsString

  type Byte = x: int | 0 <= x < 0x100
  type Key = seq<Byte>

  // ---------------------------------------------------------------- order

  /** The order memcmp-then-size gives: first differing byte decides, a proper prefix is smaller. */
  predicate Less(a: Key, b: Key)
  {
    if a == [] then b != []
    else b != [] && (a[0] < b[0] || (a[0] == b[0] && Less(a[1..], b[1..])))
  }

  /** memcmp over the first n bytes: the difference of the first differing bytes, or 0. */
  function MemCmp(a: Key, b: Key, n: nat): (r: int)
    requires n <= |a| && n <= |b|
    ensures r == 0 <==> a[..n] == b[..n]
    ensures r < 0 <==> (a[..n] != b[..n] && Less(a[..n], b[..n]))
    ensures r > 0 <==> (a[..n] != b[..n] && Less(b[..n], a[..n]))
  {
    if n == 0 then 0
    else if a[0] != b[0] then a[0] - b[0]
    else
      assert a[..n][1..] == a[1..][..n - 1] && b[..n][1..] == b[1..][..n - 1];
      assert a[..n] == [a[0]] + a[1..][..n - 1] && b[..n] == [b[0]] + b[1..][..n - 1];
      MemCmp(a[1..], b[1..], n - 1)
  }

  /** Bifractor::compare: memcmp over the common length, then the size difference. */
  function Compare(a: Key, b: Key): (r: int)
    ensures r < 0 <==> Less(a, b)
    ensures r == 0 <==> a == b
    ensures r > 0 <==> Less(b, a)
  {
    var n := if |a| < |b| then |a| else |b|;
    var m := MemCmp(a, b, n);
    CompareAgrees(a, b, n);
    if m != 0 then m else |a| - |b|
  }

  lemma {:induction false} CompareAgrees(a: Key, b: Key, n: nat)
    requires n == |a| || n == |b|
    requires n <= |a| && n <= |b|
    ensures a[..n] == b[..n] ==> (Less(a, b) <==> |a| < |b|) && (Less(b, a) <==> |b| < |a|)
    ensures a[..n] != b[..n] ==> (Less(a, b) <==> Less(a[..n], b[..n])) && (Less(b, a) <==> Less(b[..n], a[..n]))
  {
    if n > 0 {
      CompareAgrees(a[1..], b[1..], n - 1);
      assert a[..n] == [a[0]] + a[1..][..n - 1] && b[..n] == [b[0]] + b[1..][..n - 1];
      assert a[..n][1..] == a[1..][..n - 1] && b[..n][1..] == b[1..][..n - 1];
    }
  }

  lemma {:induction false} LessIrreflexive(a: Key)
    ensures !Less(a, a)
  {
    if a != [] {
      LessIrreflexive(a[1..]);
    }
  }

  lemma {:induction false} LessTransitive(a: Key, b: Key, c: Key)
    requires Less(a, b) && Less(b, c)
    ensures Less(a, c)
  {
    if a != [] && a[0] == b[0] && b[0] == c[0] {
      LessTransitive(a[1..], b[1..], c[1..]);
    }
  }

  /** The operators of bifractor.h: `<` is a strict total order and `==` is equality of byte strings. */
  lemma LessStrictTotalOrder(a: Key, b: Key, c: Key)
    ensures !Less(a, a)
    ensures Less(a, b) && Less(b, c) ==> Less(a, c)
    ensures Less(a, b) || a == b || Less(b, a)
    ensures Less(a, b) ==> !Less(b, a)
  {
    LessIrreflexive(a);
    if Less(a, b) && Less(b, c) {
      LessTransitive(a, b, c);
    }
    var _ := Compare(a, b);
    if Less(a, b) && Less(b, a) {
      LessTransitive(a, b, a);
    }
  }

  /** operator< */
  function Lt(a: Key, b: Key): (r: bool)
    ensures r <==> Less(a, b)
  {
    Compare(a, b) < 0
  }

  /** operator<= */
  function Le(a: Key, b: Key): (r: bool)
    ensures r <==> Less(a, b) || a == b
  {
    Compare(a, b) <= 0
  }

  /** operator> */
  function Gt(a: Key, b: Key): (r: bool)
    ensures r <==> Less(b, a)
  {
    Compare(a, b) > 0
  }

  /** operator>= */
  function Ge(a: Key, b: Key): (r: bool)
    ensures r <==> Less(b, a) || a == b
  {
    Compare(a, b) >= 0
  }

  /** operator==: sizes first, then compare; the same as equality of the byte strings. */
  function Eq(a: Key, b: Key): (r: bool)
    ensures r <==> a == b
  {
    if |a| != |b| then false else Compare(a, b) == 0
  }

  // ------------------------------------------------------------ constants

  /** Bifractor(bool one): the single byte 00 for 0 and FF for 1. */
  function FromBool(one: bool): (k: Key)
    ensures |k| == 1
    ensures one ==> k == [0xFF]
    ensures !one ==> k == [0]
  {
    if one then [0xFF] else [0]
  }

  const Zero: Key := [0]
  const One: Key := [0xFF]

  /** 0 is at or below every non-empty key. */
  lemma ZeroIsMinimum(k: Key)
    requires |k| > 0
    ensures Le(Zero, k)
  {
    if k != Zero && k[0] == 0 {
      assert k[1..] != [];
    }
  }

  /** 0 is below 1. */
  lemma ZeroBelowOne()
    ensures Less(Zero, One)
  {
  }

  // ---------------------------------------------------------- base 256

  function Pow256(n: nat): (p: nat)
    ensures p >= 1
  {
    if n == 0 then 1 else 0x100 * Pow256(n - 1)
  }

  /** The value of a byte string read as a big-endian base-256 numeral. */
  function Num(s: Key): (v: nat)
  {
    if s == [] then 0 else s[0] * Pow256(|s| - 1) + Num(s[1..])
  }

  lemma {:induction false} NumBound(s: Key)
    ensures Num(s) < Pow256(|s|)
  {
    if s != [] {
      NumBound(s[1..]);
      MulLe(s[0], 0xFF, Pow256(|s| - 1));
    }
  }

  lemma MulLe(x: nat, y: nat, p: nat)
    requires x <= y
    ensures x * p <= y * p
  {
  }

  lemma {:induction false} NumSnoc(s: Key, d: Byte)
    ensures Num(s + [d]) == 0x100 * Num(s) + d
  {
    if s != [] {
      NumSnoc(s[1..], d);
      assert (s + [d])[1..] == s[1..] + [d];
      assert s[0] * Pow256(|s|) == 0x100 * (s[0] * Pow256(|s| - 1));
    } else {
      assert [d][1..] == [];
    }
  }

  /** For strings of one length, numeric order decides the byte order and equal values mean equal strings. */
  lemma {:induction false} NumOrder(x: Key, y: Key)
    requires |x| == |y|
    ensures Num(x) < Num(y) ==> Less(x, y)
    ensures Num(x) == Num(y) ==> x == y
  {
    if x != [] {
      if x[0] < y[0] {
        FirstDigitDecides(x, y);
      } else if x[0] > y[0] {
        FirstDigitDecides(y, x);
      } else {
        NumOrder(x[1..], y[1..]);
        assert x == [x[0]] + x[1..] && y == [y[0]] + y[1..];
      }
    }
  }

  lemma FirstDigitDecides(x: Key, y: Key)
    requires |x| == |y| > 0 && x[0] < y[0]
    ensures Num(x) < Num(y)
  {
    var p := Pow256(|x| - 1);
    NumBound(x[1..]);
    MulLe(x[0] + 1, y[0], p);
    assert (x[0] + 1) * p == x[0] * p + p;
  }

  /** n digits of a key, missing bytes read as 0. */
  function Digit(k: Key, i: nat): Byte
  {
    if i < |k| then k[i] else 0
  }

  function Pad(k: Key, n: nat): (p: Key)
    ensures |p| == n
    ensures forall j :: 0 <= j < n ==> p[j] == Digit(k, j)
  {
    if n == 0 then [] else Pad(k, n - 1) + [Digit(k, n - 1)]
  }

  lemma {:induction false} PadOfLonger(k: Key, n: nat)
    requires n <= |k|
    ensures Pad(k, n) == k[..n]
  {
  }

  function Zeros(n: nat): (z: Key)
    ensures |z| == n && forall j :: 0 <= j < n ==> z[j] == 0
  {
    Pad([], n)
  }

  lemma {:induction false} NothingBelowZeros(s: Key)
    ensures !Less(s, Zeros(|s|))
  {
    if s != [] {
      NothingBelowZeros(s[1..]);
      assert Zeros(|s|)[1..] == Zeros(|s| - 1);
    }
  }

  /** Order between padded prefixes carries over to the keys themselves. */
  lemma {:induction false} PadLess(x: Key, y: Key, n: nat)
    requires Less(Pad(x, n), Pad(y, n))
    ensures Less(x, y)
  {
    var px, py := Pad(x, n), Pad(y, n);
    if y == [] {
      assert py == Zeros(n);
      NothingBelowZeros(px);
    } else if x != [] {
      assert n > 0;
      assert px[1..] == Pad(x[1..], n - 1);
      assert py[1..] == Pad(y[1..], n - 1);
      if px[0] == py[0] {
        PadLess(x[1..], y[1..], n - 1);
      }
    }
  }

  /** The n-digit base-256 numeral of v, keeping the low n digits. */
  function Digits(v: nat, n: nat): (s: Key)
    ensures |s| == n
  {
    if n == 0 then [] else Digits(v / 0x100, n - 1) + [v % 0x100]
  }

  lemma {:induction false} NumDigits(v: nat, n: nat)
    requires v < Pow256(n)
    ensures Num(Digits(v, n)) == v
  {
    if n > 0 {
      assert v / 0x100 < Pow256(n - 1);
      NumDigits(v / 0x100, n - 1);
      NumSnoc(Digits(v / 0x100, n - 1), v % 0x100);
    }
  }

  // ----------------------------------------------------------- bisection

  datatype BisectError = Equal

  /**
   * The loop of the bisecting constructor from position i on, with the
   * digits copied so far in buf and the two carries. It stops at the first
   * position where the operands differ by 2 or more, giving the prefix and
   * the (unbounded) middle value; None when all n positions are used.
   */
  function Scan(a: Key, b: Key, bias: nat, n: nat, i: nat, ca: nat, cb: nat, buf: Key): (r: Option<(Key, nat)>)
    requires bias < 0x100
    requires |buf| == i <= n
    requires (ca == 0 || ca == 0x100) && (cb == 0 || cb == 0x100) && (ca == 0 || cb == 0)
    ensures r.Some? ==> |r.value.0| < n
    decreases n - i
  {
    if i == n then None
    else
      var av: nat := Digit(a, i) + ca;
      var bv: nat := Digit(b, i) + cb;
      if av == bv then Scan(a, b, bias, n, i + 1, ca, cb, buf + [av])
      else if av == bv + 1 then Scan(a, b, bias, n, i + 1, 0x100, cb, buf + [bv])
      else if av + 1 == bv then Scan(a, b, bias, n, i + 1, ca, 0x100, buf + [av])
      else
        var middle := Middle(av, bv, bias);
        Some((buf, if middle == av || middle == bv then middle + 1 else middle))
  }

  /** `(av * (0x100 - bias) + bv * bias) >> 8`: the biased floor average. */
  function Middle(av: nat, bv: nat, bias: nat): nat
    requires bias < 0x100
  {
    var w: nat := 0x100 - bias;
    var x: nat := av * w;
    var y: nat := bv * bias;
    (x + y) / 0x100
  }

  /** The bisection as the source writes it: the last byte is `middle` truncated to uint8. */
  function BisectAsWritten(a: Key, b: Key, bias: nat): (r: Result<Key, BisectError>)
    requires |a| > 0 && |b| > 0 && a != b && bias < 0x100
    ensures r.Ok? ==> 0 < |r.value| <= (if |a| < |b| then |b| else |a|) + 1
  {
    var n := (if |a| < |b| then |b| else |a|) + 1;
    match Scan(a, b, bias, n, 0, 0, 0, [])
    case None => Err(Equal)
    case Some((buf, middle)) => Ok(buf + [middle % 0x100])
  }

  /** The same input found a key below a: 10 C8 and 11 80 bisect to 10 24. */
  lemma BisectAsWrittenLeavesRange()
    ensures BisectAsWritten([0x10, 0xC8], [0x11, 0x80], 0x80) == Ok([0x10, 0x24])
    ensures Less([0x10, 0xC8], [0x11, 0x80])
    ensures Less([0x10, 0x24], [0x10, 0xC8])
  {
    var a, b := [0x10, 0xC8], [0x11, 0x80];
    assert Middle(0xC8, 0x180, 0x80) == 0x124;
    assert Scan(a, b, 0x80, 3, 1, 0, 0x100, [0x10]) == Some(([0x10], 0x124));
    assert [] + [0x10] == [0x10];
    assert [0x10] + [0x124 % 0x100] == [0x10, 0x24];
    assert Scan(a, b, 0x80, 3, 0, 0, 0, []) == Some(([0x10], 0x124));
  }

  /** Bisection as intended: the middle value is added into the prefix with its carry. */
  function BisectSpec(a: Key, b: Key, bias: nat): (r: Result<Key, BisectError>)
    requires |a| > 0 && |b| > 0 && a != b && bias < 0x100
  {
    var n := (if |a| < |b| then |b| else |a|) + 1;
    match Scan(a, b, bias, n, 0, 0, 0, [])
    case None => Err(Equal)
    case Some((buf, middle)) => Ok(Digits(0x100 * Num(buf) + middle, |buf| + 1))
  }

  /** Where the scan meets a difference of 2 or more, the middle lies strictly between. */
  lemma MiddleBetween(av: nat, bv: nat, bias: nat)
    requires bias < 0x100
    requires av + 2 <= bv || bv + 2 <= av
    ensures var middle := Middle(av, bv, bias);
      var m := if middle == av || middle == bv then middle + 1 else middle;
      (av < bv ==> av < m < bv) && (bv < av && bias > 0 ==> bv < m < av)
  {
    if av < bv {
      MiddleAbove(av, bv - av, 0x100 - bias, bias);
    } else if bias > 0 {
      MiddleAbove(bv, av - bv, bias, 0x100 - bias);
      assert Middle(av, bv, bias) == Middle(bv, av, 0x100 - bias);
    }
  }

  /** Weighting lo by w and lo + d by c, with w + c = 256 and c < 256, lands in [lo, lo + d). */
  lemma MiddleAbove(lo: nat, d: nat, w: nat, c: nat)
    requires w + c == 0x100 && c < 0x100 && d > 0
    ensures lo <= (lo * w + (lo + d) * c) / 0x100 < lo + d
  {
    assert (lo + d) * c == lo * c + d * c;
    assert lo * w + lo * c == lo * 0x100;
    assert d * c < 0x100 * d;
    DivBetween(lo, d * c, d);
  }

  lemma DivBetween(lo: nat, x: nat, d: nat)
    requires x < 0x100 * d
    ensures lo <= (0x100 * lo + x) / 0x100 < lo + d
  {
    assert (0x100 * lo + x) / 0x100 == lo + x / 0x100;
  }

  /**
   * What the scan keeps true: the first i padded digits of a (of b) are
   * worth the prefix plus one exactly when carry_a (carry_b) is set, and
   * no carry is pending once both operands have run out.
   */
  predicate ScanInvariant(a: Key, b: Key, i: nat, ca: nat, cb: nat, buf: Key)
  {
    |buf| == i
    && (ca == 0 || ca == 0x100) && (cb == 0 || cb == 0x100) && (ca == 0 || cb == 0)
    && Num(Pad(a, i)) == Num(buf) + ca / 0x100
    && Num(Pad(b, i)) == Num(buf) + cb / 0x100
    && (i > |a| && i > |b| ==> ca == 0 && cb == 0)
  }

  lemma NumPadStep(k: Key, i: nat)
    ensures Num(Pad(k, i + 1)) == 0x100 * Num(Pad(k, i)) + Digit(k, i)
  {
    NumSnoc(Pad(k, i), Digit(k, i));
  }

  /** One step of the scan that does not stop keeps the invariant: the digit goes to the prefix. */
  lemma ScanStep(a: Key, b: Key, i: nat, ca: nat, cb: nat, buf: Key, d: nat, ca': nat, cb': nat)
    requires ScanInvariant(a, b, i, ca, cb, buf)
    requires var av := Digit(a, i) + ca; var bv := Digit(b, i) + cb;
      (av == bv && d == av && ca' == ca && cb' == cb)
      || (av == bv + 1 && d == bv && ca' == 0x100 && cb' == cb)
      || (av + 1 == bv && d == av && ca' == ca && cb' == 0x100)
    ensures d < 0x100 && ScanInvariant(a, b, i + 1, ca', cb', buf + [d])
  {
    NumPadStep(a, i);
    NumPadStep(b, i);
    NumSnoc(buf, d);
  }

  lemma PadEqualDigits(a: Key, b: Key, n: nat, i: nat)
    requires i < n
    ensures Pad(a, n) == Pad(b, n) ==> Digit(a, i) == Digit(b, i) && Pad(a, i) == Pad(b, i)
  {
    if Pad(a, n) == Pad(b, n) {
      assert Pad(a, n)[i] == Pad(b, n)[i];
      assert Pad(a, i) == Pad(a, n)[..i] && Pad(b, i) == Pad(b, n)[..i];
    }
  }

  /** The scan gives up (throws) exactly when the padded operands are equal. */
  lemma {:induction false} ScanNone(a: Key, b: Key, bias: nat, n: nat, i: nat, ca: nat, cb: nat, buf: Key)
    requires bias < 0x100 && i <= n && |a| < n && |b| < n
    requires ScanInvariant(a, b, i, ca, cb, buf)
    ensures Scan(a, b, bias, n, i, ca, cb, buf).None? <==> Pad(a, n) == Pad(b, n)
    decreases n - i
  {
    if i == n {
      NumOrder(Pad(a, n), Pad(b, n));
    } else {
      var av: nat := Digit(a, i) + ca;
      var bv: nat := Digit(b, i) + cb;
      PadEqualDigits(a, b, n, i);
      if av == bv {
        ScanStep(a, b, i, ca, cb, buf, av, ca, cb);
        ScanNone(a, b, bias, n, i + 1, ca, cb, buf + [av]);
      } else if av == bv + 1 {
        ScanStep(a, b, i, ca, cb, buf, bv, 0x100, cb);
        ScanNone(a, b, bias, n, i + 1, 0x100, cb, buf + [bv]);
      } else if av + 1 == bv {
        ScanStep(a, b, i, ca, cb, buf, av, ca, 0x100);
        ScanNone(a, b, bias, n, i + 1, ca, 0x100, buf + [av]);
      }
    }
  }

  /** Where the scan stops, prefix and middle together lie strictly between the padded operands. */
  lemma {:induction false} ScanSome(a: Key, b: Key, bias: nat, n: nat, i: nat, ca: nat, cb: nat, buf: Key)
    requires bias < 0x100 && i <= n && |a| < n && |b| < n
    requires ScanInvariant(a, b, i, ca, cb, buf)
    ensures var r := Scan(a, b, bias, n, i, ca, cb, buf);
      r.Some? ==> Stops(a, b, bias, r.value.0, r.value.1)
    decreases n - i
  {
    if i < n {
      var av: nat := Digit(a, i) + ca;
      var bv: nat := Digit(b, i) + cb;
      if av == bv {
        ScanStep(a, b, i, ca, cb, buf, av, ca, cb);
        ScanSome(a, b, bias, n, i + 1, ca, cb, buf + [av]);
      } else if av == bv + 1 {
        ScanStep(a, b, i, ca, cb, buf, bv, 0x100, cb);
        ScanSome(a, b, bias, n, i + 1, 0x100, cb, buf + [bv]);
      } else if av + 1 == bv {
        ScanStep(a, b, i, ca, cb, buf, av, ca, 0x100);
        ScanSome(a, b, bias, n, i + 1, ca, 0x100, buf + [av]);
      } else {
        StopsHere(a, b, bias, i, ca, cb, buf);
      }
    }
  }

  lemma StopsHere(a: Key, b: Key, bias: nat, i: nat, ca: nat, cb: nat, buf: Key)
    requires bias < 0x100
    requires ScanInvariant(a, b, i, ca, cb, buf)
    requires var av := Digit(a, i) + ca; var bv := Digit(b, i) + cb; av + 2 <= bv || bv + 2 <= av
    ensures var av := Digit(a, i) + ca; var bv := Digit(b, i) + cb; var middle := Middle(av, bv, bias);
      Stops(a, b, bias, buf, if middle == av || middle == bv then middle + 1 else middle)
  {
    var av := Digit(a, i) + ca;
    var bv := Digit(b, i) + cb;
    NumPadStep(a, i);
    NumPadStep(b, i);
    MiddleBetween(av, bv, bias);
  }

  /** The value prefix * 256 + middle lies strictly between the operands' padded prefixes of that length. */
  predicate Stops(a: Key, b: Key, bias: nat, prefix: Key, middle: nat)
  {
    var k := |prefix| + 1;
    var v := 0x100 * Num(prefix) + middle;
    Num(Pad(a, k)) != Num(Pad(b, k))
    && (Num(Pad(a, k)) < Num(Pad(b, k)) ==> Num(Pad(a, k)) < v < Num(Pad(b, k)))
    && (Num(Pad(b, k)) < Num(Pad(a, k)) && bias > 0 ==> Num(Pad(b, k)) < v < Num(Pad(a, k)))
  }

  /** Padded digit strings that differ at their first i+1 positions differ at n >= i+1 positions. */
  lemma PadsDiffer(a: Key, b: Key, n: nat, i: nat)
    requires i < n
    requires Pad(a, i + 1) != Pad(b, i + 1)
    ensures Pad(a, n) != Pad(b, n)
  {
    var j :| 0 <= j < i + 1 && Pad(a, i + 1)[j] != Pad(b, i + 1)[j];
    assert Pad(a, n)[j] != Pad(b, n)[j];
  }

  function MaxSize(a: Key, b: Key): nat
  {
    (if |a| < |b| then |b| else |a|) + 1
  }

  /**
   * The bisecting constructor's promise: it throws exactly when the operands
   * agree once padded with zeros to max(size)+1 bytes; otherwise the result
   * has at most max(size)+1 bytes and lies strictly between the operands
   * (for operands given high first, only with a non-zero bias).
   */
  lemma BisectBetween(a: Key, b: Key, bias: nat)
    requires |a| > 0 && |b| > 0 && a != b && bias < 0x100
    ensures BisectSpec(a, b, bias).Err? <==> Pad(a, MaxSize(a, b)) == Pad(b, MaxSize(a, b))
    ensures BisectSpec(a, b, bias).Ok? ==> 0 < |BisectSpec(a, b, bias).value| <= MaxSize(a, b)
    ensures BisectSpec(a, b, bias).Ok? && Less(a, b) ==>
      Less(a, BisectSpec(a, b, bias).value) && Less(BisectSpec(a, b, bias).value, b)
    ensures BisectSpec(a, b, bias).Ok? && Less(b, a) && bias > 0 ==>
      Less(b, BisectSpec(a, b, bias).value) && Less(BisectSpec(a, b, bias).value, a)
  {
    var n := MaxSize(a, b);
    assert ScanInvariant(a, b, 0, 0, 0, []);
    ScanNone(a, b, bias, n, 0, 0, 0, []);
    ScanSome(a, b, bias, n, 0, 0, 0, []);
    var sc := Scan(a, b, bias, n, 0, 0, 0, []);
    if sc.Some? {
      var (prefix, middle) := sc.value;
      StopsOrder(a, b, bias, prefix, middle);
      assert BisectSpec(a, b, bias) == Ok(Digits(0x100 * Num(prefix) + middle, |prefix| + 1));
    }
  }

  /** Writing prefix * 256 + middle back as |prefix|+1 digits gives a key between the operands. */
  lemma StopsOrder(a: Key, b: Key, bias: nat, prefix: Key, middle: nat)
    requires Stops(a, b, bias, prefix, middle)
    ensures var r := Digits(0x100 * Num(prefix) + middle, |prefix| + 1);
      (Less(a, b) ==> Less(a, r) && Less(r, b)) && (Less(b, a) && bias > 0 ==> Less(b, r) && Less(r, a))
  {
    var k := |prefix| + 1;
    var v := 0x100 * Num(prefix) + middle;
    var pa, pb := Pad(a, k), Pad(b, k);
    NumOrder(pa, pb);
    NumOrder(pb, pa);
    if Num(pa) < Num(pb) {
      ValueBetween(a, b, k, v);
      PadLess(a, b, k);
      LessStrictTotalOrder(a, b, a);
    } else {
      PadLess(b, a, k);
      LessStrictTotalOrder(a, b, a);
      if bias > 0 {
        ValueBetween(b, a, k, v);
      }
    }
  }

  lemma ValueBetween(lo: Key, hi: Key, k: nat, v: nat)
    requires Num(Pad(lo, k)) < v < Num(Pad(hi, k))
    ensures Less(lo, Digits(v, k)) && Less(Digits(v, k), hi)
  {
    var r := Digits(v, k);
    NumBound(Pad(hi, k));
    NumDigits(v, k);
    PadOfLonger(r, k);
    assert r[..k] == r;
    NumOrder(Pad(lo, k), r);
    NumOrder(r, Pad(hi, k));
    PadLess(lo, r, k);
    PadLess(r, hi, k);
  }

  /** The constructor's loop: copy equal bytes, carry on a difference of one, stop at a larger one. */
  method Bisect(a: Key, b: Key, bias: nat) returns (r: Result<Key, BisectError>)
    requires |a| > 0 && |b| > 0 && a != b && bias < 0x100
    ensures r == BisectSpec(a, b, bias)
    ensures r.Err? <==> Pad(a, MaxSize(a, b)) == Pad(b, MaxSize(a, b))
    ensures r.Ok? && Less(a, b) ==> Less(a, r.value) && Less(r.value, b)
  {
    var maxSize := (if |a| > |b| then |a| else |b|) + 1;
    var buf: Key := [];
    var carryA: nat, carryB: nat := 0, 0;
    var i := 0;
    while i < maxSize
      invariant i <= maxSize && |buf| == i
      invariant (carryA == 0 || carryA == 0x100) && (carryB == 0 || carryB == 0x100) && (carryA == 0 || carryB == 0)
      invariant Scan(a, b, bias, maxSize, i, carryA, carryB, buf) == Scan(a, b, bias, maxSize, 0, 0, 0, [])
    {
      var av: int := (if i < |a| then a[i] else 0) + carryA;
      var bv: int := (if i < |b| then b[i] else 0) + carryB;
      assert av == Digit(a, i) + carryA && bv == Digit(b, i) + carryB;
      if av - bv == 0 {
        buf := buf + [av];
      } else if av - bv == 1 {
        buf := buf + [bv];
        carryA := 0x100;
      } else if av - bv == -1 {
        buf := buf + [av];
        carryB := 0x100;
      } else {
        var middle := Middle(av, bv, bias);
        if middle == av || middle == bv {
          middle := middle + 1;
        }
        r := Ok(Digits(0x100 * Num(buf) + middle, i + 1));
        assert r == BisectSpec(a, b, bias);
        BisectBetween(a, b, bias);
        return;
      }
      i := i + 1;
    }
    r := Err(Equal);
    BisectBetween(a, b, bias);
  }

  /** Nested bisection between 0 and 1 stays strictly inside (0, 1), as the repeated-bisection tests expect. */
  lemma BisectStaysInUnit(a: Key, b: Key, bias: nat)
    requires |a| > 0 && |b| > 0 && bias < 0x100
    requires Le(Zero, a) && Less(a, b) && Le(b, One)
    ensures a != b
    ensures BisectSpec(a, b, bias).Ok? ==> Less(Zero, BisectSpec(a, b, bias).value) && Less(BisectSpec(a, b, bias).value, One)
  {
    LessIrreflexive(a);
    BisectBetween(a, b, bias);
    if BisectSpec(a, b, bias).Ok? {
      var r := BisectSpec(a, b, bias).value;
      if Zero != a {
        LessTransitive(Zero, a, r);
      }
      if b != One {
        LessTransitive(r, b, One);
      }
    }
  }

  // ----------------------------------------------------------------- hex

  /** hex(): two upper-case digits per byte, high nybble first. */
  function HexOf(k: Key): (s: string)
    ensures |s| == 2 * |k|
  {
    if k == [] then [] else [Text.ToHexDigit(k[0] / 0x10), Text.ToHexDigit(k[0] % 0x10)] + HexOf(k[1..])
  }

  lemma {:induction false} HexOfAt(k: Key, j: nat)
    requires j < |k|
    ensures HexOf(k)[2 * j] == Text.ToHexDigit(k[j] / 0x10)
    ensures HexOf(k)[2 * j + 1] == Text.ToHexDigit(k[j] % 0x10)
  {
    if j > 0 {
      HexOfAt(k[1..], j - 1);
    }
  }

  lemma HexDigitMonotone(x: nat, y: nat)
    requires x < y < 16
    ensures Text.ToHexDigit(x) < Text.ToHexDigit(y)
  {
  }

  /** Comparing hex renderings as strings agrees with comparing the keys. */
  lemma {:induction false} HexOrder(a: Key, b: Key)
    ensures Less(a, b) <==> JsString.StrLess(HexOf(a), HexOf(b))
  {
    if a != [] && b != [] {
      var ha, hb := HexOf(a), HexOf(b);
      var x, y := a[0], b[0];
      assert ha[0] == Text.ToHexDigit(x / 0x10) && ha[1] == Text.ToHexDigit(x % 0x10);
      assert hb[0] == Text.ToHexDigit(y / 0x10) && hb[1] == Text.ToHexDigit(y % 0x10);
      assert ha[1..][1..] == HexOf(a[1..]) && hb[1..][1..] == HexOf(b[1..]);
      if x / 0x10 < y / 0x10 {
        HexDigitMonotone(x / 0x10, y / 0x10);
      } else if y / 0x10 < x / 0x10 {
        HexDigitMonotone(y / 0x10, x / 0x10);
      } else if x % 0x10 < y % 0x10 {
        HexDigitMonotone(x % 0x10, y % 0x10);
      } else if y % 0x10 < x % 0x10 {
        HexDigitMonotone(y % 0x10, x % 0x10);
      } else {
        assert x == y;
        HexOrder(a[1..], b[1..]);
      }
    }
  }

  /** The hex test: bisecting 0 and the bisection of 0 and 1 (bias 0x80) renders as "3F". */
  lemma HexOfNestedBisection()
    ensures BisectSpec(Zero, One, 0x80) == Ok([0x7F])
    ensures BisectSpec(Zero, [0x7F], 0x80) == Ok([0x3F])
    ensures HexOf([0x3F]) == "3F"
  {
    assert Middle(0, 0xFF, 0x80) == 0x7F;
    assert Scan(Zero, One, 0x80, 2, 0, 0, 0, []) == Some(([], 0x7F));
    assert Digits(0x7F, 1) == [0x7F];
    assert Middle(0, 0x7F, 0x80) == 0x3F;
    assert Scan(Zero, [0x7F], 0x80, 2, 0, 0, 0, []) == Some(([], 0x3F));
    assert Digits(0x3F, 1) == [0x3F];
  }

  // ------------------------------------------------------------ storage

  /** A Bifractor variable: its size and bytes, which decide its value. */
  class Slot {
    var bytes: seq<Byte>

    /** Bifractor(bool one) */
    constructor Constant(one: bool)
      ensures bytes == FromBool(one)
    {
      bytes := FromBool(one);
    }

    /** Bifractor(const void*, size_t): copies size bytes from the buffer. */
    constructor FromBuffer(p: array<Byte>, size: nat)
      requires size <= p.Length
      ensures bytes == p[..size]
    {
      var i := 0;
      var copied: seq<Byte> := [];
      while i < size
        invariant i <= size && copied == p[..i]
      {
        copied := copied + [p[i]];
        i := i + 1;
      }
      bytes := copied;
    }

    /** The copy constructor reproduces the source exactly. */
    constructor Copy(b: Slot)
      ensures bytes == b.bytes
    {
      bytes := b.bytes;
    }

    /** The move constructor takes the bytes and leaves the source empty (size 0). */
    constructor Move(b: Slot)
      modifies b
      ensures bytes == old(b.bytes) && b.bytes == []
    {
      bytes := b.bytes;
      b.bytes := [];
    }

    /** Both assignment operators rebuild this with the copy constructor, so the source keeps its bytes. */
    method Assign(b: Slot)
      modifies this
      ensures bytes == old(b.bytes)
      ensures b != this ==> b.bytes == old(b.bytes)
    {
      bytes := b.bytes;
    }

    /** hex() */
    method Hex() returns (r: string)
      requires |bytes| > 0
      ensures r == HexOf(bytes)
    {
      var k := bytes;
      var out := seq(2 * |k|, _ => '0');
      var i := 0;
      while i < |k|
        invariant i <= |k| && |out| == 2 * |k|
        invariant forall j :: 0 <= j < i ==> out[2 * j] == Text.ToHexDigit(k[j] / 0x10) && out[2 * j + 1] == Text.ToHexDigit(k[j] % 0x10)
      {
        out := out[2 * i := Text.ToHexDigit(k[i] / 0x10)][2 * i + 1 := Text.ToHexDigit(k[i] % 0x10)];
        i := i + 1;
      }
      forall m | 0 <= m < |out|
        ensures out[m] == HexOf(k)[m]
      {
        HexOfAt(k, m / 2);
      }
      r := out;
    }
  }
}
