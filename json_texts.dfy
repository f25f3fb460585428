/**
 * The texts of json/json_test.cpp, and one text for each number form
 * wcstod reads besides the decimal one: each reads back and is written out
 * unchanged. "0x" shows where wcstod stops when a form is cut short.
 */
module JsonTexts {
  import opened Wrappers
  import opened Json

  lemma {:induction false} LiteralTexts(n: string, t: string, f: string)
    requires n == "null" && t == "true" && f == "false"
    ensures Canonical(n) && Canonical(t) && Canonical(f)
  {
    CanonicalOf(Null, n);
    CanonicalOf(Bool(true), t);
    CanonicalOf(Bool(false), f);
  }

  lemma {:induction false} IntegerTexts(a: string, b: string)
    requires a == "0" && b == "12343"
    ensures Canonical(a) && Canonical(b)
  {
    assert Scan(Step, a, 1, Dec(Zero), 1) == 1;
    assert NumberEnd(a, 0) == 1;
    CanonicalOf(Number("0"), a);
    assert Scan(Step, b, 5, Dec(Int), 5) == 5 && Scan(Step, b, 4, Dec(Int), 4) == 5 && Scan(Step, b, 3, Dec(Int), 3) == 5;
    assert Scan(Step, b, 2, Dec(Int), 2) == 5 && Scan(Step, b, 1, Dec(Int), 1) == 5;
    assert NumberEnd(b, 0) == 5;
    CanonicalOf(Number("12343"), b);
  }

  lemma {:induction false} FractionText(a: string)
    requires a == "35.324"
    ensures Canonical(a)
  {
    assert Scan(Step, a, 6, Dec(Frac), 6) == 6 && Scan(Step, a, 5, Dec(Frac), 5) == 6 && Scan(Step, a, 4, Dec(Frac), 4) == 6;
    assert Scan(Step, a, 3, Dec(Frac), 3) == 6 && Scan(Step, a, 2, Dec(Int), 2) == 6 && Scan(Step, a, 1, Dec(Int), 1) == 6;
    assert NumberEnd(a, 0) == 6;
    CanonicalOf(Number(a), a);
  }

  lemma {:induction false} NegativeText(a: string)
    requires a == "-45.5"
    ensures Canonical(a)
  {
    assert Scan(Step, a, 5, Dec(Frac), 5) == 5 && Scan(Step, a, 4, Dec(Frac), 4) == 5 && Scan(Step, a, 3, Dec(Int), 3) == 5;
    assert Scan(Step, a, 2, Dec(Int), 2) == 5 && Scan(Step, a, 1, Signed, 0) == 5;
    assert NumberEnd(a, 0) == 5;
    CanonicalOf(Number(a), a);
  }

  lemma {:induction false} ExponentText(a: string)
    requires a == "1.3241e-54"
    ensures Canonical(a)
  {
    ExponentTail(a);
    assert Scan(Step, a, 5, Dec(Frac), 5) == 10 && Scan(Step, a, 4, Dec(Frac), 4) == 10;
    assert Scan(Step, a, 3, Dec(Frac), 3) == 10 && Scan(Step, a, 2, Dec(Frac), 2) == 10 && Scan(Step, a, 1, Dec(Int), 1) == 10;
    assert NumberEnd(a, 0) == 10;
    CanonicalOf(Number(a), a);
  }

  /** The exponent part "e-54" is read to the end. */
  lemma {:induction false} ExponentTail(a: string)
    requires a == "1.3241e-54"
    ensures Scan(Step, a, 6, Dec(Frac), 6) == 10
  {
    assert Scan(Step, a, 10, Dec(ExpDigits), 10) == 10 && Scan(Step, a, 9, Dec(ExpDigits), 9) == 10;
    assert Scan(Step, a, 8, Dec(ExpSign), 6) == 10 && Scan(Step, a, 7, Dec(Exp), 6) == 10;
  }

  /** wcstod reads the hexadecimal form, so "[0x10]" is an array holding the lexeme "0x10". */
  lemma {:induction false} HexText(a: string)
    requires a == "[0x10]"
    ensures Parse(a) == Ok(Arr([Number("0x10")])) && Canonical(a)
  {
    var t := "0x10";
    HexLexeme(t);
    assert Elems([Number(t)]) == Stringify(Number(t)) == t;
    assert Stringify(Arr([Number(t)])) == "[" + t + "]" == a;
    CanonicalOf(Arr([Number(t)]), a);
  }

  /** "0x10" is one number lexeme from end to end. */
  lemma {:induction false} HexLexeme(t: string)
    requires t == "0x10"
    ensures NumberEnd(t, 0) == 4
  {
    assert Scan(Step, t, 4, Hex(HexInt), 4) == 4 && Scan(Step, t, 3, Hex(HexInt), 3) == 4;
    assert Scan(Step, t, 2, Hex(HexMark), 1) == 4 && Scan(Step, t, 1, Dec(Zero), 1) == 4;
  }

  /** "0x" without a hexadecimal digit is read as the number 0, which leaves the 'x' unread. */
  lemma {:induction false} HexNeedsDigit(a: string)
    requires a == "0x"
    ensures ReadValue(a, 0) == Ok((Number("0"), 1)) && Parse(a).Err?
  {
    assert Scan(Step, a, 2, Hex(HexMark), 1) == 1 && Scan(Step, a, 1, Dec(Zero), 1) == 1;
    assert NumberEnd(a, 0) == 1;
    assert a[0..1] == "0";
  }

  /** After a '-', wcstod reads INF in any case. */
  lemma {:induction false} InfText(a: string)
    requires a == "-inF"
    ensures Canonical(a)
  {
    ScanInf(a, 1, Signed, 0);
    assert Scan(Step, a, 1, Signed, 0) == 4;
    CanonicalOf(Number(a), a);
  }

  /** INF goes on to INFINITY when the rest of the word follows, here with a capital letter. */
  lemma {:induction false} InfinityText(b: string)
    requires b == "-Infinity"
    ensures Canonical(b)
  {
    ScanInfinity(b, 4, 4);
    ScanInf(b, 1, Signed, 0);
    assert Scan(Step, b, 1, Signed, 0) == 9;
    CanonicalOf(Number(b), b);
  }

  /** NAN takes a parenthesised run of letters, digits and '_' after it. */
  lemma {:induction false} NanText(c: string)
    requires c == "-nan(1)"
    ensures Canonical(c)
  {
    assert Scan(Step, c, 6, Word(NanParen), 4) == 7 && Scan(Step, c, 4, Word(Nan), 4) == 7;
    ScanNan(c, 1, Signed, 0);
    assert Scan(Step, c, 1, Signed, 0) == 7;
    CanonicalOf(Number(c), c);
  }

  lemma {:induction false} StringText(a: string)
    requires a == "\"foo\""
    ensures Canonical(a)
  {
    CanonicalOf(Str("foo"), a);
  }

  lemma {:induction false} ArrayTexts(a: string)
    requires a == "[]"
    ensures Canonical(a)
  {
    CanonicalOf(Arr([]), a);
  }

  lemma {:induction false} ObjectTexts(a: string)
    requires a == "{}"
    ensures Canonical(a)
  {
    CanonicalOf(Obj([]), a);
  }
}
