/**
 * The JSON reader and writer of json/json.cpp. Text is a sequence of wide
 * characters; the reader stops at the end of the text and treats a NUL
 * character as the end as well.
 *
 * Numbers keep the characters they were written with: the source converts
 * them with wcstod and prints them with %g, which this model does not
 * follow (see the README).
 */
module Json {
  import opened Wrappers

  datatype Value =
    | Null
    | Bool(b: bool)
    | Number(text: string)
    | Str(s: string)
    | Arr(elems: seq<Value>)
    | Obj(members: seq<(string, Value)>)

  datatype SyntaxError = SyntaxError

  const NUL: char := '\0'

  // ------------------------------------------------------------ stringify

  /** The escape stringify writes for one character of a string. */
  function EscapeChar(c: char): (r: string)
    ensures |r| == 1 ==> r == [c] && c != '"' && c != '\\'
    ensures |r| != 1 ==> |r| == 2 && r[0] == '\\' && r[1] != NUL && Unescape(r[1]) == c
  {
    if c == '"' then "\\\""
    else if c == '\\' then "\\\\"
    else if c == '\U{08}' then "\\b"
    else if c == '\U{0C}' then "\\f"
    else if c == '\n' then "\\n"
    else if c == '\r' then "\\r"
    else if c == '\t' then "\\t"
    else [c]
  }

  function Escape(t: string): string
  {
    if t == [] then "" else EscapeChar(t[0]) + Escape(t[1..])
  }

  function Quote(t: string): string
  {
    "\"" + Escape(t) + "\""
  }

  /**
   * stringify: no whitespace anywhere; elements and members are appended
   * one by one with a comma before every one but the first.
   */
  function Stringify(v: Value): (r: string)
    ensures |r| > 0
    decreases v, 1
  {
    match v
    case Null => "null"
    case Bool(b) => if b then "true" else "false"
    case Number(t) => if t == [] then "0" else t
    case Str(t) => Quote(t)
    case Arr(es) => "[" + Elems(es) + "]"
    case Obj(ms) => "{" + Members(ms) + "}"
  }

  function Elems(es: seq<Value>): string
    decreases es, 0
  {
    if |es| == 0 then ""
    else if |es| == 1 then Stringify(es[0])
    else Elems(es[..|es| - 1]) + "," + Stringify(es[|es| - 1])
  }

  function Member(m: (string, Value)): string
    decreases m, 2
  {
    Quote(m.0) + ":" + Stringify(m.1)
  }

  function Members(ms: seq<(string, Value)>): string
    decreases ms, 0
  {
    if |ms| == 0 then ""
    else if |ms| == 1 then Member(ms[0])
    else Members(ms[..|ms| - 1]) + "," + Member(ms[|ms| - 1])
  }

  // ------------------------------------------------------- reader (spec)

  /** iswspace in the C locale. */
  predicate IsSpace(c: char)
  {
    c == ' ' || c == '\t' || c == '\n' || c == '\U{0B}' || c == '\U{0C}' || c == '\r'
  }

  /** A letter, a digit or '_': what may stand between the parentheses of NAN(...). */
  predicate IsNChar(c: char)
  {
    '0' <= c <= '9' || 'a' <= c <= 'z' || 'A' <= c <= 'Z' || c == '_'
  }

  /** Every character wcstod may take as part of a number, in any of its forms. */
  predicate IsNumberChar(c: char)
  {
    IsNChar(c) || c == '-' || c == '+' || c == '.' || c == '(' || c == ')'
  }

  /** The character at the cursor; the terminating NUL at the end. */
  function Peek(s: string, i: nat): char
  {
    if i < |s| then s[i] else NUL
  }

  /** get(): NUL without moving at the end, otherwise the next character. */
  function Get(s: string, i: nat): (r: (char, nat))
    requires i <= |s|
    ensures r.1 <= |s| && (i < |s| ==> r.1 == i + 1) && (i == |s| ==> r == (NUL, i))
  {
    if i == |s| then (NUL, i) else (s[i], i + 1)
  }

  /** ws(): skip whitespace. */
  function Ws(s: string, i: nat): (j: nat)
    requires i <= |s|
    ensures i <= j <= |s| && !IsSpace(Peek(s, j))
    decreases |s| - i
  {
    if IsSpace(Peek(s, i)) then Ws(s, i + 1) else i
  }

  predicate IsDigit(c: char)
  {
    '0' <= c <= '9'
  }

  predicate IsHexDigit(c: char)
  {
    '0' <= c <= '9' || 'a' <= c <= 'f' || 'A' <= c <= 'F'
  }

  /** c is the lower-case letter l in either case. */
  predicate Letter(c: char, l: char)
  {
    c == l || c as int == l as int - 32
  }

  /**
   * What wcstod has read of a number so far. An optional sign comes first,
   * then one of three forms:
   *  - Decimal: digits with an optional point, at least one digit in all,
   *    then an optional exponent of 'e', an optional sign and digits;
   *  - Hexadecimal: "0x", hexadecimal digits with an optional point, at
   *    least one digit in all, then an optional exponent of 'p', an
   *    optional sign and decimal digits;
   *  - Spelled: INF, INFINITY, NAN or NAN( letters, digits and '_' ).
   * Letters are read in either case. Dead means that no form can go on.
   */
  datatype Lexing = Start | Signed | Dec(d: Decimal) | Hex(h: Hexadecimal) | Word(w: Spelled) | Dead

  datatype Decimal = Zero | Int | Dot | Frac | Exp | ExpSign | ExpDigits

  datatype Hexadecimal = HexMark | HexInt | HexDot | HexFrac | PExp | PExpSign | PExpDigits

  /** A state partway through a word is named after the letters read so far. */
  datatype Spelled = I | In | Inf | Infi | Infin | Infini | Infinit | Infinity | N | Na | Nan | NanParen | NanClosed

  /** The states in which what has been read is a whole number. */
  predicate Complete(q: Lexing)
  {
    match q
    case Dec(d) => d.Zero? || d.Int? || d.Frac? || d.ExpDigits?
    case Hex(h) => h.HexInt? || h.HexFrac? || h.PExpDigits?
    case Word(w) => w.Inf? || w.Infinity? || w.Nan? || w.NanClosed?
    case _ => false
  }

  /** One more character; only a character that can belong to a number lets a form go on. */
  function Step(q: Lexing, c: char): (r: Lexing)
    ensures !r.Dead? ==> IsNumberChar(c)
  {
    match q
    case Start | Signed => StepStart(q.Start?, c)
    case Dec(d) => StepDecimal(d, c)
    case Hex(h) => StepHex(h, c)
    case Word(w) => StepWord(w, c)
    case Dead => Dead
  }

  /** The first character after the start, where a sign may stand, or after the sign. */
  function StepStart(signAllowed: bool, c: char): (r: Lexing)
    ensures !r.Dead? ==> IsNumberChar(c)
  {
    if signAllowed && (c == '-' || c == '+') then Signed
    else if c == '0' then Dec(Zero)
    else if IsDigit(c) then Dec(Int)
    else if c == '.' then Dec(Dot)
    else if Letter(c, 'i') then Word(I)
    else if Letter(c, 'n') then Word(N)
    else Dead
  }

  /** A leading "0" goes on to the hexadecimal form when an 'x' follows. */
  function StepDecimal(d: Decimal, c: char): (r: Lexing)
    ensures !r.Dead? ==> IsNumberChar(c)
  {
    match d
    case Zero | Int =>
      if d.Zero? && Letter(c, 'x') then Hex(HexMark)
      else if IsDigit(c) then Dec(Int)
      else if c == '.' then Dec(Frac)
      else if Letter(c, 'e') then Dec(Exp)
      else Dead
    case Dot => if IsDigit(c) then Dec(Frac) else Dead
    case Frac => if IsDigit(c) then Dec(Frac) else if Letter(c, 'e') then Dec(Exp) else Dead
    case Exp => if c == '-' || c == '+' then Dec(ExpSign) else if IsDigit(c) then Dec(ExpDigits) else Dead
    case ExpSign | ExpDigits => if IsDigit(c) then Dec(ExpDigits) else Dead
  }

  function StepHex(h: Hexadecimal, c: char): (r: Lexing)
    ensures !r.Dead? ==> IsNumberChar(c)
  {
    match h
    case HexMark => if IsHexDigit(c) then Hex(HexInt) else if c == '.' then Hex(HexDot) else Dead
    case HexInt =>
      if IsHexDigit(c) then Hex(HexInt) else if c == '.' then Hex(HexFrac) else if Letter(c, 'p') then Hex(PExp) else Dead
    case HexDot => if IsHexDigit(c) then Hex(HexFrac) else Dead
    case HexFrac => if IsHexDigit(c) then Hex(HexFrac) else if Letter(c, 'p') then Hex(PExp) else Dead
    case PExp => if c == '-' || c == '+' then Hex(PExpSign) else if IsDigit(c) then Hex(PExpDigits) else Dead
    case PExpSign | PExpDigits => if IsDigit(c) then Hex(PExpDigits) else Dead
  }

  function StepWord(w: Spelled, c: char): (r: Lexing)
    ensures !r.Dead? ==> IsNumberChar(c)
  {
    match w
    case I => if Letter(c, 'n') then Word(In) else Dead
    case In => if Letter(c, 'f') then Word(Inf) else Dead
    case Inf => if Letter(c, 'i') then Word(Infi) else Dead
    case Infi => if Letter(c, 'n') then Word(Infin) else Dead
    case Infin => if Letter(c, 'i') then Word(Infini) else Dead
    case Infini => if Letter(c, 't') then Word(Infinit) else Dead
    case Infinit => if Letter(c, 'y') then Word(Infinity) else Dead
    case N => if Letter(c, 'a') then Word(Na) else Dead
    case Na => if Letter(c, 'n') then Word(Nan) else Dead
    case Nan => if c == '(' then Word(NanParen) else Dead
    case NanParen => if IsNChar(c) then Word(NanParen) else if c == ')' then Word(NanClosed) else Dead
    case Infinity | NanClosed => Dead
  }

  /**
   * The scan of an automaton step from k in state q: it reads while the
   * automaton is not Dead, and ends after the longest prefix read into a
   * Complete state; last is where the longest such prefix so far ends.
   * wcstod's scan is the one of Step.
   */
  function Scan(step: (Lexing, char) -> Lexing, s: string, k: nat, q: Lexing, last: nat): (j: nat)
    requires last <= k <= |s|
    ensures last <= j <= |s|
    decreases |s| - k
  {
    if k == |s| then last
    else
      var r := step(q, s[k]);
      if r.Dead? then last else Scan(step, s, k + 1, r, if Complete(r) then k + 1 else last)
  }

  /**
   * Where wcstod stops reading a number that starts at i: after the longest
   * prefix in one of the forms Lexing lists; at i itself, reading nothing,
   * when no prefix is.
   */
  function NumberEnd(s: string, i: nat): (j: nat)
    requires i <= |s|
    ensures i <= j <= |s|
  {
    Scan(Step, s, i, Start, i)
  }

  lemma {:induction false} ScanChars(s: string, k: nat, q: Lexing, last: nat)
    requires last <= k <= |s|
    ensures forall m :: k <= m < Scan(Step, s, k, q, last) ==> IsNumberChar(s[m])
    decreases |s| - k
  {
    if k < |s| {
      var r := Step(q, s[k]);
      if !r.Dead? {
        ScanChars(s, k + 1, r, if Complete(r) then k + 1 else last);
      }
    }
  }

  /** From the start or after a sign, INF in any case is read whole and is a whole number. */
  lemma {:induction false} ScanInf(s: string, k: nat, q: Lexing, last: nat)
    requires (q.Start? || q.Signed?) && last <= k && k + 3 <= |s|
    requires Letter(s[k], 'i') && Letter(s[k + 1], 'n') && Letter(s[k + 2], 'f')
    ensures Scan(Step, s, k, q, last) == Scan(Step, s, k + 3, Word(Inf), k + 3)
  {
    assert Scan(Step, s, k + 2, Word(In), last) == Scan(Step, s, k + 3, Word(Inf), k + 3);
    assert Scan(Step, s, k + 1, Word(I), last) == Scan(Step, s, k + 3, Word(Inf), k + 3);
  }

  /** After INF, the letters of "inity" in either case go on to INFINITY, which ends the number. */
  lemma {:induction false} ScanInfinity(s: string, k: nat, last: nat)
    requires last <= k && k + 5 <= |s|
    requires Letter(s[k], 'i') && Letter(s[k + 1], 'n') && Letter(s[k + 2], 'i')
    requires Letter(s[k + 3], 't') && Letter(s[k + 4], 'y')
    ensures Scan(Step, s, k, Word(Inf), last) == k + 5
  {
    ScanInfinityEnd(s, k + 2, last);
    assert Scan(Step, s, k + 1, Word(Infi), last) == k + 5;
  }

  lemma {:induction false} ScanInfinityEnd(s: string, k: nat, last: nat)
    requires last <= k && k + 3 <= |s|
    requires Letter(s[k], 'i') && Letter(s[k + 1], 't') && Letter(s[k + 2], 'y')
    ensures Scan(Step, s, k, Word(Infin), last) == k + 3
  {
    assert Scan(Step, s, k + 2, Word(Infinit), last) == k + 3;
  }

  /** From the start or after a sign, NAN in any case is read whole and is a whole number. */
  lemma {:induction false} ScanNan(s: string, k: nat, q: Lexing, last: nat)
    requires (q.Start? || q.Signed?) && last <= k && k + 3 <= |s|
    requires Letter(s[k], 'n') && Letter(s[k + 1], 'a') && Letter(s[k + 2], 'n')
    ensures Scan(Step, s, k, q, last) == Scan(Step, s, k + 3, Word(Nan), k + 3)
  {
    assert Scan(Step, s, k + 2, Word(Na), last) == Scan(Step, s, k + 3, Word(Nan), k + 3);
    assert Scan(Step, s, k + 1, Word(N), last) == Scan(Step, s, k + 3, Word(Nan), k + 3);
  }

  /** wcstod takes only characters that can belong to a number, so a lexeme ends at the first one that cannot. */
  lemma {:induction false} NumberChars(s: string, i: nat)
    requires i <= |s|
    ensures forall m :: i <= m < NumberEnd(s, i) ==> IsNumberChar(s[m])
  {
    ScanChars(s, i, Start, i);
  }

  /** ws() stops at the first character that is not whitespace. */
  lemma {:induction false} WsSkipsSpace(s: string, i: nat)
    requires i <= |s|
    ensures forall k :: i <= k < Ws(s, i) ==> IsSpace(s[k])
    decreases |s| - i
  {
    if IsSpace(Peek(s, i)) {
      WsSkipsSpace(s, i + 1);
    }
  }

  /** What str() makes of the character after a backslash. */
  function Unescape(c: char): char
  {
    if c == 'b' then '\U{08}'
    else if c == 'f' then '\U{0C}'
    else if c == 'n' then '\n'
    else if c == 'r' then '\r'
    else if c == 't' then '\t'
    else c
  }

  /** str(): the rest of a string literal after its opening quote. */
  function ReadStr(s: string, i: nat, acc: string): (r: Result<(string, nat), SyntaxError>)
    requires i <= |s|
    ensures r.Ok? ==> i < r.value.1 <= |s|
    decreases |s| - i
  {
    var (c, i1) := Get(s, i);
    if c == NUL then Err(SyntaxError)
    else if c == '"' then Ok((acc, i1))
    else if c == '\\' then
      var (e, i2) := Get(s, i1);
      if e == NUL then Err(SyntaxError) else ReadStr(s, i2, acc + [Unescape(e)])
    else ReadStr(s, i1, acc + [c])
  }

  /** The text t stands at position i of s. */
  predicate At(s: string, i: nat, t: string)
  {
    i + |t| <= |s| && s[i..i + |t|] == t
  }

  /** The letters of a literal after its first one, each of which must match. */
  function Literal(s: string, i: nat, word: string, v: Value): (r: Result<(Value, nat), SyntaxError>)
    requires i <= |s|
    ensures r.Ok? <==> At(s, i, word)
    ensures r.Ok? ==> r.value == (v, i + |word|)
  {
    if At(s, i, word) then Ok((v, i + |word|)) else Err(SyntaxError)
  }

  /** value(): one value after optional whitespace. */
  function ReadValue(s: string, i: nat): (r: Result<(Value, nat), SyntaxError>)
    requires i <= |s|
    ensures r.Ok? ==> i <= r.value.1 <= |s|
    decreases |s| - i, 1
  {
    var j := Ws(s, i);
    var (c, k) := Get(s, j);
    if c == 'n' then Literal(s, k, "ull", Null)
    else if c == 't' then Literal(s, k, "rue", Bool(true))
    else if c == 'f' then Literal(s, k, "alse", Bool(false))
    else if '0' <= c <= '9' || c == '-' then
      var e := NumberEnd(s, j);
      Ok((Number(s[j..e]), e))
    else if c == '"' then ReadString(s, k)
    else if c == '[' then ReadArray(s, k)
    else if c == '{' then ReadObject(s, k)
    else Err(SyntaxError)
  }

  function ReadString(s: string, i: nat): (r: Result<(Value, nat), SyntaxError>)
    requires i <= |s|
    ensures r.Ok? ==> i < r.value.1 <= |s|
  {
    match ReadStr(s, i, "")
    case Ok((t, e)) => Ok((Str(t), e))
    case Err(x) => Err(x)
  }

  /** After '[': optional whitespace, then ']' or the first element. */
  function ReadArray(s: string, i: nat): (r: Result<(Value, nat), SyntaxError>)
    requires i <= |s|
    ensures r.Ok? ==> i < r.value.1 <= |s|
    decreases |s| - i, 3
  {
    var j := Ws(s, i);
    if Peek(s, j) == ']' then Ok((Arr([]), j + 1)) else ReadElems(s, j, [])
  }

  /** After '{': optional whitespace, then '}' or the first member. */
  function ReadObject(s: string, i: nat): (r: Result<(Value, nat), SyntaxError>)
    requires i <= |s|
    ensures r.Ok? ==> i < r.value.1 <= |s|
    decreases |s| - i, 3
  {
    var j := Ws(s, i);
    if Peek(s, j) == '}' then Ok((Obj([]), j + 1)) else ReadMembers(s, j, [])
  }

  /** The array loop: a value, then ']' or ',' after optional whitespace. */
  function ReadElems(s: string, i: nat, acc: seq<Value>): (r: Result<(Value, nat), SyntaxError>)
    requires i <= |s|
    ensures r.Ok? ==> i < r.value.1 <= |s|
    decreases |s| - i, 2
  {
    match ReadValue(s, i)
    case Err(x) => Err(x)
    case Ok((v, i1)) =>
      var (c, i2) := Get(s, Ws(s, i1));
      if c == ']' then Ok((Arr(acc + [v]), i2))
      else if c == ',' then ReadElems(s, i2, acc + [v])
      else Err(SyntaxError)
  }

  /** The object loop: '"' at once, key, optional whitespace, ':', value, then '}' or ','. */
  function ReadMembers(s: string, i: nat, acc: seq<(string, Value)>): (r: Result<(Value, nat), SyntaxError>)
    requires i <= |s|
    ensures r.Ok? ==> i < r.value.1 <= |s|
    decreases |s| - i, 2
  {
    var (q, i1) := Get(s, i);
    if q != '"' then Err(SyntaxError)
    else match ReadStr(s, i1, "")
    case Err(x) => Err(x)
    case Ok((key, i2)) =>
      var (colon, i3) := Get(s, Ws(s, i2));
      if colon != ':' then Err(SyntaxError)
      else match ReadValue(s, i3)
      case Err(x) => Err(x)
      case Ok((v, i4)) =>
        var (c, i5) := Get(s, Ws(s, i4));
        if c == '}' then Ok((Obj(acc + [(key, v)]), i5))
        else if c == ',' then ReadMembers(s, i5, acc + [(key, v)])
        else Err(SyntaxError)
  }

  /** parse(): one value, optional whitespace, and nothing else. */
  function Parse(s: string): (r: Result<Value, SyntaxError>)
  {
    match ReadValue(s, 0)
    case Err(x) => Err(x)
    case Ok((v, i)) => if Ws(s, i) == |s| then Ok(v) else Err(SyntaxError)
  }

  // ------------------------------------------------------------ round trip

  predicate NoNul(t: string)
  {
    forall k :: 0 <= k < |t| ==> t[k] != NUL
  }

  /** A number written the way the reader takes it: it starts with a digit or '-' and wcstod reads all of it. */
  predicate IsLexeme(t: string)
  {
    |t| > 0 && (IsDigit(t[0]) || t[0] == '-') && NumberEnd(t, 0) == |t|
  }

  /** The values stringify writes so that the reader gets them back: lexeme numbers and NUL-free strings and keys. */
  predicate Plain(v: Value)
  {
    match v
    case Null => true
    case Bool(_) => true
    case Number(t) => IsLexeme(t)
    case Str(t) => NoNul(t)
    case Arr(es) => PlainElems(es)
    case Obj(ms) => PlainMembers(ms)
  }

  predicate PlainElems(es: seq<Value>)
  {
    |es| == 0 || (Plain(es[0]) && PlainElems(es[1..]))
  }

  predicate PlainMembers(ms: seq<(string, Value)>)
  {
    if |ms| == 0 then true
    else
      var (k, v) := ms[0];
      assert ms[0] in ms && v < ms[0];
      NoNul(k) && Plain(v) && PlainMembers(ms[1..])
  }


  lemma {:induction false} AtSplit(s: string, i: nat, a: string, b: string)
    requires At(s, i, a + b)
    ensures At(s, i, a) && At(s, i + |a|, b)
  {
    assert s[i..i + |a|] == s[i..i + |a| + |b|][..|a|];
    assert s[i + |a|..i + |a| + |b|] == s[i..i + |a| + |b|][|a|..];
  }

  lemma {:induction false} AtFirst(s: string, i: nat, t: string)
    requires At(s, i, t) && |t| > 0
    ensures i < |s| && s[i] == t[0] && Peek(s, i) == t[0]
  {
    assert s[i..i + |t|][0] == s[i];
  }

  lemma {:induction false} ElemsCons(es: seq<Value>)
    requires |es| >= 2
    ensures Elems(es) == Stringify(es[0]) + "," + Elems(es[1..])
    decreases |es|, 1
  {
    if |es| > 2 {
      ElemsConsMore(es);
    } else {
      ElemsPair(es);
    }
  }

  lemma {:induction false} ElemsConsMore(es: seq<Value>)
    requires |es| > 2
    ensures Elems(es) == Stringify(es[0]) + "," + Elems(es[1..])
    decreases |es|, 0
  {
    var n := |es|;
    var init, rest := es[..n - 1], es[1..];
    assert Elems(es) == Elems(init) + "," + Stringify(es[n - 1]);
    ElemsCons(init);
    assert init[1..] == rest[..n - 2];
    assert rest[n - 2] == es[n - 1];
    assert Elems(rest) == Elems(rest[..n - 2]) + "," + Stringify(rest[n - 2]);
  }

  lemma {:induction false} ElemsPair(es: seq<Value>)
    requires |es| == 2
    ensures Elems(es) == Stringify(es[0]) + "," + Elems(es[1..])
  {
    assert Elems(es[..1]) == Stringify(es[0]);
    assert Elems(es[1..]) == Stringify(es[1]);
  }

  lemma {:induction false} MembersCons(ms: seq<(string, Value)>)
    requires |ms| >= 2
    ensures Members(ms) == Member(ms[0]) + "," + Members(ms[1..])
    decreases |ms|, 1
  {
    if |ms| > 2 {
      MembersConsMore(ms);
    } else {
      MembersPair(ms);
    }
  }

  lemma {:induction false} MembersConsMore(ms: seq<(string, Value)>)
    requires |ms| > 2
    ensures Members(ms) == Member(ms[0]) + "," + Members(ms[1..])
    decreases |ms|, 0
  {
    var n := |ms|;
    var init, rest := ms[..n - 1], ms[1..];
    assert Members(ms) == Members(init) + "," + Member(ms[n - 1]);
    MembersCons(init);
    assert init[1..] == rest[..n - 2];
    assert rest[n - 2] == ms[n - 1];
    assert Members(rest) == Members(rest[..n - 2]) + "," + Member(rest[n - 2]);
  }

  lemma {:induction false} MembersPair(ms: seq<(string, Value)>)
    requires |ms| == 2
    ensures Members(ms) == Member(ms[0]) + "," + Members(ms[1..])
  {
    assert Members(ms[..1]) == Member(ms[0]);
    assert Members(ms[1..]) == Member(ms[1]);
  }

  /** A plain value's text starts with a character that is neither whitespace nor a closing bracket. */
  lemma {:induction false} FirstChar(v: Value)
    requires Plain(v)
    ensures var c := Stringify(v)[0]; !IsSpace(c) && c != ']' && c != '}' && c != NUL
  {
  }

  lemma {:induction false} ElemsFirst(es: seq<Value>)
    requires |es| > 0 && PlainElems(es)
    ensures |Elems(es)| > 0 && Elems(es)[0] == Stringify(es[0])[0]
  {
    if |es| >= 2 { ElemsCons(es); }
  }

  lemma {:induction false} MembersFirst(ms: seq<(string, Value)>)
    requires |ms| > 0
    ensures |Members(ms)| > 0 && Members(ms)[0] == '"'
  {
    if |ms| >= 2 { MembersCons(ms); }
  }

  lemma {:induction false} StrRound(s: string, i: nat, t: string, acc: string)
    requires NoNul(t) && At(s, i, Escape(t)) && Peek(s, i + |Escape(t)|) == '"'
    ensures ReadStr(s, i, acc) == Ok((acc + t, i + |Escape(t)| + 1))
    decreases |t|
  {
    if t == [] {
      assert Get(s, i) == ('"', i + 1);
      assert acc + t == acc;
    } else {
      var e := EscapeChar(t[0]);
      assert Escape(t) == e + Escape(t[1..]);
      AtSplit(s, i, e, Escape(t[1..]));
      assert NoNul(t[1..]);
      StrRound(s, i + |e|, t[1..], acc + [t[0]]);
      assert acc + [t[0]] + t[1..] == acc + t;
      StrStep(s, i, t[0], acc);
    }
  }

  /** str() reads one written character back, escaped or not. */
  lemma {:induction false} StrStep(s: string, i: nat, c: char, acc: string)
    requires c != NUL && At(s, i, EscapeChar(c))
    ensures ReadStr(s, i, acc) == ReadStr(s, i + |EscapeChar(c)|, acc + [c])
  {
    var e := EscapeChar(c);
    AtFirst(s, i, e);
    if |e| == 1 {
      assert Get(s, i) == (c, i + 1);
    } else {
      assert s[i + 1] == e[1];
      assert Get(s, i) == ('\\', i + 1);
      assert Get(s, i + 1) == (e[1], i + 2);
    }
  }


  /** The reader takes back what stringify wrote, wherever it stands in the text. */
  lemma {:induction false} ValueRound(s: string, i: nat, v: Value)
    requires Plain(v) && At(s, i, Stringify(v)) && !IsNumberChar(Peek(s, i + |Stringify(v)|))
    ensures ReadValue(s, i) == Ok((v, i + |Stringify(v)|))
    decreases v, 2
  {
    match v
    case Null => LiteralRound(s, i, v);
    case Bool(_) => LiteralRound(s, i, v);
    case Number(t) => NumberRound(s, i, t);
    case Str(t) => StringRound(s, i, t);
    case Arr(es) => ArrValueRound(s, i, v);
    case Obj(ms) => ObjValueRound(s, i, v);
  }

  lemma {:induction false} ArrValueRound(s: string, i: nat, v: Value)
    requires v.Arr? && Plain(v) && At(s, i, Stringify(v))
    ensures ReadValue(s, i) == Ok((v, i + |Stringify(v)|))
    decreases v, 1
  {
    var es := v.elems;
    var n := |Elems(es)|;
    assert Stringify(v) == "[" + (Elems(es) + "]");
    Bracketed(s, i, '[', Elems(es), ']');
    ArrayRound(s, i + 1, es);
    OpenDispatch(s, i, '[');
  }

  lemma {:induction false} ObjValueRound(s: string, i: nat, v: Value)
    requires v.Obj? && Plain(v) && At(s, i, Stringify(v))
    ensures ReadValue(s, i) == Ok((v, i + |Stringify(v)|))
    decreases v, 1
  {
    var ms := v.members;
    var n := |Members(ms)|;
    assert Stringify(v) == "{" + (Members(ms) + "}");
    Bracketed(s, i, '{', Members(ms), '}');
    ObjectRound(s, i + 1, ms);
    OpenDispatch(s, i, '{');
  }

  /** value() hands an array or an object to its loop right after the opening bracket. */
  lemma {:induction false} OpenDispatch(s: string, i: nat, c: char)
    requires i <= |s| && Ws(s, i) == i && Get(s, i) == (c, i + 1)
    ensures c == '[' ==> ReadValue(s, i) == ReadArray(s, i + 1)
    ensures c == '{' ==> ReadValue(s, i) == ReadObject(s, i + 1)
  {
  }

  lemma {:induction false} Bracketed(s: string, i: nat, open: char, body: string, close: char)
    requires At(s, i, [open] + (body + [close])) && !IsSpace(open)
    ensures Ws(s, i) == i && Get(s, i) == (open, i + 1)
    ensures At(s, i + 1, body) && Peek(s, i + 1 + |body|) == close
  {
    AtSplit(s, i, [open], body + [close]);
    AtSplit(s, i + 1, body, [close]);
    AtFirst(s, i, [open]);
    AtFirst(s, i + 1 + |body|, [close]);
  }

  lemma {:induction false} LiteralRound(s: string, i: nat, v: Value)
    requires (v.Null? || v.Bool?) && At(s, i, Stringify(v))
    ensures ReadValue(s, i) == Ok((v, i + |Stringify(v)|))
  {
    var st := Stringify(v);
    var rest := st[1..];
    assert st == [st[0]] + rest;
    AtSplit(s, i, [st[0]], rest);
    AtFirst(s, i, st);
    assert Ws(s, i) == i;
    assert Get(s, i) == (st[0], i + 1);
  }

  /** The text t stands at i, followed by a character that cannot continue a number. */
  predicate Bounded(s: string, i: nat, t: string)
  {
    At(s, i, t) && !IsNumberChar(Peek(s, i + |t|))
  }

  /**
   * Bounded without the slice: t's characters stand at i in s, and the
   * character after them cannot continue a number.
   */
  predicate Agrees(s: string, i: nat, t: string)
  {
    i + |t| <= |s| && (forall k :: 0 <= k < |t| ==> s[i + k] == t[k]) && !IsNumberChar(Peek(s, i + |t|))
  }

  lemma {:induction false} BoundedAgrees(s: string, i: nat, t: string)
    requires Bounded(s, i, t)
    ensures Agrees(s, i, t)
  {
    forall k | 0 <= k < |t|
      ensures s[i + k] == t[k]
    {
      assert s[i..i + |t|][k] == s[i + k];
    }
  }

  /**
   * The scan reads as far in s as in t alone when t stands at i in s and
   * the automaton dies on every character that cannot belong to a number,
   * as on the one after t.
   */
  lemma {:induction false} ScanLocal(step: (Lexing, char) -> Lexing, s: string, i: nat, t: string, k: nat, q: Lexing, last: nat)
    requires Agrees(s, i, t) && last <= k <= |t|
    requires forall p, c :: !IsNumberChar(c) ==> step(p, c).Dead?
    ensures Scan(step, s, i + k, q, i + last) == i + Scan(step, t, k, q, last)
    decreases |t| - k
  {
    if k < |t| {
      assert s[i + k] == t[k];
      var r := step(q, t[k]);
      if !r.Dead? {
        ScanLocal(step, s, i, t, k + 1, r, if Complete(r) then k + 1 else last);
      }
    } else if i + k < |s| {
      assert Peek(s, i + |t|) == s[i + k];
    }
  }

  /** wcstod reads as far in s as it reads in t alone. */
  lemma {:induction false} NumberLocal(s: string, i: nat, t: string)
    requires Bounded(s, i, t)
    ensures NumberEnd(s, i) == i + NumberEnd(t, 0)
  {
    BoundedAgrees(s, i, t);
    ScanLocal(Step, s, i, t, 0, Start, 0);
  }

  lemma {:induction false} NumberRound(s: string, i: nat, t: string)
    requires IsLexeme(t) && Bounded(s, i, t)
    ensures ReadValue(s, i) == Ok((Number(t), i + |t|))
  {
    NumberLocal(s, i, t);
    AtFirst(s, i, t);
    assert Ws(s, i) == i;
    assert Get(s, i) == (t[0], i + 1);
    assert s[i..i + |t|] == t;
  }

  lemma {:induction false} QuotedRound(s: string, i: nat, t: string)
    requires NoNul(t) && At(s, i, Quote(t))
    ensures Ws(s, i) == i && Get(s, i) == ('"', i + 1)
    ensures ReadStr(s, i + 1, "") == Ok((t, i + |Quote(t)|))
  {
    assert Quote(t) == ['"'] + (Escape(t) + ['"']);
    Bracketed(s, i, '"', Escape(t), '"');
    StrRound(s, i + 1, t, "");
    assert "" + t == t;
  }

  lemma {:induction false} StringRound(s: string, i: nat, t: string)
    requires NoNul(t) && At(s, i, Quote(t))
    ensures ReadValue(s, i) == Ok((Str(t), i + |Quote(t)|))
  {
    QuotedRound(s, i, t);
  }

  /** After the opening bracket, with no whitespace: an empty array, or the first element. */
  lemma {:induction false} EnterArray(s: string, i: nat)
    requires i <= |s| && !IsSpace(Peek(s, i))
    ensures Peek(s, i) == ']' ==> ReadArray(s, i) == Ok((Arr([]), i + 1))
    ensures Peek(s, i) != ']' ==> ReadArray(s, i) == ReadElems(s, i, [])
  {
    assert Ws(s, i) == i;
  }

  /** After the opening brace, with no whitespace: an empty object, or the first member. */
  lemma {:induction false} EnterObject(s: string, i: nat)
    requires i <= |s| && !IsSpace(Peek(s, i))
    ensures Peek(s, i) == '}' ==> ReadObject(s, i) == Ok((Obj([]), i + 1))
    ensures Peek(s, i) != '}' ==> ReadObject(s, i) == ReadMembers(s, i, [])
  {
    assert Ws(s, i) == i;
  }

  lemma {:induction false} ArrayRound(s: string, i: nat, es: seq<Value>)
    requires PlainElems(es) && At(s, i, Elems(es)) && Peek(s, i + |Elems(es)|) == ']'
    ensures ReadArray(s, i) == Ok((Arr(es), i + |Elems(es)| + 1))
    decreases es, 5
  {
    if es == [] {
      assert Elems(es) == "";
      EnterArray(s, i);
    } else {
      ArrayFull(s, i, es);
    }
  }

  lemma {:induction false} ArrayFull(s: string, i: nat, es: seq<Value>)
    requires |es| > 0 && PlainElems(es) && At(s, i, Elems(es)) && Peek(s, i + |Elems(es)|) == ']'
    ensures ReadArray(s, i) == Ok((Arr(es), i + |Elems(es)| + 1))
    decreases es, 4
  {
    ElemsStart(s, i, es);
    EnterArray(s, i);
    ElemsRead(s, i, es, i + |Elems(es)| + 1);
  }

  /** The elements' text starts with neither whitespace nor ']'. */
  lemma {:induction false} ElemsStart(s: string, i: nat, es: seq<Value>)
    requires |es| > 0 && PlainElems(es) && At(s, i, Elems(es))
    ensures i < |s| && !IsSpace(Peek(s, i)) && Peek(s, i) != ']'
  {
    ElemsFirst(es);
    FirstChar(es[0]);
    AtFirst(s, i, Elems(es));
  }

  lemma {:induction false} ElemsRead(s: string, i: nat, es: seq<Value>, fin: nat)
    requires |es| > 0 && PlainElems(es)
    requires At(s, i, Elems(es)) && fin == i + |Elems(es)| + 1 && Peek(s, fin - 1) == ']'
    ensures ReadElems(s, i, []) == Ok((Arr(es), fin))
    decreases es, 3
  {
    ElemsText(s, i, es, fin);
    ElemsLoop(s, i, es, [], fin);
    assert [] + es == es;
  }

  lemma {:induction false} ObjectRound(s: string, i: nat, ms: seq<(string, Value)>)
    requires PlainMembers(ms) && At(s, i, Members(ms)) && Peek(s, i + |Members(ms)|) == '}'
    ensures ReadObject(s, i) == Ok((Obj(ms), i + |Members(ms)| + 1))
    decreases ms, 5
  {
    if ms == [] {
      assert Members(ms) == "";
      EnterObject(s, i);
    } else {
      ObjectFull(s, i, ms);
    }
  }

  lemma {:induction false} ObjectFull(s: string, i: nat, ms: seq<(string, Value)>)
    requires |ms| > 0 && PlainMembers(ms) && At(s, i, Members(ms)) && Peek(s, i + |Members(ms)|) == '}'
    ensures ReadObject(s, i) == Ok((Obj(ms), i + |Members(ms)| + 1))
    decreases ms, 4
  {
    MembersStart(s, i, ms);
    EnterObject(s, i);
    MembersRead(s, i, ms, i + |Members(ms)| + 1);
  }

  /** The members' text starts with the quote of the first key. */
  lemma {:induction false} MembersStart(s: string, i: nat, ms: seq<(string, Value)>)
    requires |ms| > 0 && At(s, i, Members(ms))
    ensures i < |s| && Peek(s, i) == '"'
  {
    MembersFirst(ms);
    AtFirst(s, i, Members(ms));
  }

  lemma {:induction false} MembersRead(s: string, i: nat, ms: seq<(string, Value)>, fin: nat)
    requires |ms| > 0 && PlainMembers(ms)
    requires At(s, i, Members(ms)) && fin == i + |Members(ms)| + 1 && Peek(s, fin - 1) == '}'
    ensures ReadMembers(s, i, []) == Ok((Obj(ms), fin))
    decreases ms, 3
  {
    MembersText(s, i, ms, fin);
    MembersLoop(s, i, ms, [], fin);
    assert [] + ms == ms;
  }

  /** Reading at i gives the elements es one after another, the last one followed by ']' that ends at fin. */
  predicate ElemsAt(s: string, i: nat, es: seq<Value>, fin: nat)
    decreases |es|
  {
    |es| > 0 && i <= |s| &&
    match ReadValue(s, i)
    case Err(_) => false
    case Ok((v, e)) =>
      var (c, j) := Get(s, Ws(s, e));
      v == es[0] && if |es| == 1 then c == ']' && j == fin else c == ',' && ElemsAt(s, j, es[1..], fin)
  }

  /** Reading at i gives the members ms one after another, the last one followed by '}' that ends at fin. */
  predicate MembersAt(s: string, i: nat, ms: seq<(string, Value)>, fin: nat)
    decreases |ms|
  {
    |ms| > 0 && i < |s| && s[i] == '"' &&
    match ReadStr(s, i + 1, "")
    case Err(_) => false
    case Ok((key, k)) =>
      var (colon, j) := Get(s, Ws(s, k));
      colon == ':' &&
      match ReadValue(s, j)
      case Err(_) => false
      case Ok((v, e)) =>
        var (c, j2) := Get(s, Ws(s, e));
        (key, v) == ms[0] &&
        if |ms| == 1 then c == '}' && j2 == fin else c == ',' && MembersAt(s, j2, ms[1..], fin)
  }

  lemma {:induction false} ElemsLoop(s: string, i: nat, es: seq<Value>, acc: seq<Value>, fin: nat)
    requires ElemsAt(s, i, es, fin)
    ensures ReadElems(s, i, acc) == Ok((Arr(acc + es), fin))
    decreases |es|
  {
    var (v, e) := ReadValue(s, i).value;
    var (c, j) := Get(s, Ws(s, e));
    if |es| == 1 {
      assert acc + es == acc + [v];
    } else {
      ElemsLoop(s, j, es[1..], acc + [v], fin);
      assert acc + [v] + es[1..] == acc + es;
    }
  }

  lemma {:induction false} MembersLoop(s: string, i: nat, ms: seq<(string, Value)>, acc: seq<(string, Value)>, fin: nat)
    requires MembersAt(s, i, ms, fin)
    ensures ReadMembers(s, i, acc) == Ok((Obj(acc + ms), fin))
    decreases |ms|
  {
    var (key, k) := ReadStr(s, i + 1, "").value;
    var (colon, j) := Get(s, Ws(s, k));
    var (v, e) := ReadValue(s, j).value;
    var (c, j2) := Get(s, Ws(s, e));
    assert Get(s, i) == ('"', i + 1);
    if |ms| == 1 {
      assert acc + ms == acc + [(key, v)];
    } else {
      MembersLoop(s, j2, ms[1..], acc + [(key, v)], fin);
      assert acc + [(key, v)] + ms[1..] == acc + ms;
    }
  }

  /** The text of a non-final element or member, then a comma, then the rest. */
  lemma {:induction false} CommaSplit(s: string, i: nat, head: string, tail: string, j: nat)
    requires At(s, i, head + ("," + tail)) && j == i + |head|
    ensures At(s, i, head) && Peek(s, j) == ',' && At(s, j + 1, tail)
  {
    AtSplit(s, i, head, "," + tail);
    AtSplit(s, j, ",", tail);
    AtFirst(s, j, ",");
  }

  /** A value stringify wrote, ending at e and followed by c: the reader gets the value and then c. */
  lemma {:induction false} ElemRound(s: string, i: nat, v: Value, c: char, e: nat)
    requires Plain(v) && At(s, i, Stringify(v)) && e == i + |Stringify(v)|
    requires Peek(s, e) == c && (c == ']' || c == ',' || c == '}')
    ensures ReadValue(s, i) == Ok((v, e))
    ensures Get(s, Ws(s, e)) == (c, e + 1)
    decreases v, 3
  {
    ValueRound(s, i, v);
    assert Ws(s, e) == e;
  }

  lemma {:induction false} ElemsText(s: string, i: nat, es: seq<Value>, fin: nat)
    requires |es| > 0 && PlainElems(es) && At(s, i, Elems(es)) && fin == i + |Elems(es)| + 1 && Peek(s, fin - 1) == ']'
    ensures ElemsAt(s, i, es, fin)
    decreases es, 2
  {
    var e: nat := i + |Stringify(es[0])|;
    if |es| == 1 {
      ElemsTextLast(s, i, es, e, fin);
    } else {
      ElemsTail(s, i, es, e, fin);
      ElemsTextMore(s, i, es, e, fin);
    }
  }

  lemma {:induction false} ElemsTextMore(s: string, i: nat, es: seq<Value>, e: nat, fin: nat)
    requires |es| >= 2 && PlainElems(es)
    requires At(s, i, Stringify(es[0])) && e == i + |Stringify(es[0])| && Peek(s, e) == ','
    requires At(s, e + 1, Elems(es[1..])) && fin == e + 1 + |Elems(es[1..])| + 1 && Peek(s, fin - 1) == ']'
    ensures ElemsAt(s, i, es, fin)
    decreases es, 1
  {
    ElemsText(s, e + 1, es[1..], fin);
    ElemsHead(s, i, es, ',', e, fin);
  }


  lemma {:induction false} ElemsTextLast(s: string, i: nat, es: seq<Value>, e: nat, fin: nat)
    requires |es| == 1 && PlainElems(es) && At(s, i, Elems(es)) && fin == i + |Elems(es)| + 1 && Peek(s, fin - 1) == ']'
    requires e == i + |Stringify(es[0])|
    ensures ElemsAt(s, i, es, fin)
    decreases es, 1
  {
    assert Elems(es) == Stringify(es[0]);
    ElemsHead(s, i, es, ']', e, fin);
  }

  /** Splits the element texts of an array at the comma after the first element. */
  lemma {:induction false} ElemsTail(s: string, i: nat, es: seq<Value>, e: nat, fin: nat)
    requires |es| >= 2 && At(s, i, Elems(es)) && fin == i + |Elems(es)| + 1
    requires e == i + |Stringify(es[0])|
    ensures At(s, i, Stringify(es[0])) && Peek(s, e) == ',' && At(s, e + 1, Elems(es[1..]))
    ensures fin == e + 1 + |Elems(es[1..])| + 1
  {
    ElemsCons(es);
    assert Elems(es) == Stringify(es[0]) + ("," + Elems(es[1..]));
    CommaSplit(s, i, Stringify(es[0]), Elems(es[1..]), e);
  }

  /** The first element read back, with the rest of the array already known to read back. */
  lemma {:induction false} ElemsHead(s: string, i: nat, es: seq<Value>, c: char, e: nat, fin: nat)
    requires |es| > 0 && Plain(es[0]) && At(s, i, Stringify(es[0])) && e == i + |Stringify(es[0])|
    requires Peek(s, e) == c && (c == ']' || c == ',')
    requires if |es| == 1 then c == ']' && e + 1 == fin else c == ',' && ElemsAt(s, e + 1, es[1..], fin)
    ensures ElemsAt(s, i, es, fin)
    decreases es, 0
  {
    ElemRound(s, i, es[0], c, e);
    ElemsAtStep(s, i, es, e, c, fin);
  }

  /** A key stringify wrote, ending at k and followed by a colon and then the text rest. */
  lemma {:induction false} KeyRound(s: string, i: nat, key: string, rest: string, k: nat)
    requires NoNul(key) && At(s, i, Quote(key) + ([':'] + rest)) && k == i + |Quote(key)|
    ensures i < |s| && s[i] == '"'
    ensures ReadStr(s, i + 1, "") == Ok((key, k))
    ensures Get(s, Ws(s, k)) == (':', k + 1)
    ensures At(s, k + 1, rest)
  {
    var q := Quote(key);
    AtSplit(s, i, q, [':'] + rest);
    AtSplit(s, k, [':'], rest);
    AtFirst(s, k, [':']);
    QuotedRound(s, i, key);
    assert Ws(s, k) == k;
  }

  /** One member of the object loop, in the reader's terms only. */
  lemma {:induction false} MembersAtStep(s: string, i: nat, ms: seq<(string, Value)>, k: nat, e: nat, c: char, fin: nat)
    requires |ms| > 0 && i < |s| && s[i] == '"'
    requires ReadStr(s, i + 1, "") == Ok((ms[0].0, k))
    requires Get(s, Ws(s, k)) == (':', k + 1)
    requires ReadValue(s, k + 1) == Ok((ms[0].1, e))
    requires Get(s, Ws(s, e)) == (c, e + 1)
    requires if |ms| == 1 then c == '}' && e + 1 == fin else c == ',' && MembersAt(s, e + 1, ms[1..], fin)
    ensures MembersAt(s, i, ms, fin)
  {
  }

  /** One element of the array loop, in the reader's terms only. */
  lemma {:induction false} ElemsAtStep(s: string, i: nat, es: seq<Value>, e: nat, c: char, fin: nat)
    requires |es| > 0 && i <= |s|
    requires ReadValue(s, i) == Ok((es[0], e))
    requires Get(s, Ws(s, e)) == (c, e + 1)
    requires if |es| == 1 then c == ']' && e + 1 == fin else c == ',' && ElemsAt(s, e + 1, es[1..], fin)
    ensures ElemsAt(s, i, es, fin)
  {
  }

  /** One member stringify wrote, ending at e and followed by c: the reader gets its key, the colon and its value, then c. */
  lemma {:induction false} MemberRound(s: string, i: nat, key: string, v: Value, c: char, k: nat, e: nat)
    requires NoNul(key) && Plain(v) && At(s, i, Member((key, v)))
    requires k == i + |Quote(key)| && e == k + 1 + |Stringify(v)|
    requires Peek(s, e) == c && (c == '}' || c == ',')
    ensures i < |s| && s[i] == '"'
    ensures ReadStr(s, i + 1, "") == Ok((key, k))
    ensures Get(s, Ws(s, k)) == (':', k + 1)
    ensures ReadValue(s, k + 1) == Ok((v, e))
    ensures Get(s, Ws(s, e)) == (c, e + 1)
    decreases v, 4
  {
    MemberSplit(key, v);
    KeyRound(s, i, key, Stringify(v), k);
    ElemRound(s, k + 1, v, c, e);
  }

  lemma {:induction false} MemberSplit(key: string, v: Value)
    ensures Member((key, v)) == Quote(key) + ([':'] + Stringify(v))
  {
  }

  /** The member texts of a non-empty object, read back one member at a time. */
  lemma {:induction false} MembersText(s: string, i: nat, ms: seq<(string, Value)>, fin: nat)
    requires |ms| > 0 && PlainMembers(ms)
    requires At(s, i, Members(ms)) && fin == i + |Members(ms)| + 1 && Peek(s, fin - 1) == '}'
    ensures MembersAt(s, i, ms, fin)
    decreases ms, 2
  {
    var e: nat := i + |Member(ms[0])|;
    if |ms| == 1 {
      MembersTextLast(s, i, ms, e, fin);
    } else {
      MembersTail(s, i, ms, e, fin);
      MembersTextMore(s, i, ms, e, fin);
    }
  }

  lemma {:induction false} MembersTextMore(s: string, i: nat, ms: seq<(string, Value)>, e: nat, fin: nat)
    requires |ms| >= 2 && PlainMembers(ms)
    requires At(s, i, Member(ms[0])) && e == i + |Member(ms[0])| && Peek(s, e) == ','
    requires At(s, e + 1, Members(ms[1..])) && fin == e + 1 + |Members(ms[1..])| + 1 && Peek(s, fin - 1) == '}'
    ensures MembersAt(s, i, ms, fin)
    decreases ms, 1
  {
    assert PlainMembers(ms[1..]);
    MembersText(s, e + 1, ms[1..], fin);
    assert MembersAt(s, e + 1, ms[1..], fin);
    MembersFirstRead(s, i, ms, ',', e, fin);
  }


  lemma {:induction false} MembersTextLast(s: string, i: nat, ms: seq<(string, Value)>, e: nat, fin: nat)
    requires |ms| == 1 && PlainMembers(ms) && At(s, i, Members(ms)) && fin == i + |Members(ms)| + 1 && Peek(s, fin - 1) == '}'
    requires e == i + |Member(ms[0])|
    ensures MembersAt(s, i, ms, fin)
    decreases ms, 1
  {
    assert Members(ms) == Member(ms[0]);
    MembersFirstRead(s, i, ms, '}', e, fin);
  }

  lemma {:induction false} MembersFirstRead(s: string, i: nat, ms: seq<(string, Value)>, c: char, e: nat, fin: nat)
    requires |ms| > 0 && PlainMembers(ms) && At(s, i, Member(ms[0])) && e == i + |Member(ms[0])|
    requires Peek(s, e) == c && (c == '}' || c == ',')
    requires if |ms| == 1 then c == '}' && e + 1 == fin else c == ',' && MembersAt(s, e + 1, ms[1..], fin)
    ensures MembersAt(s, i, ms, fin)
    decreases ms, 0
  {
    var (key, v) := ms[0];
    assert ms[0] in ms && v < ms[0];
    MemberSplit(key, v);
    MembersHead(s, i, ms, key, v, c, i + |Quote(key)|, e, fin);
  }

  /** The first member read back, with the rest of the object already known to read back. */
  lemma {:induction false} MembersHead(s: string, i: nat, ms: seq<(string, Value)>, key: string, v: Value, c: char, k: nat, e: nat, fin: nat)
    requires |ms| > 0 && ms[0] == (key, v) && NoNul(key) && Plain(v) && At(s, i, Member((key, v)))
    requires k == i + |Quote(key)| && e == k + 1 + |Stringify(v)|
    requires Peek(s, e) == c && (c == '}' || c == ',')
    requires if |ms| == 1 then c == '}' && e + 1 == fin else c == ',' && MembersAt(s, e + 1, ms[1..], fin)
    ensures MembersAt(s, i, ms, fin)
    decreases v, 5
  {
    MemberRound(s, i, key, v, c, k, e);
    MembersAtStep(s, i, ms, k, e, c, fin);
  }

  /** Splits the member texts of an object at the comma after the first member. */
  lemma {:induction false} MembersTail(s: string, i: nat, ms: seq<(string, Value)>, e: nat, fin: nat)
    requires |ms| >= 2 && At(s, i, Members(ms)) && fin == i + |Members(ms)| + 1
    requires e == i + |Member(ms[0])|
    ensures At(s, i, Member(ms[0])) && Peek(s, e) == ',' && At(s, e + 1, Members(ms[1..]))
    ensures fin == e + 1 + |Members(ms[1..])| + 1
  {
    MembersCons(ms);
    assert Members(ms) == Member(ms[0]) + ("," + Members(ms[1..]));
    CommaSplit(s, i, Member(ms[0]), Members(ms[1..]), e);
  }

  // ------------------------------------------------------- whole texts

  predicate AllSpace(w: string)
  {
    forall k :: 0 <= k < |w| ==> IsSpace(w[k])
  }

  /** ws() skips exactly a run of whitespace. */
  lemma {:induction false} WsOver(s: string, i: nat, w: string)
    requires At(s, i, w) && AllSpace(w)
    ensures Ws(s, i) == Ws(s, i + |w|)
    decreases |w|
  {
    if w != [] {
      AtFirst(s, i, w);
      assert w == [w[0]] + w[1..];
      AtSplit(s, i, [w[0]], w[1..]);
      WsOver(s, i + 1, w[1..]);
    }
  }

  /** parse() takes back what stringify wrote, with whitespace before and after it. */
  lemma {:induction false} ParseSpaced(w1: string, v: Value, w2: string)
    requires Plain(v) && AllSpace(w1) && AllSpace(w2)
    ensures Parse(w1 + Stringify(v) + w2) == Ok(v)
  {
    var t := Stringify(v);
    var s := w1 + t + w2;
    Parts(w1, t, w2);
    var e := |w1| + |t|;
    if w2 != [] {
      AtFirst(s, e, w2);
    }
    ValueRound(s, |w1|, v);
    WsOver(s, 0, w1);
    SameStart(s, 0, |w1|);
    WsOver(s, e, w2);
    assert Ws(s, e + |w2|) == |s|;
  }

  lemma {:induction false} Parts(a: string, b: string, c: string)
    ensures At(a + b + c, 0, a) && At(a + b + c, |a|, b) && At(a + b + c, |a| + |b|, c)
  {
    var s := a + b + c;
    assert s[..|a|] == a && s[|a|..|a| + |b|] == b && s[|a| + |b|..] == c;
  }

  /** value() starts by skipping whitespace, so it reads the same from any point of a run of whitespace. */
  lemma {:induction false} SameStart(s: string, i: nat, j: nat)
    requires i <= j <= |s| && Ws(s, i) == Ws(s, j)
    ensures ReadValue(s, i) == ReadValue(s, j)
  {
  }

  /** parse(stringify(v)) == v, and so stringify(parse(t)) == t for every text t that stringify writes. */
  lemma {:induction false} ParseStringify(v: Value)
    requires Plain(v)
    ensures Parse(Stringify(v)) == Ok(v)
    ensures Stringify(Parse(Stringify(v)).value) == Stringify(v)
  {
    ParseSpaced("", v, "");
    assert "" + Stringify(v) + "" == Stringify(v);
  }

  /**
   * parse() accepts a value followed by more text exactly when that text is
   * whitespace (when it cannot continue the value's last number).
   */
  lemma {:induction false} ParseTrailing(v: Value, w: string)
    requires Plain(v) && (w == [] || !IsNumberChar(w[0]))
    ensures Parse(Stringify(v) + w).Ok? <==> AllSpace(w)
    ensures AllSpace(w) ==> Parse(Stringify(v) + w) == Ok(v)
  {
    if AllSpace(w) {
      ParseSpaced("", v, w);
      assert "" + Stringify(v) + w == Stringify(v) + w;
    } else {
      TrailingRejected(v, w);
    }
  }

  lemma {:induction false} TrailingRejected(v: Value, w: string)
    requires Plain(v) && w != [] && !IsNumberChar(w[0]) && !AllSpace(w)
    ensures Parse(Stringify(v) + w).Err?
  {
    var t := Stringify(v);
    var s := t + w;
    assert s[..|t|] == t && s[|t|..] == w;
    assert At(s, 0, t) && At(s, |t|, w);
    AtFirst(s, |t|, w);
    ValueRound(s, 0, v);
    TrailingText(s, |t|, w);
  }

  /** ws() cannot reach the end of the text across a character that is not whitespace. */
  lemma {:induction false} TrailingText(s: string, i: nat, w: string)
    requires At(s, i, w) && i + |w| == |s| && !AllSpace(w)
    ensures Ws(s, i) != |s|
  {
    var k :| 0 <= k < |w| && !IsSpace(w[k]);
    WsSkipsSpace(s, i);
    assert s[i..i + |w|][k] == s[i + k];
  }

  /**
   * The object loop wants a key right after a comma: an object with
   * whitespace there, such as {"a":1, "b":2}, is rejected.
   */
  lemma {:induction false} SpaceAfterCommaRejected(key: string, v: Value, w: string, rest: string)
    requires NoNul(key) && Plain(v) && w != [] && IsSpace(w[0])
    ensures Parse("{" + Member((key, v)) + "," + w + rest).Err?
  {
    var m := Member((key, v));
    var s := "{" + m + "," + w + rest;
    var k := 1 + |Quote(key)|;
    var e := k + 1 + |Stringify(v)|;
    assert |m| == |Quote(key)| + 1 + |Stringify(v)| by { MemberSplit(key, v); }
    assert At(s, 1, m) by { assert s[1..1 + |m|] == m; }
    var pre := "{" + m + ",";
    assert s == pre + w + rest;
    assert |pre| == e + 1 && pre[e] == ',';
    assert s[e] == ',' && s[e + 1] == w[0];
    MemberRound(s, 1, key, v, ',', k, e);
    assert Ws(s, 0) == 0 && Get(s, 0) == ('{', 1);
    OpenDispatch(s, 0, '{');
    assert Ws(s, 1) == 1 && Peek(s, 1) == '"';
    assert ReadObject(s, 1) == ReadMembers(s, 1, []);
    assert ReadMembers(s, 1, []) == ReadMembers(s, e + 1, [] + [(key, v)]);
    assert ReadMembers(s, e + 1, [] + [(key, v)]).Err? by { assert Get(s, e + 1) == (w[0], e + 2); }
  }

  /** str() takes `\u` as a plain 'u': "\u0041" reads as the text u0041, not as 'A'. */
  lemma {:induction false} UnicodeEscapeLiteral(t: string)
    requires NoNul(t) && Escape(t) == t
    ensures Parse("\"\\u" + t + "\"") == Ok(Str("u" + t))
  {
    var s := "\"\\u" + t + "\"";
    assert At(s, 3, Escape(t)) by { assert s[3..3 + |t|] == t; }
    assert Peek(s, 3 + |t|) == '"';
    StrRound(s, 3, t, "u");
    assert Get(s, 1) == ('\\', 2) && Get(s, 2) == ('u', 3);
    assert "" + [Unescape('u')] == "u";
    assert ReadStr(s, 1, "") == ReadStr(s, 3, "u");
    assert ReadValue(s, 0) == Ok((Str("u" + t), |s|));
  }

  /** A string with no closing quote before the end of the text is a syntax error. */
  lemma {:induction false} UnterminatedString(s: string, i: nat, acc: string)
    requires i <= |s| && forall k :: i <= k < |s| ==> s[k] != '"'
    ensures ReadStr(s, i, acc).Err?
    decreases |s| - i
  {
    if i < |s| && s[i] != NUL {
      if s[i] == '\\' {
        if i + 1 < |s| && s[i + 1] != NUL {
          UnterminatedString(s, i + 2, acc + [Unescape(s[i + 1])]);
        }
      } else {
        UnterminatedString(s, i + 1, acc + [s[i]]);
      }
    }
  }

  // ------------------------------------------------- the source's test texts

  /** Each text reads back and is written out again unchanged. */
  predicate Canonical(t: string)
  {
    Parse(t).Ok? && Stringify(Parse(t).value) == t
  }

  lemma {:induction false} CanonicalOf(v: Value, t: string)
    requires Plain(v) && Stringify(v) == t
    ensures Parse(t) == Ok(v) && Canonical(t)
  {
    ParseStringify(v);
  }

  lemma {:induction false} EscapeAppend(a: string, b: string)
    ensures Escape(a + b) == Escape(a) + Escape(b)
    decreases |a|
  {
    if a != [] {
      assert (a + b)[0] == a[0] && (a + b)[1..] == a[1..] + b;
      EscapeAppend(a[1..], b);
      assert Escape(a + b) == EscapeChar(a[0]) + (Escape(a[1..]) + Escape(b));
    } else {
      assert a + b == b;
    }
  }

  lemma {:induction false} ElemsSnoc(es: seq<Value>, e: Value)
    requires es != []
    ensures Elems(es + [e]) == Elems(es) + "," + Stringify(e)
  {
    assert (es + [e])[..|es|] == es;
  }

  lemma {:induction false} MembersSnoc(ms: seq<(string, Value)>, m: (string, Value))
    requires ms != []
    ensures Members(ms + [m]) == Members(ms) + "," + Member(m)
  {
    assert (ms + [m])[..|ms|] == ms;
  }
}
