/**
 * The Parser of json/json.cpp: a cursor over the text, advanced by get()
 * and ws(). Every method is proved to do what the reader functions of the
 * Json module say, so the properties proved there hold for the parser.
 * A syntax error, which the source throws, is an Err result here; where
 * the cursor stands after an error is left unspecified.
 */
module JsonParser {
  import opened Wrappers
  import opened Json

  class Parser {
    const text: string
    var pos: nat

    constructor (s: string)
      ensures text == s && pos == 0
    {
      text := s;
      pos := 0;
    }

    predicate Valid()
      reads this
    {
      pos <= |text|
    }

    /** get(): NUL at the end without moving, otherwise the next character. */
    method Get() returns (c: char)
      requires Valid()
      modifies this
      ensures Valid() && (c, pos) == Json.Get(text, old(pos))
    {
      if pos == |text| {
        c := NUL;
      } else {
        c := text[pos];
        pos := pos + 1;
      }
    }

    /** ws(): skip whitespace. */
    method Ws()
      requires Valid()
      modifies this
      ensures Valid() && pos == Json.Ws(text, old(pos))
    {
      while IsSpace(Peek(text, pos))
        invariant Valid() && Json.Ws(text, pos) == Json.Ws(text, old(pos))
        decreases |text| - pos
      {
        var _ := Get();
      }
    }

    /** The letters of a literal, read with get() until the first one that does not match. */
    method Expect(word: string) returns (ok: bool)
      requires Valid() && NUL !in word
      modifies this
      ensures Valid()
      ensures ok <==> At(text, old(pos), word)
      ensures ok ==> pos == old(pos) + |word|
    {
      var k := 0;
      while k < |word|
        invariant 0 <= k <= |word| && Valid() && pos == old(pos) + k
        invariant At(text, old(pos), word[..k])
      {
        var c := Get();
        if c != word[k] {
          return false;
        }
        assert text[old(pos)..old(pos) + k + 1] == text[old(pos)..old(pos) + k] + [word[k]];
        assert word[..k + 1] == word[..k] + [word[k]];
        k := k + 1;
      }
      assert word[..k] == word;
      ok := true;
    }

    /** str(): the rest of a string literal after its opening quote. */
    method Str() returns (r: Result<string, SyntaxError>)
      requires Valid()
      modifies this
      ensures Valid()
      ensures r.Ok? <==> ReadStr(text, old(pos), "").Ok?
      ensures r.Ok? ==> ReadStr(text, old(pos), "") == Ok((r.value, pos))
    {
      var acc := "";
      while true
        invariant Valid() && ReadStr(text, pos, acc) == ReadStr(text, old(pos), "")
        decreases |text| - pos
      {
        var c := Get();
        if c == NUL {
          return Err(SyntaxError);
        } else if c == '"' {
          return Ok(acc);
        } else if c == '\\' {
          var e := Get();
          if e == NUL {
            return Err(SyntaxError);
          }
          acc := acc + [Unescape(e)];
        } else {
          acc := acc + [c];
        }
      }
    }

    /** value(): one value after optional whitespace. */
    method Value() returns (r: Result<Json.Value, SyntaxError>)
      requires Valid()
      modifies this
      ensures Valid()
      ensures r.Ok? <==> ReadValue(text, old(pos)).Ok?
      ensures r.Ok? ==> ReadValue(text, old(pos)) == Ok((r.value, pos))
      decreases |text| - pos, 1
    {
      Ws();
      var j := pos;
      var c := Get();
      if c == 'n' || c == 't' || c == 'f' {
        var word, v := if c == 'n' then "ull" else if c == 't' then "rue" else "alse",
                       if c == 'n' then Null else Bool(c == 't');
        var ok := Expect(word);
        r := if ok then Ok(v) else Err(SyntaxError);
      } else if '0' <= c <= '9' || c == '-' {
        // wcstod reads from the first character of the number.
        pos := NumberEnd(text, j);
        r := Ok(Number(text[j..pos]));
      } else if c == '"' {
        var t := Str();
        r := if t.Ok? then Ok(Json.Str(t.value)) else Err(SyntaxError);
      } else if c == '[' {
        r := Array();
      } else if c == '{' {
        r := Object();
      } else {
        r := Err(SyntaxError);
      }
    }

    /** The array case of value(), after '['. */
    method Array() returns (r: Result<Json.Value, SyntaxError>)
      requires Valid()
      modifies this
      ensures Valid()
      ensures r.Ok? <==> ReadArray(text, old(pos)).Ok?
      ensures r.Ok? ==> ReadArray(text, old(pos)) == Ok((r.value, pos))
      decreases |text| - pos, 3
    {
      Ws();
      if Peek(text, pos) == ']' {
        var _ := Get();
        return Ok(Arr([]));
      }
      var a := [];
      while true
        invariant Valid() && old(pos) <= pos
        invariant ReadElems(text, pos, a) == ReadArray(text, old(pos))
        decreases |text| - pos
      {
        var v := Value();
        if v.Err? {
          return Err(SyntaxError);
        }
        a := a + [v.value];
        Ws();
        var c := Get();
        if c == ']' {
          return Ok(Arr(a));
        } else if c != ',' {
          return Err(SyntaxError);
        }
      }
    }

    /** The object case of value(), after '{': a key must follow a comma at once. */
    method Object() returns (r: Result<Json.Value, SyntaxError>)
      requires Valid()
      modifies this
      ensures Valid()
      ensures r.Ok? <==> ReadObject(text, old(pos)).Ok?
      ensures r.Ok? ==> ReadObject(text, old(pos)) == Ok((r.value, pos))
      decreases |text| - pos, 3
    {
      Ws();
      if Peek(text, pos) == '}' {
        var _ := Get();
        return Ok(Obj([]));
      }
      var o := [];
      while true
        invariant Valid() && old(pos) <= pos
        invariant ReadMembers(text, pos, o) == ReadObject(text, old(pos))
        decreases |text| - pos
      {
        var q := Get();
        if q != '"' {
          return Err(SyntaxError);
        }
        var key := Str();
        if key.Err? {
          return Err(SyntaxError);
        }
        Ws();
        var colon := Get();
        if colon != ':' {
          return Err(SyntaxError);
        }
        var v := Value();
        if v.Err? {
          return Err(SyntaxError);
        }
        o := o + [(key.value, v.value)];
        Ws();
        var c := Get();
        if c == '}' {
          return Ok(Obj(o));
        } else if c != ',' {
          return Err(SyntaxError);
        }
      }
    }

    /** parse(): one value, optional whitespace, and then the end of the text. */
    method Parse() returns (r: Result<Json.Value, SyntaxError>)
      requires pos == 0
      modifies this
      ensures r == Json.Parse(text)
    {
      var v := Value();
      if v.Err? {
        var x := ReadValue(text, 0).error;
        assert x == SyntaxError;
        return Err(SyntaxError);
      }
      Ws();
      r := if pos == |text| then Ok(v.value) else Err(SyntaxError);
    }
  }

  /** json::parse(s): a fresh parser over s. */
  method ParseText(s: string) returns (r: Result<Json.Value, SyntaxError>)
    ensures r == Json.Parse(s)
  {
    var p := new Parser(s);
    r := p.Parse();
  }
}
