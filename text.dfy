/**
 * Hex and URL helpers of src/util/text.cpp. Strings are sequences of
 * characters whose codes are bytes (0..255), as the source's std::string is.
 */
module Text {
  type Byte = c: char | c <= 'ÿ'

  const HexDigits: string := "0123456789ABCDEF"

  /** to_hex_digit: a nybble as one upper-case hex digit. */
  function ToHexDigit(nyb: nat): (c: Byte)
    requires nyb < 16
    ensures '0' <= c <= '9' || 'A' <= c <= 'F'
    ensures nyb < 10 <==> '0' <= c <= '9'
  {
    if nyb < 10 then ('0' as int + nyb) as char else ('A' as int + nyb - 10) as char
  }

  predicate IsHexDigit(c: char)
  {
    '0' <= c <= '9' || 'A' <= c <= 'F' || 'a' <= c <= 'f'
  }

  /** from_hex_digit: the value of a hex digit of either case, or -1. */
  function FromHexDigit(c: char): (v: int)
    ensures -1 <= v < 16
    ensures v == -1 <==> !IsHexDigit(c)
  {
    if '0' <= c <= '9' then c as int - '0' as int
    else if 'A' <= c <= 'F' then c as int - 'A' as int + 10
    else if 'a' <= c <= 'f' then c as int - 'a' as int + 10
    else -1
  }

  /** Decoding a digit produced by to_hex_digit gives the nybble back. */
  lemma HexDigitRoundTrip(n: nat)
    requires n < 16
    ensures FromHexDigit(ToHexDigit(n)) == n
  {
  }

  /** Every hex digit is the encoding of its value, up to case. */
  lemma HexDigitCanonical(c: char)
    requires IsHexDigit(c)
    ensures ToHexDigit(FromHexDigit(c)) == (if 'a' <= c <= 'f' then (c as int - 32) as char else c)
  {
  }

  /** The characters escape_url treats as reserved. */
  predicate Reserved(c: char)
  {
    c == '+' || c == '&' || c == ';' || c == '=' || c == '?' || c == '#'
  }

  /**
   * What escape_url appends for one character. For a reserved character the
   * source adds the codes of '%' and two hex digits (low nybble first) and
   * appends the sum as a single char; every such sum is below 256.
   */
  function EscapeChar(c: Byte): (r: Byte)
    ensures c == ' ' ==> r == '+'
    ensures !Reserved(c) && c != ' ' ==> r == c
    ensures Reserved(c) ==> r >= '\U{80}'
  {
    if c == ' ' then '+'
    else if Reserved(c) then
      ('%' as int + ToHexDigit(c as int % 16) as int + ToHexDigit(c as int / 16) as int) as char
    else c
  }

  /** escape_url: one output character per input character. */
  method EscapeUrl(input: seq<Byte>) returns (r: seq<Byte>)
    ensures |r| == |input|
    ensures forall i :: 0 <= i < |input| ==> r[i] == EscapeChar(input[i])
  {
    r := [];
    var i := 0;
    while i < |input|
      invariant 0 <= i <= |input|
      invariant |r| == i
      invariant forall k :: 0 <= k < i ==> r[k] == EscapeChar(input[k])
    {
      r := r + [EscapeChar(input[i])];
      i := i + 1;
    }
  }

  /** No space and no reserved character other than '+' survives escaping. */
  lemma EscapedHasNoSeparators(input: seq<Byte>, r: seq<Byte>)
    requires |r| == |input|
    requires forall i :: 0 <= i < |input| ==> r[i] == EscapeChar(input[i])
    ensures forall i :: 0 <= i < |r| ==> r[i] != ' ' && (Reserved(r[i]) ==> r[i] == '+' && input[i] == ' ')
  {
  }

  /** The percent-escape the source means to produce: '%', high nybble, low nybble. */
  function PercentEscape(c: Byte): (r: seq<Byte>)
    ensures |r| == 3 && r[0] == '%'
    ensures FromHexDigit(r[1]) * 16 + FromHexDigit(r[2]) == c as int
  {
    ['%', ToHexDigit(c as int / 16), ToHexDigit(c as int % 16)]
  }

  /** escape_url as evidently intended: reserved characters become three-character escapes. */
  function EscapeUrlIntended(input: seq<Byte>): (r: seq<Byte>)
    ensures |r| >= |input|
  {
    if input == [] then []
    else
      (if input[0] == ' ' then ['+'] else if Reserved(input[0]) then PercentEscape(input[0]) else [input[0]])
      + EscapeUrlIntended(input[1..])
  }

  /** Reading back the form encoding: '+' is a space, '%XY' a byte, anything else itself. */
  function UnescapeForm(s: seq<Byte>): (r: seq<Byte>)
    ensures |r| <= |s|
  {
    if s == [] then []
    else if s[0] == '+' then [' '] + UnescapeForm(s[1..])
    else if s[0] == '%' && |s| >= 3 && IsHexDigit(s[1]) && IsHexDigit(s[2]) then
      [ByteOf(FromHexDigit(s[1]), FromHexDigit(s[2]))] + UnescapeForm(s[3..])
    else [s[0]] + UnescapeForm(s[1..])
  }

  /** The intended escaping round-trips for inputs that hold no '%'. */
  lemma {:induction false} EscapeUrlIntendedRoundTrip(input: seq<Byte>)
    requires forall i :: 0 <= i < |input| ==> input[i] != '%'
    ensures UnescapeForm(EscapeUrlIntended(input)) == input
  {
    if input != [] {
      var c := input[0];
      var rest := EscapeUrlIntended(input[1..]);
      EscapeUrlIntendedRoundTrip(input[1..]);
      if c == ' ' {
        assert (['+'] + rest)[1..] == rest;
      } else if Reserved(c) {
        var e := PercentEscape(c);
        assert (e + rest)[3..] == rest;
        assert (e + rest)[..3] == e;
      } else {
        assert ([c] + rest)[1..] == rest;
      }
    }
  }

  /** The source's escaping loses information: "a&b" and "a\U{8D}b" escape alike. */
  lemma EscapeUrlNotInjective()
    ensures EscapeChar('&') == EscapeChar('\U{8D}')
  {
  }

  /** make_url_utf8's test at index i: '%' followed by two hex digits worth at least 0x80. */
  predicate DecodesAt(url: seq<Byte>, i: nat)
  {
    i + 2 < |url| && url[i] == '%' && IsHexDigit(url[i + 1]) && IsHexDigit(url[i + 2])
    && FromHexDigit(url[i + 1]) * 16 + FromHexDigit(url[i + 2]) >= 0x80
  }

  /** The byte written as two hex digits. */
  function ByteOf(high: int, low: int): (b: Byte)
    requires 0 <= high < 16 && 0 <= low < 16
    ensures b as int == high * 16 + low
  {
    (high * 16 + low) as char
  }

  /** Reference definition of make_url_utf8, scanning from index i. */
  function Utf8From(url: seq<Byte>, i: nat): (r: seq<Byte>)
    requires i <= |url|
    ensures |r| <= |url| - i
    decreases |url| - i
  {
    if i == |url| then []
    else if DecodesAt(url, i) then
      [ByteOf(FromHexDigit(url[i + 1]), FromHexDigit(url[i + 2]))] + Utf8From(url, i + 3)
    else [url[i]] + Utf8From(url, i + 1)
  }

  /** make_url_utf8: the loop with its index skip. */
  method MakeUrlUtf8(url: seq<Byte>) returns (r: seq<Byte>)
    ensures r == Utf8From(url, 0)
    ensures |r| <= |url|
  {
    r := [];
    var i := 0;
    while i < |url|
      invariant 0 <= i <= |url|
      invariant r + Utf8From(url, i) == Utf8From(url, 0)
      decreases |url| - i
    {
      var decode := false;
      if url[i] == '%' && i + 2 < |url| {
        var high := FromHexDigit(url[i + 1]);
        var low := FromHexDigit(url[i + 2]);
        decode := high >= 0 && low >= 0 && high * 16 + low >= 0x80;
      }
      Utf8Unfold(url, i, r);
      if decode {
        r := r + [ByteOf(FromHexDigit(url[i + 1]), FromHexDigit(url[i + 2]))];
        i := i + 3;
      } else {
        r := r + [url[i]];
        i := i + 1;
      }
    }
  }

  lemma Utf8Unfold(url: seq<Byte>, i: nat, r: seq<Byte>)
    requires i < |url|
    ensures DecodesAt(url, i) ==>
      r + Utf8From(url, i) == (r + [ByteOf(FromHexDigit(url[i + 1]), FromHexDigit(url[i + 2]))]) + Utf8From(url, i + 3)
    ensures !DecodesAt(url, i) ==> r + Utf8From(url, i) == (r + [url[i]]) + Utf8From(url, i + 1)
  {
  }

  /** A URL without '%' comes back unchanged. */
  lemma {:induction false} Utf8NoPercent(url: seq<Byte>, i: nat)
    requires i <= |url|
    requires forall k :: i <= k < |url| ==> url[k] != '%'
    ensures Utf8From(url, i) == url[i..]
    decreases |url| - i
  {
    if i < |url| {
      Utf8NoPercent(url, i + 1);
      assert url[i..] == [url[i]] + url[i + 1..];
    }
  }

  /** A '%' with fewer than two characters after it is copied verbatim. */
  lemma TrailingPercentKept(url: seq<Byte>)
    requires |url| >= 2 && url[|url| - 2] == '%'
    ensures Utf8From(url, |url| - 2) == url[|url| - 2..]
  {
    assert !DecodesAt(url, |url| - 2);
    assert !DecodesAt(url, |url| - 1);
  }

  /** Decoding an escape of a byte at or above 0x80 gives that byte. */
  lemma DecodesHighEscape(c: Byte)
    requires c >= '\U{80}'
    ensures Utf8From(PercentEscape(c), 0) == [c]
  {
    var e := PercentEscape(c);
    assert DecodesAt(e, 0);
  }
}
