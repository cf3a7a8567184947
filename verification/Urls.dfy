/** Percent-encoding, after Go's net/url. */
module Urls {
  import opened Text

  predicate IsUnreserved(c: byte)
  {
    'a' <= c <= 'z' || 'A' <= c <= 'Z' || '0' <= c <= '9' || c == '-' || c == '_' || c == '.' || c == '~'
  }

  /** The value of a hexadecimal digit in either case, or -1. */
  function HexValue(c: byte): (v: int)
    ensures -1 <= v < 16
  {
    if '0' <= c <= '9' then c as int - '0' as int
    else if 'A' <= c <= 'F' then c as int - 'A' as int + 10
    else if 'a' <= c <= 'f' then c as int - 'a' as int + 10
    else -1
  }

  function EscapeByte(c: byte): bytes
  {
    if IsUnreserved(c) then [c]
    else if c == ' ' then ['+']
    else ['%', HexDigit(c as int / 16, 'A'), HexDigit(c as int % 16, 'A')]
  }

  /** url.QueryEscape. */
  function QueryEscape(s: bytes): bytes
  {
    if s == [] then [] else EscapeByte(s[0]) + QueryEscape(s[1..])
  }

  datatype Mode = Query | PathSegment

  /** url.QueryUnescape and url.PathUnescape; a '%' without two hexadecimal digits is an error. */
  function Unescape(s: bytes, mode: Mode): Option<bytes>
    decreases |s|
  {
    if s == [] then Some([])
    else if s[0] == '%' then
      if |s| < 3 || HexValue(s[1]) < 0 || HexValue(s[2]) < 0 then None
      else
        match Unescape(s[3..], mode)
        case None => None
        case Some(rest) => Some([Byte(HexValue(s[1]) * 16 + HexValue(s[2]))] + rest)
    else
      match Unescape(s[1..], mode)
      case None => None
      case Some(rest) => Some([if s[0] == '+' && mode.Query? then ' ' else s[0]] + rest)
  }

  lemma HexRoundTrip(n: int)
    requires 0 <= n < 16
    ensures HexValue(HexDigit(n, 'A')) == n
  {
  }

  lemma UnescapeByte(c: byte, rest: bytes)
    ensures Unescape(EscapeByte(c) + rest, Query)
         == match Unescape(rest, Query) case None => None case Some(r) => Some([c] + r)
  {
    var s := EscapeByte(c) + rest;
    if IsUnreserved(c) || c == ' ' {
      assert s[1..] == rest;
    } else {
      HexRoundTrip(c as int / 16);
      HexRoundTrip(c as int % 16);
      assert s[3..] == rest;
    }
  }

  lemma {:induction false} QueryRoundTrip(s: bytes)
    ensures Unescape(QueryEscape(s), Query) == Some(s)
  {
    if s != [] {
      QueryRoundTrip(s[1..]);
      UnescapeByte(s[0], QueryEscape(s[1..]));
      assert s == [s[0]] + s[1..];
    }
  }

  /** Whatever is escaped, only unreserved characters, '+' and '%' come out. */
  lemma {:induction false} QueryEscapeAlphabet(s: bytes)
    ensures forall c <- QueryEscape(s) :: IsUnreserved(c) || c == '+' || c == '%'
  {
    if s != [] {
      QueryEscapeAlphabet(s[1..]);
      var n := s[0] as int;
      assert IsUnreserved(HexDigit(n / 16, 'A')) && IsUnreserved(HexDigit(n % 16, 'A'));
    }
  }

  /** A percent sign and two hexadecimal digits, in either case, are read as that byte; without the two
      digits the text is refused; '+' is a space in a query only; and every other byte is itself. */
  lemma UnescapeExactly(c: byte, ten: byte, rest: bytes, mode: Mode)
    requires ten == 'A' || ten == 'a'
    ensures Unescape(['%', HexDigit(c as int / 16, ten), HexDigit(c as int % 16, ten)] + rest, mode)
         == match Unescape(rest, mode) case None => None case Some(r) => Some([c] + r)
    ensures var plain := if c == '+' && mode == Query then ' ' else c;
            c == '%' || Unescape([c] + rest, mode) == match Unescape(rest, mode) case None => None case Some(r) => Some([plain] + r)
    ensures |rest| < 2 || !IsHexDigit(rest[0]) || !IsHexDigit(rest[1]) ==> Unescape(['%'] + rest, mode).None?
  {
    var s := ['%', HexDigit(c as int / 16, ten), HexDigit(c as int % 16, ten)] + rest;
    assert s[3..] == rest && s[1] == HexDigit(c as int / 16, ten) && s[2] == HexDigit(c as int % 16, ten);
    assert ([c] + rest)[1..] == rest;
  }

  predicate IsHexDigit(c: byte) { '0' <= c <= '9' || 'a' <= c <= 'f' || 'A' <= c <= 'F' }
}
