/** The two base64 encodings the code uses, after Go's encoding/base64: StdEncoding (padded) and
    RawURLEncoding (unpadded). Decoding skips CR and LF and does not insist on zero trailing bits. */
module Base64 {
  import opened Text

  datatype Encoding = Std | RawUrl

  function Symbol(v: int, e: Encoding): byte
    requires 0 <= v < 64
  {
    if v < 26 then Byte('A' as int + v)
    else if v < 52 then Byte('a' as int + v - 26)
    else if v < 62 then Byte('0' as int + v - 52)
    else if v == 62 then (if e.Std? then '+' else '-')
    else (if e.Std? then '/' else '_')
  }

  /** The value of a symbol, or -1. */
  function Value(c: byte, e: Encoding): (v: int)
    ensures -1 <= v < 64
  {
    if 'A' <= c <= 'Z' then c as int - 'A' as int
    else if 'a' <= c <= 'z' then c as int - 'a' as int + 26
    else if '0' <= c <= '9' then c as int - '0' as int + 52
    else if c == (if e.Std? then '+' else '-') then 62
    else if c == (if e.Std? then '/' else '_') then 63
    else -1
  }

  predicate IsSymbol(c: byte, e: Encoding) { Value(c, e) >= 0 }

  lemma ValueOfSymbol(v: int, e: Encoding)
    requires 0 <= v < 64
    ensures Value(Symbol(v, e), e) == v
  {
  }

  function Padding(n: nat, e: Encoding): bytes
    requires n <= 2
  {
    if e.RawUrl? || n == 0 then [] else if n == 1 then ['='] else ['=', '=']
  }

  function Encode(b: bytes, e: Encoding): bytes
  {
    if b == [] then []
    else
      var b0 := b[0] as int;
      if |b| == 1 then
        [Symbol(b0 / 4, e), Symbol(b0 % 4 * 16, e)] + Padding(2, e)
      else
        var b1 := b[1] as int;
        if |b| == 2 then
          [Symbol(b0 / 4, e), Symbol(b0 % 4 * 16 + b1 / 16, e), Symbol(b1 % 16 * 4, e)] + Padding(1, e)
        else
          var b2 := b[2] as int;
          [Symbol(b0 / 4, e), Symbol(b0 % 4 * 16 + b1 / 16, e),
           Symbol(b1 % 16 * 4 + b2 / 64, e), Symbol(b2 % 64, e)] + Encode(b[3..], e)
  }

  function First(v0: int, v1: int): byte
    requires 0 <= v0 < 64 && 0 <= v1 < 64
  {
    Byte(v0 * 4 + v1 / 16)
  }

  function Second(v1: int, v2: int): byte
    requires 0 <= v1 < 64 && 0 <= v2 < 64
  {
    Byte(v1 % 16 * 16 + v2 / 4)
  }

  function Third(v2: int, v3: int): byte
    requires 0 <= v2 < 64 && 0 <= v3 < 64
  {
    Byte(v2 % 4 * 64 + v3)
  }

  /** Decoding of text without line breaks. */
  function DecodeQuads(s: bytes, e: Encoding): Option<bytes>
  {
    if s == [] then Some([])
    else if |s| < 2 || !IsSymbol(s[0], e) || !IsSymbol(s[1], e) then None
    else
      var v0, v1 := Value(s[0], e), Value(s[1], e);
      if s[2..] == Padding(2, e) then Some([First(v0, v1)])
      else if |s| < 3 || !IsSymbol(s[2], e) then None
      else
        var v2 := Value(s[2], e);
        if s[3..] == Padding(1, e) then Some([First(v0, v1), Second(v1, v2)])
        else if |s| < 4 || !IsSymbol(s[3], e) then None
        else
          var v3 := Value(s[3], e);
          match DecodeQuads(s[4..], e)
          case None => None
          case Some(rest) => Some([First(v0, v1), Second(v1, v2), Third(v2, v3)] + rest)
  }

  function StripLineBreaks(s: bytes): bytes
  {
    if s == [] then []
    else if s[0] == '\r' || s[0] == '\n' then StripLineBreaks(s[1..])
    else [s[0]] + StripLineBreaks(s[1..])
  }

  function Decode(s: bytes, e: Encoding): Option<bytes>
  {
    DecodeQuads(StripLineBreaks(s), e)
  }

  /** Only symbols, and for the padded encoding '=', appear in encoded text. */
  lemma {:induction false} EncodeAlphabet(b: bytes, e: Encoding)
    ensures forall c <- Encode(b, e) :: IsSymbol(c, e) || (e.Std? && c == '=')
  {
    if |b| >= 3 { EncodeAlphabet(b[3..], e); }
  }

  lemma {:induction false} StripNothing(s: bytes)
    requires '\r' !in s && '\n' !in s
    ensures StripLineBreaks(s) == s
  {
    if s != [] {
      StripNothing(s[1..]);
      assert s[0] in s && [s[0]] + s[1..] == s;
    }
  }

  lemma QuadRoundTrip(b0: int, b1: int, b2: int)
    requires 0 <= b0 < 256 && 0 <= b1 < 256 && 0 <= b2 < 256
    ensures First(b0 / 4, b0 % 4 * 16 + b1 / 16) as int == b0
    ensures Second(b0 % 4 * 16 + b1 / 16, b1 % 16 * 4 + b2 / 64) as int == b1
    ensures Third(b1 % 16 * 4 + b2 / 64, b2 % 64) as int == b2
  {
  }

  lemma OneRoundTrip(b0: byte, e: Encoding)
    ensures DecodeQuads(Encode([b0], e), e) == Some([b0])
  {
    var n := b0 as int;
    var s := [Symbol(n / 4, e), Symbol(n % 4 * 16, e)] + Padding(2, e);
    QuadRoundTrip(n, 0, 0);
    ValueOfSymbol(n / 4, e);
    ValueOfSymbol(n % 4 * 16, e);
    TakeAppend([s[0], s[1]], Padding(2, e));
  }

  lemma TwoRoundTrip(b0: byte, b1: byte, e: Encoding)
    ensures DecodeQuads(Encode([b0, b1], e), e) == Some([b0, b1])
  {
    var n, m := b0 as int, b1 as int;
    var head := [Symbol(n / 4, e), Symbol(n % 4 * 16 + m / 16, e), Symbol(m % 16 * 4, e)];
    var s := head + Padding(1, e);
    QuadRoundTrip(n, m, 0);
    ValueOfSymbol(n / 4, e);
    ValueOfSymbol(n % 4 * 16 + m / 16, e);
    ValueOfSymbol(m % 16 * 4, e);
    assert s[2..][0] == s[2] != '=';
    TakeAppend(head, Padding(1, e));
  }

  /** Four symbols decode to three bytes in front of whatever follows. */
  lemma DecodeFour(v0: int, v1: int, v2: int, v3: int, tail: bytes, e: Encoding)
    requires 0 <= v0 < 64 && 0 <= v1 < 64 && 0 <= v2 < 64 && 0 <= v3 < 64
    requires DecodeQuads(tail, e).Some?
    ensures DecodeQuads([Symbol(v0, e), Symbol(v1, e), Symbol(v2, e), Symbol(v3, e)] + tail, e)
         == Some([First(v0, v1), Second(v1, v2), Third(v2, v3)] + DecodeQuads(tail, e).value)
  {
    var s := [Symbol(v0, e), Symbol(v1, e), Symbol(v2, e), Symbol(v3, e)] + tail;
    ValueOfSymbol(v0, e);
    ValueOfSymbol(v1, e);
    ValueOfSymbol(v2, e);
    ValueOfSymbol(v3, e);
    assert s[2..][0] == s[2] != '=';
    assert s[3..][0] == s[3] != '=';
    assert s[4..] == tail;
  }

  lemma EncodeFull(b: bytes, e: Encoding)
    requires |b| >= 3
    ensures var b0, b1, b2 := b[0] as int, b[1] as int, b[2] as int;
            Encode(b, e) == [Symbol(b0 / 4, e), Symbol(b0 % 4 * 16 + b1 / 16, e),
                             Symbol(b1 % 16 * 4 + b2 / 64, e), Symbol(b2 % 64, e)] + Encode(b[3..], e)
  {
  }

  lemma ThreeFirst<T>(s: seq<T>)
    requires |s| >= 3
    ensures s == [s[0], s[1], s[2]] + s[3..]
  {
  }

  lemma FullRoundTrip(b: bytes, e: Encoding)
    requires |b| >= 3
    requires DecodeQuads(Encode(b[3..], e), e) == Some(b[3..])
    ensures DecodeQuads(Encode(b, e), e) == Some(b)
  {
    var b0, b1, b2 := b[0] as int, b[1] as int, b[2] as int;
    EncodeFull(b, e);
    QuadRoundTrip(b0, b1, b2);
    DecodeFour(b0 / 4, b0 % 4 * 16 + b1 / 16, b1 % 16 * 4 + b2 / 64, b2 % 64, Encode(b[3..], e), e);
    ThreeFirst(b);
  }

  lemma {:induction false} QuadsRoundTrip(b: bytes, e: Encoding)
    ensures DecodeQuads(Encode(b, e), e) == Some(b)
  {
    if |b| >= 3 {
      QuadsRoundTrip(b[3..], e);
      FullRoundTrip(b, e);
    } else if |b| == 1 {
      OneRoundTrip(b[0], e);
      assert b == [b[0]];
    } else if |b| == 2 {
      TwoRoundTrip(b[0], b[1], e);
      assert b == [b[0], b[1]];
    }
  }

  /** Decoding undoes encoding, for every byte string. */
  lemma RoundTrip(b: bytes, e: Encoding)
    ensures Decode(Encode(b, e), e) == Some(b)
  {
    EncodeAlphabet(b, e);
    StripNothing(Encode(b, e));
    QuadsRoundTrip(b, e);
  }

  // ---------------------------------------------------------------- bits and symbols

  /** The alphabets, in order. */
  lemma Alphabet(v: int, e: Encoding)
    requires 0 <= v < 64
    ensures v < 26 ==> Symbol(v, e) == "ABCDEFGHIJKLMNOPQRSTUVWXYZ"[v]
    ensures 26 <= v < 52 ==> Symbol(v, e) == "abcdefghijklmnopqrstuvwxyz"[v - 26]
    ensures 52 <= v < 62 ==> Symbol(v, e) == "0123456789"[v - 52]
    ensures 62 <= v ==> Symbol(v, e) == (if e.Std? then "+/" else "-_")[v - 62]
  {
  }

  /** Four six-bit values, and three bytes, as one number each. */
  function Sixes(v0: int, v1: int, v2: int, v3: int): int { ((v0 * 64 + v1) * 64 + v2) * 64 + v3 }

  function Eights(b0: byte, b1: byte, b2: byte): int { (b0 as int * 256 + b1 as int) * 256 + b2 as int }

  /** Three bytes become the four symbols of the same 24 bits; one or two at the end are filled up with
      zero bits, and padded with '=' in the standard encoding. */
  lemma EncodedBits(b: bytes, e: Encoding)
    requires b != []
    ensures var s := Encode(b, e);
            if |b| == 1 then
              && |s| >= 2 && s[2..] == (if e.Std? then "==" else "")
              && Sixes(0, 0, Value(s[0], e), Value(s[1], e)) == b[0] as int * 16
            else if |b| == 2 then
              && |s| >= 3 && s[3..] == (if e.Std? then "=" else "")
              && Sixes(0, Value(s[0], e), Value(s[1], e), Value(s[2], e)) == (b[0] as int * 256 + b[1] as int) * 4
            else
              && |s| >= 4 && s[4..] == Encode(b[3..], e)
              && Sixes(Value(s[0], e), Value(s[1], e), Value(s[2], e), Value(s[3], e)) == Eights(b[0], b[1], b[2])
  {
    var b0 := b[0] as int;
    ValueOfSymbol(b0 / 4, e);
    if |b| == 1 {
      ValueOfSymbol(b0 % 4 * 16, e);
    } else if |b| == 2 {
      ValueOfSymbol(b0 % 4 * 16 + b[1] as int / 16, e);
      ValueOfSymbol(b[1] as int % 16 * 4, e);
    } else {
      ValueOfSymbol(b0 % 4 * 16 + b[1] as int / 16, e);
      ValueOfSymbol(b[1] as int % 16 * 4 + b[2] as int / 64, e);
      ValueOfSymbol(b[2] as int % 64, e);
    }
  }
}
