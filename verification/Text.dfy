/** Go strings and byte slices, with the parts of the Go standard library's `strings` and
    `strconv` packages the modelled code relies on. */
module Text {
  datatype Option<+T> = None | Some(value: T)

  /** A byte is a character below 256, so that string literals can be written as they are in Go. */
  type byte = c: char | c as int < 256
  type bytes = seq<byte>

  /** Go's 64-bit `int` range. */
  const MAX_INT64: int := 0x7FFF_FFFF_FFFF_FFFF
  const MIN_INT64: int := -0x8000_0000_0000_0000

  function Byte(n: int): byte
    requires 0 <= n < 256
  {
    n as char
  }

  function Pow2(n: nat): nat { if n == 0 then 1 else 2 * Pow2(n - 1) }

  /** A hexadecimal digit; `ten` says whether the letters are 'A' to 'F' or 'a' to 'f'. */
  function HexDigit(n: int, ten: byte): byte
    requires 0 <= n < 16 && (ten == 'A' || ten == 'a')
  {
    if n < 10 then Byte('0' as int + n) else Byte(ten as int + n - 10)
  }

  lemma Assoc<T>(a: seq<T>, b: seq<T>, c: seq<T>)
    ensures a + (b + c) == (a + b) + c
  {
  }

  /** Where a character first occurs; the length if it does not. */
  function IndexOf(s: bytes, c: byte): (i: nat)
    ensures i <= |s| && c !in s[..i] && (i < |s| ==> s[i] == c)
  {
    if s == [] || s[0] == c then 0
    else
      var i := IndexOf(s[1..], c);
      assert s[..i + 1] == [s[0]] + s[1..][..i];
      i + 1
  }

  lemma {:induction false} IndexOfFirst(a: bytes, c: byte, b: bytes)
    requires c !in a
    ensures IndexOf(a + [c] + b, c) == |a|
  {
    var s := a + [c] + b;
    if a != [] {
      assert s[1..] == a[1..] + [c] + b;
      IndexOfFirst(a[1..], c, b);
    }
  }

  lemma HeadTail<T>(s: seq<T>)
    requires s != []
    ensures s == [s[0]] + s[1..]
  {
  }

  lemma InitLast<T>(s: seq<T>)
    requires s != []
    ensures s == s[..|s| - 1] + [s[|s| - 1]]
  {
  }

  lemma DropCut<T>(s: seq<T>, lo: nat, i: nat)
    requires lo <= i < |s|
    ensures s[lo..] == s[lo..i] + [s[i]] + s[i + 1..]
  {
  }

  lemma DropSplit<T>(s: seq<T>, lo: nat, i: nat)
    requires lo <= i <= |s|
    ensures s[lo..] == s[lo..i] + s[i..]
  {
  }

  lemma ConsTail<T>(x: T, s: seq<T>)
    ensures ([x] + s)[1..] == s
  {
  }

  lemma TakeAppend<T>(a: seq<T>, b: seq<T>)
    ensures (a + b)[..|a|] == a && (a + b)[|a|..] == b
  {
  }

  lemma AppendTwo<T>(a: seq<T>, x: T, y: T)
    ensures a + [x, y] == a + [x] + [y]
  {
  }

  // ---------------------------------------------------------------- Split and Join

  /** strings.Split with a one-character separator: never empty, empty pieces kept. */
  function Split(s: bytes, sep: byte): (r: seq<bytes>)
    ensures |r| >= 1
  {
    if s == [] then [[]]
    else
      var r := Split(s[1..], sep);
      if s[0] == sep then [[]] + r else [[s[0]] + r[0]] + r[1..]
  }

  /** strings.Join with a one-character separator. */
  function Join(parts: seq<bytes>, sep: byte): bytes
  {
    if |parts| == 0 then []
    else if |parts| == 1 then parts[0]
    else parts[0] + [sep] + Join(parts[1..], sep)
  }

  lemma CutIndex<T>(s: seq<T>, i: nat)
    requires i < |s|
    ensures s == s[..i] + [s[i]] + s[i + 1..]
  {
  }

  lemma TakeNext<T>(s: seq<T>, i: nat)
    requires i < |s|
    ensures s[..i + 1] == s[..i] + [s[i]]
  {
  }

  lemma TakeTake<T>(s: seq<T>, n: nat, m: nat)
    requires m <= n <= |s|
    ensures s[..n][..m] == s[..m]
  {
  }

  /** Cutting at the first separator. */
  lemma {:induction false} CutAt(s: bytes, c: byte)
    requires c in s
    ensures var i := IndexOf(s, c); i < |s| && s == s[..i] + [c] + s[i + 1..]
  {
    if s[0] != c {
      assert s == [s[0]] + s[1..];
      CutAt(s[1..], c);
    }
    CutIndex(s, IndexOf(s, c));
  }

  lemma SplitThree(a: bytes, b: bytes, c: bytes, sep: byte)
    requires sep !in a && sep !in b
    ensures Split(a + [sep] + (b + [sep] + c), sep) == [a, b] + Split(c, sep)
  {
    var rest := b + [sep] + c;
    SplitCons(a, sep, rest);
    SplitCons(b, sep, c);
    assert [a] + ([b] + Split(c, sep)) == [a, b] + Split(c, sep);
  }

  lemma JoinTwo(a: bytes, b: bytes, sep: byte)
    ensures Join([a, b], sep) == a + [sep] + b
  {
    assert [a, b][1..] == [b];
  }

  lemma JoinThree(a: bytes, b: bytes, c: bytes, sep: byte)
    ensures Join([a, b, c], sep) == a + [sep] + (b + [sep] + c) == a + [sep] + b + [sep] + c
  {
    assert [a, b, c][1..] == [b, c] && [b, c][1..] == [c];
    assert Join([c], sep) == c && Join([b, c], sep) == b + [sep] + c;
  }

  lemma {:induction false} SplitClean(s: bytes, sep: byte)
    requires sep !in s
    ensures Split(s, sep) == [s]
  {
    if s != [] {
      SplitClean(s[1..], sep);
      assert [s[0]] + s[1..] == s;
    }
  }

  lemma {:induction false} SplitCons(a: bytes, sep: byte, rest: bytes)
    requires sep !in a
    ensures Split(a + [sep] + rest, sep) == [a] + Split(rest, sep)
  {
    var s := a + [sep] + rest;
    if a == [] {
      assert s[1..] == rest;
    } else {
      assert s[1..] == a[1..] + [sep] + rest;
      SplitCons(a[1..], sep, rest);
      assert s[0] == a[0] && [a[0]] + a[1..] == a;
    }
  }

  /** Splitting undoes joining exactly when no piece holds the separator. */
  lemma {:induction false} SplitJoin(parts: seq<bytes>, sep: byte)
    requires |parts| >= 1
    requires forall p <- parts :: sep !in p
    ensures Split(Join(parts, sep), sep) == parts
  {
    if |parts| == 1 {
      SplitClean(parts[0], sep);
    } else {
      SplitCons(parts[0], sep, Join(parts[1..], sep));
      SplitJoin(parts[1..], sep);
      assert [parts[0]] + parts[1..] == parts;
    }
  }

  lemma JoinNewPiece(r: seq<bytes>, sep: byte)
    requires r != []
    ensures Join([[]] + r, sep) == [sep] + Join(r, sep)
  {
    ConsTail([], r);
  }

  lemma JoinLongerPiece(c: byte, r: seq<bytes>, sep: byte)
    requires r != []
    ensures Join([[c] + r[0]] + r[1..], sep) == [c] + Join(r, sep)
  {
    ConsTail([c] + r[0], r[1..]);
    if |r| > 1 {
      Assoc([c], r[0], [sep]);
      Assoc([c], r[0] + [sep], Join(r[1..], sep));
    }
  }

  /** Joining undoes splitting, and no piece holds the separator. */
  lemma {:induction false} JoinSplit(s: bytes, sep: byte)
    ensures Join(Split(s, sep), sep) == s
    ensures forall p <- Split(s, sep) :: sep !in p
  {
    if s != [] {
      var r := Split(s[1..], sep);
      JoinSplit(s[1..], sep);
      HeadTail(s);
      if s[0] == sep { JoinNewPiece(r, sep); } else { JoinLongerPiece(s[0], r, sep); }
    }
  }

  /** How many pieces a joined list splits into: one more for every separator inside a piece. */
  function Count(s: bytes, c: byte): nat
  {
    if s == [] then 0 else (if s[0] == c then 1 else 0) + Count(s[1..], c)
  }

  lemma {:induction false} CountAppend(a: bytes, b: bytes, c: byte)
    ensures Count(a + b, c) == Count(a, c) + Count(b, c)
  {
    if a == [] {
      assert a + b == b;
    } else {
      assert (a + b)[1..] == a[1..] + b;
      CountAppend(a[1..], b, c);
    }
  }

  lemma {:induction false} CountZero(s: bytes, c: byte)
    ensures Count(s, c) == 0 <==> c !in s
  {
    if s != [] { CountZero(s[1..], c); }
  }

  lemma {:induction false} SplitLength(s: bytes, sep: byte)
    ensures |Split(s, sep)| == 1 + Count(s, sep)
  {
    if s != [] { SplitLength(s[1..], sep); }
  }

  function Total(parts: seq<bytes>, sep: byte): nat
  {
    if parts == [] then 0 else Count(parts[0], sep) + Total(parts[1..], sep)
  }

  lemma {:induction false} CountJoin(parts: seq<bytes>, sep: byte)
    requires parts != []
    ensures Count(Join(parts, sep), sep) == |parts| - 1 + Total(parts, sep)
  {
    if |parts| > 1 {
      CountJoin(parts[1..], sep);
      CountAppend(parts[0] + [sep], Join(parts[1..], sep), sep);
      CountAppend(parts[0], [sep], sep);
      assert Count([sep], sep) == 1 + Count([], sep);
    } else {
      assert parts[1..] == [];
    }
  }

  /** The pieces of a joined list number as many as the list exactly when no piece holds the
      separator. */
  lemma {:induction false} TotalZero(parts: seq<bytes>, sep: byte)
    ensures Total(parts, sep) == 0 <==> forall i :: 0 <= i < |parts| ==> sep !in parts[i]
  {
    if parts != [] {
      CountZero(parts[0], sep);
      TotalZero(parts[1..], sep);
      if forall i :: 0 <= i < |parts[1..]| ==> sep !in parts[1..][i] {
        assert forall i :: 1 <= i < |parts| ==> parts[i] == parts[1..][i - 1];
      } else {
        var i :| 0 <= i < |parts[1..]| && sep in parts[1..][i];
        assert sep in parts[i + 1];
      }
    }
  }

  /** A separator in the middle splits the two sides apart. */
  lemma {:induction false} SplitAround(a: bytes, rest: bytes, sep: byte)
    ensures Split(a + [sep] + rest, sep) == Split(a, sep) + Split(rest, sep)
  {
    var s := a + [sep] + rest;
    if a == [] {
      assert s[1..] == rest;
    } else {
      assert s[1..] == a[1..] + [sep] + rest;
      SplitAround(a[1..], rest, sep);
      var r, q := Split(a[1..], sep), Split(rest, sep);
      assert (r + q)[0] == r[0] && (r + q)[1..] == r[1..] + q;
      if a[0] == sep {
        Assoc([[]], r, q);
      } else {
        Assoc([[a[0]] + r[0]], r[1..], q);
      }
    }
  }

  lemma {:induction false} JoinAppend(a: seq<bytes>, b: seq<bytes>, sep: byte)
    requires a != [] && b != []
    ensures Join(a + b, sep) == Join(a, sep) + [sep] + Join(b, sep)
  {
    assert (a + b)[1..] == a[1..] + b;
    if |a| > 1 {
      JoinAppend(a[1..], b, sep);
    } else {
      assert a[1..] == [] && a[1..] + b == b;
    }
  }

  // ---------------------------------------------------------------- Decimal numbers

  predicate IsDigit(c: byte) { '0' <= c <= '9' }

  function Digits(n: nat): (r: bytes)
    ensures |r| >= 1
    ensures forall c <- r :: IsDigit(c)
  {
    var last := [Byte('0' as int + n % 10)];
    if n < 10 then last else Digits(n / 10) + last
  }

  function DigitsValue(s: bytes): nat
    requires forall c <- s :: IsDigit(c)
  {
    if s == [] then 0
    else
      assert IsDigit(s[|s| - 1]);
      10 * DigitsValue(s[..|s| - 1]) + (s[|s| - 1] as int - '0' as int)
  }

  lemma {:induction false} DigitsRoundTrip(n: nat)
    ensures DigitsValue(Digits(n)) == n
  {
    var d := Digits(n);
    if n < 10 {
      assert d[..0] == [];
    } else {
      DigitsRoundTrip(n / 10);
      assert d[..|d| - 1] == Digits(n / 10);
    }
  }

  /** The k-th decimal digit of n, counted from the last. */
  function DecimalDigit(n: nat, k: nat): nat { if k == 0 then n % 10 else DecimalDigit(n / 10, k - 1) }

  /** Every place of a printed number holds its decimal digit, and it begins with none that is zero. */
  lemma {:induction false} DigitsPlaces(n: nat, k: nat)
    requires k < |Digits(n)|
    ensures Digits(n)[|Digits(n)| - 1 - k] as int - '0' as int == DecimalDigit(n, k)
    ensures n > 0 ==> Digits(n)[0] != '0'
  {
    if n >= 10 { DigitsPlaces(n / 10, if k > 0 then k - 1 else 0); }
  }

  /** strconv.FormatInt(n, 10). */
  function FormatInt(n: int): bytes
  {
    if n < 0 then ['-'] + Digits(-n) else Digits(n)
  }

  /** strconv.ParseInt(s, 10, 64), and strconv.Atoi on a 64-bit platform: an optional sign, at least
      one digit, nothing else, and a value that fits. */
  function ParseInt(s: bytes): Option<int>
  {
    var signed := s != [] && (s[0] == '-' || s[0] == '+');
    var body := if signed then s[1..] else s;
    if body == [] || exists c <- body :: !IsDigit(c) then None
    else
      var n: int := if signed && s[0] == '-' then -(DigitsValue(body) as int) else DigitsValue(body);
      if MIN_INT64 <= n <= MAX_INT64 then Some(n) else None
  }

  lemma ParseFormatInt(n: int)
    ensures ParseInt(FormatInt(n)) == if MIN_INT64 <= n <= MAX_INT64 then Some(n) else None
  {
    var s := FormatInt(n);
    if n < 0 {
      assert s[1..] == Digits(-n);
      DigitsRoundTrip(-n);
    } else {
      assert IsDigit(s[0]);
      DigitsRoundTrip(n);
    }
  }

  lemma FormatIntChars(n: int)
    ensures forall c <- FormatInt(n) :: IsDigit(c) || c == '-'
  {
  }
}
