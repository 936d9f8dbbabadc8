/** The pieces of the Java platform that the GeoIP module relies on, with Java's own
    semantics: the exceptions that can escape it, 32- and 64-bit two's-complement
    arithmetic, the String and Integer operations it calls, and what java.io.File
    reports about a path. */
module Java {

  /** The unchecked exceptions that can escape the module's code. */
  datatype Exception =
    | NullPointer            // a method called on a null reference
    | ArrayIndexOutOfBounds  // an array read past its end
    | NumberFormat           // Integer.parseInt on text that is not a decimal int

  /** A value, or the exception thrown while computing it. */
  datatype Result<+T> = Ok(value: T) | Err(error: Exception)

  /** A reference that may be null. */
  datatype Option<+T> = None | Some(value: T)

  // ---------------------------------------------------------------------------
  // Integer arithmetic

  function Pow2(n: nat): (r: nat)
    ensures r >= 1
  {
    if n == 0 then 1 else 2 * Pow2(n - 1)
  }

  lemma {:induction false} Pow2Add(m: nat, n: nat)
    ensures Pow2(m + n) == Pow2(m) * Pow2(n)
  {
    if m > 0 {
      Pow2Add(m - 1, n);
    }
  }

  lemma {:induction false} Pow2Monotonic(m: nat, n: nat)
    requires m <= n
    ensures Pow2(m) <= Pow2(n)
  {
    if m < n {
      Pow2Monotonic(m, n - 1);
    }
  }

  /** The powers of two the module's shifts use. */
  lemma Pow2Values()
    ensures Pow2(8) == 0x100 && Pow2(16) == 0x1_0000 && Pow2(24) == 0x100_0000
    ensures Pow2(30) == 0x4000_0000 && Pow2(31) == 0x8000_0000 && Pow2(32) == 0x1_0000_0000
  {
    assert Pow2(4) == 16;
    Pow2Add(4, 4);
    Pow2Add(8, 8);
    Pow2Add(16, 8);
    Pow2Add(24, 4);
    assert Pow2(30) == 4 * Pow2(28);
  }

  const IntMin: int := -0x8000_0000
  const IntMax: int := 0x7FFF_FFFF
  const LongMin: int := -0x8000_0000_0000_0000
  const LongMax: int := 0x7FFF_FFFF_FFFF_FFFF

  /** The Java `int` that the mathematical integer x wraps to: its low 32 bits read
      as a two's-complement number. */
  function ToInt(x: int): (r: int)
    ensures IntMin <= r <= IntMax
    ensures (x - r) % 0x1_0000_0000 == 0
    ensures IntMin <= x <= IntMax ==> r == x
  {
    var low := x % 0x1_0000_0000;
    if low <= IntMax then low else low - 0x1_0000_0000
  }

  /** The Java `long` that the mathematical integer x wraps to. */
  function ToLong(x: int): (r: int)
    ensures LongMin <= r <= LongMax
    ensures (x - r) % 0x1_0000_0000_0000_0000 == 0
    ensures LongMin <= x <= LongMax ==> r == x
  {
    var low := x % 0x1_0000_0000_0000_0000;
    if low <= LongMax then low else low - 0x1_0000_0000_0000_0000
  }

  /** Java's `x << n` on an `int`: only the low five bits of the shift count are used
      and the product wraps to 32 bits. */
  function ShiftLeftInt(x: int, n: int): int
  {
    ToInt(x * Pow2(n % 32))
  }

  /** Java's `x << n` on a `long`: the low six bits of the count, a 64-bit product. */
  function ShiftLeftLong(x: int, n: int): int
  {
    ToLong(x * Pow2(n % 64))
  }

  function Abs(x: int): nat
  {
    if x < 0 then -x else x
  }

  /** Bitwise OR of two two's-complement integers, taken bit by bit from the lowest
      (`x / 2` is the arithmetic shift right, `x % 2` the low bit). On two values in
      `long` range it is Java's `|` on longs; an `int` operand is sign-extended to
      `long` first, which keeps its value, so it may be passed as it is. */
  function Or(x: int, y: int): int
    decreases Abs(x) + Abs(y)
  {
    if x == 0 then y
    else if y == 0 then x
    else if x == -1 || y == -1 then -1
    else 2 * Or(x / 2, y / 2) + (if x % 2 == 1 || y % 2 == 1 then 1 else 0)
  }

  lemma {:induction false} DivPow2Step(x: int, k: nat)
    requires k >= 1
    ensures x / 2 / Pow2(k - 1) == x / Pow2(k)
  {
    var d := Pow2(k - 1);
    var q := x / Pow2(k);
    var r := x % Pow2(k);
    assert Pow2(k) == 2 * d;
    assert x == q * (2 * d) + r && 0 <= r < 2 * d;
    assert x / 2 == q * d + r / 2 by {
      assert x == 2 * (q * d + r / 2) + r % 2;
    }
    assert 0 <= r / 2 < d;
    DivUnique(x / 2, d, q, r / 2);
  }

  lemma DivUnique(x: int, d: int, q: int, r: int)
    requires d > 0 && 0 <= r < d && x == q * d + r
    ensures x / d == q && x % d == r
  {
    var q', r' := x / d, x % d;
    assert (q' - q) * d == r - r';
    if q' > q {
      MulAtLeast(q' - q, d);
      assert false;
    } else if q' < q {
      MulAtLeast(q - q', d);
      assert false;
    }
  }

  lemma {:induction false} MulAtLeast(a: int, d: int)
    requires a >= 1 && d >= 1
    ensures a * d >= d
    decreases a
  {
    if a > 1 {
      MulAtLeast(a - 1, d);
      assert a * d == (a - 1) * d + d;
    }
  }

  /** OR with the low-bit mask 2^k - 1 sets the k low bits and keeps the rest. */
  lemma {:induction false} OrLowMask(x: int, k: nat)
    requires x >= 0
    ensures Or(x, Pow2(k) - 1) == x / Pow2(k) * Pow2(k) + Pow2(k) - 1
  {
    var q := x / Pow2(k);
    if k == 0 {
      assert Pow2(k) == 1 && q == x;
    } else if x == 0 {
      DivUnique(0, Pow2(k), 0, 0);
      assert q == 0;
    } else {
      var p := Pow2(k - 1);
      var m := Pow2(k) - 1;
      assert m == 2 * p - 1;
      assert m % 2 == 1 && m / 2 == p - 1;
      assert Or(x, m) == 2 * Or(x / 2, p - 1) + 1;
      OrLowMask(x / 2, k - 1);
      DivPow2Step(x, k);
      assert Or(x / 2, p - 1) == q * p + p - 1;
      Double(q, p);
    }
  }

  lemma Double(q: int, p: int)
    ensures 2 * (q * p) == q * (2 * p)
  {
  }

  /** OR of a multiple of 2^k with a value below 2^k is their sum: the bits do not overlap. */
  lemma {:induction false} OrDisjoint(x: int, k: nat, y: int)
    requires x >= 0 && 0 <= y < Pow2(k)
    ensures Or(x * Pow2(k), y) == x * Pow2(k) + y
  {
    if k > 0 && x != 0 && y != 0 {
      var hi := x * Pow2(k);
      assert hi == 2 * (x * Pow2(k - 1));
      assert hi / 2 == x * Pow2(k - 1) && hi % 2 == 0;
      assert Or(hi, y) == 2 * Or(hi / 2, y / 2) + (if y % 2 == 1 then 1 else 0);
      OrDisjoint(x, k - 1, y / 2);
    }
  }

  /** A Java `byte`. */
  type Byte = b: int | -128 <= b < 128

  /** The signed byte that holds the octet o (0..255), as InetAddress.getAddress() gives it. */
  function SignedByte(o: int): Byte
    requires 0 <= o < 256
  {
    if o < 128 then o else o - 256
  }

  /** `b & 0xFF` on a byte widened to int: the unsigned value of the byte. */
  function UnsignedByte(b: Byte): int
  {
    b % 256
  }

  // ---------------------------------------------------------------------------
  // Sequences

  /** A sequence is its front followed by its last element. */
  lemma FrontLast<T>(s: seq<T>)
    requires |s| > 0
    ensures s == s[..|s| - 1] + [s[|s| - 1]]
    ensures forall x :: x in s <==> x in s[..|s| - 1] || x == s[|s| - 1]
  {
  }

  /** A sequence is what comes before position i, the element there, and the rest. */
  lemma SplitAt<T>(s: seq<T>, i: int)
    requires 0 <= i < |s|
    ensures s == s[..i] + [s[i]] + s[i + 1..]
  {
  }

  /** Dropping the first element of the suffix from i gives the suffix from i + 1. */
  lemma SuffixStep<T>(s: seq<T>, i: int)
    requires 0 <= i < |s|
    ensures s[i..] != [] && s[i..][0] == s[i] && s[i..][1..] == s[i + 1..]
  {
  }

  /** The prefix of length i + 1 is the prefix of length i and the element at i. */
  lemma PrefixStep<T>(s: seq<T>, i: int)
    requires 0 <= i < |s|
    ensures s[..i + 1][..i] == s[..i] && s[..i + 1] == s[..i] + [s[i]]
  {
  }

  /** A non-empty sequence is its head followed by its tail. */
  lemma HeadTail<T>(s: seq<T>)
    requires |s| > 0
    ensures s == [s[0]] + s[1..]
  {
  }

  /** Dropping the last element of a + b, with b non-empty, drops it from b. */
  lemma ConcatFront<T>(a: seq<T>, b: seq<T>)
    requires |b| > 0
    ensures (a + b)[..|a + b| - 1] == a + b[..|b| - 1] && (a + b)[|a + b| - 1] == b[|b| - 1]
  {
  }

  // ---------------------------------------------------------------------------
  // Strings

  /** String.indexOf(c): the first index holding c, or -1. */
  function IndexOf(s: string, c: char): (r: int)
    ensures r == -1 <==> c !in s
    ensures r != -1 ==> 0 <= r < |s| && s[r] == c && c !in s[..r]
  {
    if |s| == 0 then -1
    else if s[0] == c then 0
    else
      var k := IndexOf(s[1..], c);
      if k < 0 then -1
      else
        assert s[..k + 1] == [s[0]] + s[1..][..k];
        k + 1
  }

  /** s.indexOf(prefix) == 0 for a non-empty prefix: s starts with it. */
  predicate StartsWith(s: string, prefix: string)
  {
    |prefix| <= |s| && s[..|prefix|] == prefix
  }

  /** The text between consecutive separators, every one of them, empty ones included. */
  function Pieces(s: string, sep: char): (r: seq<string>)
    ensures |r| >= 1
    ensures forall i :: 0 <= i < |r| ==> sep !in r[i]
    decreases |s|
  {
    var i := IndexOf(s, sep);
    if i < 0 then [s] else [s[..i]] + Pieces(s[i + 1..], sep)
  }

  /** The pieces glued back together with the separator between them. */
  function Join(ps: seq<string>, sep: char): string
    requires |ps| >= 1
  {
    if |ps| == 1 then ps[0] else ps[0] + [sep] + Join(ps[1..], sep)
  }

  /** Cutting a string at its separators loses nothing. */
  lemma {:induction false} PiecesJoin(s: string, sep: char)
    ensures Join(Pieces(s, sep), sep) == s
    decreases |s|
  {
    var i := IndexOf(s, sep);
    if i >= 0 {
      PiecesJoin(s[i + 1..], sep);
      SplitAt(s, i);
    }
  }

  lemma IndexOfFirst(x: string, sep: char, y: string)
    requires sep !in x
    ensures IndexOf(x + [sep] + y, sep) == |x|
  {
    var s := x + [sep] + y;
    var i := IndexOf(s, sep);
    assert s[..|x|] == x && s[|x|] == sep;
  }

  /** The first piece is everything before the first separator. */
  lemma PiecesCons(x: string, sep: char, y: string)
    requires sep !in x
    ensures Pieces(x + [sep] + y, sep) == [x] + Pieces(y, sep)
  {
    var s := x + [sep] + y;
    IndexOfFirst(x, sep, y);
    assert s[..|x|] == x && s[|x| + 1..] == y;
  }

  /** The pieces with the empty strings at the end removed. */
  function DropTrailingEmpty(ps: seq<string>): (r: seq<string>)
    ensures |r| <= |ps| && r == ps[..|r|]
    ensures r == [] || r[|r| - 1] != ""
    ensures forall j :: |r| <= j < |ps| ==> ps[j] == ""
  {
    if |ps| > 0 && ps[|ps| - 1] == "" then DropTrailingEmpty(ps[..|ps| - 1]) else ps
  }

  /** String.split on a one-character literal separator: without a match the whole
      string; otherwise every piece, with the trailing empty ones removed. */
  function Split(s: string, sep: char): seq<string>
  {
    if IndexOf(s, sep) < 0 then [s] else DropTrailingEmpty(Pieces(s, sep))
  }

  // ---------------------------------------------------------------------------
  // Decimal numbers

  predicate IsDigit(ch: char)
  {
    '0' <= ch <= '9'
  }

  predicate AllDigits(s: string)
  {
    forall i :: 0 <= i < |s| ==> IsDigit(s[i])
  }

  /** The number a string of decimal digits spells. */
  function DecimalValue(s: string): nat
    requires AllDigits(s)
  {
    if s == [] then 0 else 10 * DecimalValue(s[..|s| - 1]) + (s[|s| - 1] as int - '0' as int)
  }

  /** The shortest decimal spelling of n. */
  function DecimalText(n: nat): (r: string)
    ensures |r| >= 1 && AllDigits(r)
  {
    if n < 10 then [('0' as int + n) as char]
    else DecimalText(n / 10) + [('0' as int + n % 10) as char]
  }

  lemma {:induction false} DecimalRoundTrip(n: nat)
    ensures DecimalValue(DecimalText(n)) == n
  {
    if n >= 10 {
      var t := DecimalText(n);
      assert t[..|t| - 1] == DecimalText(n / 10);
      DecimalRoundTrip(n / 10);
    }
  }

  /** Integer.parseInt(s): an optional sign and at least one decimal digit, of a
      value that fits an int; anything else throws NumberFormatException. */
  function ParseInt(s: string): (r: Result<int>)
    ensures r.Ok? ==> IntMin <= r.value <= IntMax
  {
    if |s| == 0 then Err(NumberFormat)
    else
      var negative := s[0] == '-';
      var digits := if s[0] == '-' || s[0] == '+' then s[1..] else s;
      if |digits| == 0 || !AllDigits(digits) then Err(NumberFormat)
      else
        var v: int := if negative then -(DecimalValue(digits) as int) else DecimalValue(digits);
        if IntMin <= v <= IntMax then Ok(v) else Err(NumberFormat)
  }

  /** parseInt reads back what the decimal spelling of an int writes, either sign. */
  lemma ParseIntDecimal(n: nat)
    ensures n <= IntMax ==> ParseInt(DecimalText(n)) == Ok(n)
    ensures n <= -IntMin ==> ParseInt("-" + DecimalText(n)) == Ok(0 - n)
  {
    DecimalRoundTrip(n);
    var t := DecimalText(n);
    assert ("-" + t)[1..] == t;
  }

  // ---------------------------------------------------------------------------
  // Files

  /** What java.io.File reports about one path at one moment (existence and
      modification time), whether it can be opened for reading, and what reading it
      gives. */
  datatype Snapshot<+C> = Snapshot(present: bool, mtime: int, readable: bool, contents: C)
  {
    /** File.lastModified(): the modification time, or 0L when there is no such file. */
    function LastModified(): int
    {
      if present then mtime else 0
    }

    /** Opening the file for reading succeeds. */
    predicate CanOpen()
    {
      present && readable
    }
  }
}
