/** Address arithmetic: ipToLong packs a dotted-quad address into a number and
    isInRange tests it against an `address/prefix` range (the prefix notation of
    section 3.1 of RFC 4632), both with the Java arithmetic the module uses. */
module Cidr {
  import opened Java

  /** The number of IPv4 addresses; every packed address is below it. */
  const AddressSpace: int := 0x1_0000_0000

  /** One field of a dotted quad: one to three decimal digits worth at most 255. */
  predicate IsOctetText(s: string)
  {
    1 <= |s| <= 3 && AllDigits(s) && DecimalValue(s) <= 255
  }

  /** The address InetAddress.getByName finds for a dotted-quad literal: its four
      octets. Any other text (a host name, IPv6, an abbreviated form, garbage) is
      treated as a failed conversion. */
  function Resolve(host: string): (r: Option<seq<int>>)
    ensures r.Some? ==> |r.value| == 4 && forall i :: 0 <= i < 4 ==> 0 <= r.value[i] < 256
  {
    var f := Pieces(host, '.');
    if |f| == 4 && IsOctetText(f[0]) && IsOctetText(f[1]) && IsOctetText(f[2]) && IsOctetText(f[3])
    then Some([DecimalValue(f[0]), DecimalValue(f[1]), DecimalValue(f[2]), DecimalValue(f[3])])
    else None
  }

  /** ipToLong: the octets read back from signed bytes with `& 0xFF`, shifted as longs
      and OR-ed together; 0 when the conversion throws. */
  function IpToLong(ipAddress: string): (r: int)
    ensures 0 <= r < AddressSpace
    ensures Resolve(ipAddress).None? ==> r == 0
    ensures Resolve(ipAddress).Some? ==>
              var q := Resolve(ipAddress).value;
              r == q[0] * 0x100_0000 + q[1] * 0x1_0000 + q[2] * 0x100 + q[3]
  {
    match Resolve(ipAddress)
    case None => 0
    case Some(q) =>
      PackOctets(q[0], q[1], q[2], q[3]);
      Pack(q[0], q[1], q[2], q[3])
  }

  /** The dotted-quad spelling of four octets, each in its shortest decimal form. */
  function DottedQuad(a: int, b: int, c: int, d: int): string
    requires 0 <= a < 256 && 0 <= b < 256 && 0 <= c < 256 && 0 <= d < 256
  {
    DecimalText(a) + ['.'] + (DecimalText(b) + ['.'] + (DecimalText(c) + ['.'] + DecimalText(d)))
  }

  /** The decimal spelling of an octet is a field of a dotted quad that reads back as
      the octet. */
  lemma DecimalTextOctet(n: int)
    requires 0 <= n < 256
    ensures IsOctetText(DecimalText(n)) && DecimalValue(DecimalText(n)) == n
    ensures '.' !in DecimalText(n) && '/' !in DecimalText(n)
  {
    DecimalRoundTrip(n);
    var t := DecimalText(n);
    if n >= 10 {
      assert |t| == |DecimalText(n / 10)| + 1;
      if n / 10 >= 10 {
        assert |DecimalText(n / 10)| == |DecimalText(n / 10 / 10)| + 1;
      }
    }
    assert forall i :: 0 <= i < |t| ==> IsDigit(t[i]);
  }

  /** Cutting dot-free fields joined by dots gives back the fields: for two, three
      and four fields. */
  lemma PiecesOfTwo(tc: string, td: string)
    requires '.' !in tc && '.' !in td
    ensures Pieces(tc + ['.'] + td, '.') == [tc, td]
  {
    PiecesCons(tc, '.', td);
    assert Pieces(td, '.') == [td];
  }

  lemma PiecesOfThree(tb: string, tc: string, td: string)
    requires '.' !in tb && '.' !in tc && '.' !in td
    ensures Pieces(tb + ['.'] + (tc + ['.'] + td), '.') == [tb, tc, td]
  {
    PiecesOfTwo(tc, td);
    PiecesCons(tb, '.', tc + ['.'] + td);
  }

  lemma PiecesOfFour(ta: string, tb: string, tc: string, td: string)
    requires '.' !in ta && '.' !in tb && '.' !in tc && '.' !in td
    ensures Pieces(ta + ['.'] + (tb + ['.'] + (tc + ['.'] + td)), '.') == [ta, tb, tc, td]
  {
    PiecesOfThree(tb, tc, td);
    PiecesCons(ta, '.', tb + ['.'] + (tc + ['.'] + td));
    ConsDisplay(ta, [tb, tc, td]);
  }

  lemma ConsDisplay<T>(x: T, rest: seq<T>)
    requires |rest| == 3
    ensures [x] + rest == [x, rest[0], rest[1], rest[2]]
  {
  }

  /** ipToLong of a dotted quad written out from four octets is the big-endian value
      of those octets. */
  lemma IpToLongDottedQuad(a: int, b: int, c: int, d: int)
    requires 0 <= a < 256 && 0 <= b < 256 && 0 <= c < 256 && 0 <= d < 256
    ensures Resolve(DottedQuad(a, b, c, d)) == Some([a, b, c, d])
    ensures IpToLong(DottedQuad(a, b, c, d)) == a * 0x100_0000 + b * 0x1_0000 + c * 0x100 + d
  {
    DecimalTextOctet(a);
    DecimalTextOctet(b);
    DecimalTextOctet(c);
    DecimalTextOctet(d);
    PiecesOfFour(DecimalText(a), DecimalText(b), DecimalText(c), DecimalText(d));
  }

  /** The packing in ipToLong for the octets a.b.c.d: InetAddress.getAddress() hands them over as
      signed bytes. */
  function Pack(a: int, b: int, c: int, d: int): int
    requires 0 <= a < 256 && 0 <= b < 256 && 0 <= c < 256 && 0 <= d < 256
  {
    var octet1 := ShiftLeftLong(UnsignedByte(SignedByte(a)), 24);
    var octet2 := ShiftLeftLong(UnsignedByte(SignedByte(b)), 16);
    var octet3 := ShiftLeftLong(UnsignedByte(SignedByte(c)), 8);
    var octet4 := UnsignedByte(SignedByte(d));
    Or(Or(Or(octet1, octet2), octet3), octet4)
  }

  lemma ShiftLeftLongExact(x: int, n: nat)
    requires n < 64 && 0 <= x && x * Pow2(n) <= LongMax
    ensures ShiftLeftLong(x, n) == x * Pow2(n)
  {
    assert n % 64 == n;
  }

  /** The signed byte of an octet, masked with 0xFF, is the octet again. */
  lemma ByteRoundTrip(o: int)
    requires 0 <= o < 256
    ensures UnsignedByte(SignedByte(o)) == o
  {
    if o >= 128 {
      DivUnique(o - 256, 256, -1, o);
    }
  }

  /** The three left shifts in ipToLong lose nothing. */
  lemma PackShifted(a: int, b: int, c: int, d: int)
    requires 0 <= a < 256 && 0 <= b < 256 && 0 <= c < 256 && 0 <= d < 256
    ensures Pack(a, b, c, d) == Or(Or(Or(a * 0x100_0000, b * 0x1_0000), c * 0x100), d)
  {
    Pow2Values();
    ByteRoundTrip(a);
    ByteRoundTrip(b);
    ByteRoundTrip(c);
    ByteRoundTrip(d);
    ShiftLeftLongExact(a, 24);
    ShiftLeftLongExact(b, 16);
    ShiftLeftLongExact(c, 8);
  }

  /** The octets occupy disjoint bits, so OR-ing them adds them. */
  lemma OrOctets(a: int, b: int, c: int, d: int)
    requires 0 <= a < 256 && 0 <= b < 256 && 0 <= c < 256 && 0 <= d < 256
    ensures Or(Or(Or(a * 0x100_0000, b * 0x1_0000), c * 0x100), d) == a * 0x100_0000 + b * 0x1_0000 + c * 0x100 + d
  {
    var ab := a * 0x100 + b;
    var abc := ab * 0x100 + c;
    OrFirstTwo(a, b);
    assert a * 0x100_0000 + b * 0x1_0000 == ab * 0x1_0000;
    OrThird(ab, c);
    assert ab * 0x1_0000 + c * 0x100 == abc * 0x100;
    OrFourth(abc, d);
  }

  lemma OrFirstTwo(a: int, b: int)
    requires 0 <= a < 256 && 0 <= b < 256
    ensures Or(a * 0x100_0000, b * 0x1_0000) == a * 0x100_0000 + b * 0x1_0000
  {
    Pow2Values();
    OrDisjoint(a, 24, b * 0x1_0000);
  }

  lemma OrThird(ab: int, c: int)
    requires 0 <= ab < 0x1_0000 && 0 <= c < 256
    ensures Or(ab * 0x1_0000, c * 0x100) == ab * 0x1_0000 + c * 0x100
  {
    Pow2Values();
    OrDisjoint(ab, 16, c * 0x100);
  }

  lemma OrFourth(abc: int, d: int)
    requires 0 <= abc < 0x100_0000 && 0 <= d < 256
    ensures Or(abc * 0x100, d) == abc * 0x100 + d
  {
    Pow2Values();
    OrDisjoint(abc, 8, d);
  }

  lemma PackOctets(a: int, b: int, c: int, d: int)
    requires 0 <= a < 256 && 0 <= b < 256 && 0 <= c < 256 && 0 <= d < 256
    ensures Pack(a, b, c, d) == a * 0x100_0000 + b * 0x1_0000 + c * 0x100 + d
  {
    PackShifted(a, b, c, d);
    OrOctets(a, b, c, d);
  }

  /** `int tempMask = (2 << (31 - cidrMask)) - 1`, every step a Java int operation. */
  function Mask(cidrMask: int): int
  {
    ToInt(ShiftLeftInt(2, ToInt(31 - cidrMask)) - 1)
  }

  lemma WrapKeepsLowBits(v: int)
    ensures ToInt(v) % 32 == v % 32
  {
    var low := v % 0x1_0000_0000;
    var big := v / 0x1_0000_0000;
    var lq, lr := low / 32, low % 32;
    assert v == 32 * (0x800_0000 * big + lq) + lr;
    DivUnique(v, 32, 0x800_0000 * big + lq, lr);
    if low > IntMax {
      assert ToInt(v) == 32 * (lq - 0x800_0000) + lr;
      DivUnique(ToInt(v), 32, lq - 0x800_0000, lr);
    }
  }

  /** The shift count Java uses for `2 << (31 - cidrMask)`: the int difference taken
      modulo 32. */
  lemma ShiftCount(cidrMask: int)
    ensures ToInt(31 - cidrMask) % 32 == 31 - cidrMask % 32
  {
    WrapKeepsLowBits(31 - cidrMask);
    var q := cidrMask % 32;
    assert 31 - cidrMask == 32 * -(cidrMask / 32) + (31 - q);
    DivUnique(31 - cidrMask, 32, -(cidrMask / 32), 31 - q);
  }

  /** `2 << s` as an int for a shift count s in 0..31: the bit moves out at 31 and
      into the sign at 30. */
  lemma ShiftTwo(s: int)
    requires 0 <= s < 32
    ensures s == 31 ==> ShiftLeftInt(2, s) == 0
    ensures s == 30 ==> ShiftLeftInt(2, s) == IntMin
    ensures s < 30 ==> ShiftLeftInt(2, s) == Pow2(s + 1)
  {
    DivUnique(s, 32, 0, s);
    assert 2 * Pow2(s) == Pow2(s + 1);
    Pow2Values();
    if s < 30 {
      Pow2Monotonic(s + 1, 30);
    } else if s == 31 {
      DivUnique(Pow2(32), 0x1_0000_0000, 1, 0);
    } else {
      DivUnique(Pow2(31), 0x1_0000_0000, 0, Pow2(31));
    }
  }

  /** The shift count wraps modulo 32 and the difference wraps to an int, so the mask
      is all ones (-1) for every multiple of 32 and otherwise masks the low
      32 - (prefix mod 32) bits: prefix 0 gives -1, prefix 1 gives 0x7FFFFFFF. */
  lemma MaskValue(cidrMask: int)
    ensures cidrMask % 32 == 0 ==> Mask(cidrMask) == -1
    ensures cidrMask % 32 != 0 ==> Mask(cidrMask) == Pow2(32 - cidrMask % 32) - 1
  {
    var q := cidrMask % 32;
    var n := ToInt(31 - cidrMask);
    ShiftCount(cidrMask);
    assert ShiftLeftInt(2, n) == ShiftLeftInt(2, 31 - q);
    ShiftTwo(31 - q);
    Pow2Values();
  }

  /** The comparison in isInRange once the prefix has been parsed: exact equality for 32,
      equality after OR-ing the mask into both addresses otherwise. */
  function Matches(cidrMask: int, target: int, test: int): bool
  {
    if cidrMask == 32 then target == test
    else Or(target, Mask(cidrMask)) == Or(test, Mask(cidrMask))
  }

  /** isInRange: split at "/", parse the prefix (atoms[1]), convert both addresses. */
  function IsInRange(targetIpCidr: string, testIp: string): Result<bool>
  {
    var atoms := Split(targetIpCidr, '/');
    if |atoms| < 2 then Err(ArrayIndexOutOfBounds)
    else
      match ParseInt(atoms[1])
      case Err(e) => Err(e)
      case Ok(cidrMask) => Ok(Matches(cidrMask, IpToLong(atoms[0]), IpToLong(testIp)))
  }

  // ---------------------------------------------------------------------------
  // What the range test means

  /** The p leading bits of a 32-bit address. */
  function TopBits(address: int, p: nat): int
    requires p <= 32
  {
    address / Pow2(32 - p)
  }

  lemma {:induction false} MulCancel(a: int, b: int, d: int)
    requires d >= 1 && a * d == b * d
    ensures a == b
  {
    if a > b {
      MulAtLeast(a - b, d);
      assert false;
    } else if a < b {
      MulAtLeast(b - a, d);
      assert false;
    }
  }

  /** With a prefix that is a multiple of 32 (other than 32) the mask is all ones and
      every pair of addresses matches. */
  lemma MatchesAllOnes(cidrMask: int, target: int, test: int)
    requires cidrMask != 32 && cidrMask % 32 == 0
    requires 0 <= target < AddressSpace && 0 <= test < AddressSpace
    ensures Matches(cidrMask, target, test)
    ensures TopBits(target, 0) == 0 == TopBits(test, 0)
  {
    MaskValue(cidrMask);
    Pow2Values();
    DivUnique(target, Pow2(32), 0, target);
    DivUnique(test, Pow2(32), 0, test);
  }

  /** With any other prefix the mask covers the low 32 - (p mod 32) bits. */
  lemma MatchesLowMask(cidrMask: int, target: int, test: int)
    requires cidrMask % 32 != 0
    requires 0 <= target < AddressSpace && 0 <= test < AddressSpace
    ensures var q := cidrMask % 32;
            Matches(cidrMask, target, test) == (TopBits(target, q) == TopBits(test, q))
  {
    var q := cidrMask % 32;
    var k := 32 - q;
    var m := Pow2(k);
    MaskValue(cidrMask);
    assert Mask(cidrMask) == m - 1;
    OrLowMask(target, k);
    OrLowMask(test, k);
    if Or(target, m - 1) == Or(test, m - 1) {
      MulCancel(target / m, test / m, m);
    }
  }

  /** For two addresses, the test with prefix p succeeds exactly when they share their
      p mod 32 leading bits, or, for p = 32 itself, when they are equal. */
  lemma MatchesMeaning(cidrMask: int, target: int, test: int)
    requires 0 <= target < AddressSpace && 0 <= test < AddressSpace
    ensures cidrMask == 32 ==> Matches(cidrMask, target, test) == (target == test)
    ensures cidrMask != 32 ==>
              Matches(cidrMask, target, test) == (TopBits(target, cidrMask % 32) == TopBits(test, cidrMask % 32))
  {
    if cidrMask != 32 {
      if cidrMask % 32 == 0 {
        MatchesAllOnes(cidrMask, target, test);
      } else {
        MatchesLowMask(cidrMask, target, test);
      }
    }
  }

  lemma TopBitsAll(address: int)
    ensures TopBits(address, 32) == address
  {
    assert Pow2(0) == 1;
  }

  /** For a prefix in 0..32 the test is the CIDR one: the leading p bits agree.
      Prefix 32 is exact equality and prefix 0 holds for every pair of addresses. */
  lemma MatchesIsPrefixAgreement(p: int, target: int, test: int)
    requires 0 <= p <= 32
    requires 0 <= target < AddressSpace && 0 <= test < AddressSpace
    ensures Matches(p, target, test) == (TopBits(target, p) == TopBits(test, p))
    ensures p == 32 ==> Matches(p, target, test) == (target == test)
    ensures p == 0 ==> Matches(p, target, test)
  {
    if p == 32 {
      TopBitsAll(target);
      TopBitsAll(test);
    } else if p == 0 {
      MatchesAllOnes(p, target, test);
    } else {
      DivUnique(p, 32, 0, p);
      MatchesLowMask(p, target, test);
    }
  }

  /** A prefix outside 0..32 behaves as the prefix it is congruent to modulo 32. */
  lemma MatchesWraps(cidrMask: int, target: int, test: int)
    requires cidrMask != 32
    requires 0 <= target < AddressSpace && 0 <= test < AddressSpace
    ensures Matches(cidrMask, target, test) == Matches(cidrMask % 32, target, test)
  {
    var q := cidrMask % 32;
    assert q % 32 == q;
    MatchesMeaning(cidrMask, target, test);
    MatchesMeaning(q, target, test);
  }

  /** The prefix text of a line `address/rest`: `rest` up to its next slash. */
  function PrefixText(rest: string): string
  {
    var j := IndexOf(rest, '/');
    if j < 0 then rest else rest[..j]
  }

  lemma PiecesHead(s: string, sep: char)
    ensures Pieces(s, sep)[0] == (var j := IndexOf(s, sep); if j < 0 then s else s[..j])
  {
  }

  /** String.split("/") on a line whose first slash is not its first character: the
      address before the slash comes first, and the prefix text second whenever there
      is a second atom, which there is when that text is not empty. */
  lemma SplitRangeLine(line: string)
    requires IndexOf(line, '/') > 0
    ensures var i := IndexOf(line, '/');
            var atoms := Split(line, '/');
            && |atoms| >= 1 && atoms[0] == line[..i]
            && (PrefixText(line[i + 1..]) != "" ==> |atoms| >= 2)
            && (|atoms| >= 2 ==> atoms[1] == PrefixText(line[i + 1..]))
  {
    var i := IndexOf(line, '/');
    var addr, rest := line[..i], line[i + 1..];
    var ps := Pieces(line, '/');
    assert ps == [addr] + Pieces(rest, '/') by {
      SplitAt(line, i);
      PiecesCons(addr, '/', rest);
    }
    assert ps[1] == PrefixText(rest) by {
      PiecesHead(rest, '/');
    }
    var atoms := DropTrailingEmpty(ps);
    assert Split(line, '/') == atoms;
    assert ps[0] != "";
  }

  /** For a line whose first slash is not its first character (the lines checkAddress
      hands over), isInRange throws exactly when the text between the first slash and
      the next one, or the end, is not a decimal int; otherwise it applies that prefix
      to the address before the slash and the address testIp. */
  lemma IsInRangeMeaning(line: string, ip: string)
    requires IndexOf(line, '/') > 0
    ensures var i := IndexOf(line, '/');
            var prefix := ParseInt(PrefixText(line[i + 1..]));
            && (IsInRange(line, ip).Err? <==> prefix.Err?)
            && (prefix.Ok? ==> IsInRange(line, ip) == Ok(Matches(prefix.value, IpToLong(line[..i]), IpToLong(ip))))
  {
    SplitRangeLine(line);
    var i := IndexOf(line, '/');
    assert PrefixText(line[i + 1..]) == "" ==> ParseInt(PrefixText(line[i + 1..])).Err?;
  }

  /** The form of the properties the module relies on: a line `a/p` with p in 0..32
      admits exactly the addresses sharing a's leading p bits. */
  lemma InRangeIffSamePrefix(line: string, ip: string, p: int)
    requires IndexOf(line, '/') > 0
    requires 0 <= p <= 32
    requires ParseInt(PrefixText(line[IndexOf(line, '/') + 1..])) == Ok(p)
    ensures IsInRange(line, ip) ==
              Ok(TopBits(IpToLong(line[..IndexOf(line, '/')]), p) == TopBits(IpToLong(ip), p))
  {
    IsInRangeMeaning(line, ip);
    MatchesIsPrefixAgreement(p, IpToLong(line[..IndexOf(line, '/')]), IpToLong(ip));
  }

  /** Every address lies in each range written with it, whatever the prefix, once the
      prefix parses. */
  lemma AddressInOwnRange(line: string)
    requires IndexOf(line, '/') > 0
    requires ParseInt(PrefixText(line[IndexOf(line, '/') + 1..])).Ok?
    ensures IsInRange(line, line[..IndexOf(line, '/')]) == Ok(true)
  {
    IsInRangeMeaning(line, line[..IndexOf(line, '/')]);
  }
}
