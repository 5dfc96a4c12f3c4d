/** What the address arithmetic of `NetworkConfig` means: the text conversions undo each other,
    and the masked comparison is membership in an aligned block. */
module Addressing {
  import opened Text
  import opened Bits
  import opened NetworkConfig

  // ---------- octets ----------

  function Quad(a: nat, b: nat, c: nat, d: nat): nat {
    a * 0x100_0000 + b * 0x1_0000 + c * 0x100 + d
  }

  lemma AndByte(y: nat)
    ensures BitAnd(y, 0xFF) == y % 256
  {
    assert Pow2(8) == 256;
    AndLowMask(y, 8);
  }

  lemma OctetDigits(x: uint32)
    ensures Octet(x, 24) == x / 0x100_0000 % 256 && Octet(x, 16) == x / 0x1_0000 % 256
    ensures Octet(x, 8) == x / 0x100 % 256 && Octet(x, 0) == x % 256
  {
    Pow2Values();
    AndByte(x / 0x100_0000);
    AndByte(x / 0x1_0000);
    AndByte(x / 0x100);
    AndByte(x);
  }

  lemma Base256(x: uint32, a: nat, b: nat, c: nat, d: nat)
    requires a == x / 0x100_0000 % 256 && b == x / 0x1_0000 % 256 && c == x / 0x100 % 256 && d == x % 256
    ensures Quad(a, b, c, d) == x
  {
    var x1, x2, x3 := x / 0x100, x / 0x1_0000, x / 0x100_0000;
    assert x == 256 * x1 + d;
    assert x1 / 256 == x2 && x1 == 256 * x2 + c;
    assert x2 / 256 == x3 && x2 == 256 * x3 + b;
    assert x3 == a;
  }

  /** The four octets of an address are its digits in base 256. */
  lemma OctetsOf(x: uint32)
    ensures Octet(x, 24) < 256 && Octet(x, 16) < 256 && Octet(x, 8) < 256 && Octet(x, 0) < 256
    ensures Quad(Octet(x, 24), Octet(x, 16), Octet(x, 8), Octet(x, 0)) == x
  {
    OctetDigits(x);
    Base256(x, Octet(x, 24), Octet(x, 16), Octet(x, 8), Octet(x, 0));
  }

  lemma ShiftedOctet(v: nat, k: nat, p: nat)
    requires p == Pow2(k) && v < TWO32 && v * p < TWO32
    ensures Shl32(ToWord(v), k) == v * p
  {
    assert ToWord(v) == v;
  }

  /** Or-ing a number into an address whose low bits are free adds it. */
  lemma OrFree(high: nat, free: nat, low: nat)
    requires low < Pow2(free) && high * Pow2(free) < TWO32 && low < TWO32
    ensures Or32(high * Pow2(free), low) == high * Pow2(free) + low
  {
    OrDisjoint(high, free, low);
  }

  lemma FirstOctets(a: nat, b: nat)
    requires a < 256 && b < 256
    ensures Or32(0, Shl32(ToWord(a), 24)) == a * 0x100_0000
    ensures Or32(a * 0x100_0000, Shl32(ToWord(b), 16)) == a * 0x100_0000 + b * 0x1_0000
  {
    Pow2Values();
    ShiftedOctet(a, 24, 0x100_0000);
    ShiftedOctet(b, 16, 0x1_0000);
    OrFree(0, 32, a * 0x100_0000);
    OrFree(a, 24, b * 0x1_0000);
  }

  lemma ThirdOctet(high: nat, c: nat)
    requires high < 0x1_0000 && c < 256
    ensures Or32(high * 0x1_0000, Shl32(ToWord(c), 8)) == high * 0x1_0000 + c * 0x100
  {
    hide Or32, Shl32, ToWord, Pow2;
    assert Pow2(8) == 0x100 && Pow2(16) == 0x1_0000 by {
      Pow2Values();
    }
    ShiftedOctet(c, 8, 0x100);
    OrFree(high, 16, c * 0x100);
  }

  lemma FourthOctet(high: nat, d: nat)
    requires high < 0x100_0000 && d < 256
    ensures Or32(high * 0x100, Shl32(ToWord(d), 0)) == high * 0x100 + d
  {
    hide Or32, Shl32, ToWord;
    assert Pow2(8) == 0x100 && Pow2(0) == 1;
    ShiftedOctet(d, 0, 1);
    OrFree(high, 8, d);
  }

  lemma LastOctets(high: nat, c: nat, d: nat)
    requires high < 0x1_0000 && c < 256 && d < 256
    ensures Or32(high * 0x1_0000, Shl32(ToWord(c), 8)) == high * 0x1_0000 + c * 0x100
    ensures Or32(high * 0x1_0000 + c * 0x100, Shl32(ToWord(d), 0)) == high * 0x1_0000 + c * 0x100 + d
  {
    hide Or32, Shl32, ToWord;
    ThirdOctet(high, c);
    FourthOctet(high * 256 + c, d);
    assert (high * 256 + c) * 0x100 == high * 0x1_0000 + c * 0x100;
  }

  /** Four octet numbers add up to the address whose digits in base 256 they are. */
  lemma AddOctetsOfQuad(a: nat, b: nat, c: nat, d: nat)
    requires a < 256 && b < 256 && c < 256 && d < 256
    ensures AddOctets([a, b, c, d], 24, 0) == Quad(a, b, c, d)
  {
    hide AddOctets, Or32, Shl32, ToWord;
    FirstOctets(a, b);
    LastOctets(a * 256 + b, c, d);
    var r1, r2 := a * 0x100_0000, a * 0x100_0000 + b * 0x1_0000;
    AddOctetsStep([a, b, c, d], [b, c, d], 24, 0);
    AddOctetsStep([b, c, d], [c, d], 16, r1);
    AddOctetsStep([c, d], [d], 8, r2);
    AddOctetsStep([d], [], 0, r2 + c * 0x100);
    AddNoOctets(r2 + c * 0x100 + d);
  }

  /** Fewer than four octets fill the address from the top; the rest is 0. */
  lemma ShortAddresses(a: nat, b: nat, c: nat)
    requires a < 256 && b < 256 && c < 256
    ensures AddOctets([], 24, 0) == 0
    ensures AddOctets([a], 24, 0) == Quad(a, 0, 0, 0)
    ensures AddOctets([a, b], 24, 0) == Quad(a, b, 0, 0)
    ensures AddOctets([a, b, c], 24, 0) == Quad(a, b, c, 0)
  {
    hide Or32, Shl32, ToWord;
    FirstOctets(a, b);
    LastOctets(a * 256 + b, c, 0);
    var r1, r2 := a * 0x100_0000, a * 0x100_0000 + b * 0x1_0000;
    AddOctetsStep([a], [], 24, 0);
    AddOctetsStep([a, b], [b], 24, 0);
    AddOctetsStep([b], [], 16, r1);
    AddOctetsStep([a, b, c], [b, c], 24, 0);
    AddOctetsStep([b, c], [c], 16, r1);
    AddOctetsStep([c], [], 8, r2);
  }

  /** Only the lowest eight bits of the first number count, whatever its size and sign. */
  lemma FirstOctetWraps(v: int)
    ensures Shl32(ToWord(v), 24) == v % 256 * 0x100_0000
  {
    hide Pow2;
    assert Pow2(24) == 0x100_0000 by {
      Pow2Values();
    }
    LowByteOfWord(v);
    TopByte(ToWord(v));
  }

  lemma LowByteOfWord(v: int)
    ensures ToWord(v) % 256 == v % 256
  {
    var w: int, q := v % 0x1_0000_0000, v / 0x1_0000_0000;
    var h := w / 256;
    assert w == 256 * h + w % 256;
    DivModUnique(v, 256, 0x100_0000 * q + h, w % 256);
  }

  lemma TopByte(w: nat)
    ensures w * 0x100_0000 % TWO32 == w % 256 * 0x100_0000
  {
    var h := w / 256;
    assert w == 256 * h + w % 256;
    DivModUnique(w * 0x100_0000, TWO32, h, w % 256 * 0x100_0000);
  }

  lemma AddOctetsStep(vs: seq<int>, rest: seq<int>, shift: nat, result: uint32)
    requires vs != [] && |vs| == 1 + |rest| && (forall i :: 0 <= i < |rest| ==> rest[i] == vs[i + 1])
    requires 8 * |vs| <= shift + 8
    ensures AddOctets(vs, shift, result) == AddOctets(rest, shift - 8, Or32(result, Shl32(ToWord(vs[0]), shift)))
  {
    hide Or32, Shl32, ToWord;
    assert vs[1..] == rest;
  }

  lemma AddNoOctets(result: uint32)
    ensures AddOctets([], -8, result) == result
  {
  }

  // ---------- text round trips ----------

  lemma QuadInjective(a: nat, b: nat, c: nat, d: nat, a': nat, b': nat, c': nat, d': nat)
    requires a < 256 && b < 256 && c < 256 && d < 256 && a' < 256 && b' < 256 && c' < 256 && d' < 256
    requires Quad(a, b, c, d) == Quad(a', b', c', d')
    ensures a == a' && b == b' && c == c' && d == d'
  {
  }

  lemma JoinOfFour(p: string, q: string, r: string, s: string)
    ensures Join([p, q, r, s], '.') == p + "." + q + "." + r + "." + s
  {
    var ps := [p, q, r, s];
    assert ps[1..] == [q, r, s] && ps[1..][1..] == [r, s] && ps[1..][1..][1..] == [s];
    assert Join([r, s], '.') == r + "." + s;
    assert Join([q, r, s], '.') == q + "." + (r + "." + s);
    assert p + "." + (q + "." + (r + "." + s)) == p + "." + q + "." + r + "." + s;
  }

  lemma PiecesOfQuadText(a: nat, b: nat, c: nat, d: nat)
    ensures Pieces(QuadText(a, b, c, d), '.') == [Decimal(a), Decimal(b), Decimal(c), Decimal(d)]
    ensures Join([Decimal(a), Decimal(b), Decimal(c), Decimal(d)], '.') == QuadText(a, b, c, d)
  {
    JoinOfFour(Decimal(a), Decimal(b), Decimal(c), Decimal(d));
    var ps := [Decimal(a), Decimal(b), Decimal(c), Decimal(d)];
    forall p | p in ps ensures '.' !in p {
      assert AllDigits(p);
    }
    PiecesOfJoin(ps, '.');
  }

  lemma {:induction false} NumbersOf(ps: seq<string>, vs: seq<int>)
    requires |ps| == |vs| && forall i :: 0 <= i < |ps| ==> Stoi(ps[i]) == Some(vs[i])
    ensures Numbers(ps) == Some(vs)
  {
    hide Stoi;
    if ps != [] {
      NumbersOf(ps[1..], vs[1..]);
      assert vs == [vs[0]] + vs[1..];
    }
  }

  /** One to four texts that std::stoi reads, joined by dots, are an address: the word their numbers add
      up to, the first one on top. */
  lemma AddressOfPieces(ps: seq<string>, vs: seq<int>)
    requires 1 <= |ps| <= 4 && |vs| == |ps|
    requires forall i :: 0 <= i < |ps| ==> '.' !in ps[i] && Stoi(ps[i]) == Some(vs[i])
    ensures Readable(Join(ps, '.')) && Address(Join(ps, '.')) == AddOctets(vs, 24, 0)
  {
    hide Stoi, AddOctets;
    NothingIsNoNumber();
    assert forall p :: p in ps ==> '.' !in p;
    PiecesOfJoin(ps, '.');
    NumbersOf(ps, vs);
  }

  lemma NothingIsNoNumber()
    ensures Stoi("") == None
  {
  }

  lemma StoiOfOctet(v: nat)
    requires v < 256
    ensures Stoi(Decimal(v)) == Some(v)
  {
    DigitsValueOfDecimal(v);
    StoiOfDigits(Decimal(v));
  }

  /** A printed quad of octets reads back as the address they make up. */
  lemma AddressOfQuadText(a: nat, b: nat, c: nat, d: nat)
    requires a < 256 && b < 256 && c < 256 && d < 256
    ensures Readable(QuadText(a, b, c, d))
    ensures Address(QuadText(a, b, c, d)) == Quad(a, b, c, d)
  {
    hide Stoi;
    PiecesOfQuadText(a, b, c, d);
    StoiOfOctet(a);
    StoiOfOctet(b);
    StoiOfOctet(c);
    StoiOfOctet(d);
    NumbersOf([Decimal(a), Decimal(b), Decimal(c), Decimal(d)], [a, b, c, d]);
    AddOctetsOfQuad(a, b, c, d);
  }

  /** Printing a 32-bit address and reading it back gives the address. */
  lemma AddressTextRoundTrip(x: uint32)
    ensures Readable(Uint32ToIp(x)) && Address(Uint32ToIp(x)) == x
  {
    OctetsOf(x);
    AddressOfQuadText(Octet(x, 24), Octet(x, 16), Octet(x, 8), Octet(x, 0));
  }

  predicate CanonicalOctet(p: string) {
    p != "" && AllDigits(p) && (p[0] == '0' ==> p == "0") && DigitsValue(p) <= 255
  }

  /** Four decimal numbers up to 255 without leading zeros, separated by single dots. */
  predicate Canonical(ip: string) {
    var ps := Pieces(ip, '.');
    && |ps| == 4
    && CanonicalOctet(ps[0]) && CanonicalOctet(ps[1]) && CanonicalOctet(ps[2]) && CanonicalOctet(ps[3])
    && ip == Join(ps, '.')
  }

  lemma CanonicalIsQuadText(ip: string)
    requires Canonical(ip)
    ensures exists a: nat, b: nat, c: nat, d: nat ::
              a < 256 && b < 256 && c < 256 && d < 256 && ip == QuadText(a, b, c, d)
  {
    hide Pieces, Join, Decimal, DigitsValue;
    var ps := Pieces(ip, '.');
    var a, b, c, d := DigitsValue(ps[0]), DigitsValue(ps[1]), DigitsValue(ps[2]), DigitsValue(ps[3]);
    DecimalOfDigitsValue(ps[0]);
    DecimalOfDigitsValue(ps[1]);
    DecimalOfDigitsValue(ps[2]);
    DecimalOfDigitsValue(ps[3]);
    JoinOfFour(ps[0], ps[1], ps[2], ps[3]);
    assert ps == [ps[0], ps[1], ps[2], ps[3]];
    assert ip == QuadText(a, b, c, d);
  }

  lemma QuadTextIsCanonical(a: nat, b: nat, c: nat, d: nat)
    requires a < 256 && b < 256 && c < 256 && d < 256
    ensures Canonical(QuadText(a, b, c, d))
  {
    PiecesOfQuadText(a, b, c, d);
    DigitsValueOfDecimal(a);
    DigitsValueOfDecimal(b);
    DigitsValueOfDecimal(c);
    DigitsValueOfDecimal(d);
  }

  /** Reading an address text and printing it back gives the text exactly when it is a canonical
      dotted quad. */
  lemma CanonicalTextRoundTrip(ip: string)
    ensures Canonical(ip) <==> Readable(ip) && Uint32ToIp(Address(ip)) == ip
  {
    if Canonical(ip) {
      CanonicalIsQuadText(ip);
      var a: nat, b: nat, c: nat, d: nat :| a < 256 && b < 256 && c < 256 && d < 256 && ip == QuadText(a, b, c, d);
      AddressOfQuadText(a, b, c, d);
      var x := Address(ip);
      OctetsOf(x);
      QuadInjective(a, b, c, d, Octet(x, 24), Octet(x, 16), Octet(x, 8), Octet(x, 0));
    }
    if Readable(ip) && Uint32ToIp(Address(ip)) == ip {
      var x := Address(ip);
      OctetsOf(x);
      QuadTextIsCanonical(Octet(x, 24), Octet(x, 16), Octet(x, 8), Octet(x, 0));
    }
  }

  /** Different addresses are printed differently. */
  lemma AddressTextInjective(x: uint32, y: uint32)
    requires Uint32ToIp(x) == Uint32ToIp(y)
    ensures x == y
  {
    AddressTextRoundTrip(x);
    AddressTextRoundTrip(y);
  }

  // ---------- masks and blocks ----------

  function BlockSize(cidr: int): nat
    requires 0 <= cidr <= 32
  {
    Pow2(32 - cidr)
  }

  /** The first address of the aligned block of size 2^(32-cidr) around `net`. */
  function BlockStart(net: uint32, cidr: int): int
    requires 0 <= cidr <= 32
  {
    net / BlockSize(cidr) * BlockSize(cidr)
  }

  lemma MaskShift(k: nat, p: nat)
    requires p == Pow2(k) && p < TWO32
    ensures Shl32(0xFFFF_FFFF, k) == TWO32 - p
  {
    assert 0xFFFF_FFFF * p == TWO32 * (p - 1) + (TWO32 - p);
    DivModUnique(0xFFFF_FFFF * p, TWO32, p - 1, TWO32 - p);
  }

  /** The mask of a prefix length has its 32 - cidr low bits clear and all others set. */
  lemma MaskOfPrefix(cidr: int)
    requires 0 <= cidr <= 32
    ensures MaskWord(cidr) == TWO32 - BlockSize(cidr)
  {
    hide Pow2;
    if cidr == 0 {
      assert Pow2(32) == TWO32 by {
        Pow2Values();
      }
    } else {
      Pow2Values();
      Pow2Monotone(32 - cidr, 31);
      MaskShift(32 - cidr, BlockSize(cidr));
    }
  }

  /** The text of a mask reads back as the number 2^32 - 2^(32-cidr). */
  lemma MaskText(cidr: int)
    requires 0 <= cidr <= 32
    ensures Readable(CidrToMask(cidr)) && Address(CidrToMask(cidr)) == TWO32 - BlockSize(cidr)
  {
    AddressTextRoundTrip(MaskWord(cidr));
    MaskOfPrefix(cidr);
  }

  lemma MaskedAddress(a: uint32, cidr: int)
    requires 0 <= cidr <= 32
    ensures BitAnd(a, MaskWord(cidr)) == a - a % BlockSize(cidr)
  {
    hide BitAnd, MaskWord, Pow2;
    assert Pow2(32) == TWO32 by {
      Pow2Values();
    }
    MaskOfPrefix(cidr);
    AndHighMask(a, 32 - cidr, 32);
  }

  lemma SameMultiple(a: nat, b: nat, m: nat)
    requires m > 0
    ensures a - a % m == a / m * m
    ensures a - a % m == b - b % m <==> a / m == b / m
    ensures a / m == b / m <==> b / m * m <= a < b / m * m + m
  {
    assert a == m * (a / m) + a % m && b == m * (b / m) + b % m;
    MultipleBound(m, a / m - b / m);
    assert m * (a / m - b / m) == m * (a / m) - m * (b / m);
  }

  /** Membership as the program tests it is membership in an interval: the aligned block of
      2^(32-cidr) addresses around the network address. */
  lemma MembershipIsInterval(a: uint32, net: uint32, cidr: int)
    requires 0 <= cidr <= 32
    ensures SameBlock(a, net, cidr) <==> BlockStart(net, cidr) <= a < BlockStart(net, cidr) + BlockSize(cidr)
    ensures SameBlock(a, net, cidr) <==> a / BlockSize(cidr) == net / BlockSize(cidr)
  {
    MaskedAddress(a, cidr);
    MaskedAddress(net, cidr);
    SameMultiple(a, net, BlockSize(cidr));
  }

  lemma MulAssociates(m: int, n: int, q: int)
    ensures m * (n * q) == m * n * q
  {
  }

  lemma Distribute(m: int, a: int, b: int)
    ensures m * (a + b) == m * a + m * b
  {
  }

  lemma MulNonNegative(m: nat, k: nat)
    ensures m * k >= 0
  {
  }

  lemma MulGrows(m: nat, n: int, r: int)
    requires 0 <= r < n
    ensures 0 <= m * r && m * r + m <= m * n
  {
    MulNonNegative(m, r);
    MulNonNegative(m, n - r - 1);
    Distribute(m, r, 1);
    Distribute(m, r + 1, n - r - 1);
    assert r + 1 + (n - r - 1) == n;
  }

  lemma MixedRadix(m: nat, n: int, q: int, r: int, low: int)
    requires 0 <= low < m && 0 <= r < n
    ensures m * (n * q + r) + low == m * n * q + (m * r + low)
    ensures 0 <= m * r + low < m * n
  {
    MulAssociates(m, n, q);
    MulGrows(m, n, r);
    assert m * (n * q + r) == m * (n * q) + m * r;
  }

  lemma DivDiv(x: nat, m: nat, n: nat)
    requires m > 0 && n > 0
    ensures m * n > 0 && x / (m * n) == x / m / n
  {
    var a, low := x / m, x % m;
    var q, r := a / n, a % n;
    assert x == m * a + low && a == n * q + r;
    MixedRadix(m, n, q, r, low);
    DivModUnique(x, m * n, q, m * r + low);
  }

  /** Two blocks are nested or disjoint: if they share an address, the one with the longer prefix
      lies inside the other. */
  lemma BlocksNest(shared: uint32, x: uint32, net1: uint32, cidr1: int, net2: uint32, cidr2: int)
    requires 0 <= cidr1 <= cidr2 <= 32
    requires SameBlock(shared, net1, cidr1) && SameBlock(shared, net2, cidr2)
    requires SameBlock(x, net2, cidr2)
    ensures SameBlock(x, net1, cidr1)
  {
    MembershipIsInterval(shared, net1, cidr1);
    MembershipIsInterval(shared, net2, cidr2);
    MembershipIsInterval(x, net2, cidr2);
    MembershipIsInterval(x, net1, cidr1);
    var t := Pow2(cidr2 - cidr1);
    Pow2Sum(32 - cidr2, cidr2 - cidr1);
    DivDiv(shared, BlockSize(cidr2), t);
    DivDiv(x, BlockSize(cidr2), t);
  }
}
