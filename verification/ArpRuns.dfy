/** Concurrent use of the ARP cache, and what the generated hardware addresses are good for. */
module ArpRuns {
  import opened Text
  import opened Bits
  import opened NetworkConfig
  import opened Addressing
  import opened Arp

  // ---------- requests that interleave ----------

  /** What a thread does while it holds the cache's mutex. `Look` is the first half of the request
      `id`, `Store` the second half, in which it inserts the address it generated and returns it. */
  datatype Event =
    | Look(id: nat, ip: string)
    | Store(id: nat, now: int)
    | Remove(ip: string)
    | Flush(maxAgeSecs: int, now: int)
    | AddByHand(ip: string, mac: string, isStatic: bool, now: int)

  datatype Reply = Reply(ip: string, mac: string)

  /** The cache, the requests that missed and have not stored yet, and all replies given so far. */
  datatype Cache = Cache(table: Table, missed: map<nat, string>, replies: seq<Reply>)

  predicate Enabled(c: Cache, e: Event) {
    match e
    case Look(id, ip) => id !in c.missed && Ascii(ip)
    case Store(id, _) => id in c.missed && Ascii(c.missed[id])
    case _ => true
  }

  function Next(c: Cache, e: Event): Cache
    requires Enabled(c, e)
  {
    match e
    case Look(id, ip) =>
      var cached := Cached(c.table, ip);
      if cached != "" then c.(replies := c.replies + [Reply(ip, cached)])
      else c.(missed := c.missed[id := ip])
    case Store(id, now) =>
      var ip := c.missed[id];
      Cache(Added(c.table, ip, MacOf(ip), false, now), c.missed - {id}, c.replies + [Reply(ip, MacOf(ip))])
    case Remove(ip) => c.(table := c.table - {ip})
    case Flush(maxAge, now) => c.(table := Flushed(c.table, maxAge, now))
    case AddByHand(ip, mac, isStatic, now) => c.(table := Added(c.table, ip, mac, isStatic, now))
  }

  predicate ValidRun(c: Cache, es: seq<Event>)
    decreases |es|
  {
    es == [] || (Enabled(c, es[0]) && ValidRun(Next(c, es[0]), es[1..]))
  }

  function After(c: Cache, es: seq<Event>): Cache
    requires ValidRun(c, es)
    decreases |es|
  {
    if es == [] then c else After(Next(c, es[0]), es[1..])
  }

  const EMPTY_CACHE := Cache(map[], map[], [])

  /** The cache says about `ip` what `generateMAC` says. */
  ghost predicate Agrees(c: Cache, ip: string)
    requires Ascii(ip)
  {
    && (ip in c.table ==> c.table[ip].macAddress == MacOf(ip))
    && (forall i :: 0 <= i < |c.replies| && c.replies[i].ip == ip ==> c.replies[i].mac == MacOf(ip))
  }

  lemma NextIsFaithful(c: Cache, e: Event, ip: string)
    requires Ascii(ip) && Agrees(c, ip) && Enabled(c, e) && !(e.AddByHand? && e.ip == ip)
    ensures Agrees(Next(c, e), ip)
  {
    hide MacOf, Ascii, Expired;
  }

  lemma {:induction false} RunIsFaithful(c: Cache, es: seq<Event>, ip: string)
    requires Ascii(ip) && Agrees(c, ip) && ValidRun(c, es)
    requires forall e :: e in es ==> !(e.AddByHand? && e.ip == ip)
    ensures Agrees(After(c, es), ip)
    decreases |es|
  {
    hide Agrees, Ascii, Next, Enabled;
    if es != [] {
      assert es[0] in es && forall e :: e in es[1..] ==> e in es;
      NextIsFaithful(c, es[0], ip);
      RunIsFaithful(Next(c, es[0]), es[1..], ip);
    }
  }

  /** The cache is transparent: starting empty, in every interleaving of any number of requests with
      removals and flushes, every entry and every reply for an address is the generated hardware
      address, unless somebody enters another one for that address by hand. */
  lemma CacheIsTransparent(es: seq<Event>, ip: string)
    requires Ascii(ip) && ValidRun(EMPTY_CACHE, es)
    requires forall e :: e in es ==> !(e.AddByHand? && e.ip == ip)
    ensures var c := After(EMPTY_CACHE, es);
            && (ip in c.table ==> c.table[ip].macAddress == MacOf(ip))
            && (forall r :: r in c.replies && r.ip == ip ==> r.mac == MacOf(ip))
  {
    hide Ascii, MacOf, After, ValidRun;
    RunIsFaithful(EMPTY_CACHE, es, ip);
  }

  lemma {:induction false} OthersKeepMiss(c: Cache, es: seq<Event>, id: nat)
    requires ValidRun(c, es) && id in c.missed && forall e :: e in es ==> !(e.Store? && e.id == id)
    ensures id in After(c, es).missed && After(c, es).missed[id] == c.missed[id]
    decreases |es|
  {
    hide Ascii, MacOf, Flushed;
    if es != [] {
      assert es[0] in es && forall e :: e in es[1..] ==> e in es;
      OthersKeepMiss(Next(c, es[0]), es[1..], id);
    }
  }

  /** A request that misses may always store, whatever other threads did since its lookup, and what it
      stores and returns is the generated address. */
  lemma MissedRequestCompletes(c: Cache, id: nat, ip: string, es: seq<Event>, now: int)
    requires Enabled(c, Look(id, ip)) && Cached(c.table, ip) == ""
    requires ValidRun(Next(c, Look(id, ip)), es) && forall e :: e in es ==> !(e.Store? && e.id == id)
    ensures var before := After(Next(c, Look(id, ip)), es);
            && Enabled(before, Store(id, now))
            && Next(before, Store(id, now)).table == Added(before.table, ip, MacOf(ip), false, now)
            && Next(before, Store(id, now)).replies == before.replies + [Reply(ip, MacOf(ip))]
  {
    hide Ascii, MacOf, ValidRun, After;
    OthersKeepMiss(Next(c, Look(id, ip)), es, id);
  }

  /** A request that finds an entry is answered with it at once; one that does not leaves the table alone
      and goes on, and any new request may start at any time. */
  lemma LookIsLookup(c: Cache, id: nat, ip: string)
    requires Ascii(ip) && id !in c.missed
    ensures Enabled(c, Look(id, ip)) && Next(c, Look(id, ip)).table == c.table
    ensures ip in c.table && c.table[ip].macAddress != "" ==>
              && Next(c, Look(id, ip)).replies == c.replies + [Reply(ip, c.table[ip].macAddress)]
              && Next(c, Look(id, ip)).missed == c.missed
    ensures ip !in c.table || c.table[ip].macAddress == "" ==>
              && Next(c, Look(id, ip)).replies == c.replies
              && Next(c, Look(id, ip)).missed == c.missed[id := ip]
  {
    hide Ascii;
  }

  /** How a table reads after a removal, an entry by hand, and a flush: other entries stay as they are. */
  lemma UpdatesAreExact(c: Cache, ip: string, mac: string, isStatic: bool, now: int, maxAgeSecs: int, other: string)
    ensures ip !in Next(c, Remove(ip)).table
    ensures Next(c, AddByHand(ip, mac, isStatic, now)).table[ip] == ARPEntry(mac, now, isStatic)
    ensures other != ip ==> (other in Next(c, Remove(ip)).table <==> other in c.table)
    ensures other != ip && other in c.table ==>
              && Next(c, Remove(ip)).table[other] == c.table[other]
              && other in Next(c, AddByHand(ip, mac, isStatic, now)).table
              && Next(c, AddByHand(ip, mac, isStatic, now)).table[other] == c.table[other]
    ensures Next(c, Flush(maxAgeSecs, now)).table == Flushed(c.table, maxAgeSecs, now)
  {
    hide Expired;
  }

  /** A flush keeps exactly the static entries and those whose age, in whole seconds toward zero, does
      not exceed the limit: younger than one more second for a limit from 0 on, and at least that many
      seconds in the future for a negative one. */
  lemma FlushKeepsTheYoung(table: Table, maxAgeSecs: int, now: int, ip: string)
    requires ip in table
    ensures var e := table[ip];
            ip in Flushed(table, maxAgeSecs, now)
            <==> e.isStatic
                 || (maxAgeSecs >= 0 && now - e.timestamp < (maxAgeSecs + 1) * 1_000_000_000)
                 || (maxAgeSecs < 0 && now - e.timestamp <= maxAgeSecs * 1_000_000_000)
    ensures ip in Flushed(table, maxAgeSecs, now) ==> Flushed(table, maxAgeSecs, now)[ip] == table[ip]
  {
    var age := now - table[ip].timestamp;
    var q := if age >= 0 then age / 1_000_000_000 else (-age) / 1_000_000_000;
    assert Seconds(age) == if age >= 0 then q else -q;
  }

  // ---------- the shape of a generated address ----------

  lemma HexInjective(a: nat, b: nat)
    requires a < 256 && b < 256 && Hex(a) == Hex(b)
    ensures a == b
  {
    assert Hex(a)[0] == Hex(b)[0] && Hex(a)[1] == Hex(b)[1];
    assert a == 16 * (a / 16) + a % 16 && b == 16 * (b / 16) + b % 16;
  }

  lemma OneMoreGroup(p: string, x: string)
    ensures var q := p + ":" + x; |q| == |p| + 1 + |x| && q[..|p|] == p && q[|p|] == ':' && q[|p| + 1..] == x
  {
  }

  lemma InnerSlice(m: string, p: string, i: nat)
    requires i <= |p| <= |m| && m[..|p|] == p
    ensures m[i..|p|] == p[i..] && m[..i] == p[..i] && (i < |p| ==> m[i] == p[i])
  {
    assert m[..|p|][i..] == m[i..|p|];
    assert m[..|p|][..i] == m[..i];
  }

  lemma FiveGroupsAt(a: string, b: string, c: string, d: string, e: string)
    requires |a| == |b| == |c| == |d| == |e| == 2
    ensures var m := "AA:" + a + ":" + b + ":" + c + ":" + d + ":" + e;
            && |m| == 17 && m[..3] == "AA:" && m[5] == m[8] == m[11] == m[14] == ':'
            && m[3..5] == a && m[6..8] == b && m[9..11] == c && m[12..14] == d && m[15..] == e
  {
    var q0 := "AA:" + a;
    assert q0[..3] == "AA:" && q0[3..] == a;
    var q1 := q0 + ":" + b;
    OneMoreGroup(q0, b);
    var q2 := q1 + ":" + c;
    OneMoreGroup(q1, c);
    var q3 := q2 + ":" + d;
    OneMoreGroup(q2, d);
    var m := q3 + ":" + e;
    OneMoreGroup(q3, e);
    InnerSlice(m, q3, 12);
    InnerSlice(m, q3, 11);
    InnerSlice(q3, q2, 0);
    assert m[..11] == q2;
    InnerSlice(m, q2, 9);
    InnerSlice(m, q2, 8);
    assert m[..8] == q1;
    InnerSlice(m, q1, 6);
    InnerSlice(m, q1, 5);
    assert m[..5] == q0;
    InnerSlice(m, q0, 3);
  }

  lemma MacParts(hash: uint32)
    ensures var m := MacText(hash);
            && |m| == 17 && m[..3] == "AA:" && m[5] == m[8] == m[11] == m[14] == ':'
            && m[3..5] == Hex(Byte(hash, 0)) && m[6..8] == Hex(Byte(hash, 8)) && m[9..11] == Hex(Byte(hash, 16))
            && m[12..14] == Hex(Byte(hash, 24)) && m[15..] == Hex(Byte(hash, 4))
  {
    hide Byte, Hex;
    FiveGroupsAt(Hex(Byte(hash, 0)), Hex(Byte(hash, 8)), Hex(Byte(hash, 16)), Hex(Byte(hash, 24)), Hex(Byte(hash, 4)));
  }

  /** A generated address determines the full 32-bit hash. */
  lemma MacDeterminesHash(hash: uint32, hash': uint32)
    ensures MacText(hash) == MacText(hash') <==> hash == hash'
  {
    hide MacText, Hex;
    MacParts(hash);
    MacParts(hash');
    if MacText(hash) == MacText(hash') {
      HexInjective(Byte(hash, 0), Byte(hash', 0));
      HexInjective(Byte(hash, 8), Byte(hash', 8));
      HexInjective(Byte(hash, 16), Byte(hash', 16));
      HexInjective(Byte(hash, 24), Byte(hash', 24));
      OctetsOf(hash);
      OctetsOf(hash');
    }
  }

  /** A generated address has 17 characters: "AA" and five groups of two hexadecimal digits, each after
      a colon. */
  lemma MacIsWellFormed(hash: uint32)
    ensures |MacText(hash)| == 17 && MacText(hash)[..3] == "AA:"
    ensures forall i :: 2 <= i < 17 ==> if i % 3 == 2 then MacText(hash)[i] == ':' else IsHexDigit(MacText(hash)[i])
  {
    hide Byte, HexDigit, MacText, IsHexDigit;
    MacParts(hash);
  }

  /** The number two hexadecimal digits stand for, most significant first. */
  function PairValue(s: string, i: nat): nat
    requires i + 1 < |s| && IsHexDigit(s[i]) && IsHexDigit(s[i + 1])
  {
    16 * HexValue(s[i]) + HexValue(s[i + 1])
  }

  lemma HexAt(m: string, i: nat, b: nat)
    requires b < 256 && i + 2 <= |m| && m[i..i + 2] == Hex(b)
    ensures IsHexDigit(m[i]) && IsHexDigit(m[i + 1]) && PairValue(m, i) == b
  {
    hide HexDigit, HexValue;
    assert m[i] == m[i..i + 2][0] && m[i + 1] == m[i..i + 2][1];
  }

  lemma ByteOf(hash: uint32)
    ensures Byte(hash, 0) == hash % 0x100 && Byte(hash, 8) == hash / 0x100 % 0x100
    ensures Byte(hash, 16) == hash / 0x1_0000 % 0x100 && Byte(hash, 24) == hash / 0x100_0000
    ensures Byte(hash, 4) == hash / 0x10 % 0x100
  {
    hide BitAnd;
    OctetDigits(hash);
    Pow2Values();
    AndByte(hash / 0x10);
  }

  /** The five groups are the bytes of the hash from the lowest to the highest, and then the byte in
      the middle of the lowest two, each in hexadecimal with its high digit first. */
  lemma MacSpellsHash(hash: uint32)
    ensures var m := MacText(hash);
            && |m| == 17
            && (forall i :: i in {3, 4, 6, 7, 9, 10, 12, 13, 15, 16} ==> IsHexDigit(m[i]))
            && PairValue(m, 3) == hash % 0x100 && PairValue(m, 6) == hash / 0x100 % 0x100
            && PairValue(m, 9) == hash / 0x1_0000 % 0x100 && PairValue(m, 12) == hash / 0x100_0000
            && PairValue(m, 15) == hash / 0x10 % 0x100
  {
    hide MacText, Hex, PairValue, IsHexDigit, Byte;
    MacParts(hash);
    ByteOf(hash);
    var m := MacText(hash);
    assert m[15..17] == m[15..];
    HexAt(m, 3, Byte(hash, 0));
    HexAt(m, 6, Byte(hash, 8));
    HexAt(m, 9, Byte(hash, 16));
    HexAt(m, 12, Byte(hash, 24));
    HexAt(m, 15, Byte(hash, 4));
  }

  // ---------- nearby addresses ----------

  /** The characters of a dotted quad. */
  predicate IsAddressChar(c: char) {
    IsDigit(c) || c == '.'
  }

  predicate AddressText(s: string) {
    forall i :: 0 <= i < |s| ==> IsAddressChar(s[i])
  }

  /** The difference of two equally long texts read as numbers in base 31. */
  function Difference(s: string, t: string): int
    requires |s| == |t|
  {
    if s == "" then 0
    else 31 * Difference(s[..|s| - 1], t[..|t| - 1]) + (s[|s| - 1] as int - t[|t| - 1] as int)
  }

  function Bound(k: nat): nat {
    if k == 0 then 0 else 31 * Bound(k - 1) + 11
  }

  /** Texts of digits and dots differ by little in base 31, but differ. */
  lemma {:induction false} DifferenceBounded(s: string, t: string)
    requires |s| == |t| && AddressText(s) && AddressText(t)
    ensures 0 - Bound(|s|) <= Difference(s, t) <= Bound(|s|)
    ensures Difference(s, t) == 0 <==> s == t
  {
    if s != "" {
      var s', t' := s[..|s| - 1], t[..|t| - 1];
      DifferenceBounded(s', t');
      assert s == s' + [s[|s| - 1]] && t == t' + [t[|t| - 1]];
      assert IsAddressChar(s[|s| - 1]) && IsAddressChar(t[|t| - 1]);
    }
  }

  lemma HashAppend(s: string, c: char)
    requires Ascii(s) && c as int < 128
    ensures Ascii(s + [c]) && Hash(s + [c]) == (Hash(s) * 31 + c as int) % TWO32
  {
    assert (s + [c])[..|s|] == s;
  }

  /** Appending equally long texts to one prefix: the hashes differ by the base-31 difference of the
      texts, modulo 2^32. */
  lemma {:induction false} HashDifference(p: string, s: string, t: string)
    requires Ascii(p) && AddressText(s) && AddressText(t) && |s| == |t|
    ensures Ascii(p + s) && Ascii(p + t)
    ensures (Hash(p + s) - Hash(p + t) - Difference(s, t)) % TWO32 == 0
  {
    hide Hash;
    if s == "" {
      assert p + s == p && p + t == p;
    } else {
      var n := |s| - 1;
      HashDifference(p, s[..n], t[..n]);
      assert IsAddressChar(s[n]) && IsAddressChar(t[n]);
      HashAppend(p + s[..n], s[n]);
      HashAppend(p + t[..n], t[n]);
      assert p + s == p + s[..n] + [s[n]] && p + t == p + t[..n] + [t[n]];
      StepDifference(Hash(p + s[..n]), Hash(p + t[..n]), Difference(s[..n], t[..n]), s[n] as int, t[n] as int);
    }
  }

  lemma StepDifference(h: int, g: int, d: int, c: int, e: int)
    requires (h - g - d) % TWO32 == 0
    ensures ((h * 31 + c) % TWO32 - (g * 31 + e) % TWO32 - (31 * d + (c - e))) % TWO32 == 0
  {
    var q := Quotient(h - g - d);
    var a := Quotient(h * 31 + c);
    var b := Quotient(g * 31 + e);
    IsMultiple((h * 31 + c) % TWO32 - (g * 31 + e) % TWO32 - (31 * d + (c - e)), 31 * q - a + b);
  }

  lemma Quotient(x: int) returns (q: int)
    ensures x == 0x1_0000_0000 * q + x % TWO32
  {
    q := x / 0x1_0000_0000;
  }

  lemma IsMultiple(x: int, q: int)
    requires x == 0x1_0000_0000 * q
    ensures x % TWO32 == 0
  {
  }

  /** 31 is odd, so appending the same character to two texts keeps their hashes apart. */
  lemma AppendKeepsApart(h: uint32, g: uint32, c: nat)
    requires (h * 31 + c) % TWO32 == (g * 31 + c) % TWO32
    ensures h == g
  {
    var a, b := (h * 31 + c) / TWO32, (g * 31 + c) / TWO32;
    var q := a - b;
    assert 31 * (h - g) == TWO32 * q;
    assert h - g == TWO32 * (3186588639 * q - 23 * (h - g));
  }

  lemma {:induction false} SuffixKeepsApart(s: string, t: string, u: string)
    requires Ascii(s) && Ascii(t) && Ascii(u) && Hash(s) != Hash(t)
    ensures Ascii(s + u) && Ascii(t + u) && Hash(s + u) != Hash(t + u)
  {
    hide Hash;
    if u == "" {
      assert s + u == s && t + u == t;
    } else {
      var n := |u| - 1;
      SuffixKeepsApart(s, t, u[..n]);
      HashAppend(s + u[..n], u[n]);
      HashAppend(t + u[..n], u[n]);
      assert s + u == s + u[..n] + [u[n]] && t + u == t + u[..n] + [u[n]];
      if Hash(s + u) == Hash(t + u) {
        AppendKeepsApart(Hash(s + u[..n]), Hash(t + u[..n]), u[n] as int);
      }
    }
  }

  lemma {:induction false} SuffixKeepsTogether(s: string, t: string, u: string)
    requires Ascii(s) && Ascii(t) && Ascii(u) && Hash(s) == Hash(t)
    ensures Ascii(s + u) && Ascii(t + u) && Hash(s + u) == Hash(t + u)
  {
    hide Hash;
    if u == "" {
      assert s + u == s && t + u == t;
    } else {
      var n := |u| - 1;
      SuffixKeepsTogether(s, t, u[..n]);
      HashAppend(s + u[..n], u[n]);
      HashAppend(t + u[..n], u[n]);
      assert s + u == s + u[..n] + [u[n]] && t + u == t + u[..n] + [u[n]];
    }
  }

  lemma SmallRemainder(h: uint32, g: uint32, d: int)
    requires (h - g - d) % TWO32 == 0
    ensures h == g <==> d % TWO32 == 0
  {
    var q := (h - g - d) / TWO32;
    assert h - g - d == TWO32 * q;
    var r := d / TWO32;
    assert d == TWO32 * r + d % TWO32;
    assert h - g == TWO32 * (q + r) + d % TWO32;
  }

  /** Exactly which addresses share a hardware address: two equally long texts of digits and dots
      inside one context do if and only if their difference in base 31 is a multiple of 2^32. */
  lemma MacsCollideExactly(p: string, s: string, t: string, u: string)
    requires Ascii(p) && Ascii(u) && AddressText(s) && AddressText(t) && |s| == |t|
    ensures Ascii(p + s + u) && Ascii(p + t + u)
    ensures MacOf(p + s + u) == MacOf(p + t + u) <==> Difference(s, t) % TWO32 == 0
  {
    hide MacText, Hash, Difference, AddressText, Ascii;
    HashDifference(p, s, t);
    SmallRemainder(Hash(p + s), Hash(p + t), Difference(s, t));
    if Hash(p + s) == Hash(p + t) {
      SuffixKeepsTogether(p + s, p + t, u);
    } else {
      SuffixKeepsApart(p + s, p + t, u);
    }
    MacDeterminesHash(Hash(p + s + u), Hash(p + t + u));
  }

  lemma BoundOfSix(k: nat)
    requires k <= 6
    ensures Bound(k) < TWO32
  {
    assert Bound(1) == 11 && Bound(2) == 352 && Bound(3) == 10923;
    assert Bound(4) == 338624 && Bound(5) == 10497355 && Bound(6) == 325418016;
  }

  /** Nearby addresses get different hardware addresses: equally long texts of digits and dots that
      differ only inside some window of six characters. */
  lemma NearbyAddressesDiffer(p: string, s: string, t: string, u: string)
    requires Ascii(p) && Ascii(u) && AddressText(s) && AddressText(t)
    requires |s| == |t| <= 6 && s != t
    ensures Ascii(p + s + u) && Ascii(p + t + u)
    ensures MacOf(p + s + u) != MacOf(p + t + u)
  {
    hide MacText, Hash, Difference, Bound, AddressText, Ascii;
    MacsCollideExactly(p, s, t, u);
    DifferenceBounded(s, t);
    BoundOfSix(|s|);
  }

  /** Six is sharp: these two texts of seven characters collide in every context. */
  lemma SevenCharactersCollide(p: string, u: string)
    requires Ascii(p) && Ascii(u)
    ensures Ascii(p + "501.004" + u) && Ascii(p + "0509170" + u)
    ensures MacOf(p + "501.004" + u) == MacOf(p + "0509170" + u)
  {
    hide MacText, Hash, Ascii, Difference;
    DifferenceOfSeven();
    MacsCollideExactly(p, "501.004", "0509170", u);
  }

  lemma DifferenceStep(s: string, t: string, c: char, e: char, s': string, t': string, d: int)
    requires |s| == |t| && s' == s + [c] && t' == t + [e] && d == 31 * Difference(s, t) + (c as int - e as int)
    ensures |s'| == |t'| && Difference(s', t') == d
  {
    assert s'[..|s|] == s && t'[..|t|] == t;
  }

  lemma NoDifference()
    ensures Difference("", "") == 0
  {
  }

  lemma DifferenceOfSeven()
    ensures AddressText("501.004") && AddressText("0509170")
    ensures Difference("501.004", "0509170") == TWO32
  {
    hide Difference;
    NoDifference();
    DifferenceStep("", "", '5', '0', "5", "0", 5);
    DifferenceStep("5", "0", '0', '5', "50", "05", 150);
    DifferenceStep("50", "05", '1', '0', "501", "050", 4651);
    DifferenceStep("501", "050", '.', '9', "501.", "0509", 144170);
    DifferenceStep("501.", "0509", '0', '1', "501.0", "05091", 4469269);
    DifferenceStep("501.0", "05091", '0', '7', "501.00", "050917", 138547332);
    DifferenceStep("501.00", "050917", '4', '0', "501.004", "0509170", 4294967296);
  }

  // ---------- canonical addresses ----------

  lemma QuadHasDots(w: string, x: string, y: string, z: string, ip: string, i: nat)
    requires |w| <= 3 && |x| <= 3 && |y| <= 3 && |z| <= 3
    requires ip == w + "." + x + "." + y + "." + z && i + 4 <= |ip|
    ensures exists j :: i <= j < i + 4 && ip[j] == '.'
  {
    assert ip[|w|] == '.' && ip[|w| + 1 + |x|] == '.' && ip[|w| + 2 + |x| + |y|] == '.';
  }

  lemma QuadIsAddressText(w: string, x: string, y: string, z: string)
    requires AllDigits(w) && AllDigits(x) && AllDigits(y) && AllDigits(z)
    ensures AddressText(w + "." + x + "." + y + "." + z)
  {
  }

  /** A canonical dotted quad consists of digits and dots and has no four digits in a row. */
  lemma CanonicalShape(ip: string, i: nat)
    requires Canonical(ip)
    ensures AddressText(ip)
    ensures i + 4 <= |ip| ==> exists j :: i <= j < i + 4 && ip[j] == '.'
  {
    hide Canonical, Decimal, AddressText;
    CanonicalIsQuadText(ip);
    var a: nat, b: nat, c: nat, d: nat :| a < 256 && b < 256 && c < 256 && d < 256 && ip == QuadText(a, b, c, d);
    ShortDecimal(a);
    ShortDecimal(b);
    ShortDecimal(c);
    ShortDecimal(d);
    QuadIsAddressText(Decimal(a), Decimal(b), Decimal(c), Decimal(d));
    if i + 4 <= |ip| {
      QuadHasDots(Decimal(a), Decimal(b), Decimal(c), Decimal(d), ip, i);
    }
  }

  lemma Peel(s: string, t: string)
    requires |s| == |t| > 0 && AddressText(s) && AddressText(t)
    ensures var n := |s| - 1;
            && AddressText(s[..n]) && AddressText(t[..n]) && IsAddressChar(s[n]) && IsAddressChar(t[n])
            && Difference(s, t) == 31 * Difference(s[..n], t[..n]) + (s[n] as int - t[n] as int)
  {
  }

  lemma {:induction false} Negated(s: string, t: string)
    requires |s| == |t|
    ensures Difference(t, s) == 0 - Difference(s, t)
  {
    if s != "" {
      Negated(s[..|s| - 1], t[..|t| - 1]);
    }
  }

  /** A difference determines its last base-31 digit and the difference of what is before. */
  lemma PeelDigit(s: string, t: string, rest: int, digit: int)
    requires |s| == |t| > 0 && AddressText(s) && AddressText(t)
    requires Difference(s, t) == 31 * rest + digit && -15 <= digit <= 15
    ensures var n := |s| - 1;
            && AddressText(s[..n]) && AddressText(t[..n]) && IsAddressChar(s[n]) && IsAddressChar(t[n])
            && Difference(s[..n], t[..n]) == rest && s[n] as int - t[n] as int == digit
  {
    hide Difference, AddressText;
    Peel(s, t);
  }

  /** Two texts of seven characters that differ by 2^32: the second has four digits in a row. */
  lemma SevenForceDigits(s: string, t: string)
    requires |s| == |t| == 7 && AddressText(s) && AddressText(t) && Difference(s, t) == TWO32
    ensures forall j :: 2 <= j < 6 ==> t[j] != '.'
  {
    hide Difference, AddressText;
    PeelDigit(s, t, 138547332, 4);
    var s6, t6 := s[..6], t[..6];
    PeelDigit(s6, t6, 4469269, -7);
    var s5, t5 := s6[..5], t6[..5];
    PeelDigit(s5, t5, 144170, -1);
    var s4, t4 := s5[..4], t5[..4];
    PeelDigit(s4, t4, 4651, -11);
    var s3, t3 := s4[..3], t4[..3];
    PeelDigit(s3, t3, 150, 1);
    assert t[5] == t6[5] && t[4] == t5[4] && t[3] == t4[3] && t[2] == t3[2];
    assert s[5] == s6[5] && s[4] == s5[4] && s[3] == s4[3] && s[2] == s3[2];
  }

  /** 2^33 is no difference of such texts: its second base-31 digit is too large. */
  lemma NotTwice(s: string, t: string)
    requires |s| == |t| == 7 && AddressText(s) && AddressText(t)
    ensures Difference(s, t) != 2 * TWO32
  {
    hide Difference, AddressText;
    Peel(s, t);
    Peel(s[..6], t[..6]);
    TwiceSplits(Difference(s[..6], t[..6]), s[6] as int - t[6] as int);
    TwiceSplitsNoFurther(Difference(s[..6][..5], t[..6][..5]), s[..6][5] as int - t[..6][5] as int);
  }

  lemma TwiceSplits(rest: int, digit: int)
    requires -11 <= digit <= 11
    ensures 31 * rest + digit == 2 * TWO32 ==> rest == 277094664
  {
  }

  lemma TwiceSplitsNoFurther(rest: int, digit: int)
    requires -11 <= digit <= 11
    ensures 31 * rest + digit != 277094664
  {
  }

  lemma BoundOfSeven(d: int)
    requires 0 - Bound(7) <= d <= Bound(7) && d % TWO32 == 0
    ensures d in {0, TWO32, 0 - TWO32, 2 * TWO32, -2 * TWO32}
  {
    assert Bound(6) == 325418016 by {
      BoundOfSix(6);
      assert Bound(3) == 10923;
      assert Bound(5) == 10497355;
    }
    var q := d / TWO32;
    assert d == TWO32 * q;
  }

  lemma PartsOfAddressText(p: string, s: string, u: string)
    requires AddressText(p + s + u)
    ensures Ascii(p) && AddressText(s) && Ascii(u)
  {
    var ip := p + s + u;
    assert forall j :: 0 <= j < |p| ==> IsAddressChar(ip[j]) && p[j] == ip[j];
    assert forall j :: 0 <= j < |s| ==> IsAddressChar(ip[|p| + j]) && s[j] == ip[|p| + j];
    assert forall j :: 0 <= j < |u| ==> IsAddressChar(ip[|p| + |s| + j]) && u[j] == ip[|p| + |s| + j];
  }

  lemma DotInWindow(p: string, s: string, u: string)
    requires |s| == 7 && Canonical(p + s + u)
    ensures AddressText(s) && Ascii(p) && Ascii(u) && exists j :: 2 <= j < 6 && s[j] == '.'
  {
    hide Canonical, AddressText, Ascii;
    var ip := p + s + u;
    CanonicalShape(ip, |p| + 2);
    PartsOfAddressText(p, s, u);
    var i :| |p| + 2 <= i < |p| + 6 && ip[i] == '.';
    assert s[i - |p|] == '.';
  }

  /** Canonical addresses of one length that differ only inside some window of seven characters get
      different hardware addresses. */
  lemma CanonicalNearbyAddressesDiffer(p: string, s: string, t: string, u: string)
    requires Canonical(p + s + u) && Canonical(p + t + u) && |s| == |t| <= 7 && s != t
    ensures Ascii(p + s + u) && Ascii(p + t + u)
    ensures MacOf(p + s + u) != MacOf(p + t + u)
  {
    hide Canonical, MacOf, AddressText, Ascii;
    CanonicalShape(p + s + u, 0);
    CanonicalShape(p + t + u, 0);
    PartsOfAddressText(p, s, u);
    PartsOfAddressText(p, t, u);
    if |s| < 7 {
      NearbyAddressesDiffer(p, s, t, u);
    } else {
      SevenCharactersApart(p, s, t, u);
    }
  }

  lemma SevenCharactersApart(p: string, s: string, t: string, u: string)
    requires Canonical(p + s + u) && Canonical(p + t + u) && |s| == |t| == 7 && s != t
    ensures Ascii(p + s + u) && Ascii(p + t + u)
    ensures MacOf(p + s + u) != MacOf(p + t + u)
  {
    hide Canonical, MacOf, Difference, AddressText, Ascii, Bound;
    DotInWindow(p, s, u);
    DotInWindow(p, t, u);
    MacsCollideExactly(p, s, t, u);
    DifferenceBounded(s, t);
    Negated(s, t);
    NotTwice(s, t);
    NotTwice(t, s);
    if Difference(s, t) % TWO32 == 0 {
      BoundOfSeven(Difference(s, t));
      if Difference(s, t) == TWO32 {
        SevenForceDigits(s, t);
      } else {
        SevenForceDigits(t, s);
      }
    }
  }

  lemma DifferenceOfEight()
    ensures AddressText("28.36.51") && AddressText("107.18.0") && Ascii("1.") && Ascii("")
    ensures Difference("28.36.51", "107.18.0") == 8 * TWO32
  {
    hide Difference;
    NoDifference();
    DifferenceStep("", "", '2', '1', "2", "1", 1);
    DifferenceStep("2", "1", '8', '0', "28", "10", 39);
    DifferenceStep("28", "10", '.', '7', "28.", "107", 1200);
    DifferenceStep("28.", "107", '3', '.', "28.3", "107.", 37205);
    DifferenceStep("28.3", "107.", '6', '1', "28.36", "107.1", 1153360);
    DifferenceStep("28.36", "107.1", '.', '8', "28.36.", "107.18", 35754150);
    DifferenceStep("28.36.", "107.18", '5', '.', "28.36.5", "107.18.", 1108378657);
    DifferenceStep("28.36.5", "107.18.", '1', '0', "28.36.51", "107.18.0", 34359738368);
  }

  /** Eight characters do not: these two addresses get the same hardware address, so different
      addresses are not always told apart. */
  lemma CanonicalAddressesCollide()
    ensures Canonical("1.28.36.51") && Canonical("1.107.18.0") && "1.28.36.51" != "1.107.18.0"
    ensures Ascii("1.28.36.51") && Ascii("1.107.18.0") && MacOf("1.28.36.51") == MacOf("1.107.18.0")
  {
    hide MacOf, Canonical, Difference, AddressText, Ascii;
    DifferenceOfEight();
    MacsCollideExactly("1.", "28.36.51", "107.18.0", "");
    assert "1." + "28.36.51" + "" == "1.28.36.51" && "1." + "107.18.0" + "" == "1.107.18.0";
    assert "1.28.36.51"[2] != "1.107.18.0"[2];
    CollidingQuads();
  }

  lemma CollidingQuads()
    ensures Canonical("1.28.36.51") && Canonical("1.107.18.0")
  {
    hide Canonical, Decimal;
    ShortDecimals();
    QuadTextIsCanonical(1, 28, 36, 51);
    QuadTextIsCanonical(1, 107, 18, 0);
    assert QuadText(1, 28, 36, 51) == "1.28.36.51" && QuadText(1, 107, 18, 0) == "1.107.18.0";
  }

  lemma ShortDecimals()
    ensures Decimal(1) == "1" && Decimal(28) == "28" && Decimal(36) == "36" && Decimal(51) == "51"
    ensures Decimal(107) == "107" && Decimal(18) == "18" && Decimal(0) == "0"
  {
  }

  // ---------- the configured network ----------

  const BASE := "192.168.1."

  lemma HashStep(s: string, c: char, t: string, hash: uint32)
    requires Ascii(s) && c as int < 128 && t == s + [c] && hash == (Hash(s) * 31 + c as int) % TWO32
    ensures Ascii(t) && Hash(t) == hash
  {
    HashAppend(s, c);
  }

  lemma HashOfFirstHalf()
    ensures Ascii("192.1") && Hash("192.1") == 47000141
  {
    hide Hash;
    HashOfNothing();
    HashStep("", '1', "1", 49);
    HashStep("1", '9', "19", 1576);
    HashStep("19", '2', "192", 48906);
    HashStep("192", '.', "192.", 1516132);
    HashStep("192.", '1', "192.1", 47000141);
  }

  lemma HashOfBase()
    ensures Ascii(BASE) && Hash(BASE) == 3881130652
  {
    hide Hash;
    HashOfFirstHalf();
    HashStep("192.1", '6', "192.16", 1457004425);
    HashStep("192.16", '8', "192.168", 2217464271);
    HashStep("192.168", '.', "192.168.", 21915711);
    HashStep("192.168.", '1', "192.168.1", 679387090);
    HashStep("192.168.1", '.', "192.168.1.", 3881130652);
  }

  lemma HashOfNothing()
    ensures Hash("") == 0
  {
  }

  lemma OneMoreDigit(front: string, c: char, lo: nat, hi: nat, base: nat)
    requires Ascii(front) && IsDigit(c) && lo <= Hash(front) <= hi < TWO32
    requires base + 0x1_0000_0000 > 31 * hi + 57 && 31 * lo + 48 >= base && base % 0x1_0000_0000 == 0
    ensures Ascii(front + [c]) && 31 * lo + 48 - base <= Hash(front + [c]) <= 31 * hi + 57 - base
  {
    hide Hash;
    HashAppend(front, c);
    var v := Hash(front) * 31 + c as int;
    assert 48 <= c as int <= 57;
    assert v % 0x1_0000_0000 == v - base by {
      DivModUnique(v, 0x1_0000_0000, base / 0x1_0000_0000, v - base);
    }
  }

  /** The hashes of the texts of one, two and three digits after the base lie in three intervals that
      do not meet. */
  lemma HashAfterBase(d: string)
    requires AllDigits(d) && 1 <= |d| <= 3
    ensures Ascii(BASE + d)
    ensures |d| == 1 ==> 55965972 <= Hash(BASE + d) <= 55965981
    ensures |d| == 2 ==> 1734945180 <= Hash(BASE + d) <= 1734945468
    ensures |d| == 3 ==> 2243693076 <= Hash(BASE + d) <= 2243702013
  {
    hide Hash, Ascii;
    HashOfBase();
    var n := |d| - 1;
    assert IsDigit(d[n]);
    assert BASE + d == BASE + d[..n] + [d[n]];
    if n == 0 {
      assert BASE + d[..n] == BASE;
      OneMoreDigit(BASE, d[n], 3881130652, 3881130652, 28 * 0x1_0000_0000);
    } else {
      HashAfterBase(d[..n]);
      if n == 1 {
        OneMoreDigit(BASE + d[..n], d[n], 55965972, 55965981, 0);
      } else {
        OneMoreDigit(BASE + d[..n], d[n], 1734945180, 1734945468, 12 * 0x1_0000_0000);
      }
    }
  }

  lemma HexPairs()
    ensures Hex(0x16) == "16" && Hex(0xf9) == "f9" && Hex(0x55) == "55" && Hex(0x03) == "03" && Hex(0x91) == "91"
  {
  }

  /** The hardware address of the first device. */
  lemma FirstDeviceMac()
    ensures Ascii("192.168.1.2") && MacOf("192.168.1.2") == "AA:16:f9:55:03:91"
  {
    hide Hash, MacText;
    HashOfBase();
    HashStep(BASE, '2', "192.168.1.2", 0x0355_f916);
    FirstDeviceMacText();
  }

  lemma MacTextOf(hash: uint32, a: string, b: string, c: string, d: string, e: string)
    requires Hex(Byte(hash, 0)) == a && Hex(Byte(hash, 8)) == b && Hex(Byte(hash, 16)) == c
    requires Hex(Byte(hash, 24)) == d && Hex(Byte(hash, 4)) == e
    ensures MacText(hash) == "AA:" + a + ":" + b + ":" + c + ":" + d + ":" + e
  {
    hide Hex, Byte;
  }

  lemma FirstDeviceBytes()
    ensures Byte(0x0355_f916, 0) == 0x16 && Byte(0x0355_f916, 8) == 0xf9 && Byte(0x0355_f916, 16) == 0x55
    ensures Byte(0x0355_f916, 24) == 0x03 && Byte(0x0355_f916, 4) == 0x91
  {
    hide Byte;
    ByteOf(0x0355_f916);
  }

  lemma FirstDeviceMacText()
    ensures MacText(0x0355_f916) == "AA:16:f9:55:03:91"
  {
    hide Hex, Byte, MacText;
    FirstDeviceBytes();
    HexPairs();
    MacTextOf(0x0355_f916, "16", "f9", "55", "03", "91");
    FiveGroups();
  }

  lemma FiveGroups()
    ensures "AA:" + "16" + ":" + "f9" + ":" + "55" + ":" + "03" + ":" + "91" == "AA:16:f9:55:03:91"
  {
    assert "AA:" + "16" + ":" + "f9" + ":" == "AA:16:f9:";
  }

  /** All 256 addresses of 192.168.1.0/24, the network the configured subnets are carved from, get
      different hardware addresses. */
  lemma ConfiguredNetworkHasDistinctMacs(x: uint32, y: uint32)
    requires 0xC0A8_0100 <= x < 0xC0A8_0200 && 0xC0A8_0100 <= y < 0xC0A8_0200 && x != y
    ensures Ascii(Uint32ToIp(x)) && Ascii(Uint32ToIp(y))
    ensures MacOf(Uint32ToIp(x)) != MacOf(Uint32ToIp(y))
  {
    hide Hash, MacText, Uint32ToIp, Decimal, AddressText;
    var s := LastOctetText(x);
    var t := LastOctetText(y);
    HashAfterBase(s);
    HashAfterBase(t);
    if |s| == |t| {
      DigitsValueOfDecimal(x - 0xC0A8_0100);
      DigitsValueOfDecimal(y - 0xC0A8_0100);
      assert AddressText(s) && AddressText(t) by {
        DigitsAreAddressText(s);
        DigitsAreAddressText(t);
      }
      assert BASE + s + "" == BASE + s && BASE + t + "" == BASE + t;
      HashOfBase();
      NearbyAddressesDiffer(BASE, s, t, "");
    } else {
      MacDeterminesHash(Hash(BASE + s), Hash(BASE + t));
    }
  }

  lemma DigitsAreAddressText(s: string)
    requires AllDigits(s)
    ensures AddressText(s)
  {
  }

  /** The text of an address in 192.168.1.0/24. */
  lemma LastOctetText(x: uint32) returns (d: string)
    requires 0xC0A8_0100 <= x < 0xC0A8_0200
    ensures AllDigits(d) && 1 <= |d| <= 3 && d == Decimal(x - 0xC0A8_0100) && Uint32ToIp(x) == BASE + d
  {
    hide Octet;
    d := Decimal(x - 0xC0A8_0100);
    OctetsOf(x);
    QuadInjective(192, 168, 1, x - 0xC0A8_0100, Octet(x, 24), Octet(x, 16), Octet(x, 8), Octet(x, 0));
    assert Decimal(192) == "192" && Decimal(168) == "168" && Decimal(1) == "1";
    ShortDecimal(x - 0xC0A8_0100);
  }

  lemma ShortDecimal(n: nat)
    requires n < 256
    ensures |Decimal(n)| <= 3
  {
    if n >= 100 {
      assert Decimal(n / 10) == [DigitChar(n / 10 / 10)] + [DigitChar(n / 10 % 10)];
    } else if n >= 10 {
      assert Decimal(n / 10) == [DigitChar(n / 10)];
    }
  }
}
