/** The ARP cache: `src/network/ARPTable.cpp`. Times are readings of the steady clock in
    nanoseconds. */
module Arp {
  import opened Text
  import opened Bits
  import opened OrderedKeys
  import opened NetworkConfig

  datatype ARPEntry = ARPEntry(macAddress: string, timestamp: int, isStatic: bool)

  // ---------- the simulated hardware address ----------

  /** Texts whose characters are non-negative as a C++ `char`. */
  predicate Ascii(s: string) {
    forall i :: 0 <= i < |s| ==> s[i] as int < 128
  }

  function Hash(s: string): uint32
    requires Ascii(s)
  {
    if s == "" then 0 else (Hash(s[..|s| - 1]) * 31 + s[|s| - 1] as int) % TWO32
  }

  predicate IsHexDigit(c: char) {
    IsDigit(c) || 'a' <= c <= 'f'
  }

  /** The number a hexadecimal digit stands for. */
  function HexValue(c: char): nat
    requires IsHexDigit(c)
  {
    if IsDigit(c) then c as int - '0' as int else 10 + (c as int - 'a' as int)
  }

  function HexDigit(d: nat): (c: char)
    requires d < 16
    ensures IsHexDigit(c) && HexValue(c) == d
  {
    if d < 10 then ('0' as int + d) as char else ('a' as int + (d - 10)) as char
  }

  /** A byte in hexadecimal, `setw(2)` with fill '0'. */
  function Hex(b: nat): (s: string)
    requires b < 256
    ensures |s| == 2 && IsHexDigit(s[0]) && IsHexDigit(s[1])
    ensures 16 * HexValue(s[0]) + HexValue(s[1]) == b
  {
    [HexDigit(b / 16), HexDigit(b % 16)]
  }

  function Byte(hash: uint32, k: nat): (b: nat)
    ensures b < 256
  {
    Octet(hash, k)
  }

  function MacText(hash: uint32): string {
    "AA:" + Hex(Byte(hash, 0)) + ":" + Hex(Byte(hash, 8)) + ":" + Hex(Byte(hash, 16)) + ":"
    + Hex(Byte(hash, 24)) + ":" + Hex(Byte(hash, 4))
  }

  function MacOf(ip: string): string
    requires Ascii(ip)
  {
    MacText(Hash(ip))
  }

  method GenerateMAC(ip: string) returns (mac: string)
    requires Ascii(ip)
    ensures mac == MacOf(ip)
  {
    var hash: uint32 := 0;
    var i := 0;
    while i < |ip|
      invariant 0 <= i <= |ip|
      invariant hash == Hash(ip[..i])
    {
      assert ip[..i + 1][..i] == ip[..i];
      hash := (hash * 31 + ip[i] as int) % TWO32;
      i := i + 1;
    }
    assert ip[..|ip|] == ip;
    mac := "AA:" + Hex(Byte(hash, 0)) + ":" + Hex(Byte(hash, 8)) + ":" + Hex(Byte(hash, 16)) + ":"
           + Hex(Byte(hash, 24)) + ":" + Hex(Byte(hash, 4));
  }

  // ---------- the cache on values ----------

  type Table = map<string, ARPEntry>

  /** What `resolve` returns: the empty text on a miss. */
  function Cached(table: Table, ip: string): string {
    if ip in table then table[ip].macAddress else ""
  }

  function Added(table: Table, ip: string, mac: string, isStatic: bool, now: int): Table {
    table[ip := ARPEntry(mac, now, isStatic)]
  }

  /** Whole seconds, rounded toward zero. */
  function Seconds(nanos: int): int {
    if nanos >= 0 then nanos / 1_000_000_000 else -((-nanos) / 1_000_000_000)
  }

  predicate Expired(e: ARPEntry, maxAgeSecs: int, now: int) {
    !e.isStatic && Seconds(now - e.timestamp) > maxAgeSecs
  }

  function Flushed(table: Table, maxAgeSecs: int, now: int): Table {
    map ip | ip in table && !Expired(table[ip], maxAgeSecs, now) :: table[ip]
  }

  // ---------- the class ----------

  class ARPTable {
    var table: Table

    constructor ()
      ensures table == map[]
    {
      table := map[];
    }

    method Resolve(ipAddress: string) returns (mac: string)
      ensures mac == Cached(table, ipAddress)
    {
      if ipAddress in table {
        return table[ipAddress].macAddress;
      }
      return "";
    }

    method AddEntry(ipAddress: string, macAddress: string, isStatic: bool := false, now: int)
      modifies this
      ensures table == Added(old(table), ipAddress, macAddress, isStatic, now)
    {
      var entry := ARPEntry(macAddress, now, isStatic);
      table := table[ipAddress := entry];
    }

    method RemoveEntry(ipAddress: string)
      modifies this
      ensures table == old(table) - {ipAddress}
    {
      table := table - {ipAddress};
    }

    /** Two critical sections, `Resolve` and `AddEntry`. In between other threads may act on the table;
        `meanwhile` is what they do to it. */
    method ArpRequest(ipAddress: string, now: int, meanwhile: Table -> Table := (t => t)) returns (mac: string)
      requires Ascii(ipAddress)
      modifies this
      ensures Cached(old(table), ipAddress) != "" ==> mac == Cached(old(table), ipAddress) && table == old(table)
      ensures Cached(old(table), ipAddress) == ""
              ==> mac == MacOf(ipAddress) && table == Added(meanwhile(old(table)), ipAddress, mac, false, now)
    {
      hide MacOf;
      var cached := Resolve(ipAddress);
      if cached != "" {
        return cached;
      }
      table := meanwhile(table);
      mac := GenerateMAC(ipAddress);
      AddEntry(ipAddress, mac, false, now);
    }

    /** The test on one entry in the loop of `flushExpired`. */
    method IsTooOld(entry: ARPEntry, maxAgeSecs: int, now: int) returns (r: bool)
      ensures r == Expired(entry, maxAgeSecs, now)
    {
      if !entry.isStatic {
        var age := Seconds(now - entry.timestamp);
        if age > maxAgeSecs {
          return true;
        }
      }
      return false;
    }

    method FlushExpired(maxAgeSecs: int := 300, now: int)
      modifies this
      ensures table == Flushed(old(table), maxAgeSecs, now)
    {
      hide Keys, Ascending, Expired;
      var keys := Keys(table.Keys);
      AscendingDistinct(keys);
      ghost var before := table;
      while keys != []
        invariant forall i, j :: 0 <= i < j < |keys| ==> keys[i] != keys[j]
        invariant forall k :: k in keys ==> k in before && k in table
        invariant forall k :: k in table ==> k in before && table[k] == before[k]
        invariant forall k :: k in before && k !in keys ==> (k in table <==> !Expired(before[k], maxAgeSecs, now))
        decreases |keys|
      {
        var ip := keys[0];
        assert ip in keys && keys == [ip] + keys[1..];
        var tooOld := IsTooOld(table[ip], maxAgeSecs, now);
        if tooOld {
          table := table - {ip};
        }
        keys := keys[1..];
      }
      assert table == Flushed(old(table), maxAgeSecs, now);
    }
  }
}
