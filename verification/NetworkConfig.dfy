/** Dotted-quad text, CIDR masks and subnet membership: `src/network/NetworkConfig.cpp`. */
module NetworkConfig {
  import opened Text
  import opened Bits

  datatype SubnetInfo = SubnetInfo(
    name: string,
    networkAddress: string,
    subnetMask: string,
    gateway: string,
    cidr: int,
    maxHosts: int)

  // ---------- text to address ----------

  /** At most four octets: a fifth would be shifted by a negative amount, which C++ leaves undefined. */
  predicate Shaped(ip: string) {
    |Pieces(ip, '.')| <= 4
  }

  /** `static_cast<uint32_t>` of an `int`. */
  function ToWord(v: int): uint32 {
    v % TWO32
  }

  function Or32(a: uint32, b: uint32): uint32 {
    Pow2Values();
    OrBound(a, b, 32);
    BitOr(a, b)
  }

  /** The numbers the octet texts denote; `None` when `std::stoi` throws on one of them. */
  function Numbers(octets: seq<string>): (r: Option<seq<int>>)
    ensures r.Some? ==> |r.value| == |octets|
  {
    if octets == [] then Some([])
    else match (Stoi(octets[0]), Numbers(octets[1..]))
      case (Some(v), Some(vs)) => Some([v] + vs)
      case _ => None
  }

  /** The word the octets add up to, from the left. */
  function AddOctets(octets: seq<int>, shift: int, result: uint32): uint32
    requires 8 * |octets| <= shift + 8
    decreases |octets|
  {
    if octets == [] then result
    else AddOctets(octets[1..], shift - 8, Or32(result, Shl32(ToWord(octets[0]), shift)))
  }

  function AddressFrom(unread: string, shift: int, result: uint32): Option<uint32>
    requires 8 * |Pieces(unread, '.')| <= shift + 8
  {
    match Numbers(Pieces(unread, '.'))
    case None => None
    case Some(vs) => Some(AddOctets(vs, shift, result))
  }

  function AddressOf(ip: string): Option<uint32>
    requires Shaped(ip)
  {
    AddressFrom(ip, 24, 0)
  }

  /** An address text the program can convert: no undefined shift and no exception. */
  predicate Readable(ip: string) {
    Shaped(ip) && AddressOf(ip).Some?
  }

  function Address(ip: string): uint32
    requires Readable(ip)
  {
    AddressOf(ip).value
  }

  /** Reading one octet from the stream. */
  lemma AddressStep(unread: string, shift: int, result: uint32)
    requires unread != "" && 8 * |Pieces(unread, '.')| <= shift + 8
    ensures Pieces(unread, '.') == [Line(unread, '.')] + Pieces(Rest(unread, '.'), '.')
    ensures match Stoi(Line(unread, '.'))
            case None => AddressFrom(unread, shift, result) == None
            case Some(v) => AddressFrom(unread, shift, result)
                            == AddressFrom(Rest(unread, '.'), shift - 8, Or32(result, Shl32(ToWord(v), shift)))
  {
    var octets := Pieces(unread, '.');
    assert octets[0] == Line(unread, '.') && octets[1..] == Pieces(Rest(unread, '.'), '.');
    match (Stoi(octets[0]), Numbers(octets[1..])) {
      case (Some(v), Some(vs)) => assert ([v] + vs)[1..] == vs;
      case _ =>
    }
  }

  method IpToUint32(ip: string) returns (r: Option<uint32>)
    requires Shaped(ip)
    ensures r == AddressOf(ip)
  {
    var result: uint32 := 0;
    var unread, shift := ip, 24;
    while unread != ""
      invariant 8 * |Pieces(unread, '.')| <= shift + 8
      invariant AddressOf(ip) == AddressFrom(unread, shift, result)
      decreases |unread|
    {
      AddressStep(unread, shift, result);
      var octet := Line(unread, '.');
      unread := Rest(unread, '.');
      var v := Stoi(octet);
      if v.None? {
        return None;
      }
      result := Or32(result, Shl32(ToWord(v.value), shift));
      shift := shift - 8;
    }
    return Some(result);
  }

  // ---------- address to text ----------

  /** `(ip >> k) & 0xFF` */
  function Octet(ip: uint32, k: nat): nat {
    BitAnd(Shr(ip, k), 0xFF)
  }

  function QuadText(a: nat, b: nat, c: nat, d: nat): string {
    Decimal(a) + "." + Decimal(b) + "." + Decimal(c) + "." + Decimal(d)
  }

  function Uint32ToIp(ip: uint32): string {
    QuadText(Octet(ip, 24), Octet(ip, 16), Octet(ip, 8), Octet(ip, 0))
  }

  // ---------- masks ----------

  function MaskWord(cidr: int): uint32
    requires 0 <= cidr <= 32
  {
    if cidr == 0 then 0 else Shl32(0xFFFF_FFFF, 32 - cidr)
  }

  function CidrToMask(cidr: int): string
    requires 0 <= cidr <= 32
  {
    Uint32ToIp(MaskWord(cidr))
  }

  /** The masked comparison of two addresses. */
  predicate SameBlock(a: uint32, b: uint32, cidr: int)
    requires 0 <= cidr <= 32
  {
    BitAnd(a, MaskWord(cidr)) == BitAnd(b, MaskWord(cidr))
  }

  method IsInSubnet(ip: string, network: string, cidr: int) returns (r: Option<bool>)
    requires Shaped(ip) && Shaped(network) && 0 <= cidr <= 32
    ensures r.Some? <==> Readable(ip) && Readable(network)
    ensures r.Some? ==> r.value == SameBlock(Address(ip), Address(network), cidr)
  {
    var ipAddr := IpToUint32(ip);
    if ipAddr.None? {
      return None;
    }
    var netAddr := IpToUint32(network);
    if netAddr.None? {
      return None;
    }
    var mask := MaskWord(cidr);
    return Some(BitAnd(ipAddr.value, mask) == BitAnd(netAddr.value, mask));
  }

  /** The VLSM plan carved out of 192.168.1.0/24. */
  function GetSubnetConfigurations(): seq<SubnetInfo> {
    [ SubnetInfo("Lighting", "192.168.1.0", "255.255.255.192", "192.168.1.1", 26, 62),
      SubnetInfo("Thermostat", "192.168.1.64", "255.255.255.224", "192.168.1.65", 27, 30),
      SubnetInfo("Security", "192.168.1.96", "255.255.255.224", "192.168.1.97", 27, 30),
      SubnetInfo("Management", "192.168.1.128", "255.255.255.240", "192.168.1.129", 28, 14) ]
  }
}
