/** The subnet table and its address allocator: `src/network/SubnetManager.cpp`. */
module Subnets {
  import opened Text
  import opened Bits
  import opened OrderedKeys
  import opened NetworkConfig

  /** The exceptions `allocateIP` can leave with. */
  datatype AllocationError = SubnetNotFound | NoMoreAddresses | BadNetworkAddress

  datatype Allocation = Issued(ip: string) | Refused(error: AllocationError)

  // ---------- the allocator on values ----------

  /** The three maps of the class, all keyed by subnet name. */
  datatype SubnetState = SubnetState(
    subnets: map<string, SubnetInfo>,
    stored: map<string, seq<string>>,
    nextHost: map<string, int>)

  const EMPTY := SubnetState(map[], map[], map[])

  /** A configuration the arithmetic of the class is defined on: at most four octets, a prefix length
      up to 32, and a host counter that stays in the range of `int`. */
  predicate SoundInfo(cfg: SubnetInfo) {
    Shaped(cfg.networkAddress) && 0 <= cfg.cidr <= 32 && cfg.maxHosts < INT_MAX
  }

  predicate Consistent(st: SubnetState) {
    && st.stored.Keys == st.subnets.Keys == st.nextHost.Keys
    && forall n :: n in st.subnets ==> SoundInfo(st.subnets[n])
  }

  function Enter(st: SubnetState, cfg: SubnetInfo): SubnetState {
    SubnetState(st.subnets[cfg.name := cfg], st.stored[cfg.name := []], st.nextHost[cfg.name := 2])
  }

  function Initialize(st: SubnetState, configs: seq<SubnetInfo>): SubnetState {
    if configs == [] then st
    else Enter(Initialize(st, configs[..|configs| - 1]), configs[|configs| - 1])
  }

  lemma InitializeNothing(st: SubnetState, configs: seq<SubnetInfo>)
    ensures Initialize(st, configs[..0]) == st
  {
  }

  lemma InitializeStep(st: SubnetState, configs: seq<SubnetInfo>, i: nat)
    requires i < |configs|
    ensures Initialize(st, configs[..i + 1]) == Enter(Initialize(st, configs[..i]), configs[i])
  {
    hide Enter;
    assert configs[..i + 1][..i] == configs[..i];
  }

  lemma EnterIsConsistent(st: SubnetState, cfg: SubnetInfo)
    requires Consistent(st) && SoundInfo(cfg)
    ensures Consistent(Enter(st, cfg))
  {
    hide SoundInfo;
  }

  function Allocate(st: SubnetState, name: string): (r: (SubnetState, Allocation))
    requires Consistent(st)
    ensures Consistent(r.0) && r.0.subnets == st.subnets
    ensures r.1.Refused? ==> r.0 == st
    ensures r.1 == Refused(SubnetNotFound) <==> name !in st.subnets
    ensures r.1 == Refused(NoMoreAddresses) <==> name in st.subnets && st.nextHost[name] > st.subnets[name].maxHosts
  {
    if name !in st.subnets then (st, Refused(SubnetNotFound))
    else
      var info, host := st.subnets[name], st.nextHost[name];
      if host > info.maxHosts then (st, Refused(NoMoreAddresses))
      else if !Readable(info.networkAddress) then (st, Refused(BadNetworkAddress))
      else
        var ip := Uint32ToIp((Address(info.networkAddress) + host) % TWO32);
        ( SubnetState(st.subnets,
                      st.stored[name := st.stored[name] + [ip]],
                      st.nextHost[name := host + 1]),
          Issued(ip) )
  }

  /** `std::remove`: every occurrence goes, the order of the others stays. */
  function Drop(ips: seq<string>, ip: string): (kept: seq<string>)
    ensures forall x :: x in kept <==> x in ips && x != ip
  {
    if ips == [] then []
    else if ips[|ips| - 1] == ip then Drop(ips[..|ips| - 1], ip)
    else Drop(ips[..|ips| - 1], ip) + [ips[|ips| - 1]]
  }

  function Release(st: SubnetState, name: string, ip: string): (r: SubnetState)
    requires Consistent(st)
    ensures Consistent(r) && r.subnets == st.subnets && r.nextHost == st.nextHost
  {
    if name in st.stored then st.(stored := st.stored[name := Drop(st.stored[name], ip)]) else st
  }

  predicate Covers(info: SubnetInfo, ip: uint32)
    requires SoundInfo(info) && Readable(info.networkAddress)
  {
    SameBlock(ip, Address(info.networkAddress), info.cidr)
  }

  /** The first subnet among `names`, in that order, whose block contains the address. */
  function FindIn(subnets: map<string, SubnetInfo>, names: seq<string>, ip: string): Option<string>
    requires Shaped(ip)
    requires forall n :: n in subnets ==> SoundInfo(subnets[n])
    requires forall n :: n in names ==> n in subnets
  {
    hide Shaped, AddressOf, Covers;
    if names == [] then Some("Unknown")
    else if !Readable(ip) || !Readable(subnets[names[0]].networkAddress) then None
    else if Covers(subnets[names[0]], Address(ip)) then Some(names[0])
    else FindIn(subnets, names[1..], ip)
  }

  /** What `findSubnet` answers; `None` when `std::stoi` throws. */
  function Find(st: SubnetState, ip: string): Option<string>
    requires Consistent(st) && Shaped(ip)
  {
    FindIn(st.subnets, Keys(st.subnets.Keys), ip)
  }

  // ---------- the class ----------

  class SubnetManager {
    /** What `getSubnetConfigurations` returns. */
    const plan: seq<SubnetInfo>

    var subnets: map<string, SubnetInfo>
    var allocatedIPs: map<string, seq<string>>
    var nextHost: map<string, int>

    function State(): SubnetState
      reads this
    {
      SubnetState(subnets, allocatedIPs, nextHost)
    }

    ghost predicate Valid()
      reads this
    {
      Consistent(State()) && forall cfg :: cfg in plan ==> SoundInfo(cfg)
    }

    constructor (plan: seq<SubnetInfo>)
      requires forall cfg :: cfg in plan ==> SoundInfo(cfg)
      ensures Valid() && this.plan == plan && State() == EMPTY
    {
      this.plan := plan;
      subnets, allocatedIPs, nextHost := map[], map[], map[];
    }

    method InitializeSubnets()
      requires Valid()
      modifies this
      ensures Valid() && State() == Initialize(old(State()), plan)
    {
      hide SoundInfo, Initialize, Consistent;
      var i := 0;
      InitializeNothing(State(), plan);
      while i < |plan|
        invariant 0 <= i <= |plan|
        invariant Consistent(State())
        invariant State() == Initialize(old(State()), plan[..i])
      {
        var cfg := plan[i];
        assert cfg in plan;
        InitializeStep(old(State()), plan, i);
        EnterIsConsistent(State(), cfg);
        subnets := subnets[cfg.name := cfg];
        allocatedIPs := allocatedIPs[cfg.name := []];
        nextHost := nextHost[cfg.name := 2];
        i := i + 1;
      }
      assert plan[..|plan|] == plan;
    }

    method AllocateIP(subnetName: string) returns (r: Allocation)
      requires Valid()
      modifies this`allocatedIPs, this`nextHost
      ensures Valid()
      ensures (State(), r) == Allocate(old(State()), subnetName)
    {
      hide AddressOf, Pieces, Uint32ToIp;
      if subnetName !in subnets {
        return Refused(SubnetNotFound);
      }
      var subnet := subnets[subnetName];
      var hostNum := nextHost[subnetName];
      if hostNum > subnet.maxHosts {
        return Refused(NoMoreAddresses);
      }
      var netAddr := IpToUint32(subnet.networkAddress);
      if netAddr.None? {
        return Refused(BadNetworkAddress);
      }
      var ip := (netAddr.value + hostNum) % TWO32;
      var ipStr := Uint32ToIp(ip);
      allocatedIPs := allocatedIPs[subnetName := allocatedIPs[subnetName] + [ipStr]];
      nextHost := nextHost[subnetName := nextHost[subnetName] + 1];
      return Issued(ipStr);
    }

    method ReleaseIP(subnetName: string, ip: string)
      requires Valid()
      modifies this`allocatedIPs
      ensures Valid()
      ensures State() == Release(old(State()), subnetName, ip)
    {
      hide AddressOf, Pieces;
      if subnetName in allocatedIPs {
        var ips := allocatedIPs[subnetName];
        var kept: seq<string> := [];
        var i := 0;
        while i < |ips|
          invariant 0 <= i <= |ips|
          invariant kept == Drop(ips[..i], ip)
        {
          assert ips[..i + 1][..i] == ips[..i];
          if ips[i] != ip {
            kept := kept + [ips[i]];
          }
          i := i + 1;
        }
        assert ips[..|ips|] == ips;
        allocatedIPs := allocatedIPs[subnetName := kept];
      }
    }

    method FindSubnet(ip: string) returns (r: Option<string>)
      requires Valid() && Shaped(ip)
      ensures r == Find(State(), ip)
    {
      hide AddressOf, Pieces, SameBlock;
      var names := Keys(subnets.Keys);
      while names != []
        invariant forall n :: n in names ==> n in subnets
        invariant Find(State(), ip) == FindIn(subnets, names, ip)
        decreases |names|
      {
        var info := subnets[names[0]];
        var inside := IsInSubnet(ip, info.networkAddress, info.cidr);
        if inside.None? {
          return None;
        }
        if inside.value {
          return Some(names[0]);
        }
        names := names[1..];
      }
      return Some("Unknown");
    }
  }
}
