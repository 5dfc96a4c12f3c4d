/** Address plans: what makes a list of subnet configurations one that the program can serve, and
    the proof that the configured VLSM table is such a plan. */
module Plans {
  import opened Text
  import opened Bits
  import opened OrderedKeys
  import opened NetworkConfig
  import opened Addressing
  import opened Subnets

  function Network(cfg: SubnetInfo): uint32
    requires Readable(cfg.networkAddress)
  {
    Address(cfg.networkAddress)
  }

  /** A block that starts at its network address, whose gateway is the next address, and whose hosts
      lie strictly between the network and the broadcast address. */
  predicate ValidSubnet(cfg: SubnetInfo) {
    && cfg.name != "Unknown"
    && SoundInfo(cfg)
    && Readable(cfg.networkAddress) && Readable(cfg.gateway)
    && Network(cfg) % BlockSize(cfg.cidr) == 0
    && Address(cfg.gateway) == (Network(cfg) + 1) % TWO32
    && cfg.maxHosts <= BlockSize(cfg.cidr) - 2
  }

  predicate Apart(a: SubnetInfo, b: SubnetInfo)
    requires ValidSubnet(a) && ValidSubnet(b)
  {
    Network(a) + BlockSize(a.cidr) <= Network(b) || Network(b) + BlockSize(b.cidr) <= Network(a)
  }

  ghost predicate ValidPlan(plan: seq<SubnetInfo>) {
    && (forall i :: 0 <= i < |plan| ==> ValidSubnet(plan[i]))
    && (forall i, j :: 0 <= i < j < |plan| ==> plan[i].name != plan[j].name && Apart(plan[i], plan[j]))
  }

  // ---------- blocks of a plan ----------

  lemma CoversIsInterval(cfg: SubnetInfo, ip: uint32)
    requires ValidSubnet(cfg)
    ensures Covers(cfg, ip) <==> Network(cfg) <= ip < Network(cfg) + BlockSize(cfg.cidr)
  {
    hide AddressOf, Pieces, BitAnd, MaskWord, Pow2, SameBlock;
    MembershipIsInterval(ip, Network(cfg), cfg.cidr);
    var m := BlockSize(cfg.cidr);
    assert Network(cfg) == m * (Network(cfg) / m) + Network(cfg) % m;
  }

  /** No address lies in two subnets of a plan. */
  lemma BlocksDisjoint(plan: seq<SubnetInfo>, i: int, j: int, ip: uint32)
    requires ValidPlan(plan) && 0 <= i < |plan| && 0 <= j < |plan|
    requires Covers(plan[i], ip) && Covers(plan[j], ip)
    ensures i == j
  {
    hide AddressOf, Pieces, BlockSize, Covers, Readable;
    CoversIsInterval(plan[i], ip);
    CoversIsInterval(plan[j], ip);
  }

  // ---------- the tables after initialisation ----------

  ghost predicate NamesAgree(st: SubnetState) {
    st.stored.Keys == st.subnets.Keys == st.nextHost.Keys
  }

  ghost predicate NamesOnlyFrom(st: SubnetState, plan: seq<SubnetInfo>) {
    && NamesAgree(st)
    && forall n :: n in st.subnets ==> exists i :: 0 <= i < |plan| && plan[i].name == n
  }

  /** The tables hold the subnets of the plan and no others. */
  ghost predicate HoldsPlan(st: SubnetState, plan: seq<SubnetInfo>) {
    && NamesOnlyFrom(st, plan)
    && forall i :: 0 <= i < |plan| ==> plan[i].name in st.subnets && st.subnets[plan[i].name] == plan[i]
  }

  /** ... and nothing has been issued yet: every list is empty and every host number is 2. */
  ghost predicate IsFresh(st: SubnetState, plan: seq<SubnetInfo>) {
    && HoldsPlan(st, plan)
    && forall i :: 0 <= i < |plan| ==> st.stored[plan[i].name] == [] && st.nextHost[plan[i].name] == 2
  }

  ghost predicate Entered(st: SubnetState, cfg: SubnetInfo) {
    && NamesAgree(st) && cfg.name in st.subnets
    && st.subnets[cfg.name] == cfg && st.stored[cfg.name] == [] && st.nextHost[cfg.name] == 2
  }

  lemma EnterOne(st: SubnetState, cfg: SubnetInfo, other: SubnetInfo)
    requires NamesAgree(st)
    ensures NamesAgree(Enter(st, cfg)) && Enter(st, cfg).subnets.Keys == st.subnets.Keys + {cfg.name}
    ensures Entered(Enter(st, cfg), cfg)
    ensures other.name != cfg.name && Entered(st, other) ==> Entered(Enter(st, cfg), other)
  {
  }

  lemma {:induction false} InitializeEnters(st: SubnetState, plan: seq<SubnetInfo>, k: nat)
    requires k <= |plan| && NamesOnlyFrom(st, plan)
    requires forall i, j :: 0 <= i < j < |plan| ==> plan[i].name != plan[j].name
    ensures NamesOnlyFrom(Initialize(st, plan[..k]), plan)
    ensures forall i :: 0 <= i < k ==> Entered(Initialize(st, plan[..k]), plan[i])
  {
    hide Enter, Entered;
    if k > 0 {
      InitializeEnters(st, plan, k - 1);
      var before := Initialize(st, plan[..k - 1]);
      assert plan[..k][..k - 1] == plan[..k - 1];
      EnterOne(before, plan[k - 1], plan[k - 1]);
      forall i | 0 <= i < k - 1 ensures Entered(Enter(before, plan[k - 1]), plan[i]) {
        EnterOne(before, plan[k - 1], plan[i]);
      }
    }
  }

  /** Initialising resets the allocator whatever was allocated before, and initialising again gives
      the same tables. */
  lemma InitializeResets(st: SubnetState, plan: seq<SubnetInfo>)
    requires ValidPlan(plan) && NamesOnlyFrom(st, plan)
    ensures IsFresh(Initialize(st, plan), plan)
  {
    hide Initialize, ValidSubnet, Apart;
    assert plan[..|plan|] == plan;
    InitializeEnters(st, plan, |plan|);
    var r := Initialize(st, plan);
    assert forall i :: 0 <= i < |plan| ==> Entered(r, plan[i]);
  }

  // ---------- looking addresses up in the plan ----------

  lemma FindInNothing(subnets: map<string, SubnetInfo>, ip: string)
    requires Readable(ip) && forall n :: n in subnets ==> SoundInfo(subnets[n])
    ensures FindIn(subnets, [], ip) == Some("Unknown")
  {
    hide AddressOf, Pieces, SoundInfo;
  }

  lemma FindInStep(subnets: map<string, SubnetInfo>, names: seq<string>, ip: string)
    requires Readable(ip) && forall n :: n in subnets ==> SoundInfo(subnets[n])
    requires names != [] && (forall n :: n in names ==> n in subnets)
    requires Readable(subnets[names[0]].networkAddress)
    ensures FindIn(subnets, names, ip)
            == if Covers(subnets[names[0]], Address(ip)) then Some(names[0]) else FindIn(subnets, names[1..], ip)
  {
    hide AddressOf, Pieces, Covers, SoundInfo;
  }

  lemma {:induction false} FindsCovering(st: SubnetState, plan: seq<SubnetInfo>, names: seq<string>, ip: string, i: nat)
    requires ValidPlan(plan) && HoldsPlan(st, plan) && Consistent(st) && Readable(ip)
    requires forall n :: n in names ==> n in st.subnets
    requires i < |plan| && plan[i].name in names && Covers(plan[i], Address(ip))
    ensures FindIn(st.subnets, names, ip) == Some(plan[i].name)
  {
    hide Readable, Address, Shaped, SoundInfo, Network, Covers, Apart, BlockSize, FindIn;
    assert names[0] in names;
    var k :| 0 <= k < |plan| && plan[k].name == names[0];
    FindInStep(st.subnets, names, ip);
    if k != i {
      if Covers(plan[k], Address(ip)) {
        BlocksDisjoint(plan, i, k, Address(ip));
      }
      assert names == [names[0]] + names[1..];
      FindsCovering(st, plan, names[1..], ip, i);
    }
  }

  lemma {:induction false} FindsUnknown(subnets: map<string, SubnetInfo>, names: seq<string>, ip: string)
    requires Readable(ip) && forall n :: n in subnets ==> SoundInfo(subnets[n])
    requires forall n :: n in names ==>
               n in subnets && Readable(subnets[n].networkAddress) && !Covers(subnets[n], Address(ip))
    ensures FindIn(subnets, names, ip) == Some("Unknown")
  {
    hide Readable, Address, Shaped, SoundInfo, Covers, FindIn;
    if names == [] {
      FindInNothing(subnets, ip);
    } else {
      assert names[0] in names && forall n :: n in names[1..] ==> n in names;
      FindInStep(subnets, names, ip);
      FindsUnknown(subnets, names[1..], ip);
    }
  }

  lemma FindsNone(st: SubnetState, plan: seq<SubnetInfo>, names: seq<string>, ip: string)
    requires ValidPlan(plan) && HoldsPlan(st, plan) && Consistent(st) && Readable(ip)
    requires forall n :: n in names ==> n in st.subnets
    requires forall i :: 0 <= i < |plan| ==> !Covers(plan[i], Address(ip))
    ensures FindIn(st.subnets, names, ip) == Some("Unknown")
  {
    hide Readable, Address, Shaped, SoundInfo, Network, Covers, Apart, BlockSize, FindIn;
    forall n | n in names
      ensures n in st.subnets && Readable(st.subnets[n].networkAddress) && !Covers(st.subnets[n], Address(ip))
    {
      var k :| 0 <= k < |plan| && plan[k].name == n;
    }
    FindsUnknown(st.subnets, names, ip);
  }

  /** The search finds the only subnet that contains the address, or none. */
  lemma FindInPlan(st: SubnetState, plan: seq<SubnetInfo>, names: seq<string>, ip: string)
    requires ValidPlan(plan) && HoldsPlan(st, plan) && Consistent(st) && Readable(ip)
    requires forall n :: n in names <==> n in st.subnets
    ensures FindIn(st.subnets, names, ip).Some?
    ensures forall i :: 0 <= i < |plan| && Covers(plan[i], Address(ip))
              ==> FindIn(st.subnets, names, ip) == Some(plan[i].name)
    ensures (forall i :: 0 <= i < |plan| ==> !Covers(plan[i], Address(ip)))
            ==> FindIn(st.subnets, names, ip) == Some("Unknown")
  {
    hide AddressOf, Pieces, Covers, Apart, BlockSize, FindIn;
    if i :| 0 <= i < |plan| && Covers(plan[i], Address(ip)) {
      FindsCovering(st, plan, names, ip, i);
      forall j | 0 <= j < |plan| && Covers(plan[j], Address(ip)) ensures j == i {
        BlocksDisjoint(plan, i, j, Address(ip));
      }
    } else {
      FindsNone(st, plan, names, ip);
    }
  }

  /** `findSubnet` names the subnet whose block contains the address, and answers "Unknown" exactly
      when no block of the plan does. */
  lemma FindIsContainment(st: SubnetState, plan: seq<SubnetInfo>, ip: string)
    requires ValidPlan(plan) && HoldsPlan(st, plan) && Consistent(st) && Readable(ip)
    ensures forall i :: 0 <= i < |plan| ==>
              (Covers(plan[i], Address(ip)) <==> Find(st, ip) == Some(plan[i].name))
    ensures (forall i :: 0 <= i < |plan| ==> !Covers(plan[i], Address(ip))) <==> Find(st, ip) == Some("Unknown")
  {
    hide AddressOf, Pieces, Covers, Apart, BlockSize, FindIn, Keys, Readable;
    FindInPlan(st, plan, Keys(st.subnets.Keys), ip);
    forall i, k | 0 <= i < |plan| && 0 <= k < |plan| && plan[i].name == plan[k].name ensures i == k {
    }
  }

  // ---------- the configured plan ----------

  lemma ConfiguredAddress(d: nat, text: string)
    requires d < 256 && text == Decimal(d)
    ensures Readable("192.168.1." + text) && Address("192.168.1." + text) == 0xC0A8_0100 + d
  {
    hide AddressOf, Pieces;
    AddressOfQuadText(192, 168, 1, d);
    assert Decimal(192) == "192" && Decimal(168) == "168" && Decimal(1) == "1";
    assert QuadText(192, 168, 1, d) == "192.168.1." + text;
  }

  lemma ConfiguredSubnet(cfg: SubnetInfo, net: nat, netText: string, gatewayText: string)
    requires net < 255 && netText == Decimal(net) && gatewayText == Decimal(net + 1)
    requires cfg.networkAddress == "192.168.1." + netText && cfg.gateway == "192.168.1." + gatewayText
    requires 0 <= cfg.cidr <= 32 && cfg.maxHosts < INT_MAX && cfg.name != "Unknown"
    requires (0xC0A8_0100 + net) % BlockSize(cfg.cidr) == 0 && cfg.maxHosts <= BlockSize(cfg.cidr) - 2
    ensures ValidSubnet(cfg) && Network(cfg) == 0xC0A8_0100 + net
  {
    hide AddressOf, Pieces, Decimal, BlockSize;
    ConfiguredAddress(net, netText);
    ConfiguredAddress(net + 1, gatewayText);
  }

  lemma PlanOfFour(plan: seq<SubnetInfo>)
    requires |plan| == 4
    requires ValidSubnet(plan[0]) && ValidSubnet(plan[1]) && ValidSubnet(plan[2]) && ValidSubnet(plan[3])
    requires Network(plan[0]) + BlockSize(plan[0].cidr) <= Network(plan[1])
    requires Network(plan[1]) + BlockSize(plan[1].cidr) <= Network(plan[2])
    requires Network(plan[2]) + BlockSize(plan[2].cidr) <= Network(plan[3])
    requires plan[0].name != plan[1].name && plan[0].name != plan[2].name && plan[0].name != plan[3].name
    requires plan[1].name != plan[2].name && plan[1].name != plan[3].name && plan[2].name != plan[3].name
    ensures ValidPlan(plan)
  {
    hide ValidSubnet, Network, BlockSize;
  }

  lemma LowerSubnets()
    ensures var plan := GetSubnetConfigurations();
            && ValidSubnet(plan[0]) && Network(plan[0]) == 0xC0A8_0100
            && ValidSubnet(plan[1]) && Network(plan[1]) == 0xC0A8_0140
  {
    hide Readable, Address, SoundInfo, ValidSubnet;
    var plan := GetSubnetConfigurations();
    Pow2Values();
    ConfiguredSubnet(plan[0], 0, "0", "1");
    ConfiguredSubnet(plan[1], 64, "64", "65");
  }

  lemma UpperSubnets()
    ensures var plan := GetSubnetConfigurations();
            && ValidSubnet(plan[2]) && Network(plan[2]) == 0xC0A8_0160
            && ValidSubnet(plan[3]) && Network(plan[3]) == 0xC0A8_0180
  {
    hide Readable, Address, SoundInfo, ValidSubnet;
    var plan := GetSubnetConfigurations();
    Pow2Values();
    assert Decimal(96) == "96" && Decimal(97) == "97" && Decimal(128) == "128" && Decimal(129) == "129";
    ConfiguredSubnet(plan[2], 96, "96", "97");
    ConfiguredSubnet(plan[3], 128, "128", "129");
  }

  lemma ConfiguredSubnets()
    ensures var plan := GetSubnetConfigurations();
            && ValidSubnet(plan[0]) && Network(plan[0]) == 0xC0A8_0100
            && ValidSubnet(plan[1]) && Network(plan[1]) == 0xC0A8_0140
            && ValidSubnet(plan[2]) && Network(plan[2]) == 0xC0A8_0160
            && ValidSubnet(plan[3]) && Network(plan[3]) == 0xC0A8_0180
  {
    hide Readable, Address, ValidSubnet;
    LowerSubnets();
    UpperSubnets();
  }

  lemma ConfiguredNames()
    ensures var plan := GetSubnetConfigurations();
            && plan[0].name == "Lighting" && plan[1].name == "Thermostat"
            && plan[2].name == "Security" && plan[3].name == "Management"
    ensures "Lighting" != "Thermostat" && "Lighting" != "Security" && "Lighting" != "Management"
    ensures "Thermostat" != "Security" && "Thermostat" != "Management" && "Security" != "Management"
  {
    assert "Lighting"[0] == 'L' && "Thermostat"[0] == 'T' && "Security"[0] == 'S' && "Management"[0] == 'M';
  }

  /** The VLSM table of the program is a valid plan: aligned, pairwise disjoint blocks with distinct
      names. */
  lemma ConfiguredPlanIsValid()
    ensures ValidPlan(GetSubnetConfigurations())
  {
    hide Network, ValidSubnet, ValidPlan;
    Pow2Values();
    ConfiguredSubnets();
    ConfiguredNames();
    PlanOfFour(GetSubnetConfigurations());
  }

  lemma ValidIsUsable(cfg: SubnetInfo)
    requires ValidSubnet(cfg)
    ensures SoundInfo(cfg) && Readable(cfg.networkAddress)
  {
    hide Readable, SoundInfo;
  }

  lemma HomeBlock(cfg: SubnetInfo, ip: uint32)
    requires ValidSubnet(cfg) && 0xC0A8_0100 <= Network(cfg) && Network(cfg) + BlockSize(cfg.cidr) <= 0xC0A8_0200
    requires Covers(cfg, ip)
    ensures SameBlock(ip, 0xC0A8_0100, 24)
  {
    hide Readable, Address, SoundInfo, ValidSubnet, Covers, SameBlock, Network, Pow2;
    assert Pow2(8) == 256 by {
      Pow2Values();
    }
    CoversIsInterval(cfg, ip);
    MembershipIsInterval(ip, 0xC0A8_0100, 24);
  }

  /** Every subnet of the table lies inside 192.168.1.0/24. */
  lemma ConfiguredBlocksAreHome(i: nat, ip: uint32)
    requires i < |GetSubnetConfigurations()|
    ensures ValidSubnet(GetSubnetConfigurations()[i])
    ensures Covers(GetSubnetConfigurations()[i], ip) ==> SameBlock(ip, 0xC0A8_0100, 24)
  {
    hide Readable, Address, SoundInfo, ValidSubnet, Covers, SameBlock, Network, Pow2;
    var plan := GetSubnetConfigurations();
    Pow2Values();
    ConfiguredSubnets();
    ValidIsUsable(plan[i]);
    if Covers(plan[i], ip) {
      HomeBlock(plan[i], ip);
    }
  }

  lemma MaskTextIs(cidr: int, last: nat)
    requires 24 <= cidr <= 32 && last < 256 && BlockSize(cidr) == 256 - last
    ensures CidrToMask(cidr) == QuadText(255, 255, 255, last)
  {
    hide Octet, QuadText, MaskWord, BlockSize;
    MaskOfPrefix(cidr);
    var m := MaskWord(cidr);
    OctetsOf(m);
    QuadInjective(255, 255, 255, last, Octet(m, 24), Octet(m, 16), Octet(m, 8), Octet(m, 0));
  }

  /** The mask text of every subnet of the table is the one its prefix length gives, and its hosts are
      all addresses of the block but the first and the last. */
  lemma ConfiguredMasksFit(i: nat)
    requires i < |GetSubnetConfigurations()|
    ensures var cfg := GetSubnetConfigurations()[i];
            && 0 <= cfg.cidr <= 32 && cfg.subnetMask == CidrToMask(cfg.cidr)
            && cfg.maxHosts == BlockSize(cfg.cidr) - 2
  {
    hide CidrToMask;
    Pow2Values();
    MaskTextIs(26, 192);
    MaskTextIs(27, 224);
    MaskTextIs(28, 240);
    MaskTexts();
  }

  lemma LastMaskOctet(last: nat, text: string)
    requires Decimal(255) == "255" && Decimal(last) == text
    ensures QuadText(255, 255, 255, last) == "255.255.255." + text
  {
    hide Decimal;
    assert "255" + "." + "255" + "." + "255" + "." == "255.255.255.";
  }

  lemma MaskTexts()
    ensures QuadText(255, 255, 255, 192) == "255.255.255.192"
    ensures QuadText(255, 255, 255, 224) == "255.255.255.224"
    ensures QuadText(255, 255, 255, 240) == "255.255.255.240"
  {
    hide Decimal, QuadText;
    MaskOctets();
    LastMaskOctet(192, "192");
    LastMaskOctet(224, "224");
    LastMaskOctet(240, "240");
  }

  lemma MaskOctets()
    ensures Decimal(255) == "255" && Decimal(192) == "192" && Decimal(224) == "224" && Decimal(240) == "240"
  {
  }
}
