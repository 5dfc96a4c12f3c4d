/** What PING and ARP requests answer on a started server, and exactly which of them throw. */
module NetworkReplies {
  import opened Text
  import opened OrderedKeys
  import opened Bits
  import opened NetworkConfig
  import opened Addressing
  import opened Routing
  import opened Subnets
  import opened Plans
  import opened NetworkAgreement
  import opened Arp
  import opened ArpRuns
  import opened Protocol
  import opened Commands
  import opened SmartHome

  // ---------- the requests that throw ----------

  /** A search in a table that is not empty throws exactly for a text that is no address. */
  lemma FindFailsExactly(st: SubnetState, plan: seq<SubnetInfo>, ip: string)
    requires ValidPlan(plan) && HoldsPlan(st, plan) && Consistent(st) && plan != [] && Shaped(ip)
    ensures Find(st, ip).None? <==> !Readable(ip)
  {
    hide AddressOf, Shaped, SoundInfo, Covers, ValidPlan, Keys;
    var names := Keys(st.subnets.Keys);
    assert plan[0].name in names;
    if Readable(ip) {
      FindInPlan(st, plan, names, ip);
    }
  }

  /** Exactly which ARP requests make an exception leave `processCommand`. */
  lemma ArpFailsExactly(table: Table, st: SubnetState, plan: seq<SubnetInfo>, ip: string, now: int)
    requires ValidPlan(plan) && HoldsPlan(st, plan) && Consistent(st) && plan != [] && Shaped(ip) && Ascii(ip)
    ensures ArpReply(table, st, ip, now).None? <==> !Readable(ip)
  {
    hide Readable, Shaped, SoundInfo, Find, ValidPlan, HoldsPlan, Consistent, Ascii, MacOf;
    FindFailsExactly(st, plan, ip);
  }

  /** Exactly which PING requests do. */
  lemma PingFailsExactly(routes: seq<RouteEntry>, defaultRoute: RouteEntry, plan: seq<SubnetInfo>, ip: string,
                         icmp: string)
    requires ValidPlan(plan) && RoutesOfPlan(routes, plan)
    ensures PingReply(routes, defaultRoute, ip, icmp).None? <==> !Readable(ip)
  {
    hide Readable, ValidPlan, RoutesOfPlan, Lookup;
    PlanRoutesUsable(routes, plan);
  }

  /** The request is a PING or ARP command whose target is no address. */
  predicate Fatal(raw: string, lib: Library) {
    match Decode(raw, lib)
    case Ping(ip) => !Readable(ip)
    case ArpQuery(ip) => !Readable(ip)
    case _ => false
  }

  /** A text that starts like a PING or ARP command, in capitals or in small letters, is one; what
      follows its first blank is the target, without the blanks and line ends behind it. */
  lemma NetworkTexts(word: string, target: string, trail: string, lib: Library)
    requires word in {"PING", "ping", "ARP", "arp"}
    requires target == "" || !LineEndOrBlank(target[|target| - 1])
    requires forall i :: 0 <= i < |trail| ==> LineEndOrBlank(trail[i])
    ensures Decode(word, lib) == if word in {"PING", "ping"} then PingUsage else ArpUsage
    ensures Decode(word + " " + target + trail, lib)
            == if word in {"PING", "ping"} then Ping(target) else ArpQuery(target)
  {
    hide Segments, Parse, DecodeSegments, Target;
    var raw := word + " " + target + trail;
    WordStarts(word, " " + target + trail);
    WordStarts(word, "");
    assert word + "" == word && raw == word + (" " + target + trail);
    TargetText(word, target, trail);
  }

  lemma WordStarts(word: string, rest: string)
    requires word in {"PING", "ping", "ARP", "arp"}
    ensures ' ' !in word
    ensures IsPing(word + rest) <==> word in {"PING", "ping"}
    ensures IsArp(word + rest) <==> word in {"ARP", "arp"}
  {
    var raw := word + rest;
    assert raw[0] == word[0];
    assert "PING"[0] == 'P' && "ping"[0] == 'p' && "ARP"[0] == 'A' && "arp"[0] == 'a';
    assert raw[..|word|] == word;
  }

  lemma TargetText(word: string, target: string, trail: string)
    requires ' ' !in word
    requires target == "" || !LineEndOrBlank(target[|target| - 1])
    requires forall i :: 0 <= i < |trail| ==> LineEndOrBlank(trail[i])
    ensures ' ' in word + " " + target + trail && Target(word + " " + target + trail) == target
  {
    hide TrimTail;
    var raw := word + " " + target + trail;
    assert raw[|word|] == ' ' && raw[..|word|] == word;
    IndexOfUnique(raw, ' ', |word|);
    assert raw[|word| + 1..] == target + trail;
    TrimTailUnique(target, trail);
  }

  lemma TrimOne(s: string)
    requires s != ""
    ensures TrimTail(s) == if LineEndOrBlank(s[|s| - 1]) then TrimTail(s[..|s| - 1]) else s
  {
  }

  lemma TrimNothing()
    ensures TrimTail("") == ""
  {
  }

  lemma {:induction false} TrimTailUnique(target: string, trail: string)
    requires target == "" || !LineEndOrBlank(target[|target| - 1])
    requires forall i :: 0 <= i < |trail| ==> LineEndOrBlank(trail[i])
    ensures TrimTail(target + trail) == target
  {
    hide TrimTail, LineEndOrBlank;
    var s := target + trail;
    if s == "" {
      TrimNothing();
    } else {
      TrimOne(s);
      if trail == "" {
        assert s == target;
      } else {
        var n := |trail| - 1;
        assert s[|s| - 1] == trail[n] && s[..|s| - 1] == target + trail[..n];
        TrimTailUnique(target, trail[..n]);
      }
    }
  }

  lemma FatalText(word: string, lib: Library)
    requires word in {"PING", "ping", "ARP", "arp"}
    ensures Servable(word + " x", lib) && Fatal(word + " x", lib)
  {
    hide Decode, Readable, Shaped, Ascii;
    NetworkTexts(word, "x", "", lib);
    assert word + " " + "x" + "" == word + " x";
    LetterIsNoAddress();
  }

  /** Requests whose target is no address exist. */
  lemma FatalRequests(lib: Library)
    ensures Servable("PING x", lib) && Fatal("PING x", lib) && Servable("ping x", lib) && Fatal("ping x", lib)
    ensures Servable("ARP x", lib) && Fatal("ARP x", lib) && Servable("arp x", lib) && Fatal("arp x", lib)
  {
    hide Servable, Fatal;
    FatalText("PING", lib);
    FatalText("ping", lib);
    FatalText("ARP", lib);
    FatalText("arp", lib);
    assert "PING" + " x" == "PING x" && "ping" + " x" == "ping x" && "ARP" + " x" == "ARP x" && "arp" + " x" == "arp x";
  }

  lemma LetterIsNoAddress()
    ensures Shaped("x") && Ascii("x") && !Readable("x")
  {
    PiecesLast("x", '.');
    assert Stoi("x") == None;
  }

  // ---------- answers from the network ----------

  /** What `findSubnet` should say: the subnet that contains the address, or "Unknown". */
  ghost predicate InSubnet(plan: seq<SubnetInfo>, ip: string, name: string)
    requires ValidPlan(plan) && Readable(ip)
  {
    || (exists i :: 0 <= i < |plan| && plan[i].name == name && Covers(plan[i], Address(ip)))
    || (name == "Unknown" && forall i :: 0 <= i < |plan| ==> !Covers(plan[i], Address(ip)))
  }

  /** What `lookupRoute` should return: the route of the subnet that contains the address, or the
      default route. */
  ghost predicate RouteOf(plan: seq<SubnetInfo>, defaultRoute: RouteEntry, ip: string, route: RouteEntry)
    requires ValidPlan(plan) && Readable(ip)
  {
    || (exists i :: 0 <= i < |plan| && route == RouteTo(plan[i]) && Covers(plan[i], Address(ip)))
    || (route == defaultRoute && forall i :: 0 <= i < |plan| ==> !Covers(plan[i], Address(ip)))
  }

  lemma SubnetFound(st: SubnetState, plan: seq<SubnetInfo>, ip: string)
    requires ValidPlan(plan) && HoldsPlan(st, plan) && Consistent(st) && Readable(ip)
    ensures exists name :: Find(st, ip) == Some(name) && InSubnet(plan, ip, name)
  {
    hide Readable, Address, Covers, Find, HoldsPlan, SoundInfo, Network, Apart, Consistent;
    FindIsContainment(st, plan, ip);
    if i :| 0 <= i < |plan| && Covers(plan[i], Address(ip)) {
      assert InSubnet(plan, ip, plan[i].name);
    } else {
      assert InSubnet(plan, ip, "Unknown");
    }
  }

  lemma RouteFound(routes: seq<RouteEntry>, plan: seq<SubnetInfo>, defaultRoute: RouteEntry, ip: string)
    requires ValidPlan(plan) && RoutesOfPlan(routes, plan) && Readable(ip)
    ensures AllUsable(routes) && RouteOf(plan, defaultRoute, ip, Lookup(routes, defaultRoute, Address(ip)))
  {
    hide Readable, Address, Covers, BestOf, RoutesOfPlan, ValidSubnet, Apart, AllUsable;
    PlanRoutesUsable(routes, plan);
    BestIsContaining(routes, plan, Address(ip));
  }

  /** A reply to PING or ARP that tells the truth about the configured network: the route and the subnet
      of the target's block, and its generated hardware address. */
  ghost predicate Truthful(raw: string, defaultRoute: RouteEntry, icmp: string, reply: string, lib: Library)
    requires ValidPlan(GetSubnetConfigurations())
  {
    match Decode(raw, lib)
    case Ping(ip) =>
      Readable(ip) && exists route :: RouteOf(GetSubnetConfigurations(), defaultRoute, ip, route)
                                      && reply == "Route: via " + route.gateway + " on " + route.interfaceName
                                                  + "\n" + icmp
    case ArpQuery(ip) =>
      Readable(ip) && Ascii(ip) && exists name :: InSubnet(GetSubnetConfigurations(), ip, name)
                                                  && reply == "ARP Resolution:\n  IP: " + ip + "\n  MAC: " + MacOf(ip)
                                                              + "\n  Subnet: " + name
    case _ => true
  }

  lemma PingIsTruthful(raw: string, ip: string, routes: seq<RouteEntry>, defaultRoute: RouteEntry, icmp: string,
                       lib: Library)
    requires ValidPlan(GetSubnetConfigurations()) && RoutesOfPlan(routes, GetSubnetConfigurations())
    requires Decode(raw, lib) == Ping(ip)
    ensures var r := PingReply(routes, defaultRoute, ip, icmp);
            if Fatal(raw, lib) then r.None? else r.Some? && Truthful(raw, defaultRoute, icmp, r.value, lib)
  {
    hide Readable, Address, Decode, RoutesOfPlan, ValidPlan, RouteOf, Lookup, GetSubnetConfigurations;
    PingFailsExactly(routes, defaultRoute, GetSubnetConfigurations(), ip, icmp);
    if Readable(ip) {
      RouteFound(routes, GetSubnetConfigurations(), defaultRoute, ip);
    }
  }

  lemma ConfiguredPlanIsNotEmpty()
    ensures GetSubnetConfigurations() != []
  {
  }

  lemma ArpIsTruthful(raw: string, ip: string, table: Table, st: SubnetState, defaultRoute: RouteEntry, icmp: string,
                      now: int, lib: Library)
    requires ValidPlan(GetSubnetConfigurations()) && HoldsPlan(st, GetSubnetConfigurations()) && Consistent(st)
    requires Decode(raw, lib) == ArpQuery(ip) && Shaped(ip) && Ascii(ip)
    ensures var r := ArpReply(table, st, ip, now);
            if Fatal(raw, lib) then r.None?
            else r.Some? && (Faithful(table) ==> Truthful(raw, defaultRoute, icmp, r.value, lib))
    ensures Faithful(table) ==> Faithful(Requested(table, ip, now).1)
  {
    hide Readable, Address, Decode, HoldsPlan, ValidPlan, InSubnet, Find, GetSubnetConfigurations, Shaped,
         Ascii, MacOf, Faithful, Requested, Consistent;
    ConfiguredPlanIsNotEmpty();
    ArpFailsExactly(table, st, GetSubnetConfigurations(), ip, now);
    RequestKeepsFaith(table, ip, now);
    if Readable(ip) {
      SubnetFound(st, GetSubnetConfigurations(), ip);
    }
  }

  // ---------- two replies in full ----------

  lemma SubnetOf(d: nat, text: string, i: nat, ip: string)
    requires text == Decimal(d) && d < 256 && ip == "192.168.1." + text && i < 4
    requires (i == 0 && d < 64) || (i == 1 && 64 <= d < 96) || (i == 2 && 96 <= d < 128) || (i == 3 && 128 <= d < 144)
    ensures Readable(ip) && ValidSubnet(GetSubnetConfigurations()[i])
    ensures Covers(GetSubnetConfigurations()[i], Address(ip))
  {
    hide Readable, Address, Decimal, ValidSubnet, Network, Covers, Pow2;
    ConfiguredAddress(d, text);
    Pow2Values();
    ConfiguredSubnets();
    CoversIsInterval(GetSubnetConfigurations()[i], Address(ip));
  }

  /** Pinging an address of the thermostat subnet on the configured network. */
  lemma PingReplyText(routes: seq<RouteEntry>, defaultRoute: RouteEntry, icmp: string)
    requires ValidPlan(GetSubnetConfigurations()) && RoutesOfPlan(routes, GetSubnetConfigurations())
    ensures PingReply(routes, defaultRoute, "192.168.1.70", icmp)
            == Some("Route: via 192.168.1.65 on Thermostat\n" + icmp)
  {
    hide Readable, Address, Covers, BestOf, RoutesOfPlan, ValidSubnet, Apart, AllUsable, Decimal, CidrToMask;
    SeventyIs();
    SubnetOf(70, "70", 1, "192.168.1.70");
    PlanRoutesUsable(routes, GetSubnetConfigurations());
    BestIsContaining(routes, GetSubnetConfigurations(), Address("192.168.1.70"));
    RouteLine(RouteTo(GetSubnetConfigurations()[1]));
  }

  lemma SeventyIs()
    ensures Decimal(70) == "70" && Decimal(2) == "2"
    ensures "192.168.1." + "70" == "192.168.1.70" && "192.168.1." + "2" == "192.168.1.2"
  {
  }

  lemma RouteLine(route: RouteEntry)
    requires route.gateway == "192.168.1.65" && route.interfaceName == "Thermostat"
    ensures RouteInfo(route) == "Route: via 192.168.1.65 on Thermostat\n"
  {
  }

  /** Asking for the hardware address of the first device on the configured network. */
  lemma ArpReplyText(table: Table, st: SubnetState, now: int)
    requires ValidPlan(GetSubnetConfigurations()) && HoldsPlan(st, GetSubnetConfigurations()) && Consistent(st)
    requires Faithful(table)
    ensures Shaped("192.168.1.2") && Ascii("192.168.1.2")
    ensures ArpReply(table, st, "192.168.1.2", now)
            == Some("ARP Resolution:\n  IP: " + "192.168.1.2" + "\n  MAC: " + "AA:16:f9:55:03:91"
                    + "\n  Subnet: " + "Lighting")
  {
    hide Readable, Address, Covers, Find, HoldsPlan, ValidSubnet, Apart, Consistent, Decimal, MacOf, Ascii, Faithful,
         Requested, Shaped;
    SeventyIs();
    SubnetOf(2, "2", 0, "192.168.1.2");
    ReadableIsShaped("192.168.1.2");
    FindIsContainment(st, GetSubnetConfigurations(), "192.168.1.2");
    FirstDeviceMac();
    RequestKeepsFaith(table, "192.168.1.2", now);
  }

  lemma ReadableIsShaped(ip: string)
    requires Readable(ip)
    ensures Shaped(ip)
  {
  }
}
