/** The server from start-up through a whole client session: `Server::start` up to the socket, the
    message loop of `ClientHandler::handle`, and the requests that end the server. */
module Sessions {
  import opened Text
  import opened Bits
  import opened NetworkConfig
  import opened Addressing
  import opened Subnets
  import opened Plans
  import opened AllocationRuns
  import opened NetworkAgreement
  import opened Routing
  import opened Arp
  import opened ArpRuns
  import opened Devices
  import opened Commands
  import opened CommandRuns
  import opened SmartHome
  import opened NetworkReplies

  // ---------- start-up ----------

  lemma ConfiguredHost(cfg: SubnetInfo, net: nat, host: nat, text: string, ip: string)
    requires ValidSubnet(cfg) && Network(cfg) == 0xC0A8_0100 + net && net + host < 256
    requires text == Decimal(net + host) && ip == "192.168.1." + text
    ensures HostText(cfg, host) == ip
  {
    hide Uint32ToIp, Readable, Address, BlockSize, Decimal;
    var d := LastOctetText(0xC0A8_0100 + net + host);
  }

  lemma PlanEntry(st: SubnetState, plan: seq<SubnetInfo>, i: nat)
    requires ValidPlan(plan) && HoldsPlan(st, plan) && i < |plan|
    ensures plan[i].name in st.subnets && st.subnets[plan[i].name] == plan[i] && Readable(plan[i].networkAddress)
    ensures plan[i].name in st.nextHost
  {
    hide Readable, SoundInfo, Apart;
  }

  lemma HoldsPlanStays(st: SubnetState, st': SubnetState, plan: seq<SubnetInfo>)
    requires HoldsPlan(st, plan) && Consistent(st') && st'.subnets == st.subnets
    ensures HoldsPlan(st', plan)
  {
    hide SoundInfo;
  }

  /** One allocation in a table that holds a plan. */
  lemma AllocateOne(st: SubnetState, plan: seq<SubnetInfo>, i: nat, host: int)
    requires ValidPlan(plan) && HoldsPlan(st, plan) && Consistent(st) && i < |plan|
    requires st.nextHost[plan[i].name] == host <= plan[i].maxHosts
    ensures var (st', a) := Allocate(st, plan[i].name);
            && a == Issued(HostText(plan[i], host))
            && HoldsPlan(st', plan) && Consistent(st')
            && st'.nextHost == st.nextHost[plan[i].name := host + 1]
  {
    hide Readable, Address, HostText, Allocate, HoldsPlan, ValidPlan, Consistent;
    PlanEntry(st, plan, i);
    AllocateInPlan(st, plan[i]);
    HoldsPlanStays(st, Allocate(st, plan[i].name).0, plan);
  }

  /** Right after the configured network is initialised the devices get the second and third host of
      the lighting subnet and the second of the thermostat and security subnets. */
  lemma ConfiguredDeviceAddresses(st: SubnetState)
    requires IsFresh(st, GetSubnetConfigurations()) && Consistent(st)
    ensures DeviceAddresses(st).1 == ["192.168.1.2", "192.168.1.3", "192.168.1.66", "192.168.1.98"]
  {
    hide Readable, Address, Allocate, Consistent, HostText, Network, ValidPlan, HoldsPlan, ValidSubnet;
    var plan := GetSubnetConfigurations();
    ConfiguredPlanIsValid();
    ConfiguredSubnets();
    ConfiguredNames();
    ConfiguredHost(plan[0], 0, 2, "2", "192.168.1.2");
    ConfiguredHost(plan[0], 0, 3, "3", "192.168.1.3");
    ConfiguredHost(plan[1], 64, 2, "66", "192.168.1.66");
    ConfiguredHost(plan[2], 96, 2, "98", "192.168.1.98");
    AllocateOne(st, plan, 0, 2);
    var s1 := Allocate(st, "Lighting").0;
    AllocateOne(s1, plan, 0, 3);
    var s2 := Allocate(s1, "Lighting").0;
    AllocateOne(s2, plan, 1, 2);
    var s3 := Allocate(s2, "Thermostat").0;
    AllocateOne(s3, plan, 2, 2);
  }

  lemma PlanSubnets(plan: seq<SubnetInfo>)
    requires ValidPlan(plan)
    ensures forall i :: 0 <= i < |plan| ==> ValidSubnet(plan[i]) && SoundInfo(plan[i])
  {
  }

  /** The default route of a started server. */
  predicate IsManagementRoute(r: RouteEntry) {
    r.destination == "0.0.0.0" && r.cidr == 0 && r.gateway == "192.168.1.1" && r.interfaceName == "Management"
  }

  lemma ManagementRoute(before: RouteEntry, after: RouteEntry)
    requires before == RouteEntry("0.0.0.0", 0, "0.0.0.0", "0.0.0.0", "default", 0)
    requires after == before.(gateway := "192.168.1.1", interfaceName := "Management")
    ensures IsManagementRoute(after)
  {
  }

  /** A server started on the configured plan has four new devices at four different addresses, each
      with its generated hardware address, and a network whose routing table and subnet table hold the
      same plan. */
  method StartUp(lib: Library, now: int) returns (server: Server, ghost places: seq<Place>)
    ensures fresh(server) && server.Valid() && server.lib == lib
    ensures |places| == 4 && server.State() == Installed(NO_DEVICES, places)
    ensures places[0].ip == "192.168.1.2" && places[1].ip == "192.168.1.3"
    ensures places[2].ip == "192.168.1.66" && places[3].ip == "192.168.1.98"
    ensures forall i :: 0 <= i < 4 ==> IsGenerated(places[i])
    ensures Faithful(server.arpTable.table)
    ensures NetworkIsUp(server.subnetManager.State(), server.routingTable.routes)
    ensures IsManagementRoute(server.routingTable.defaultRoute)
  {
    hide IsManagementRoute, SoundInfo, Consistent, DeviceAddresses, IsGenerated, NetworkIsUp, IsFresh, Installed;
    server := NetworkOnly(lib);
    ghost var st := server.subnetManager.State();
    ConfiguredDeviceAddresses(st);
    NetworkStaysUp(st, server.routingTable.routes);
    var ok;
    ok, places := server.InitializeDevices(now);
  }

  /** The subnet table holds the configured plan and the routing table one or more copies of its
      routes, and nothing else. */
  ghost predicate NetworkIsUp(st: SubnetState, routes: seq<RouteEntry>) {
    && ValidPlan(GetSubnetConfigurations())
    && HoldsPlan(st, GetSubnetConfigurations())
    && RoutesOfPlan(routes, GetSubnetConfigurations())
  }

  lemma NetworkStaysUp(st: SubnetState, routes: seq<RouteEntry>)
    requires Consistent(st) && NetworkIsUp(st, routes)
    ensures NetworkIsUp(DeviceAddresses(st).0, routes)
  {
    hide ValidPlan, SoundInfo, RoutesOfPlan, GetSubnetConfigurations, DeviceAddresses;
    DeviceAddressesKeepSubnets(st);
  }

  method NetworkOnly(lib: Library) returns (server: Server)
    ensures fresh(server) && fresh(server.subnetManager) && fresh(server.routingTable) && fresh(server.arpTable)
    ensures server.Valid() && server.lib == lib
    ensures server.State() == NO_DEVICES && server.arpTable.table == map[]
    ensures IsFresh(server.subnetManager.State(), GetSubnetConfigurations())
    ensures NetworkIsUp(server.subnetManager.State(), server.routingTable.routes)
    ensures IsManagementRoute(server.routingTable.defaultRoute)
  {
    hide IsManagementRoute, ValidPlan, SoundInfo, Consistent, Initialize, RouteTo, PlanRoutes, IsFresh, NetworkIsUp,
         GetSubnetConfigurations;
    var plan := GetSubnetConfigurations();
    ConfiguredPlanIsValid();
    PlanSubnets(plan);
    server := new Server(plan, lib);
    ghost var before := server.routingTable.defaultRoute;
    server.InitializeNetwork();
    ManagementRoute(before, server.routingTable.defaultRoute);
    NetworkComesUp(server.subnetManager.State(), server.routingTable.routes);
  }

  lemma NetworkComesUp(st: SubnetState, routes: seq<RouteEntry>)
    requires forall cfg :: cfg in GetSubnetConfigurations() ==> 0 <= cfg.cidr <= 32
    requires st == Initialize(EMPTY, GetSubnetConfigurations()) && routes == [] + PlanRoutes(GetSubnetConfigurations())
    ensures IsFresh(st, GetSubnetConfigurations()) && NetworkIsUp(st, routes)
  {
    hide ValidPlan, SoundInfo, Initialize, RoutesOfPlan, RouteTo, GetSubnetConfigurations;
    ConfiguredPlanIsValid();
    InitializeResets(EMPTY, GetSubnetConfigurations());
    FirstInitialisation(GetSubnetConfigurations());
    assert routes == PlanRoutes(GetSubnetConfigurations());
  }

  lemma DeviceAddressesKeepSubnets(st: SubnetState)
    requires Consistent(st)
    ensures Consistent(DeviceAddresses(st).0) && DeviceAddresses(st).0.subnets == st.subnets
  {
    hide Allocate, Consistent;
  }

  /** The four hardware addresses differ. */
  lemma DeviceMacsDiffer(x: nat, y: nat)
    requires x in {2, 3, 66, 98} && y in {2, 3, 66, 98} && x != y
    ensures Ascii("192.168.1." + Decimal(x)) && Ascii("192.168.1." + Decimal(y))
    ensures MacOf("192.168.1." + Decimal(x)) != MacOf("192.168.1." + Decimal(y))
  {
    hide MacOf, Ascii, Decimal, Uint32ToIp;
    var s := LastOctetText(0xC0A8_0100 + x);
    var t := LastOctetText(0xC0A8_0100 + y);
    ConfiguredNetworkHasDistinctMacs(0xC0A8_0100 + x, 0xC0A8_0100 + y);
  }

  // ---------- one client's session ----------

  /** A request answered in the protocol's own format gets the answer the abstract machine gives in the
      state all earlier requests of the session lead to. */
  ghost predicate Answered(h: House, messages: seq<string>, i: nat, reply: string, lib: Library)
    requires i < |messages|
  {
    var c := Decode(messages[i], lib);
    !c.Ping? && !c.ArpQuery? ==> reply == Wire(AnswerTo(Run(h, DecodeAll(messages[..i], lib)), c, lib))
  }

  lemma OneMoreMessage(h: House, messages: seq<string>, n: nat, lib: Library)
    requires n < |messages|
    ensures Run(h, DecodeAll(messages[..n + 1], lib))
            == Apply(Run(h, DecodeAll(messages[..n], lib)), Decode(messages[n], lib))
  {
    hide Apply, Decode;
    var cmds := DecodeAll(messages[..n + 1], lib);
    assert cmds[..n] == DecodeAll(messages[..n], lib);
    assert cmds[n] == Decode(messages[n], lib);
  }

  lemma AnswerFits(h: House, messages: seq<string>, n: nat, now: House, reply: string, lib: Library)
    requires n < |messages| && now == Run(h, DecodeAll(messages[..n], lib))
    requires var c := Decode(messages[n], lib); !c.Ping? && !c.ArpQuery? ==> reply == Wire(AnswerTo(now, c, lib))
    ensures Answered(h, messages, n, reply, lib)
  {
    hide Decode, AnswerTo, Wire, Run, DecodeAll;
  }

  /** Why the message loop of a client ends. No caller of the loop catches exceptions, so one that
      leaves it leaves a thread of the pool and ends the server. */
  datatype Ending = Disconnected | SendFailed | ServerTerminated

  /** Message `t` is the first fatal one, and the loop gets to it. */
  ghost predicate FatalAt(messages: seq<string>, sent: seq<bool>, t: int, lib: Library)
    requires |messages| == |sent|
  {
    && 0 <= t < |messages| && messages[t] != "" && Fatal(messages[t], lib)
    && forall i :: 0 <= i < t ==> messages[i] != "" && sent[i] && !Fatal(messages[i], lib)
  }

  /** What a client has seen so far. Every message got a reply that went out, except perhaps the last,
      and a protocol request the abstract machine's answer. If the network is up none of the messages
      was fatal, and if the ARP cache is faithful besides, every PING and ARP reply is truthful. */
  ghost predicate Transcript(start: House, messages: seq<string>, sent: seq<bool>, icmp: seq<string>,
                             replies: seq<string>, defaultRoute: RouteEntry, up: bool, faithful: bool, lib: Library)
    requires |messages| == |sent| == |icmp|
  {
    && |replies| <= |messages|
    && (forall i :: 0 <= i < |replies| ==> messages[i] != "" && Answered(start, messages, i, replies[i], lib))
    && (forall i :: 0 <= i < |replies| - 1 ==> sent[i])
    && (up ==> forall i :: 0 <= i < |replies| ==> !Fatal(messages[i], lib))
    && (up && faithful ==>
          && ValidPlan(GetSubnetConfigurations())
          && forall i :: 0 <= i < |replies| ==> Truthful(messages[i], defaultRoute, icmp[i], replies[i], lib))
  }

  lemma NothingSeen(start: House, messages: seq<string>, sent: seq<bool>, icmp: seq<string>,
                    defaultRoute: RouteEntry, up: bool, faithful: bool, lib: Library)
    requires |messages| == |sent| == |icmp| && (up ==> ValidPlan(GetSubnetConfigurations()))
    ensures Transcript(start, messages, sent, icmp, [], defaultRoute, up, faithful, lib)
  {
    hide ValidPlan, GetSubnetConfigurations;
  }

  lemma OneMoreReply(start: House, messages: seq<string>, sent: seq<bool>, icmp: seq<string>, replies: seq<string>,
                     defaultRoute: RouteEntry, up: bool, faithful: bool, lib: Library, reply: string)
    requires |messages| == |sent| == |icmp| && |replies| < |messages|
    requires Transcript(start, messages, sent, icmp, replies, defaultRoute, up, faithful, lib)
    requires replies != [] ==> sent[|replies| - 1]
    requires messages[|replies|] != "" && Answered(start, messages, |replies|, reply, lib)
    requires up ==> !Fatal(messages[|replies|], lib)
    requires up ==> ValidPlan(GetSubnetConfigurations())
    requires up && faithful ==> Truthful(messages[|replies|], defaultRoute, icmp[|replies|], reply, lib)
    ensures Transcript(start, messages, sent, icmp, replies + [reply], defaultRoute, up, faithful, lib)
  {
    hide ValidPlan, GetSubnetConfigurations, Answered, Fatal, Truthful;
  }

  /** The first fatal message is where a server whose network is up ends. */
  lemma EndIsDecided(start: House, messages: seq<string>, sent: seq<bool>, icmp: seq<string>, replies: seq<string>,
                     defaultRoute: RouteEntry, faithful: bool, lib: Library, ending: Ending)
    requires |messages| == |sent| == |icmp|
    requires Transcript(start, messages, sent, icmp, replies, defaultRoute, true, faithful, lib)
    requires var n := |replies|;
             match ending
             case Disconnected => (n == |messages| || messages[n] == "") && (n > 0 ==> sent[n - 1])
             case SendFailed => n > 0 && !sent[n - 1]
             case ServerTerminated =>
               n < |messages| && messages[n] != "" && Fatal(messages[n], lib) && (n > 0 ==> sent[n - 1])
    ensures ending == ServerTerminated <==> exists t :: FatalAt(messages, sent, t, lib)
  {
    hide ValidPlan, GetSubnetConfigurations, Answered, Fatal, Truthful;
    if ending == ServerTerminated {
      assert FatalAt(messages, sent, |replies|, lib);
    }
  }

  /** One request. If the network is up it throws exactly if it is fatal, and a PING or ARP reply from a
      faithful cache is truthful. */
  method ServeOne(server: Server, message: string, icmp: string, now: int) returns (response: Option<string>)
    requires server.Valid() && Servable(message, server.lib)
    modifies server.light, server.thermostat, server.camera, server.arpTable
    ensures server.Valid()
    ensures server.State() == Apply(old(server.State()), Decode(message, server.lib))
    ensures var c := Decode(message, server.lib);
            !c.Ping? && !c.ArpQuery? ==> response == Some(Wire(AnswerTo(old(server.State()), c, server.lib)))
    ensures NetworkIsUp(server.subnetManager.State(), server.routingTable.routes) ==>
              && (response.None? <==> Fatal(message, server.lib))
              && (Faithful(old(server.arpTable.table)) ==>
                    && Faithful(server.arpTable.table)
                    && (response.Some? ==> Truthful(message, server.routingTable.defaultRoute, icmp, response.value,
                                                    server.lib)))
  {
    hide Decode, Apply, AnswerTo, Wire, Shaped, Ascii, Consistent, SoundInfo, PingReply, ArpReply, Requested, Readable,
         RoutesOfPlan, HoldsPlan, ValidPlan, GetSubnetConfigurations, Faithful, RouteOf, InSubnet, RouteInfo, ArpInfo;
    ghost var table := server.arpTable.table;
    ghost var st, routes := server.subnetManager.State(), server.routingTable.routes;
    ghost var defaultRoute := server.routingTable.defaultRoute;
    response := server.ProcessCommand(message, icmp, now);
    if NetworkIsUp(st, routes) {
      match Decode(message, server.lib) {
        case Ping(ip) => PingIsTruthful(message, ip, routes, defaultRoute, icmp, server.lib);
        case ArpQuery(ip) => ArpIsTruthful(message, ip, table, st, defaultRoute, icmp, now, server.lib);
        case _ =>
      }
    }
  }

  /** The message loop. `messages` is what the socket delivers before it closes, `sent` whether each
      reply goes out, `icmp` and `now` what the simulated ping prints and the clock says at each message.
      `n` messages are processed; each gets a reply, except one that terminates the server. On a started
      server that happens exactly if the loop gets to a fatal message. The devices are where the abstract
      machine is after the processed messages. */
  method HandleClient(server: Server, messages: seq<string>, sent: seq<bool>, icmp: seq<string>, now: seq<int>)
    returns (replies: seq<string>, n: nat, ending: Ending)
    requires server.Valid() && |messages| == |sent| == |icmp| == |now|
    requires forall m :: m in messages ==> Servable(m, server.lib)
    modifies server.light, server.thermostat, server.camera, server.arpTable
    ensures server.Valid()
    ensures n == |replies| + (if ending == ServerTerminated then 1 else 0) <= |messages|
    ensures server.State() == Run(old(server.State()), DecodeAll(messages[..n], server.lib))
    ensures Transcript(old(server.State()), messages, sent, icmp, replies, server.routingTable.defaultRoute,
                       NetworkIsUp(server.subnetManager.State(), server.routingTable.routes),
                       Faithful(old(server.arpTable.table)), server.lib)
    ensures ending == Disconnected ==> (n == |messages| || messages[n] == "") && (n > 0 ==> sent[n - 1])
    ensures ending == SendFailed ==> n > 0 && !sent[n - 1]
    ensures ending == ServerTerminated ==>
              && messages[n - 1] != "" && (n > 1 ==> sent[n - 2])
              && (Decode(messages[n - 1], server.lib).Ping? || Decode(messages[n - 1], server.lib).ArpQuery?)
    ensures NetworkIsUp(server.subnetManager.State(), server.routingTable.routes) ==>
              && (ending == ServerTerminated <==> exists t :: FatalAt(messages, sent, t, server.lib))
              && (Faithful(old(server.arpTable.table)) ==> Faithful(server.arpTable.table))
  {
    hide Decode, Apply, AnswerTo, Wire, Shaped, Ascii, Consistent, SoundInfo, Run, Servable, Faithful,
         Truthful, Fatal, FatalAt, Answered, DecodeAll, ValidPlan, GetSubnetConfigurations, Transcript,
         NetworkIsUp, Server.State, Server.Valid, SubnetManager.State;
    replies, n := [], 0;
    ghost var start, lib, d := server.State(), server.lib, server.routingTable.defaultRoute;
    ghost var up := NetworkIsUp(server.subnetManager.State(), server.routingTable.routes);
    ghost var faithful := Faithful(server.arpTable.table);
    UpMeansValid(server.subnetManager.State(), server.routingTable.routes);
    NothingRun(start, DecodeAll(messages[..0], lib));
    NothingSeen(start, messages, sent, icmp, d, up, faithful, lib);
    while n < |messages| && messages[n] != ""
      invariant |replies| == n <= |messages| && server.Valid()
      invariant server.State() == Run(start, DecodeAll(messages[..n], lib))
      invariant Transcript(start, messages, sent, icmp, replies, d, up, faithful, lib)
      invariant n > 0 ==> sent[n - 1]
      invariant up && faithful ==> Faithful(server.arpTable.table)
      decreases |messages| - n
    {
      OneMoreMessage(start, messages, n, lib);
      assert messages[n] in messages;
      ghost var before := server.State();
      var response := ServeOne(server, messages[n], icmp[n], now[n]);
      n := n + 1;
      if response.None? {
        ending := ServerTerminated;
        if up {
          EndIsDecided(start, messages, sent, icmp, replies, d, faithful, lib, ending);
        }
        return;
      }
      AnswerFits(start, messages, n - 1, before, response.value, lib);
      OneMoreReply(start, messages, sent, icmp, replies, d, up, faithful, lib, response.value);
      replies := replies + [response.value];
      if !sent[n - 1] {
        ending := SendFailed;
        if up {
          EndIsDecided(start, messages, sent, icmp, replies, d, faithful, lib, ending);
        }
        return;
      }
    }
    ending := Disconnected;
    if up {
      EndIsDecided(start, messages, sent, icmp, replies, d, faithful, lib, ending);
    }
  }

  lemma UpMeansValid(st: SubnetState, routes: seq<RouteEntry>)
    ensures NetworkIsUp(st, routes) ==> ValidPlan(GetSubnetConfigurations())
  {
    hide ValidPlan, GetSubnetConfigurations, HoldsPlan, RoutesOfPlan;
  }

  lemma NothingRun(h: House, cmds: seq<Command>)
    requires cmds == []
    ensures Run(h, cmds) == h
  {
  }
}
