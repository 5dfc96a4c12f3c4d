/** The server object: `src/server/Server.cpp`, without sockets and logging. */
module SmartHome {
  import opened Text
  import opened Bits
  import opened NetworkConfig
  import opened Routing
  import opened Subnets
  import opened Plans
  import opened NetworkAgreement
  import opened Arp
  import opened Protocol
  import opened Devices
  import opened Commands
  import opened CommandRuns

  // ---------- answers to PING and ARP ----------

  function RouteInfo(route: RouteEntry): string {
    "Route: via " + route.gateway + " on " + route.interfaceName + "\n"
  }

  /** The hardware address a request returns and the table it leaves. */
  function Requested(table: Table, ip: string, now: int): (string, Table)
    requires Ascii(ip)
  {
    var cached := Cached(table, ip);
    if cached != "" then (cached, table) else (MacOf(ip), Added(table, ip, MacOf(ip), false, now))
  }

  function ArpInfo(ip: string, mac: string, subnet: string): string {
    "ARP Resolution:\n  IP: " + ip + "\n  MAC: " + mac + "\n  Subnet: " + subnet
  }

  /** What the PING handler answers; `None` when an exception leaves it. */
  function PingReply(routes: seq<RouteEntry>, defaultRoute: RouteEntry, ip: string, icmp: string): Option<string> {
    if !Readable(ip) || !AllUsable(routes) then None
    else Some(RouteInfo(Lookup(routes, defaultRoute, Address(ip))) + icmp)
  }

  /** What the ARP handler answers; `None` when an exception leaves it. */
  function ArpReply(table: Table, subnets: SubnetState, ip: string, now: int): Option<string>
    requires Consistent(subnets) && Shaped(ip) && Ascii(ip)
  {
    match Find(subnets, ip)
    case None => None
    case Some(subnet) => Some(ArpInfo(ip, Requested(table, ip, now).0, subnet))
  }

  /** A PING or ARP target on which the conversions the handlers make are defined. */
  predicate Servable(raw: string, lib: Library) {
    match Decode(raw, lib)
    case Ping(ip) => Shaped(ip)
    case ArpQuery(ip) => Shaped(ip) && Ascii(ip)
    case _ => true
  }

  lemma HomeNetworkIsReadable()
    ensures Shaped("192.168.1.0") && Readable("192.168.1.0")
  {
    hide AddressOf, Pieces, Shaped;
    assert Decimal(0) == "0";
    assert "192.168.1." + "0" == "192.168.1.0";
    ConfiguredAddress(0, "0");
  }

  method Respond(code: int, body: string) returns (r: string)
    ensures r == Wire(Answer(code, body))
  {
    hide ResponseText;
    r := Serialize(BuildResponse(code, body));
  }

  // ---------- the devices at start-up ----------

  /** The four allocations of `initializeDevices`, one after the other until one is refused: the state
      they leave and the addresses they got. */
  function DeviceAddresses(st: SubnetState): (SubnetState, seq<string>)
    requires Consistent(st)
  {
    hide Consistent;
    var (s1, a1) := Allocate(st, "Lighting");
    if a1.Refused? then (s1, [])
    else
      var (s2, a2) := Allocate(s1, "Lighting");
      if a2.Refused? then (s2, [a1.ip])
      else
        var (s3, a3) := Allocate(s2, "Thermostat");
        if a3.Refused? then (s3, [a1.ip, a2.ip])
        else
          var (s4, a4) := Allocate(s3, "Security");
          if a4.Refused? then (s4, [a1.ip, a2.ip, a3.ip]) else (s4, [a1.ip, a2.ip, a3.ip, a4.ip])
  }

  lemma {:induction false} DecimalIsAscii(n: nat)
    ensures Ascii(Decimal(n))
  {
    assert AllDigits(Decimal(n));
  }

  lemma AddressIsAscii(x: uint32)
    ensures Ascii(Uint32ToIp(x))
  {
    hide Octet, Decimal;
    DecimalIsAscii(Octet(x, 24));
    DecimalIsAscii(Octet(x, 16));
    DecimalIsAscii(Octet(x, 8));
    DecimalIsAscii(Octet(x, 0));
  }

  lemma IssuedIsAscii(st: SubnetState, name: string)
    requires Consistent(st) && Allocate(st, name).1.Issued?
    ensures Ascii(Allocate(st, name).1.ip)
  {
    hide Uint32ToIp, Ascii, Shaped, AddressOf;
    AddressIsAscii((Address(st.subnets[name].networkAddress) + st.nextHost[name]) % TWO32);
  }

  /** Every entry of the table is the generated hardware address. */
  ghost predicate Faithful(table: Table) {
    forall ip :: ip in table ==> Ascii(ip) && table[ip].macAddress == MacOf(ip)
  }

  predicate IsGenerated(place: Place) {
    Ascii(place.ip) && place.mac == MacOf(place.ip)
  }

  lemma RequestKeepsFaith(table: Table, ip: string, now: int)
    requires Ascii(ip)
    ensures Faithful(table) ==> Faithful(Requested(table, ip, now).1) && Requested(table, ip, now).0 == MacOf(ip)
  {
    hide MacOf, Ascii;
  }

  /** What follows the first blank, with the trimming loop of the PING and ARP branches. */
  method TargetOf(raw: string) returns (t: Option<string>)
    ensures t == if ' ' in raw then Some(Target(raw)) else None
  {
    var spacePos := IndexOf(raw, ' ');
    assert raw[..|raw|] == raw;
    if spacePos == |raw| {
      return None;
    }
    var target := raw[spacePos + 1..];
    while target != ""
          && (target[|target| - 1] == '\r' || target[|target| - 1] == '\n' || target[|target| - 1] == ' ')
      invariant TrimTail(target) == Target(raw)
      decreases |target|
    {
      target := target[..|target| - 1];
    }
    return Some(target);
  }

  class Server {
    const lib: Library
    const subnetManager: SubnetManager
    const routingTable: RoutingTable
    const arpTable: ARPTable

    /** The registry: the devices under the keys "light", "light2", "thermostat" and "security". */
    var light: Light?
    var light2: Light?
    var thermostat: Thermostat?
    var camera: SecurityCamera?

    function State(): House
      reads this, light, light2, thermostat, camera
    {
      House(if light == null then None else Some(light.State()),
            if light2 == null then None else Some(light2.State()),
            if thermostat == null then None else Some(thermostat.State()),
            if camera == null then None else Some(camera.State()))
    }

    ghost predicate Valid()
      reads this, subnetManager, routingTable
    {
      && subnetManager.Valid() && routingTable.Valid()
      && (light != null ==> light != light2)
      && forall r :: r in routingTable.routes ==> Shaped(r.destination)
    }

    constructor (plan: seq<SubnetInfo>, lib: Library)
      requires forall cfg :: cfg in plan ==> SoundInfo(cfg)
      ensures Valid() && this.lib == lib && subnetManager.plan == plan
      ensures subnetManager.State() == EMPTY && routingTable.routes == [] && arpTable.table == map[]
      ensures routingTable.defaultRoute == RouteEntry("0.0.0.0", 0, "0.0.0.0", "0.0.0.0", "default", 0)
      ensures State() == NO_DEVICES
      ensures fresh(subnetManager) && fresh(routingTable) && fresh(arpTable)
    {
      this.lib := lib;
      subnetManager := new SubnetManager(plan);
      routingTable := new RoutingTable();
      arpTable := new ARPTable();
      light, light2, thermostat, camera := null, null, null, null;
    }

    /** Fills the subnet table from the plan and adds one route per subnet. */
    method InitializeNetwork()
      requires Valid()
      modifies subnetManager, routingTable
      ensures Valid()
      ensures subnetManager.State() == Initialize(old(subnetManager.State()), subnetManager.plan)
      ensures forall cfg :: cfg in subnetManager.plan ==> 0 <= cfg.cidr <= 32
      ensures routingTable.routes == old(routingTable.routes) + PlanRoutes(subnetManager.plan)
      ensures routingTable.defaultRoute
              == old(routingTable.defaultRoute).(gateway := "192.168.1.1", interfaceName := "Management")
    {
      hide Shaped, Consistent, Initialize, CidrToMask;
      var plan := subnetManager.plan;
      assert forall cfg :: cfg in plan ==> Shaped(cfg.networkAddress) && 0 <= cfg.cidr <= 32;
      subnetManager.InitializeSubnets();
      ghost var state := subnetManager.State();
      var i := 0;
      while i < |plan|
        invariant 0 <= i <= |plan|
        invariant Valid() && subnetManager.State() == state
        invariant routingTable.defaultRoute == old(routingTable.defaultRoute)
        invariant routingTable.routes == old(routingTable.routes) + PlanRoutes(plan)[..i]
      {
        var s := plan[i];
        assert s in plan;
        routingTable.AddRoute(s.networkAddress, s.cidr, s.gateway, s.name);
        assert PlanRoutes(plan)[i] == RouteTo(s);
        assert PlanRoutes(plan)[..i + 1] == PlanRoutes(plan)[..i] + [RouteTo(s)];
        i := i + 1;
      }
      assert PlanRoutes(plan)[..|plan|] == PlanRoutes(plan);
      routingTable.SetDefaultGateway("192.168.1.1", "Management");
    }

    /** An address from a subnet and the hardware address the cache has for it; `None` when the
        allocator refuses. */
    method Provision(subnet: string, now: int) returns (r: Option<Place>)
      requires Valid()
      modifies subnetManager, arpTable
      ensures Valid()
      ensures subnetManager.State() == Allocate(old(subnetManager.State()), subnet).0
      ensures r.None? <==> Allocate(old(subnetManager.State()), subnet).1.Refused?
      ensures r.None? ==> arpTable.table == old(arpTable.table)
      ensures r.Some? ==>
                && Allocate(old(subnetManager.State()), subnet).1 == Issued(r.value.ip)
                && Ascii(r.value.ip)
                && (r.value.mac, arpTable.table) == Requested(old(arpTable.table), r.value.ip, now)
      ensures Faithful(old(arpTable.table)) ==> Faithful(arpTable.table) && (r.Some? ==> IsGenerated(r.value))
    {
      hide Shaped, Ascii, MacOf, Allocate, SoundInfo, Faithful;
      var a := subnetManager.AllocateIP(subnet);
      match a {
        case Refused(_) => return None;
        case Issued(ip) =>
          IssuedIsAscii(old(subnetManager.State()), subnet);
          RequestKeepsFaith(arpTable.table, ip, now);
          var mac := arpTable.ArpRequest(ip, now);
          return Some(Place(ip, mac));
      }
    }

    /** The addresses for the four devices, until an allocation throws. */
    method ProvisionAll(now: int) returns (ps: seq<Place>)
      requires Valid()
      modifies subnetManager, arpTable
      ensures Valid()
      ensures var (st, ips) := DeviceAddresses(old(subnetManager.State()));
              subnetManager.State() == st && |ps| == |ips| <= 4 && forall i :: 0 <= i < |ps| ==> ps[i].ip == ips[i]
      ensures Faithful(old(arpTable.table)) ==>
                Faithful(arpTable.table) && forall i :: 0 <= i < |ps| ==> IsGenerated(ps[i])
    {
      hide Shaped, Ascii, Requested, Allocate, SoundInfo, Consistent, IsGenerated, Faithful;
      var p1 := Provision("Lighting", now);
      if p1.None? {
        return [];
      }
      var p2 := Provision("Lighting", now);
      if p2.None? {
        return [p1.value];
      }
      var p3 := Provision("Thermostat", now);
      if p3.None? {
        return [p1.value, p2.value];
      }
      var p4 := Provision("Security", now);
      if p4.None? {
        return [p1.value, p2.value, p3.value];
      }
      return [p1.value, p2.value, p3.value, p4.value];
    }

    /** Creates the four devices, at `places`; `false` when an allocation throws, which leaves the
        devices created before it in place. */
    method InitializeDevices(now: int) returns (ok: bool, ghost places: seq<Place>)
      requires Valid()
      modifies this, subnetManager, arpTable
      ensures Valid()
      ensures var (st, ips) := DeviceAddresses(old(subnetManager.State()));
              && subnetManager.State() == st
              && |places| == |ips| <= 4 && (forall i :: 0 <= i < |places| ==> places[i].ip == ips[i])
              && (ok <==> |places| == 4)
      ensures State() == Installed(old(State()), places)
      ensures Faithful(old(arpTable.table)) ==>
                Faithful(arpTable.table) && forall i :: 0 <= i < |places| ==> IsGenerated(places[i])
    {
      hide Shaped, DeviceAddresses, SoundInfo, Consistent, IsGenerated, Faithful;
      var ps := ProvisionAll(now);
      Install(ps);
      return |ps| >= 4, ps;
    }

    /** Replaces the registry's entries for the devices that have a place. */
    method Install(ps: seq<Place>)
      requires Valid()
      modifies this
      ensures Valid() && State() == Installed(old(State()), ps)
    {
      hide Shaped, SoundInfo, Consistent;
      if |ps| >= 1 {
        light := new Light(ps[0].ip, ps[0].mac);
      }
      if |ps| >= 2 {
        light2 := new Light(ps[1].ip, ps[1].mac);
      }
      if |ps| >= 3 {
        thermostat := new Thermostat(ps[2].ip, ps[2].mac);
      }
      if |ps| >= 4 {
        camera := new SecurityCamera(ps[3].ip, ps[3].mac);
      }
    }

    method HandleLightCommand(segments: seq<string>) returns (r: string)
      requires light != null ==> light != light2
      modifies light
      ensures r == Wire(AnswerLight(old(State()).light, DecodeLight(segments), lib))
      ensures State() == Apply(old(State()), ToLight(DecodeLight(segments)))
    {
      hide Wire, Stoi, Clamp;
      if light == null {
        r := Respond(500, "Light not found");
        return;
      }
      if |segments| < 2 {
        r := Respond(404, "Usage: /light/<action>");
        return;
      }
      var action := segments[1];
      if action == "status" {
        r := Respond(200, lib.lightText(light.State()));
      } else if action == "on" {
        light.TurnOn();
        r := Respond(200, "Light turned ON");
      } else if action == "off" {
        light.TurnOff();
        r := Respond(200, "Light turned OFF");
      } else if action == "brightness" && |segments| >= 3 {
        var level := Stoi(segments[2]);
        if level.None? {
          r := Respond(500, "Invalid brightness value");
        } else {
          light.SetBrightness(level.value);
          r := Respond(200, "Brightness set to " + IntText(level.value));
        }
      } else {
        r := Respond(404, "Unknown light action: " + action);
      }
    }

    method HandleThermostatCommand(segments: seq<string>) returns (r: string)
      modifies thermostat
      ensures r == Wire(AnswerThermostat(old(State()).thermostat, DecodeThermostat(segments, lib), lib))
      ensures State() == Apply(old(State()), ToThermostat(DecodeThermostat(segments, lib)))
    {
      hide Wire, ClampTemperature;
      if thermostat == null {
        r := Respond(500, "Thermostat not found");
        return;
      }
      if |segments| < 2 {
        r := Respond(404, "Usage: /thermostat/<action>");
        return;
      }
      var action := segments[1];
      if action == "status" {
        r := Respond(200, lib.thermostatText(thermostat.State()));
      } else if action == "set" && |segments| >= 3 {
        var temp := lib.stod(segments[2]);
        if temp.None? {
          r := Respond(500, "Invalid temperature value");
        } else {
          thermostat.SetTargetTemperature(temp.value);
          r := Respond(200, "Temperature set to " + segments[2] + " C");
        }
      } else {
        r := Respond(404, "Unknown thermostat action: " + action);
      }
    }

    method HandleSecurityCommand(segments: seq<string>) returns (r: string)
      modifies camera
      ensures r == Wire(AnswerCamera(old(State()).camera, DecodeCamera(segments), lib))
      ensures State() == Apply(old(State()), ToCamera(DecodeCamera(segments)))
    {
      hide Wire;
      if camera == null {
        r := Respond(500, "Security camera not found");
        return;
      }
      if |segments| < 2 {
        r := Respond(404, "Usage: /security/<action>");
        return;
      }
      var action := segments[1];
      if action == "status" {
        r := Respond(200, lib.cameraText(camera.State()));
      } else if action == "arm" {
        camera.Arm();
        r := Respond(200, "Security camera armed");
      } else if action == "disarm" {
        camera.Disarm();
        r := Respond(200, "Security camera disarmed");
      } else {
        r := Respond(404, "Unknown security action: " + action);
      }
    }

    /** `icmp` is what the simulated ping prints; before it prints, it tests whether the target is in
        192.168.1.0/24, which throws for a text that is no address. */
    method HandlePingCommand(targetIP: string, icmp: string) returns (r: Option<string>)
      requires Valid() && Shaped(targetIP)
      ensures r == PingReply(routingTable.routes, routingTable.defaultRoute, targetIP, icmp)
    {
      hide Shaped, Readable, Address, BestOf, RouteInfo;
      var route := routingTable.LookupRoute(targetIP);
      if route.None? {
        return None;
      }
      HomeNetworkIsReadable();
      var reachable := IsInSubnet(targetIP, "192.168.1.0", 24);
      if reachable.None? {
        return None;
      }
      return Some(RouteInfo(route.value) + icmp);
    }

    method HandleArpCommand(targetIP: string, now: int) returns (r: Option<string>)
      requires Valid() && Shaped(targetIP) && Ascii(targetIP)
      modifies arpTable
      ensures Valid()
      ensures arpTable.table == Requested(old(arpTable.table), targetIP, now).1
      ensures r == ArpReply(old(arpTable.table), subnetManager.State(), targetIP, now)
    {
      hide Shaped, Ascii, MacOf, Find, ArpInfo, Consistent, SoundInfo;
      var mac := arpTable.ArpRequest(targetIP, now);
      var subnet := subnetManager.FindSubnet(targetIP);
      if subnet.None? {
        return None;
      }
      return Some(ArpInfo(targetIP, mac, subnet.value));
    }

    /** `icmp` is what the simulated ping prints if it is asked for, `now` the clock reading. The
        result is `None` when an exception leaves the call. */
    method ProcessCommand(rawRequest: string, icmp: string, now: int) returns (r: Option<string>)
      requires Valid() && Servable(rawRequest, lib)
      modifies light, thermostat, camera, arpTable
      ensures Valid()
      ensures State() == Apply(old(State()), Decode(rawRequest, lib))
      ensures match Decode(rawRequest, lib)
              case Ping(ip) =>
                && arpTable.table == old(arpTable.table)
                && r == PingReply(routingTable.routes, routingTable.defaultRoute, ip, icmp)
              case ArpQuery(ip) =>
                && arpTable.table == Requested(old(arpTable.table), ip, now).1
                && r == ArpReply(old(arpTable.table), subnetManager.State(), ip, now)
              case c =>
                && arpTable.table == old(arpTable.table)
                && r == Some(Wire(AnswerTo(old(State()), c, lib)))
    {
      hide Shaped, Ascii, PingReply, ArpReply, Wire, Requested, Segments, Parse, DecodeSegments, TrimTail, IndexOf,
           AnswerLight, AnswerThermostat, AnswerCamera, ApplyLight, ApplyThermostat, ApplyCamera, Consistent, SoundInfo;
      if "PING" <= rawRequest || "ping" <= rawRequest {
        var targetIP := TargetOf(rawRequest);
        if targetIP.Some? {
          r := HandlePingCommand(targetIP.value, icmp);
        } else {
          var usage := Respond(500, "Usage: PING <ip>");
          r := Some(usage);
        }
      } else if "ARP" <= rawRequest || "arp" <= rawRequest {
        var targetIP := TargetOf(rawRequest);
        if targetIP.Some? {
          r := HandleArpCommand(targetIP.value, now);
        } else {
          var usage := Respond(500, "Usage: ARP <ip>");
          r := Some(usage);
        }
      } else {
        var text := ProcessHttp(rawRequest);
        r := Some(text);
      }
    }

    method ProcessHttp(rawRequest: string) returns (r: string)
      requires Valid() && !IsPing(rawRequest) && !IsArp(rawRequest)
      modifies light, thermostat, camera
      ensures Valid()
      ensures !Decode(rawRequest, lib).Ping? && !Decode(rawRequest, lib).ArpQuery?
      ensures State() == Apply(old(State()), Decode(rawRequest, lib))
      ensures r == Wire(AnswerTo(old(State()), Decode(rawRequest, lib), lib))
    {
      hide Wire, Segments, Parse, DecodeSegments, AnswerTo, Apply, Shaped, Consistent, SoundInfo;
      var req := ParseRequest(rawRequest);
      var segments := GetPathSegments(req.path);
      r := Dispatch(segments);
    }

    /** The part of `processCommand` that looks at the path segments. */
    method Dispatch(segments: seq<string>) returns (r: string)
      requires Valid()
      modifies light, thermostat, camera
      ensures Valid()
      ensures State() == Apply(old(State()), DecodeSegments(segments, lib))
      ensures r == Wire(AnswerTo(old(State()), DecodeSegments(segments, lib), lib))
    {
      hide Wire, DecodeLight, DecodeThermostat, DecodeCamera, AnswerLight, AnswerThermostat, AnswerCamera, Shaped,
           ApplyLight, ApplyThermostat, ApplyCamera, Consistent, SoundInfo;
      if segments == [] {
        r := Respond(404, "No command specified");
        return;
      }
      var resource := segments[0];
      if resource == "light" {
        r := HandleLightCommand(segments);
      } else if resource == "thermostat" {
        r := HandleThermostatCommand(segments);
      } else if resource == "security" {
        r := HandleSecurityCommand(segments);
      } else if resource == "devices" {
        r := Respond(200, lib.listText(State()));
      } else {
        r := Respond(404, "Unknown resource: " + resource);
      }
    }
  }
}
