/** How `Server::initializeNetwork` wires the subnet table to the routing table, and why the two give
    the same answers although one takes the first match and the other the longest. */
module NetworkAgreement {
  import opened Text
  import opened Bits
  import opened NetworkConfig
  import opened Routing
  import opened RouteUpdates
  import opened Subnets
  import opened Plans

  /** The route `initializeNetwork` adds for a subnet. */
  function RouteTo(cfg: SubnetInfo): (r: RouteEntry)
    requires 0 <= cfg.cidr <= 32
    ensures r.destination == cfg.networkAddress && r.cidr == cfg.cidr && r.gateway == cfg.gateway
    ensures r.interfaceName == cfg.name && r.metric == 1
  {
    NewRoute(cfg.networkAddress, cfg.cidr, cfg.gateway, cfg.name, 1)
  }

  function PlanRoutes(plan: seq<SubnetInfo>): (routes: seq<RouteEntry>)
    requires forall cfg :: cfg in plan ==> 0 <= cfg.cidr <= 32
    ensures |routes| == |plan| && forall i :: 0 <= i < |plan| ==> routes[i] == RouteTo(plan[i])
  {
    seq(|plan|, i requires 0 <= i < |plan| => assert plan[i] in plan; RouteTo(plan[i]))
  }

  /** The routing table holds the routes of the plan, each at least once, and no others: the state
      after any positive number of initialisations. */
  ghost predicate RoutesOfPlan(routes: seq<RouteEntry>, plan: seq<SubnetInfo>)
    requires ValidPlan(plan)
  {
    && (forall i :: 0 <= i < |plan| ==> RouteTo(plan[i]) in routes)
    && (forall r :: r in routes ==> exists i :: 0 <= i < |plan| && r == RouteTo(plan[i]))
  }

  lemma PlanRoutesUsable(routes: seq<RouteEntry>, plan: seq<SubnetInfo>)
    requires ValidPlan(plan) && RoutesOfPlan(routes, plan)
    ensures AllUsable(routes)
  {
    hide Readable, Address, Apart, CidrToMask;
    forall k | 0 <= k < |routes| ensures Usable(routes[k]) {
      assert routes[k] in routes;
      var i :| 0 <= i < |plan| && routes[k] == RouteTo(plan[i]);
    }
  }

  /** The best match is the route of the subnet that contains the address, if there is one. */
  lemma BestIsContaining(routes: seq<RouteEntry>, plan: seq<SubnetInfo>, ip: uint32)
    requires ValidPlan(plan) && RoutesOfPlan(routes, plan) && AllUsable(routes)
    ensures forall i :: 0 <= i < |plan| && Covers(plan[i], ip) ==> BestOf(routes, ip) == Some(RouteTo(plan[i]))
    ensures (forall i :: 0 <= i < |plan| ==> !Covers(plan[i], ip)) ==> BestOf(routes, ip) == None
  {
    hide Readable, Address, Apart, CidrToMask, BestOf, SameBlock;
    var k := BestPosition(routes, ip);
    if BestOf(routes, ip).Some? {
      var j :| 0 <= j < |plan| && routes[k] == RouteTo(plan[j]);
      assert Covers(plan[j], ip);
      forall i | 0 <= i < |plan| && Covers(plan[i], ip) ensures i == j {
        BlocksDisjoint(plan, i, j, ip);
      }
    } else {
      forall i | 0 <= i < |plan| ensures !Covers(plan[i], ip) {
        assert RouteTo(plan[i]) in routes;
        var m :| 0 <= m < |routes| && routes[m] == RouteTo(plan[i]);
        assert !Matches(routes[m], ip);
      }
    }
  }

  /** First match and longest match agree: for every address the program can read, either
      `findSubnet` names a subnet of the plan and `lookupRoute` returns that subnet's interface and
      gateway, or `findSubnet` answers "Unknown" and `lookupRoute` returns the default route. */
  lemma FirstAndLongestMatchAgree(plan: seq<SubnetInfo>, st: SubnetState, routes: seq<RouteEntry>,
                                  defaultRoute: RouteEntry, ip: string)
    requires ValidPlan(plan) && HoldsPlan(st, plan) && Consistent(st) && RoutesOfPlan(routes, plan) && Readable(ip)
    ensures AllUsable(routes)
    ensures var route := Lookup(routes, defaultRoute, Address(ip));
            (exists i :: 0 <= i < |plan| && Find(st, ip) == Some(plan[i].name)
                         && route.interfaceName == plan[i].name && route.gateway == plan[i].gateway
                         && route.destination == plan[i].networkAddress)
            || (Find(st, ip) == Some("Unknown") && route == defaultRoute)
  {
    hide Readable, Address, Apart, CidrToMask, BestOf, Covers, Find, RoutesOfPlan, HoldsPlan, AllUsable;
    PlanRoutesUsable(routes, plan);
    BestIsContaining(routes, plan, Address(ip));
    FindIsContainment(st, plan, ip);
    if i :| 0 <= i < |plan| && Covers(plan[i], Address(ip)) {
      assert BestOf(routes, Address(ip)) == Some(RouteTo(plan[i]));
    }
  }

  /** Initialising the network again changes no lookup. */
  lemma ReinitialisingChangesNothing(plan: seq<SubnetInfo>, routes: seq<RouteEntry>, ip: uint32)
    requires ValidPlan(plan) && RoutesOfPlan(routes, plan)
    requires forall cfg :: cfg in plan ==> 0 <= cfg.cidr <= 32
    ensures RoutesOfPlan(routes + PlanRoutes(plan), plan)
    ensures AllUsable(routes) && AllUsable(routes + PlanRoutes(plan))
    ensures BestOf(routes + PlanRoutes(plan), ip) == BestOf(routes, ip)
  {
    hide RouteTo, Readable, BestOf, ValidPlan, AllUsable;
    PlanRoutesUsable(routes, plan);
    RepeatedRoutesChangeNothing(routes, PlanRoutes(plan), ip);
  }

  /** The routing table after the first initialisation. */
  lemma FirstInitialisation(plan: seq<SubnetInfo>)
    requires ValidPlan(plan) && forall cfg :: cfg in plan ==> 0 <= cfg.cidr <= 32
    ensures RoutesOfPlan(PlanRoutes(plan), plan)
  {
    hide RouteTo;
    forall i | 0 <= i < |plan| ensures RouteTo(plan[i]) in PlanRoutes(plan) {
      assert PlanRoutes(plan)[i] == RouteTo(plan[i]);
    }
  }
}
