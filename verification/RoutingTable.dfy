/** The static routing table: `src/network/RoutingTable.cpp`. */
module Routing {
  import opened Text
  import opened Bits
  import opened NetworkConfig

  datatype RouteEntry = RouteEntry(
    destination: string,
    cidr: int,
    subnetMask: string,
    gateway: string,
    interfaceName: string,
    metric: int)

  // ---------- what a lookup returns ----------

  /** A route whose prefix length and destination text the program can compare with an address. */
  predicate Usable(r: RouteEntry) {
    0 <= r.cidr <= 32 && Readable(r.destination)
  }

  predicate AllUsable(routes: seq<RouteEntry>) {
    forall i :: 0 <= i < |routes| ==> Usable(routes[i])
  }

  predicate Matches(r: RouteEntry, ip: uint32)
    requires Usable(r)
  {
    SameBlock(ip, Address(r.destination), r.cidr)
  }

  predicate Improves(r: RouteEntry, best: Option<RouteEntry>) {
    best.None? || r.cidr > best.value.cidr
  }

  /** The best match after scanning all routes, from the front. */
  function BestOf(routes: seq<RouteEntry>, ip: uint32): (best: Option<RouteEntry>)
    requires AllUsable(routes)
    ensures best.Some? ==> best.value in routes && Matches(best.value, ip)
  {
    if routes == [] then None
    else
      var last := routes[|routes| - 1];
      var best := BestOf(routes[..|routes| - 1], ip);
      if Matches(last, ip) && Improves(last, best) then Some(last) else best
  }

  function Lookup(routes: seq<RouteEntry>, defaultRoute: RouteEntry, ip: uint32): RouteEntry
    requires AllUsable(routes)
  {
    match BestOf(routes, ip)
    case Some(r) => r
    case None => defaultRoute
  }

  /** The routes left after `removeRoute`, in their old order. */
  function Without(routes: seq<RouteEntry>, destination: string, cidr: int): (kept: seq<RouteEntry>)
    ensures forall r :: r in kept <==> r in routes && !(r.destination == destination && r.cidr == cidr)
  {
    if routes == [] then []
    else
      var last := routes[|routes| - 1];
      var kept := Without(routes[..|routes| - 1], destination, cidr);
      if last.destination == destination && last.cidr == cidr then kept else kept + [last]
  }

  function NewRoute(destination: string, cidr: int, gateway: string, interfaceName: string, metric: int): RouteEntry
    requires 0 <= cidr <= 32
  {
    RouteEntry(destination, cidr, CidrToMask(cidr), gateway, interfaceName, metric)
  }

  // ---------- the table ----------

  class RoutingTable {
    var routes: seq<RouteEntry>
    var defaultRoute: RouteEntry

    ghost predicate Valid()
      reads this
    {
      forall i :: 0 <= i < |routes| ==> 0 <= routes[i].cidr <= 32
    }

    constructor ()
      ensures Valid() && routes == []
      ensures defaultRoute == RouteEntry("0.0.0.0", 0, "0.0.0.0", "0.0.0.0", "default", 0)
    {
      routes := [];
      defaultRoute := RouteEntry("0.0.0.0", 0, "0.0.0.0", "0.0.0.0", "default", 0);
    }

    method AddRoute(destination: string, cidr: int, gateway: string, interfaceName: string, metric: int := 1)
      requires Valid() && 0 <= cidr <= 32
      modifies this`routes
      ensures Valid()
      ensures routes == old(routes) + [NewRoute(destination, cidr, gateway, interfaceName, metric)]
      ensures routes[|routes| - 1]
              == RouteEntry(destination, cidr, CidrToMask(cidr), gateway, interfaceName, metric)
    {
      var mask := CidrToMask(cidr);
      var entry := RouteEntry(destination, cidr, mask, gateway, interfaceName, metric);
      routes := routes + [entry];
    }

    method RemoveRoute(destination: string, cidr: int)
      requires Valid()
      modifies this`routes
      ensures Valid()
      ensures routes == Without(old(routes), destination, cidr)
    {
      var kept: seq<RouteEntry> := [];
      var i := 0;
      while i < |routes|
        invariant 0 <= i <= |routes|
        invariant kept == Without(routes[..i], destination, cidr)
      {
        assert routes[..i + 1][..i] == routes[..i];
        if !(routes[i].destination == destination && routes[i].cidr == cidr) {
          kept := kept + [routes[i]];
        }
        i := i + 1;
      }
      assert routes[..|routes|] == routes;
      assert forall r :: r in kept ==> r in routes;
      routes := kept;
    }

    /** `None` when an address text in the comparison makes `std::stoi` throw. */
    method LookupRoute(destIP: string) returns (r: Option<RouteEntry>)
      requires Valid()
      requires Shaped(destIP) && forall e :: e in routes ==> Shaped(e.destination)
      ensures r.Some? <==> (routes == [] || Readable(destIP)) && AllUsable(routes)
      ensures r.Some? && routes == [] ==> r.value == defaultRoute
      ensures r.Some? && routes != [] ==> r.value == Lookup(routes, defaultRoute, Address(destIP))
    {
      hide Readable, Address, Shaped, SameBlock, BitAnd;
      var bestMatch := defaultRoute;
      var longestPrefix := -1;
      var i := 0;
      while i < |routes|
        invariant 0 <= i <= |routes|
        invariant i > 0 ==> Readable(destIP)
        invariant AllUsable(routes[..i])
        invariant i > 0 ==> match BestOf(routes[..i], Address(destIP))
                            case None => longestPrefix == -1 && bestMatch == defaultRoute
                            case Some(b) => longestPrefix == b.cidr && bestMatch == b
        invariant i == 0 ==> longestPrefix == -1 && bestMatch == defaultRoute
      {
        var route := routes[i];
        var inside := IsInSubnet(destIP, route.destination, route.cidr);
        if inside.None? {
          assert !(Readable(destIP) && Usable(routes[i]));
          return None;
        }
        assert routes[..i + 1][..i] == routes[..i];
        if inside.value {
          if route.cidr > longestPrefix {
            longestPrefix := route.cidr;
            bestMatch := route;
          }
        }
        i := i + 1;
      }
      assert routes[..|routes|] == routes;
      return Some(bestMatch);
    }

    method SetDefaultGateway(gateway: string, interfaceName: string)
      modifies this`defaultRoute
      ensures defaultRoute == old(defaultRoute).(gateway := gateway, interfaceName := interfaceName)
    {
      defaultRoute := defaultRoute.(gateway := gateway);
      defaultRoute := defaultRoute.(interfaceName := interfaceName);
    }
  }

  // ---------- longest prefix, earliest insertion ----------

  /** The route at position `i` matches, no matching route has a longer prefix, and none before it
      has the same length. */
  ghost predicate IsLongestEarliest(routes: seq<RouteEntry>, ip: uint32, i: int)
    requires AllUsable(routes)
  {
    && 0 <= i < |routes|
    && Matches(routes[i], ip)
    && (forall j :: 0 <= j < |routes| && Matches(routes[j], ip) ==> routes[j].cidr <= routes[i].cidr)
    && (forall j :: 0 <= j < i && Matches(routes[j], ip) ==> routes[j].cidr < routes[i].cidr)
  }

  ghost predicate NoneMatches(routes: seq<RouteEntry>, ip: uint32)
    requires AllUsable(routes)
  {
    forall j :: 0 <= j < |routes| ==> !Matches(routes[j], ip)
  }

  /** The position of the best match. */
  lemma {:induction false} BestPosition(routes: seq<RouteEntry>, ip: uint32) returns (i: int)
    requires AllUsable(routes)
    ensures BestOf(routes, ip).None? ==> NoneMatches(routes, ip)
    ensures BestOf(routes, ip).Some? ==> IsLongestEarliest(routes, ip, i) && BestOf(routes, ip).value == routes[i]
  {
    hide SameBlock, Readable, AddressOf;
    i := 0;
    if routes != [] {
      var n := |routes| - 1;
      var front := routes[..n];
      i := BestPosition(front, ip);
      assert forall j :: 0 <= j < n ==> front[j] == routes[j];
      if Matches(routes[n], ip) && Improves(routes[n], BestOf(front, ip)) {
        i := n;
      }
    }
  }

  /** A lookup returns the default route exactly when nothing matches, and otherwise the
      earliest-inserted matching route of maximal prefix length, which exists. */
  lemma LookupIsLongestEarliest(routes: seq<RouteEntry>, defaultRoute: RouteEntry, ip: uint32)
    requires AllUsable(routes)
    ensures NoneMatches(routes, ip) ==> Lookup(routes, defaultRoute, ip) == defaultRoute
    ensures !NoneMatches(routes, ip) ==> exists i :: IsLongestEarliest(routes, ip, i)
    ensures forall i :: IsLongestEarliest(routes, ip, i) ==> Lookup(routes, defaultRoute, ip) == routes[i]
  {
    hide SameBlock, Readable, AddressOf;
    var k := BestPosition(routes, ip);
    forall i | IsLongestEarliest(routes, ip, i)
      ensures Lookup(routes, defaultRoute, ip) == routes[i]
    {
      assert i == k;
    }
  }
}
