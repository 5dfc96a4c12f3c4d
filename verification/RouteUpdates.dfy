/** How lookups react to changes of the routing table: the order of insertion does not matter in a
    table without conflicts, and updates act only inside the block they concern. */
module RouteUpdates {
  import opened Text
  import opened Bits
  import opened NetworkConfig
  import opened Addressing
  import opened Routing

  /** Two routes for the same block, written with the same prefix length, are the same entry. */
  ghost predicate ConflictFree(routes: seq<RouteEntry>)
    requires AllUsable(routes)
  {
    forall r, s | r in routes && s in routes && r.cidr == s.cidr
                  && SameBlock(Address(r.destination), Address(s.destination), r.cidr) :: r == s
  }

  lemma SameElements<T>(a: seq<T>, b: seq<T>)
    requires multiset(a) == multiset(b)
    ensures forall x :: x in a <==> x in b
  {
    forall x ensures x in a <==> x in b {
      assert x in a <==> x in multiset(a);
      assert x in b <==> x in multiset(b);
    }
  }

  /** A route of the table that matches the address with the longest prefix. */
  ghost predicate IsLongest(routes: seq<RouteEntry>, ip: uint32, r: RouteEntry)
    requires AllUsable(routes)
  {
    && r in routes && Usable(r) && Matches(r, ip)
    && forall e :: e in routes && Usable(e) && Matches(e, ip) ==> e.cidr <= r.cidr
  }

  /** Two different routes tie for the longest match. */
  ghost predicate Ties(routes: seq<RouteEntry>, ip: uint32)
    requires AllUsable(routes)
  {
    exists r, s :: r != s && IsLongest(routes, ip, r) && IsLongest(routes, ip, s)
  }

  ghost predicate SameLookup(a: seq<RouteEntry>, b: seq<RouteEntry>, defaultRoute: RouteEntry, ip: uint32)
    requires AllUsable(a)
  {
    AllUsable(b) && Lookup(b, defaultRoute, ip) == Lookup(a, defaultRoute, ip)
  }

  lemma UsableIn(a: seq<RouteEntry>, b: seq<RouteEntry>)
    requires AllUsable(a) && forall r :: r in b ==> r in a
    ensures AllUsable(b)
  {
    hide Readable;
    forall i | 0 <= i < |b| ensures Usable(b[i]) {
      assert b[i] in a;
    }
  }

  lemma LongestIn(routes: seq<RouteEntry>, ip: uint32, i: int)
    requires AllUsable(routes) && IsLongestEarliest(routes, ip, i)
    ensures IsLongest(routes, ip, routes[i])
  {
    hide Readable, Address, SameBlock;
    forall e | e in routes && Usable(e) && Matches(e, ip) ensures e.cidr <= routes[i].cidr {
      var j :| 0 <= j < |routes| && routes[j] == e;
    }
  }

  lemma LongestInSame(a: seq<RouteEntry>, b: seq<RouteEntry>, ip: uint32, r: RouteEntry)
    requires AllUsable(a) && AllUsable(b) && (forall e :: e in a <==> e in b) && IsLongest(b, ip, r)
    ensures IsLongest(a, ip, r)
  {
    hide Readable, Address, SameBlock;
  }

  /** Without a tie any order gives the same answer. */
  lemma NoTieNoOrder(a: seq<RouteEntry>, b: seq<RouteEntry>, defaultRoute: RouteEntry, ip: uint32)
    requires AllUsable(a) && !Ties(a, ip) && multiset(a) == multiset(b)
    ensures SameLookup(a, b, defaultRoute, ip)
  {
    hide Readable, Address, SameBlock, BestOf, IsLongest;
    SameElements(a, b);
    UsableIn(a, b);
    var i := BestPosition(a, ip);
    var j := BestPosition(b, ip);
    assert forall k :: 0 <= k < |a| ==> a[k] in b;
    assert forall k :: 0 <= k < |b| ==> b[k] in a;
    if BestOf(a, ip).Some? && BestOf(b, ip).Some? {
      LongestIn(a, ip, i);
      LongestIn(b, ip, j);
      LongestInSame(a, b, ip, b[j]);
    }
  }

  /** The table with the route at position `k` moved to the front. */
  function MovedToFront(a: seq<RouteEntry>, k: nat): (b: seq<RouteEntry>)
    requires k < |a|
    ensures multiset(b) == multiset(a)
  {
    assert a == a[..k] + [a[k]] + a[k + 1..];
    [a[k]] + a[..k] + a[k + 1..]
  }

  /** A longest match that is moved to the front wins. */
  lemma FrontWins(a: seq<RouteEntry>, k: nat, defaultRoute: RouteEntry, ip: uint32)
    requires AllUsable(a) && k < |a| && IsLongest(a, ip, a[k])
    ensures AllUsable(MovedToFront(a, k)) && Lookup(MovedToFront(a, k), defaultRoute, ip) == a[k]
  {
    hide Readable, Address, SameBlock, BestOf, Lookup;
    var b := MovedToFront(a, k);
    SameElements(a, b);
    UsableIn(a, b);
    assert b[0] == a[k];
    forall j | 0 <= j < |b| && Matches(b[j], ip) ensures b[j].cidr <= b[0].cidr {
      assert b[j] in a;
    }
    LookupIsLongestEarliest(b, defaultRoute, ip);
    assert IsLongestEarliest(b, ip, 0);
  }

  lemma LongestPosition(a: seq<RouteEntry>, ip: uint32, r: RouteEntry) returns (k: nat)
    requires AllUsable(a) && IsLongest(a, ip, r)
    ensures k < |a| && a[k] == r
  {
    hide Readable, Address, SameBlock, AllUsable;
    k :| 0 <= k < |a| && a[k] == r;
  }

  /** Exactly when the order of insertion matters: every permutation of a table answers alike for an
      address if and only if no two different routes tie for its longest match. */
  lemma OrderMattersOnTies(a: seq<RouteEntry>, defaultRoute: RouteEntry, ip: uint32)
    requires AllUsable(a)
    ensures (forall b :: multiset(b) == multiset(a) ==> SameLookup(a, b, defaultRoute, ip)) <==> !Ties(a, ip)
  {
    hide Readable, Address, SameBlock, BestOf, Lookup, IsLongest, AllUsable;
    if Ties(a, ip) {
      var r, s :| r != s && IsLongest(a, ip, r) && IsLongest(a, ip, s);
      var loser := if Lookup(a, defaultRoute, ip) == r then s else r;
      var k := LongestPosition(a, ip, loser);
      FrontWins(a, k, defaultRoute, ip);
      assert !SameLookup(a, MovedToFront(a, k), defaultRoute, ip);
    } else {
      forall b | multiset(b) == multiset(a) ensures SameLookup(a, b, defaultRoute, ip) {
        NoTieNoOrder(a, b, defaultRoute, ip);
      }
    }
  }

  /** Two routes that match one address with one length are routes for one block. */
  lemma LongestIsUnique(a: seq<RouteEntry>, ip: uint32, r: RouteEntry, s: RouteEntry)
    requires AllUsable(a) && ConflictFree(a) && IsLongest(a, ip, r) && IsLongest(a, ip, s)
    ensures r == s
  {
    hide Readable, Address, BitAnd, MaskWord, AllUsable;
  }

  /** Permuting a table in which no two different routes share prefix length and masked network
      changes no lookup at all. */
  lemma LookupIsOrderFree(a: seq<RouteEntry>, b: seq<RouteEntry>, defaultRoute: RouteEntry, ip: uint32)
    requires AllUsable(a) && ConflictFree(a) && multiset(a) == multiset(b)
    ensures AllUsable(b)
    ensures Lookup(a, defaultRoute, ip) == Lookup(b, defaultRoute, ip)
  {
    hide Readable, Address, SameBlock, BestOf, Lookup, AllUsable, IsLongest, ConflictFree;
    forall r, s | IsLongest(a, ip, r) && IsLongest(a, ip, s) ensures r == s {
      LongestIsUnique(a, ip, r, s);
    }
    NoTieNoOrder(a, b, defaultRoute, ip);
  }

  /** Appending a route changes a lookup only for addresses in its block whose best match so far was
      shorter or absent; for those it is the new answer. */
  lemma AddRouteIsLocal(routes: seq<RouteEntry>, r: RouteEntry, defaultRoute: RouteEntry, ip: uint32)
    requires AllUsable(routes) && Usable(r)
    ensures AllUsable(routes + [r])
    ensures Lookup(routes + [r], defaultRoute, ip)
            == if SameBlock(ip, Address(r.destination), r.cidr)
                  && (forall e :: e in routes && Matches(e, ip) ==> e.cidr < r.cidr)
               then r else Lookup(routes, defaultRoute, ip)
  {
    hide AddressOf, Pieces, SameBlock;
    var all := routes + [r];
    assert all[..|all| - 1] == routes;
    var i := BestPosition(routes, ip);
    if BestOf(routes, ip).Some? {
      assert routes[i] in routes && Matches(routes[i], ip);
    }
    forall e | e in routes && Matches(e, ip) && Improves(r, BestOf(routes, ip)) ensures e.cidr < r.cidr {
      var j :| 0 <= j < |routes| && routes[j] == e;
    }
  }

  /** A new route holds what it was made of, and the mask text of its prefix length. */
  lemma NewRouteIsComplete(destination: string, cidr: int, gateway: string, interfaceName: string, metric: int)
    requires 0 <= cidr <= 32
    ensures var r := NewRoute(destination, cidr, gateway, interfaceName, metric);
            && r.destination == destination && r.cidr == cidr && r.gateway == gateway
            && r.interfaceName == interfaceName && r.metric == metric
            && Readable(r.subnetMask) && Address(r.subnetMask) == TWO32 - BlockSize(cidr)
            && Canonical(r.subnetMask)
  {
    hide Readable, Address, CidrToMask, Canonical;
    MaskText(cidr);
    MaskIsCanonical(cidr);
  }

  lemma MaskIsCanonical(cidr: int)
    requires 0 <= cidr <= 32
    ensures Canonical(CidrToMask(cidr))
  {
    hide Readable, Address, Canonical, Uint32ToIp;
    AddressTextRoundTrip(MaskWord(cidr));
    CanonicalTextRoundTrip(CidrToMask(cidr));
  }

  lemma {:induction false} WithoutNothing(routes: seq<RouteEntry>, destination: string, cidr: int)
    requires forall r :: r in routes ==> !(r.destination == destination && r.cidr == cidr)
    ensures Without(routes, destination, cidr) == routes
  {
    if routes != [] {
      WithoutNothing(routes[..|routes| - 1], destination, cidr);
      assert routes[|routes| - 1] in routes;
      assert routes == routes[..|routes| - 1] + [routes[|routes| - 1]];
    }
  }

  /** Adding a route and removing it again restores the table, and so every lookup, if no route with
      that destination text and length was there before. */
  lemma RemoveUndoesAdd(routes: seq<RouteEntry>, r: RouteEntry)
    ensures Without(routes + [r], r.destination, r.cidr) == Without(routes, r.destination, r.cidr)
    ensures (Without(routes + [r], r.destination, r.cidr) == routes)
            <==> (forall e :: e in routes ==> !(e.destination == r.destination && e.cidr == r.cidr))
  {
    var all := routes + [r];
    assert all[..|all| - 1] == routes;
    if forall e :: e in routes ==> !(e.destination == r.destination && e.cidr == r.cidr) {
      WithoutNothing(routes, r.destination, r.cidr);
    }
  }

  /** Removing routes leaves the lookup of every address alone whose best match stays. */
  lemma {:induction false} RemoveRouteIsLocal(routes: seq<RouteEntry>, destination: string, cidr: int, ip: uint32)
    requires AllUsable(routes)
    ensures AllUsable(Without(routes, destination, cidr))
    ensures (BestOf(routes, ip).Some?
             ==> !(BestOf(routes, ip).value.destination == destination && BestOf(routes, ip).value.cidr == cidr))
            ==> BestOf(Without(routes, destination, cidr), ip) == BestOf(routes, ip)
    ensures BestOf(Without(routes, destination, cidr), ip).Some?
            ==> BestOf(routes, ip).Some?
                && BestOf(Without(routes, destination, cidr), ip).value.cidr <= BestOf(routes, ip).value.cidr
  {
    hide AddressOf, Pieces, SameBlock;
    if routes != [] {
      var n := |routes| - 1;
      var front, last := routes[..n], routes[n];
      RemoveRouteIsLocal(front, destination, cidr, ip);
      var kept := Without(front, destination, cidr);
      assert (kept + [last])[..|kept|] == kept;
    }
  }

  /** The default route is the answer only for addresses no route matches. */
  lemma DefaultOnlyForUnmatched(routes: seq<RouteEntry>, d1: RouteEntry, d2: RouteEntry, ip: uint32)
    requires AllUsable(routes)
    ensures d1 != d2 ==> (Lookup(routes, d1, ip) == Lookup(routes, d2, ip) <==> !NoneMatches(routes, ip))
  {
    hide AddressOf, Pieces, SameBlock, BestOf;
    var i := BestPosition(routes, ip);
  }

  /** Appending routes that are in the table already changes no lookup. */
  lemma {:induction false} RepeatedRoutesChangeNothing(routes: seq<RouteEntry>, more: seq<RouteEntry>, ip: uint32)
    requires AllUsable(routes) && forall r :: r in more ==> r in routes
    ensures AllUsable(routes + more)
    ensures BestOf(routes + more, ip) == BestOf(routes, ip)
  {
    hide AddressOf, Pieces, SameBlock;
    assert forall i :: 0 <= i < |more| ==> more[i] in more;
    assert AllUsable(routes + more);
    if more == [] {
      assert routes + more == routes;
    } else {
      var n := |more| - 1;
      var all, last := routes + more, more[n];
      RepeatedRoutesChangeNothing(routes, more[..n], ip);
      assert all[..|all| - 1] == routes + more[..n];
      var k :| 0 <= k < |routes| && routes[k] == last;
      var i := BestPosition(routes, ip);
    }
  }
}
