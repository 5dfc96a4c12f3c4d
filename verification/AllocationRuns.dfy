/** Whole runs of the allocator: any mix of allocations and releases after an initialisation. */
module AllocationRuns {
  import opened Text
  import opened Bits
  import opened NetworkConfig
  import opened Addressing
  import opened Subnets
  import opened Plans

  datatype Op = Alloc(name: string) | Free(name: string, ip: string)

  function Step(st: SubnetState, op: Op): (r: SubnetState)
    requires Consistent(st)
    ensures Consistent(r) && r.subnets == st.subnets
  {
    match op
    case Alloc(name) => Allocate(st, name).0
    case Free(name, ip) => Release(st, name, ip)
  }

  /** The state after a run. */
  function After(start: SubnetState, ops: seq<Op>): (st: SubnetState)
    requires Consistent(start)
    ensures Consistent(st) && st.subnets == start.subnets
  {
    if ops == [] then start else Step(After(start, ops[..|ops| - 1]), ops[|ops| - 1])
  }

  /** The outcome of the allocation that operation `t` of the run asks for. */
  function Outcome(start: SubnetState, ops: seq<Op>, t: nat): Allocation
    requires Consistent(start) && t < |ops| && ops[t].Alloc?
  {
    Allocate(After(start, ops[..t]), ops[t].name).1
  }

  /** Operation `t` of the run issues the address text `ip` in the subnet `name`. */
  predicate IssuedAt(start: SubnetState, ops: seq<Op>, t: int, name: string, ip: string)
    requires Consistent(start)
  {
    0 <= t < |ops| && ops[t] == Alloc(name) && Outcome(start, ops, t) == Issued(ip)
  }

  /** How many allocations in `name` succeed in the run. */
  function Successes(start: SubnetState, ops: seq<Op>, name: string): nat
    requires Consistent(start)
  {
    if ops == [] then 0
    else
      var n := |ops| - 1;
      Successes(start, ops[..n], name)
      + if ops[n] == Alloc(name) && Allocate(After(start, ops[..n]), name).1.Issued? then 1 else 0
  }

  /** How many allocations in `name` the run attempts. */
  function Attempts(ops: seq<Op>, name: string): nat {
    if ops == [] then 0
    else Attempts(ops[..|ops| - 1], name) + if ops[|ops| - 1] == Alloc(name) then 1 else 0
  }

  /** The run starts right after an initialisation from a valid plan. */
  ghost predicate Started(start: SubnetState, plan: seq<SubnetInfo>) {
    ValidPlan(plan) && IsFresh(start, plan) && Consistent(start)
  }

  function Capacity(cfg: SubnetInfo): nat {
    if cfg.maxHosts >= 1 then cfg.maxHosts - 1 else 0
  }

  // ---------- accounting ----------

  /** The text of the address with the given host number in a subnet. */
  function HostText(cfg: SubnetInfo, host: int): string
    requires Readable(cfg.networkAddress)
  {
    Uint32ToIp((Network(cfg) + host) % TWO32)
  }

  lemma AllocateInPlan(st: SubnetState, cfg: SubnetInfo)
    requires Consistent(st) && cfg.name in st.subnets && st.subnets[cfg.name] == cfg && Readable(cfg.networkAddress)
    ensures var host := st.nextHost[cfg.name];
            var (st', r) := Allocate(st, cfg.name);
            if host > cfg.maxHosts then r == Refused(NoMoreAddresses) && st' == st
            else r == Issued(HostText(cfg, host))
                 && st'.nextHost == st.nextHost[cfg.name := host + 1]
                 && st'.stored == st.stored[cfg.name := st.stored[cfg.name] + [r.ip]]
  {
    hide AddressOf, Pieces, Uint32ToIp;
  }

  lemma AccountingStep(st: SubnetState, cfg: SubnetInfo, op: Op)
    requires InTable(st, cfg)
    ensures cfg.name in st.nextHost && cfg.name in Step(st, op).nextHost
    ensures var issued := op == Alloc(cfg.name) && st.nextHost[cfg.name] <= cfg.maxHosts;
            && Step(st, op).nextHost[cfg.name] == st.nextHost[cfg.name] + (if issued then 1 else 0)
            && (op == Alloc(cfg.name) ==> (Allocate(st, cfg.name).1.Issued? <==> issued))
  {
    hide Readable, Address, HostText, Allocate, SoundInfo, Step, BlockSize;
    StepList(st, cfg, op);
    if op == Alloc(cfg.name) {
      AllocateInPlan(st, cfg);
    }
  }

  /** The host counter of a subnet is 2 plus the number of addresses issued in it, whatever was
      released; the issued addresses are as many as were asked for, up to `maxHosts - 1`. */
  lemma {:induction false} AllocationAccounting(start: SubnetState, plan: seq<SubnetInfo>, ops: seq<Op>, i: nat)
    requires Started(start, plan) && i < |plan|
    ensures var name, n := plan[i].name, Successes(start, ops, plan[i].name);
            && name in After(start, ops).nextHost
            && After(start, ops).nextHost[name] == 2 + n
            && n == if Attempts(ops, name) <= Capacity(plan[i]) then Attempts(ops, name) else Capacity(plan[i])
  {
    hide Readable, Address, Apart, SoundInfo, Allocate, Step, ValidSubnet, InTable;
    AfterInTable(start, plan, ops, i);
    if ops != [] {
      var n, name := |ops| - 1, plan[i].name;
      AllocationAccounting(start, plan, ops[..n], i);
      AfterInTable(start, plan, ops[..n], i);
      AccountingStep(After(start, ops[..n]), plan[i], ops[n]);
    }
  }

  lemma OtherCounters(st: SubnetState, name: string, other: string)
    requires Consistent(st) && other in st.subnets && other != name
    ensures Allocate(st, name).0.nextHost[other] == st.nextHost[other]
    ensures Allocate(st, name).0.stored[other] == st.stored[other]
  {
  }

  /** A request that is refused changes nothing, and a request is refused exactly when the subnet has
      issued all it can, or is not in the plan. */
  lemma RefusedExactlyWhenFull(start: SubnetState, plan: seq<SubnetInfo>, ops: seq<Op>, name: string)
    requires Started(start, plan)
    ensures Allocate(After(start, ops), name).1.Refused? ==> Allocate(After(start, ops), name).0 == After(start, ops)
    ensures forall i :: 0 <= i < |plan| && plan[i].name == name ==>
              (Allocate(After(start, ops), name).1.Refused? <==> Successes(start, ops, name) == Capacity(plan[i]))
    ensures (forall i :: 0 <= i < |plan| ==> plan[i].name != name)
            ==> Allocate(After(start, ops), name).1 == Refused(SubnetNotFound)
  {
    hide Readable, Address, Apart, SoundInfo, Allocate, Successes, After, Attempts;
    var st := After(start, ops);
    forall i | 0 <= i < |plan| && plan[i].name == name
      ensures Allocate(st, name).1.Refused? <==> Successes(start, ops, name) == Capacity(plan[i])
    {
      AllocationAccounting(start, plan, ops, i);
      AllocateInPlan(st, plan[i]);
    }
    if forall i :: 0 <= i < |plan| ==> plan[i].name != name {
      UnknownNameRefused(st, name);
    }
  }

  lemma UnknownNameRefused(st: SubnetState, name: string)
    requires Consistent(st) && name !in st.subnets
    ensures Allocate(st, name).1 == Refused(SubnetNotFound)
  {
  }

  // ---------- safety of the issued addresses ----------

  lemma {:induction false} SuccessesGrow(start: SubnetState, ops: seq<Op>, name: string, t: nat, u: nat)
    requires Consistent(start) && t <= u <= |ops|
    ensures Successes(start, ops[..t], name) <= Successes(start, ops[..u], name)
    decreases u
  {
    if t < u {
      SuccessesGrow(start, ops, name, t, u - 1);
      assert ops[..u][..u - 1] == ops[..u - 1];
    }
  }

  lemma SuccessCounts(start: SubnetState, ops: seq<Op>, t: nat, name: string, ip: string)
    requires Consistent(start) && IssuedAt(start, ops, t, name, ip)
    ensures Successes(start, ops[..t + 1], name) == Successes(start, ops[..t], name) + 1
  {
    hide Allocate;
    assert ops[..t + 1][..t] == ops[..t];
  }

  /** The n-th address issued in a subnet has host number n + 1 (n counted from 1), however many were
      released before. */
  lemma IssuedAddress(start: SubnetState, plan: seq<SubnetInfo>, ops: seq<Op>, t: nat, i: nat, ip: string)
    requires Started(start, plan) && i < |plan| && IssuedAt(start, ops, t, plan[i].name, ip)
    ensures t < |ops| && 2 + Successes(start, ops[..t], plan[i].name) <= plan[i].maxHosts
    ensures ip == HostText(plan[i], 2 + Successes(start, ops[..t], plan[i].name))
  {
    hide Apart, Readable, Address, SoundInfo, Allocate, Successes, After, BlockSize, Attempts, HostText;
    AllocationAccounting(start, plan, ops[..t], i);
    AllocateInPlan(After(start, ops[..t]), plan[i]);
  }

  lemma AlignedBelow(x: nat, m: nat, n: nat)
    requires m > 0 && x % m == 0 && x < m * n
    ensures x + m <= m * n
  {
    var q := x / m;
    assert x == m * q;
    MultipleBound(m, n - q);
    assert m * (n - q) == m * n - m * q;
  }

  lemma BlockInRange(cfg: SubnetInfo)
    requires ValidSubnet(cfg)
    ensures Network(cfg) + BlockSize(cfg.cidr) <= TWO32
  {
    hide Readable, Address, Pow2, Shaped;
    assert Pow2(32) == TWO32 by {
      Pow2Values();
    }
    Pow2Sum(32 - cfg.cidr, cfg.cidr);
    AlignedBelow(Network(cfg), BlockSize(cfg.cidr), Pow2(cfg.cidr));
  }

  /** A host number from 2 to `maxHosts` names an address of the block that is neither its network
      address, nor its gateway, nor its broadcast address. */
  lemma HostAddress(cfg: SubnetInfo, host: int)
    requires ValidSubnet(cfg) && 2 <= host <= cfg.maxHosts
    ensures Readable(HostText(cfg, host)) && Address(HostText(cfg, host)) == Network(cfg) + host
    ensures Covers(cfg, Network(cfg) + host)
    ensures Network(cfg) + host != Network(cfg)
    ensures Network(cfg) + host != Address(cfg.gateway)
    ensures Network(cfg) + host != Network(cfg) + BlockSize(cfg.cidr) - 1
  {
    hide Readable, Address, BlockSize, Shaped, Covers, Uint32ToIp;
    BlockInRange(cfg);
    CoversIsInterval(cfg, Network(cfg) + host);
    AddressTextRoundTrip(Network(cfg) + host);
  }

  /** An issued address lies in the subnet it was asked for, is neither its network address, nor its
      gateway, nor its broadcast address, and `findSubnet` finds that subnet for it. */
  lemma IssuedIsHost(start: SubnetState, plan: seq<SubnetInfo>, ops: seq<Op>, t: nat, i: nat, ip: string)
    requires Started(start, plan) && i < |plan| && IssuedAt(start, ops, t, plan[i].name, ip)
    ensures Readable(ip) && Covers(plan[i], Address(ip))
    ensures Address(ip) != Network(plan[i])
    ensures Address(ip) != Address(plan[i].gateway)
    ensures Address(ip) != Network(plan[i]) + BlockSize(plan[i].cidr) - 1
    ensures Find(After(start, ops), ip) == Some(plan[i].name)
  {
    hide ValidSubnet, Apart, Readable, Address, SoundInfo, Successes, After, BlockSize, Covers, Find, IssuedAt,
         HostText;
    IssuedAddress(start, plan, ops, t, i, ip);
    HostAddress(plan[i], 2 + Successes(start, ops[..t], plan[i].name));
    AfterHoldsPlan(start, plan, ops);
    FindIsContainment(After(start, ops), plan, ip);
  }

  lemma AfterHoldsPlan(start: SubnetState, plan: seq<SubnetInfo>, ops: seq<Op>)
    requires Consistent(start) && HoldsPlan(start, plan)
    ensures HoldsPlan(After(start, ops), plan)
  {
    hide After, SoundInfo;
  }

  /** No address is issued twice: two different requests that succeed, in the same subnet or in
      different ones, get different addresses, whatever was released in between. */
  lemma NeverIssuedTwice(start: SubnetState, plan: seq<SubnetInfo>, ops: seq<Op>,
                         t: nat, i: nat, ip: string, u: nat, j: nat, ip': string)
    requires Started(start, plan) && i < |plan| && j < |plan| && t < u
    requires IssuedAt(start, ops, t, plan[i].name, ip) && IssuedAt(start, ops, u, plan[j].name, ip')
    ensures ip != ip'
  {
    hide ValidSubnet, Apart, Readable, Address, SoundInfo, Successes, After, BlockSize, Covers, Find, IssuedAt,
         HostText;
    IssuedAddress(start, plan, ops, t, i, ip);
    IssuedAddress(start, plan, ops, u, j, ip');
    HostAddress(plan[i], 2 + Successes(start, ops[..t], plan[i].name));
    HostAddress(plan[j], 2 + Successes(start, ops[..u], plan[j].name));
    if i == j {
      SuccessCounts(start, ops, t, plan[i].name, ip);
      SuccessesGrow(start, ops, plan[i].name, t + 1, u);
    } else if ip == ip' {
      BlocksDisjoint(plan, i, j, Address(ip));
    }
  }

  // ---------- the stored list ----------

  /** The run issues `ip` in the subnet and does not release it from there afterwards. */
  ghost predicate Live(start: SubnetState, ops: seq<Op>, name: string, ip: string)
    requires Consistent(start)
  {
    exists t :: IssuedAt(start, ops, t, name, ip) && !FreedFrom(ops, t + 1, name, ip)
  }

  predicate FreedFrom(ops: seq<Op>, from: int, name: string, ip: string) {
    exists u | 0 <= u < |ops| :: from <= u && ops[u] == Free(name, ip)
  }

  lemma IssuedInPrefix(start: SubnetState, ops: seq<Op>, n: nat, t: int, name: string, ip: string)
    requires Consistent(start) && n <= |ops| && t < n
    ensures IssuedAt(start, ops[..n], t, name, ip) <==> IssuedAt(start, ops, t, name, ip)
  {
    hide After, Allocate;
    if 0 <= t {
      assert ops[..n][..t] == ops[..t];
    }
  }

  /** How the last operation changes which addresses are live. */
  lemma LiveStep(start: SubnetState, ops: seq<Op>, name: string, ip: string)
    requires Consistent(start) && ops != []
    ensures var n := |ops| - 1;
            Live(start, ops, name, ip)
            <==> IssuedAt(start, ops, n, name, ip)
                 || (Live(start, ops[..n], name, ip) && ops[n] != Free(name, ip))
  {
    hide IssuedAt;
    var n := |ops| - 1;
    var front := ops[..n];
    assert forall u :: 0 <= u < n ==> front[u] == ops[u];
    if Live(start, ops, name, ip) {
      var t :| IssuedAt(start, ops, t, name, ip) && !FreedFrom(ops, t + 1, name, ip);
      IssuedBelow(start, ops, t, name, ip);
      if t < n {
        IssuedInPrefix(start, ops, n, t, name, ip);
      }
    }
    if Live(start, front, name, ip) && ops[n] != Free(name, ip) {
      var t :| IssuedAt(start, front, t, name, ip) && !FreedFrom(front, t + 1, name, ip);
      IssuedBelow(start, front, t, name, ip);
      IssuedInPrefix(start, ops, n, t, name, ip);
      assert !FreedFrom(ops, t + 1, name, ip);
    }
    assert !FreedFrom(ops, n + 1, name, ip);
  }

  lemma IssuedBelow(start: SubnetState, ops: seq<Op>, t: int, name: string, ip: string)
    requires Consistent(start) && IssuedAt(start, ops, t, name, ip)
    ensures 0 <= t < |ops|
  {
  }

  ghost predicate InTable(st: SubnetState, cfg: SubnetInfo) {
    Consistent(st) && cfg.name in st.subnets && st.subnets[cfg.name] == cfg && ValidSubnet(cfg)
  }

  lemma TableEntry(st: SubnetState, cfg: SubnetInfo)
    requires InTable(st, cfg)
    ensures cfg.name in st.subnets && st.subnets[cfg.name] == cfg && Readable(cfg.networkAddress)
    ensures cfg.name in st.nextHost && cfg.name in st.stored
  {
    hide Readable, SoundInfo;
  }

  /** What one operation does to the list of one subnet. */
  lemma StepList(st: SubnetState, cfg: SubnetInfo, op: Op)
    requires InTable(st, cfg)
    ensures var list, list' := st.stored[cfg.name], Step(st, op).stored[cfg.name];
            match op
            case Free(name, ip) => list' == if name == cfg.name then Drop(list, ip) else list
            case Alloc(name) =>
              list' == if name == cfg.name && st.nextHost[name] <= cfg.maxHosts
                       then list + [HostText(cfg, st.nextHost[name])] else list
    ensures Step(st, op).nextHost[cfg.name]
            == st.nextHost[cfg.name] + if op == Alloc(cfg.name) && st.nextHost[cfg.name] <= cfg.maxHosts then 1 else 0
  {
    hide Readable, Address, Drop, HostText, Allocate, BlockSize;
    match op {
      case Free(name, ip) =>
      case Alloc(name) =>
        if name == cfg.name {
          AllocateInPlan(st, cfg);
        } else {
          OtherCounters(st, name, cfg.name);
        }
    }
  }

  lemma AfterInTable(start: SubnetState, plan: seq<SubnetInfo>, ops: seq<Op>, i: nat)
    requires Started(start, plan) && i < |plan|
    ensures InTable(After(start, ops), plan[i])
  {
    hide After, SoundInfo, ValidSubnet, Apart;
  }

  lemma LastIssued(start: SubnetState, ops: seq<Op>, cfg: SubnetInfo, ip: string)
    requires Consistent(start) && ops != [] && InTable(After(start, ops[..|ops| - 1]), cfg)
    ensures var n, host := |ops| - 1, After(start, ops[..|ops| - 1]).nextHost[cfg.name];
            IssuedAt(start, ops, n, cfg.name, ip)
            <==> ops[n] == Alloc(cfg.name) && host <= cfg.maxHosts && ip == HostText(cfg, host)
  {
    hide Readable, Address, HostText, Allocate, After, BlockSize, InTable, ValidSubnet, Consistent;
    TableEntry(After(start, ops[..|ops| - 1]), cfg);
    AllocateInPlan(After(start, ops[..|ops| - 1]), cfg);
  }

  /** The list stored for a subnet holds exactly the addresses issued there and not released since. */
  lemma {:induction false} StoredIsLive(start: SubnetState, plan: seq<SubnetInfo>, ops: seq<Op>, i: nat, ip: string)
    requires Started(start, plan) && i < |plan|
    ensures plan[i].name in After(start, ops).stored
    ensures ip in After(start, ops).stored[plan[i].name] <==> Live(start, ops, plan[i].name, ip)
  {
    hide InTable, ValidSubnet, Apart, SoundInfo, Step, Live, HostText, IssuedAt;
    AfterInTable(start, plan, ops, i);
    if ops == [] {
      NothingLive(start, plan[i].name, ip);
    } else {
      var n := |ops| - 1;
      StoredIsLive(start, plan, ops[..n], i, ip);
      LiveStep(start, ops, plan[i].name, ip);
      AfterInTable(start, plan, ops[..n], i);
      LastIssued(start, ops, plan[i], ip);
      StepList(After(start, ops[..n]), plan[i], ops[n]);
    }
  }

  lemma NothingLive(start: SubnetState, name: string, ip: string)
    requires Consistent(start)
    ensures !Live(start, [], name, ip)
  {
    hide Outcome;
  }

  /** Address texts in strictly increasing numerical order, all below `bound`. */
  ghost predicate AscendingBelow(ips: seq<string>, bound: int) {
    && (forall a :: 0 <= a < |ips| ==> Readable(ips[a]) && Address(ips[a]) < bound)
    && (forall a, b :: 0 <= a < b < |ips| ==> Address(ips[a]) < Address(ips[b]))
  }

  lemma {:induction false} DropKeepsOrder(ips: seq<string>, ip: string, bound: int)
    requires AscendingBelow(ips, bound)
    ensures AscendingBelow(Drop(ips, ip), bound)
  {
    hide Readable, Address;
    if ips != [] {
      var last := ips[|ips| - 1];
      assert AscendingBelow(ips[..|ips| - 1], Address(last));
      DropKeepsOrder(ips[..|ips| - 1], ip, Address(last));
    }
  }

  lemma AppendKeepsOrder(ips: seq<string>, ip: string, bound: int)
    requires AscendingBelow(ips, bound) && Readable(ip) && Address(ip) == bound
    ensures AscendingBelow(ips + [ip], bound + 1)
  {
    hide Readable, Address;
  }

  lemma StepKeepsOrder(st: SubnetState, cfg: SubnetInfo, op: Op)
    requires InTable(st, cfg) && st.nextHost[cfg.name] >= 2
    requires AscendingBelow(st.stored[cfg.name], Network(cfg) + st.nextHost[cfg.name])
    ensures AscendingBelow(Step(st, op).stored[cfg.name], Network(cfg) + Step(st, op).nextHost[cfg.name])
  {
    hide Readable, Address, Network, HostText, Step, Drop, BlockSize, Covers, AscendingBelow, SoundInfo;
    var list, next := st.stored[cfg.name], st.nextHost[cfg.name];
    StepList(st, cfg, op);
    if op.Free? {
      DropKeepsOrder(list, op.ip, Network(cfg) + next);
    } else if next <= cfg.maxHosts {
      HostAddress(cfg, next);
      AppendKeepsOrder(list, HostText(cfg, next), Network(cfg) + next);
    }
  }

  lemma InTableStays(st: SubnetState, st': SubnetState, cfg: SubnetInfo)
    requires InTable(st, cfg) && Consistent(st') && st'.subnets == st.subnets
    ensures InTable(st', cfg) && Readable(cfg.networkAddress)
    ensures cfg.name in st'.stored && cfg.name in st'.nextHost
  {
    hide Readable, SoundInfo;
  }

  lemma NothingRun(start: SubnetState)
    requires Consistent(start)
    ensures After(start, []) == start
  {
  }

  lemma AfterStep(start: SubnetState, ops: seq<Op>)
    requires Consistent(start) && ops != []
    ensures After(start, ops) == Step(After(start, ops[..|ops| - 1]), ops[|ops| - 1])
  {
    hide Step, SoundInfo;
  }

  lemma {:induction false} RunKeepsOrder(start: SubnetState, cfg: SubnetInfo, ops: seq<Op>)
    requires InTable(start, cfg) && start.stored[cfg.name] == [] && start.nextHost[cfg.name] == 2
    ensures InTable(After(start, ops), cfg) && After(start, ops).nextHost[cfg.name] >= 2
    ensures AscendingBelow(After(start, ops).stored[cfg.name], Network(cfg) + After(start, ops).nextHost[cfg.name])
  {
    hide Readable, Address, Step, Network, AscendingBelow, SoundInfo, After;
    InTableStays(start, After(start, ops), cfg);
    TableEntry(start, cfg);
    if ops == [] {
      EmptyAscends();
      NothingRun(start);
    } else {
      var n := |ops| - 1;
      AfterStep(start, ops);
      RunKeepsOrder(start, cfg, ops[..n]);
      StepList(After(start, ops[..n]), cfg, ops[n]);
      StepKeepsOrder(After(start, ops[..n]), cfg, ops[n]);
    }
  }

  lemma EmptyAscends()
    ensures forall bound :: AscendingBelow([], bound)
  {
  }

  /** The stored list is in strictly increasing order, and every address in it is below the next one
      the subnet would issue. */
  lemma StoredIsAscending(start: SubnetState, plan: seq<SubnetInfo>, ops: seq<Op>, i: nat)
    requires Started(start, plan) && i < |plan|
    ensures InTable(After(start, ops), plan[i])
    ensures AscendingBelow(After(start, ops).stored[plan[i].name],
                           Network(plan[i]) + After(start, ops).nextHost[plan[i].name])
  {
    hide Readable, Address, Apart, SoundInfo, Step, Network, AscendingBelow, After, ValidSubnet;
    RunKeepsOrder(start, plan[i], ops);
  }
}
