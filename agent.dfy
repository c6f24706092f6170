/** `ContainerStats` and `formatBytes` in agent/agent.go: the agent's summary of one
    container's statistics, the Go twin of `formatStats` in main.ts.

    The statistics client call and the JSON decoder are the outcome `Fetch`; the decoded
    document keeps the fields the agent reads, with Go's unsigned widths, and `Networks`, a Go
    map, is listed in the order `range` visits it.  Where the agent prints a quotient with
    `%.2f`, the model records the quotient and the text that follows it, not the rounded
    digits.  A slice expression out of range panics; the model returns `Panicked`. */
module Agent {
  import opened Common
  import opened Text
  import opened Radix
  import opened Stats

  const Modulus: int := 0x1_0000_0000_0000_0000

  newtype u64 = x: int | 0 <= x < 0x1_0000_0000_0000_0000
  newtype u32 = x: int | 0 <= x < 0x1_0000_0000

  /** `a + b` on `uint64`: the sum modulo 2^64. */
  function Add64(a: u64, b: u64): (r: u64)
    ensures r as int % Modulus == (a as int + b as int) % Modulus
    ensures a as int + b as int < Modulus ==> r as int == a as int + b as int
  {
    if a as int + b as int < Modulus then a + b else (a as int + b as int - Modulus) as u64
  }

  /** `a - b` on `uint64`: adding `b` back gives `a` again, modulo 2^64. */
  function Sub64(a: u64, b: u64): (r: u64)
    ensures (r as int + b as int) % Modulus == a as int
    ensures b <= a ==> r as int == a as int - b as int
  {
    if b <= a then a - b else (a as int - b as int + Modulus) as u64
  }

  datatype NetworkStats = NetworkStats(rxBytes: u64, txBytes: u64)
  datatype CPUUsage = CPUUsage(totalUsage: u64, percpuUsage: seq<u64>)
  datatype CPUStats = CPUStats(cpuUsage: CPUUsage, systemUsage: u64, onlineCPUs: u32)
  datatype MemoryStats = MemoryStats(usage: u64, limit: u64)

  /** The fields of the decoded statistics response that the agent reads. */
  datatype StatsResponse = StatsResponse(
    cpuStats: CPUStats,
    preCPUStats: CPUStats,
    memoryStats: MemoryStats,
    pidsCurrent: u64,
    networks: seq<NetworkStats>)

  /** The container as listed by the runtime: its full ID and its names (each with a leading
      `/`). */
  datatype Container = Container(id: string, names: seq<string>)

  /** The statistics request: it fails, its body does not decode, or it decodes. */
  datatype Fetch = FetchFailed | DecodeFailed | Decoded(stats: StatsResponse)

  /** The `ContainerDetails` record: every field is a string, built by `fmt.Sprintf` or by
      `formatBytes`. */
  datatype ContainerDetails = ContainerDetails(
    id: string,
    name: string,
    cpuUsage: Printed,
    memUsed: Printed,
    memAvailable: Printed,
    memUsage: Printed,
    netRead: Printed,
    netWrite: Printed,
    pids: Printed)

  /** `ContainerDetails{}`: all fields empty. */
  const ZeroDetails: ContainerDetails :=
    ContainerDetails("", "", Exact(""), Exact(""), Exact(""), Exact(""), Exact(""), Exact(""), Exact(""))

  datatype Outcome = Returned(details: ContainerDetails) | Panicked

  /** `formatBytes(bytes uint64)`: the same thresholds as the dashboard's `formatBytes`, so a
      count gets the same unit and the same quotient on both sides.  The printed digits can
      still differ on an exact tie, which `%.2f` rounds to even and `toFixed(2)` rounds up. */
  function FormatBytes64(bytes: u64): (r: Printed)
    ensures r == Stats.FormatBytes(bytes as nat)
  {
    if bytes < 1024 then Exact(Decimal(bytes as nat) + " B")
    else if bytes < 1024 * 1024 then TwoDecimals(bytes as int, 1024, " KiB")
    else if bytes < 1024 * 1024 * 1024 then TwoDecimals(bytes as int, 1024 * 1024, " MiB")
    else TwoDecimals(bytes as int, 1024 * 1024 * 1024, " GiB")
  }

  function RxCount(n: NetworkStats): nat { n.rxBytes as nat }
  function TxCount(n: NetworkStats): nat { n.txBytes as nat }

  /** What the `uint64` accumulator of a loop over the networks ends with: the exact total,
      modulo 2^64. */
  function WrappedTotal(nets: seq<NetworkStats>, count: NetworkStats -> nat): (r: u64)
    ensures r as int == Total(nets, count) % Modulus
  {
    (Total(nets, count) % Modulus) as u64
  }

  /** `numCPUs`: the length of the per-CPU list, or the online CPU count when it is empty. */
  function NumCPUs(cpu: CPUStats): (n: nat)
    ensures |cpu.cpuUsage.percpuUsage| > 0 ==> n == |cpu.cpuUsage.percpuUsage|
    ensures |cpu.cpuUsage.percpuUsage| == 0 ==> n == cpu.onlineCPUs as nat
  {
    if |cpu.cpuUsage.percpuUsage| == 0 then cpu.onlineCPUs as nat else |cpu.cpuUsage.percpuUsage|
  }

  /** `strings.Join(container.Names, ",")`. */
  function JoinedNames(c: Container): string
  {
    Join(c.names, ",")
  }

  /** The outcome of `ContainerStats` for a decoded response: a panic exactly when one of the
      two slice expressions is out of range, otherwise a record whose ID is the first 12 bytes
      of the container ID and whose name is the joined names without their first byte. */
  function Details(c: Container, s: StatsResponse): (r: Outcome)
    ensures r.Panicked? <==> |c.id| < 12 || |JoinedNames(c)| == 0
    ensures r.Returned? ==> |r.details.id| == 12 && r.details.id == c.id[..|r.details.id|]
    ensures r.Returned? ==> [JoinedNames(c)[0]] + r.details.name == JoinedNames(c)
  {
    if |c.id| < 12 || |JoinedNames(c)| == 0 then Panicked
    else
      var cpuDelta := Sub64(s.cpuStats.cpuUsage.totalUsage, s.preCPUStats.cpuUsage.totalUsage);
      var sysCPUDelta := Sub64(s.cpuStats.systemUsage, s.preCPUStats.systemUsage);
      Returned(ContainerDetails(
        c.id[..12],
        JoinedNames(c)[1..],
        TwoDecimals(cpuDelta as int * NumCPUs(s.cpuStats) * 100, sysCPUDelta as int, "%"),
        FormatBytes64(s.memoryStats.usage),
        FormatBytes64(s.memoryStats.limit),
        TwoDecimals(s.memoryStats.usage as int * 100, s.memoryStats.limit as int, "%"),
        FormatBytes64(WrappedTotal(s.networks, RxCount)),
        FormatBytes64(WrappedTotal(s.networks, TxCount)),
        Exact(Decimal(s.pidsCurrent as nat))))
  }

  /** Every field of the record is empty. */
  predicate AllEmpty(d: ContainerDetails)
  {
    && d.id == "" && d.name == ""
    && d.cpuUsage == Exact("") && d.memUsed == Exact("") && d.memAvailable == Exact("")
    && d.memUsage == Exact("") && d.netRead == Exact("") && d.netWrite == Exact("")
    && d.pids == Exact("")
  }

  /** The outcome of `ContainerStats`: a failed request or decode returns the zero record. */
  function ContainerStatsSpec(c: Container, fetch: Fetch): (r: Outcome)
    ensures !fetch.Decoded? ==> r.Returned? && AllEmpty(r.details)
    ensures fetch.Decoded? ==> r == Details(c, fetch.stats)
  {
    match fetch
    case Decoded(s) => Details(c, s)
    case _ => Returned(ZeroDetails)
  }

  lemma ModAdd(a: int, b: int)
    ensures (a % Modulus + b) % Modulus == (a + b) % Modulus
  {
    var q := a / Modulus;
    assert a == q * Modulus + a % Modulus;
    assert a + b == (a % Modulus + b) + q * Modulus;
  }

  /** One turn of the accumulation loop: the wrapped accumulator stays the exact total of the
      networks visited so far, modulo 2^64. */
  lemma AccumulateStep(nets: seq<NetworkStats>, i: nat, count: NetworkStats -> nat, acc: u64, x: u64)
    requires i < |nets| && x as nat == count(nets[i])
    requires acc as int == Total(nets[..i], count) % Modulus
    ensures Add64(acc, x) as int == Total(nets[..i + 1], count) % Modulus
  {
    assert AllButLast(nets[..i + 1]) == nets[..i];
    assert Last(nets[..i + 1]) == nets[i];
    ModAdd(Total(nets[..i], count), x as int);
  }

  /** `ContainerStats`: a failed request or decode gives the zero record; otherwise the network
      counters are accumulated in `uint64`, the CPU deltas are `uint64` differences, and the
      record is built, panicking on a container ID shorter than 12 bytes or an empty list of
      names. */
  method ContainerStats(c: Container, fetch: Fetch) returns (r: Outcome)
    ensures r == ContainerStatsSpec(c, fetch)
  {
    if !fetch.Decoded? {
      return Returned(ZeroDetails);
    }
    var s := fetch.stats;
    var netRead: u64 := 0;
    var netWrite: u64 := 0;
    for i := 0 to |s.networks|
      invariant netRead as int == Total(s.networks[..i], RxCount) % Modulus
      invariant netWrite as int == Total(s.networks[..i], TxCount) % Modulus
    {
      var netStat := s.networks[i];
      AccumulateStep(s.networks, i, RxCount, netRead, netStat.rxBytes);
      AccumulateStep(s.networks, i, TxCount, netWrite, netStat.txBytes);
      netRead := Add64(netRead, netStat.rxBytes);
      netWrite := Add64(netWrite, netStat.txBytes);
    }
    assert s.networks[..|s.networks|] == s.networks;
    var cpuDelta := Sub64(s.cpuStats.cpuUsage.totalUsage, s.preCPUStats.cpuUsage.totalUsage);
    var sysCPUDelta := Sub64(s.cpuStats.systemUsage, s.preCPUStats.systemUsage);
    var numCPUs := |s.cpuStats.cpuUsage.percpuUsage|;
    if numCPUs == 0 {
      numCPUs := s.cpuStats.onlineCPUs as int;
    }
    if |c.id| < 12 {
      return Panicked;
    }
    var joined := Join(c.names, ",");
    if |joined| == 0 {
      return Panicked;
    }
    r := Returned(ContainerDetails(
      c.id[..12],
      joined[1..],
      TwoDecimals(cpuDelta as int * numCPUs * 100, sysCPUDelta as int, "%"),
      FormatBytes64(s.memoryStats.usage),
      FormatBytes64(s.memoryStats.limit),
      TwoDecimals(s.memoryStats.usage as int * 100, s.memoryStats.limit as int, "%"),
      FormatBytes64(netRead),
      FormatBytes64(netWrite),
      Exact(Decimal(s.pidsCurrent as nat))));
  }

  // ---------------------------------------------------------------------------------------
  // properties

  /** `uint64` subtraction wraps: when the previous counter is ahead of the current one, the
      delta is the true (negative) difference plus 2^64. */
  lemma CpuDeltaWraps(current: u64, previous: u64)
    requires current < previous
    ensures Sub64(current, previous) as int == current as int - previous as int + Modulus
  {
  }

  /** The network totals do not depend on the order in which `range` visits the map. */
  lemma NetworkOrderIrrelevant(c: Container, s: StatsResponse, t: StatsResponse)
    requires t == s.(networks := t.networks)
    requires multiset(s.networks) == multiset(t.networks)
    ensures Details(c, s) == Details(c, t)
  {
    TotalPermutation(s.networks, t.networks, RxCount);
    TotalPermutation(s.networks, t.networks, TxCount);
  }

  /** Below 2^64 the accumulated counters are the exact totals; with no networks they are 0. */
  lemma NetTotalsExact(nets: seq<NetworkStats>)
    requires Total(nets, RxCount) < Modulus && Total(nets, TxCount) < Modulus
    ensures WrappedTotal(nets, RxCount) as int == Total(nets, RxCount)
    ensures WrappedTotal(nets, TxCount) as int == Total(nets, TxCount)
    ensures |nets| == 0 ==> WrappedTotal(nets, RxCount) == 0 && WrappedTotal(nets, TxCount) == 0
  {
  }

  // ---------------------------------------------------------------------------------------
  // the agent and the dashboard

  /** The interfaces of a decoded response as the dashboard's document lists them. */
  function Interfaces(nets: seq<NetworkStats>): (r: seq<Network>)
    ensures |r| == |nets|
    ensures forall i :: 0 <= i < |nets| ==> r[i] == Network(nets[i].rxBytes as nat, nets[i].txBytes as nat)
  {
    if |nets| == 0 then []
    else Interfaces(AllButLast(nets)) + [Network(Last(nets).rxBytes as nat, Last(nets).txBytes as nat)]
  }

  lemma {:induction false} InterfacesTotal(nets: seq<NetworkStats>)
    ensures Total(Interfaces(nets), Rx) == Total(nets, RxCount)
    ensures Total(Interfaces(nets), Tx) == Total(nets, TxCount)
  {
    if |nets| > 0 {
      InterfacesTotal(AllButLast(nets));
      assert AllButLast(Interfaces(nets)) == Interfaces(AllButLast(nets));
    }
  }

  function CpuDocument(cpu: CPUStats): CpuStats
  {
    var percpu := cpu.cpuUsage.percpuUsage;
    CpuStats(
      CpuUsage(cpu.cpuUsage.totalUsage as nat, Some(seq(|percpu|, i requires 0 <= i < |percpu| => percpu[i] as nat))),
      cpu.systemUsage as nat,
      cpu.onlineCPUs as nat)
  }

  /** The statistics document the dashboard reads for the same container and the same
      sample; `name` is the one name the runtime gives the container in that document. */
  function Document(c: Container, s: StatsResponse, name: string): StatsDocument
  {
    StatsDocument(
      c.id,
      name,
      CpuDocument(s.cpuStats),
      CpuDocument(s.preCPUStats),
      Stats.MemoryStats(s.memoryStats.usage as nat, s.memoryStats.limit as nat),
      Some(Interfaces(s.networks)),
      s.pidsCurrent as nat)
  }

  /** The ID and the name.  Both sides cut the same ID at the same place.  The agent joins all
      the container's names while the dashboard shows the document's one name, so the names
      agree when the container has that name alone and differ when other names follow it. */
  lemma IdentityAgrees(c: Container, s: StatsResponse, name: string)
    requires |c.id| >= 12 && |JoinedNames(c)| > 0
    ensures var d := Details(c, s).details;
      var m := FormatStats(Document(c, s, name));
      && d.id == m.containerId
      && (c.names == [name] ==> d.name == m.name)
      && (|c.names| >= 2 && c.names[0] == name && |name| > 0 ==> d.name != m.name)
  {
    var d := Details(c, s).details;
    var m := FormatStats(Document(c, s, name));
    if c.names == [name] {
      assert [JoinedNames(c)[0]] + m.name == JoinedNames(c);
    }
    if |c.names| >= 2 && c.names[0] == name && |name| > 0 {
      assert JoinedNames(c) == name + "," + Join(c.names[1..], ",");
      assert |d.name| == |JoinedNames(c)| - 1 >= |name| > |m.name|;
    }
  }

  /** The network figures agree while the totals stay below 2^64. */
  lemma NetworkAgrees(c: Container, s: StatsResponse, name: string)
    requires |c.id| >= 12 && |JoinedNames(c)| > 0
    ensures var d := Details(c, s).details;
      var m := FormatStats(Document(c, s, name));
      && (Total(s.networks, RxCount) < Modulus ==> d.netRead == m.networkRead)
      && (Total(s.networks, TxCount) < Modulus ==> d.netWrite == m.networkWrite)
  {
    var d := Details(c, s).details;
    var m := FormatStats(Document(c, s, name));
    InterfacesTotal(s.networks);
    assert m.networkRead == Stats.FormatBytes(Total(s.networks, RxCount));
    assert m.networkWrite == Stats.FormatBytes(Total(s.networks, TxCount));
    assert d.netRead == FormatBytes64(WrappedTotal(s.networks, RxCount));
    assert d.netWrite == FormatBytes64(WrappedTotal(s.networks, TxCount));
    if Total(s.networks, RxCount) < Modulus {
      UnwrappedPrintsAlike(Total(s.networks, RxCount), WrappedTotal(s.networks, RxCount));
    }
    if Total(s.networks, TxCount) < Modulus {
      UnwrappedPrintsAlike(Total(s.networks, TxCount), WrappedTotal(s.networks, TxCount));
    }
  }

  lemma UnwrappedPrintsAlike(total: nat, wrapped: u64)
    requires total < Modulus && wrapped as int == total % Modulus
    ensures FormatBytes64(wrapped) == Stats.FormatBytes(total)
  {
    assert wrapped as nat == total;
  }

  /** The CPU quotient agrees while neither counter goes backwards. */
  lemma CpuAgrees(c: Container, s: StatsResponse, name: string)
    requires |c.id| >= 12 && |JoinedNames(c)| > 0
    requires s.preCPUStats.cpuUsage.totalUsage <= s.cpuStats.cpuUsage.totalUsage
    requires s.preCPUStats.systemUsage <= s.cpuStats.systemUsage
    ensures var d := Details(c, s).details;
      var m := FormatStats(Document(c, s, name));
      d.cpuUsage.num == m.cpuUsage.num && d.cpuUsage.den == m.cpuUsage.den
  {
    var doc := Document(c, s, name);
    assert NumberCpus(doc.cpuStats) == NumCPUs(s.cpuStats);
  }

  /** When the agent does not panic, it records what the dashboard computes from the same
      sample: the same ID, memory units and quotients, and process count; the same name when
      the container has only the document's name; the same network units and quotients unless
      a total reaches 2^64; and the same CPU quotient unless a counter went backwards. */
  lemma AgentMatchesDashboard(c: Container, s: StatsResponse, name: string)
    requires |c.id| >= 12 && |JoinedNames(c)| > 0
    ensures var d := Details(c, s).details;
      var m := FormatStats(Document(c, s, name));
      && d.id == m.containerId
      && (c.names == [name] ==> d.name == m.name)
      && (|c.names| >= 2 && c.names[0] == name && |name| > 0 ==> d.name != m.name)
      && d.memUsed == m.usedMemory && d.memAvailable == m.availableMemory
      && d.memUsage.num == m.memoryUsage.num && d.memUsage.den == m.memoryUsage.den
      && d.pids == Exact(Decimal(m.pids))
      && (Total(s.networks, RxCount) < Modulus ==> d.netRead == m.networkRead)
      && (Total(s.networks, TxCount) < Modulus ==> d.netWrite == m.networkWrite)
      && (s.preCPUStats.cpuUsage.totalUsage <= s.cpuStats.cpuUsage.totalUsage
          && s.preCPUStats.systemUsage <= s.cpuStats.systemUsage
          ==> d.cpuUsage.num == m.cpuUsage.num && d.cpuUsage.den == m.cpuUsage.den)
  {
    IdentityAgrees(c, s, name);
    NetworkAgrees(c, s, name);
    if s.preCPUStats.cpuUsage.totalUsage <= s.cpuStats.cpuUsage.totalUsage
      && s.preCPUStats.systemUsage <= s.cpuStats.systemUsage {
      CpuAgrees(c, s, name);
    }
  }
}
