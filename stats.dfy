/** `formatStats` and `formatBytes` in main.ts: the summary of one container's statistics as
    the dashboard shows it, computed from the runtime's statistics document.

    The document is the value `JSON.parse` returns, with the fields main.ts reads; its numbers
    are byte and tick counters, so they are non-negative integers.  Where main.ts prints a
    quotient with `toFixed(2)`, the model records the quotient and the text that follows it,
    not the rounded digits. */
module Stats {
  import opened Common
  import opened Text
  import opened Radix

  // ---------------------------------------------------------------------------------------
  // printed values

  /** What a field of the summary prints: exact text, or the quotient `num / den` printed with
      two decimals and followed by `suffix`.  The two-decimal digits (and the `Infinity` or
      `NaN` a zero `den` gives) are not modelled. */
  datatype Printed = Exact(text: string) | TwoDecimals(num: int, den: int, suffix: string)

  datatype Unit = B | KiB | MiB | GiB

  function Scale(u: Unit): nat
  {
    match u
    case B => 1
    case KiB => 1024
    case MiB => 1024 * 1024
    case GiB => 1024 * 1024 * 1024
  }

  function UnitName(u: Unit): string
  {
    match u
    case B => "B"
    case KiB => "KiB"
    case MiB => "MiB"
    case GiB => "GiB"
  }

  /** The position of a unit in the order B < KiB < MiB < GiB. */
  function Rank(u: Unit): nat
  {
    match u
    case B => 0
    case KiB => 1
    case MiB => 2
    case GiB => 3
  }

  /** The unit `formatBytes` picks by its thresholds: the largest unit of which there is at
      least one whole, so that below GiB fewer than 1024 of them are shown. */
  function UnitOf(bytes: nat): (u: Unit)
    ensures u == B || Scale(u) <= bytes
    ensures u == GiB || bytes < 1024 * Scale(u)
  {
    if bytes < 1024 then B
    else if bytes < 1024 * 1024 then KiB
    else if bytes < 1024 * 1024 * 1024 then MiB
    else GiB
  }

  /** Exactly one unit satisfies the condition `UnitOf` promises: the choice is forced. */
  lemma UnitOfUnique(bytes: nat, u: Unit)
    ensures u == UnitOf(bytes)
        <==> (u == B || Scale(u) <= bytes) && (u == GiB || bytes < 1024 * Scale(u))
  {
  }

  /** More bytes never pick a smaller unit. */
  lemma UnitOfMonotone(a: nat, b: nat)
    requires a <= b
    ensures Rank(UnitOf(a)) <= Rank(UnitOf(b))
  {
  }

  /** `formatBytes(bytes)`. */
  function FormatBytes(bytes: nat): (r: Printed)
    ensures r.Exact? <==> UnitOf(bytes) == B
    ensures r.TwoDecimals? ==> r.num == bytes && r.den == Scale(UnitOf(bytes))
    ensures r.TwoDecimals? ==> r.suffix == " " + UnitName(UnitOf(bytes))
  {
    if bytes < 1024 then Exact(Decimal(bytes) + " B")
    else if bytes < 1024 * 1024 then TwoDecimals(bytes, 1024, " KiB")
    else if bytes < 1024 * 1024 * 1024 then TwoDecimals(bytes, 1024 * 1024, " MiB")
    else TwoDecimals(bytes, 1024 * 1024 * 1024, " GiB")
  }

  /** The printed quotient of a scaled count has a whole part of at least 1, and of at most
      1023 below GiB. */
  lemma ScaledWholePart(bytes: nat)
    requires FormatBytes(bytes).TwoDecimals?
    ensures var r := FormatBytes(bytes);
      && r.den > 0
      && 1 <= bytes / r.den
      && (UnitOf(bytes) != GiB ==> bytes / r.den < 1024)
  {
  }

  /** A count below 1024 is printed as its decimal digits and ` B`, and reading the digits back
      gives the count: the text is exact. */
  lemma ExactBytesRoundTrip(bytes: nat)
    requires bytes < 1024
    ensures var t := FormatBytes(bytes).text;
      && |t| >= 3 && t[|t| - 2..] == " B"
      && AllDigits(t[..|t| - 2], 10) && Value(t[..|t| - 2], 10) == bytes
  {
    var t := FormatBytes(bytes).text;
    assert t[..|t| - 2] == Decimal(bytes);
    RenderValue(bytes, 10);
  }

  // ---------------------------------------------------------------------------------------
  // the statistics document

  datatype CpuUsage = CpuUsage(totalUsage: nat, percpuUsage: Option<seq<nat>>)
  datatype CpuStats = CpuStats(cpuUsage: CpuUsage, systemCpuUsage: nat, onlineCpus: nat)
  datatype MemoryStats = MemoryStats(usage: nat, limit: nat)
  datatype Network = Network(rxBytes: nat, txBytes: nat)

  /** The fields of the statistics document that main.ts reads; `networks` is absent for a
      container without networking, and its interfaces are listed in `Object.values` order. */
  datatype StatsDocument = StatsDocument(
    id: string,
    name: string,
    cpuStats: CpuStats,
    precpuStats: CpuStats,
    memoryStats: MemoryStats,
    networks: Option<seq<Network>>,
    pids: nat)

  /** The summary `formatStats` returns. */
  datatype Summary = Summary(
    containerId: string,
    name: string,
    cpuUsage: Printed,
    memoryUsage: Printed,
    pids: nat,
    usedMemory: Printed,
    availableMemory: Printed,
    cpuDelta: int,
    systemCpuDelta: int,
    numberCpus: nat,
    networkRead: Printed,
    networkWrite: Printed)

  /** `xs.reduce((acc, x) => acc + count(x), 0)`: the counts added from the left. */
  function Total<T>(xs: seq<T>, count: T -> nat): nat
  {
    if |xs| == 0 then 0 else Total(AllButLast(xs), count) + count(Last(xs))
  }

  function Rx(n: Network): nat { n.rxBytes }
  function Tx(n: Network): nat { n.txBytes }

  /** `networkRead`: the received bytes of all interfaces, 0 when `networks` is absent. */
  function NetworkRead(networks: Option<seq<Network>>): nat
  {
    if networks.Some? then Total(networks.value, Rx) else 0
  }

  /** `networkWrite`: the sent bytes of all interfaces, 0 when `networks` is absent. */
  function NetworkWrite(networks: Option<seq<Network>>): nat
  {
    if networks.Some? then Total(networks.value, Tx) else 0
  }

  /** `cpu_usage?.percpu_usage?.length || online_cpus`: an absent or empty per-CPU list falls
      back to the count of online CPUs. */
  function NumberCpus(cpu: CpuStats): (n: nat)
    ensures cpu.cpuUsage.percpuUsage.Some? && |cpu.cpuUsage.percpuUsage.value| > 0
        ==> n == |cpu.cpuUsage.percpuUsage.value|
    ensures cpu.cpuUsage.percpuUsage.None? || |cpu.cpuUsage.percpuUsage.value| == 0
        ==> n == cpu.onlineCpus
  {
    match cpu.cpuUsage.percpuUsage
    case Some(percpu) => if |percpu| > 0 then |percpu| else cpu.onlineCpus
    case None => cpu.onlineCpus
  }

  /** `formatStats(stats)` for the document `JSON.parse(stats)` returns. */
  function FormatStats(s: StatsDocument): (r: Summary)
    ensures |r.containerId| == if |s.id| < 12 then |s.id| else 12
    ensures r.containerId == s.id[..|r.containerId|]
    ensures |s.name| > 0 ==> [s.name[0]] + r.name == s.name
    ensures |s.name| == 0 ==> r.name == ""
    ensures s.precpuStats.cpuUsage.totalUsage + r.cpuDelta == s.cpuStats.cpuUsage.totalUsage
    ensures s.precpuStats.systemCpuUsage + r.systemCpuDelta == s.cpuStats.systemCpuUsage
    ensures r.networkRead == FormatBytes(NetworkRead(s.networks))
    ensures r.networkWrite == FormatBytes(NetworkWrite(s.networks))
    ensures r.usedMemory == FormatBytes(s.memoryStats.usage)
    ensures r.availableMemory == FormatBytes(s.memoryStats.limit)
    ensures r.numberCpus == NumberCpus(s.cpuStats)
    ensures r.cpuUsage == TwoDecimals(r.cpuDelta * r.numberCpus * 100, r.systemCpuDelta, "")
    ensures r.memoryUsage == TwoDecimals(s.memoryStats.usage * 100, s.memoryStats.limit, "")
    ensures r.pids == s.pids
  {
    var cpuDelta := s.cpuStats.cpuUsage.totalUsage - s.precpuStats.cpuUsage.totalUsage;
    var systemCpuDelta := s.cpuStats.systemCpuUsage - s.precpuStats.systemCpuUsage;
    var numberCpus := NumberCpus(s.cpuStats);
    Summary(
      Prefix(s.id, 12),
      DropFirst(s.name, 1),
      TwoDecimals(cpuDelta * numberCpus * 100, systemCpuDelta, ""),
      TwoDecimals(s.memoryStats.usage * 100, s.memoryStats.limit, ""),
      s.pids,
      FormatBytes(s.memoryStats.usage),
      FormatBytes(s.memoryStats.limit),
      cpuDelta,
      systemCpuDelta,
      numberCpus,
      FormatBytes(NetworkRead(s.networks)),
      FormatBytes(NetworkWrite(s.networks)))
  }

  // ---------------------------------------------------------------------------------------
  // sums over interfaces

  lemma {:induction false} TotalAppend<T>(xs: seq<T>, ys: seq<T>, count: T -> nat)
    ensures Total(xs + ys, count) == Total(xs, count) + Total(ys, count)
    decreases |ys|
  {
    if |ys| == 0 {
      assert xs + ys == xs;
    } else {
      assert AllButLast(xs + ys) == xs + AllButLast(ys);
      assert Last(xs + ys) == Last(ys);
      TotalAppend(xs, AllButLast(ys), count);
    }
  }

  /** The total does not depend on the order in which the interfaces are listed. */
  lemma {:induction false} TotalPermutation<T>(xs: seq<T>, ys: seq<T>, count: T -> nat)
    requires multiset(xs) == multiset(ys)
    ensures Total(xs, count) == Total(ys, count)
    decreases |xs|
  {
    if |xs| > 0 {
      var x := Last(xs);
      assert xs == AllButLast(xs) + [x];
      assert multiset(xs) == multiset(AllButLast(xs)) + multiset{x};
      assert x in multiset(ys);
      var i :| 0 <= i < |ys| && ys[i] == x;
      var rest := ys[..i] + ys[i + 1..];
      TotalRemove(ys, i, count);
      TotalPermutation(AllButLast(xs), rest, count);
    } else {
      assert |ys| == 0;
    }
  }

  /** Taking one element out of a list takes its count out of the total. */
  lemma TotalRemove<T>(ys: seq<T>, i: nat, count: T -> nat)
    requires i < |ys|
    ensures var rest := ys[..i] + ys[i + 1..];
      && Total(ys, count) == Total(rest, count) + count(ys[i])
      && multiset(rest) == multiset(ys) - multiset{ys[i]}
  {
    var x := ys[i];
    assert ys == ys[..i] + [x] + ys[i + 1..];
    TotalAppend(ys[..i] + [x], ys[i + 1..], count);
    TotalAppend(ys[..i], [x], count);
    TotalAppend(ys[..i], ys[i + 1..], count);
    assert AllButLast([x]) == [];
  }

  /** Each interface's count is part of the total: no interface is lost. */
  lemma {:induction false} TotalBounds<T>(xs: seq<T>, count: T -> nat, i: nat)
    requires i < |xs|
    ensures count(xs[i]) <= Total(xs, count)
  {
    if i < |xs| - 1 {
      TotalBounds(AllButLast(xs), count, i);
    }
  }
}
