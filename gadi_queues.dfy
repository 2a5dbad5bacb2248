/**
 * The registry of job queues: each queue's node size, memory, charge rate
 * and walltime tiers, the lookup of a queue by name and the lookup of the
 * walltime limit that applies to a job of a given CPU count.
 */
module GadiQueues {
  import opened Wrappers

  /** Jobs of up to `cpuCount` CPUs may run for at most `hours` hours. */
  datatype Tier = Tier(hours: int, cpuCount: int)

  /**
   * A queue. It is built once and never changed. The charge rate per
   * resource hour is kept in hundredths (every rate in the table is a whole
   * number of hundredths); nothing in the model reads it or the memory.
   */
  datatype Queue = Queue(
    name: string,
    chargeRateHundredths: int,
    cpusPerNode: int,
    memPerNode: int,
    walltimeLimits: seq<Tier>)

  /** The errors raised by the lookups. */
  datatype QueueError =
    | CpuCountExceedsMaximum(ncpu: int, maximum: int, queue: string)
    | UnknownQueue(name: string)

  const QueueNormal: string := "normal"

  /** The queues of the system, in the order the lookups scan them. */
  const Queues: seq<Queue> := [
    Queue(QueueNormal, 200, 48, 192, [Tier(48, 672), Tier(24, 1440), Tier(10, 2976), Tier(5, 20736)]),
    Queue("express", 600, 48, 192, [Tier(24, 48), Tier(5, 3168)]),
    Queue("hugemem", 300, 48, 1470, [Tier(48, 48), Tier(24, 96), Tier(5, 192)]),
    Queue("megamem", 500, 48, 2990, [Tier(48, 48), Tier(24, 96)]),
    Queue("gpuvolta", 300, 12, 382, [Tier(48, 96), Tier(24, 192), Tier(5, 960)]),
    Queue("normalbw", 125, 28, 256, [Tier(48, 336), Tier(24, 840), Tier(10, 1736), Tier(5, 10080)]),
    Queue("expressbw", 375, 28, 256, [Tier(24, 280), Tier(5, 1848)]),
    Queue("normalsl", 150, 32, 192, [Tier(48, 288), Tier(24, 608), Tier(10, 1984), Tier(5, 3200)]),
    Queue("hugemembw", 125, 28, 1020, [Tier(48, 28), Tier(12, 140)]),
    Queue("megamembw", 125, 64, 3000, [Tier(48, 32), Tier(12, 64)]),
    Queue("copyq", 200, 1, 192, [Tier(1, 10)]),
    Queue("dgxa100", 450, 16, 2000, [Tier(48, 128), Tier(5, 256)]),
    Queue("normalsr", 200, 104, 500, [Tier(48, 1040), Tier(24, 2080), Tier(10, 4160), Tier(5, 10400)]),
    Queue("expresssr", 600, 104, 500, [Tier(24, 1040), Tier(5, 2080)])
  ]

  // ---------------------------------------------------------------------
  // get_walltime_limit
  // ---------------------------------------------------------------------

  /**
   * The scan of `get_walltime_limit` from some tier on: `maximum` is the CPU
   * count of the last tier passed over (0 before the first).
   */
  function WalltimeLimitFrom(tiers: seq<Tier>, ncpu: int, queue: string, maximum: int): Result<int, QueueError>
  {
    if tiers == [] then Failure(CpuCountExceedsMaximum(ncpu, maximum, queue))
    else if ncpu <= tiers[0].cpuCount then Success(tiers[0].hours)
    else WalltimeLimitFrom(tiers[1..], ncpu, queue, tiers[0].cpuCount)
  }

  /** The walltime limit of a job of `ncpu` CPUs in queue q. */
  function WalltimeLimit(q: Queue, ncpu: int): Result<int, QueueError>
  {
    WalltimeLimitFrom(q.walltimeLimits, ncpu, q.name, 0)
  }

  /** The CPU count of the last tier, or 0 when there is none. */
  function LastCpuCount(tiers: seq<Tier>): int
  {
    if tiers == [] then 0 else tiers[|tiers| - 1].cpuCount
  }

  /** Some tier admits `ncpu` CPUs. */
  predicate Admitted(tiers: seq<Tier>, ncpu: int)
  {
    exists i :: 0 <= i < |tiers| && ncpu <= tiers[i].cpuCount
  }

  /** Tier i is the first, in stored order, that admits `ncpu` CPUs. */
  predicate FirstAdmitting(tiers: seq<Tier>, ncpu: int, i: int)
  {
    && 0 <= i < |tiers|
    && ncpu <= tiers[i].cpuCount
    && forall j :: 0 <= j < i ==> tiers[j].cpuCount < ncpu
  }

  /**
   * The scan returns the hours of the first tier whose CPU count is at least
   * `ncpu`; when no tier admits `ncpu`, it fails naming the last tier's CPU
   * count (the `maximum` passed in when there are no tiers left).
   */
  lemma {:induction false} WalltimeLimitFromFirstMatch(tiers: seq<Tier>, ncpu: int, queue: string, maximum: int)
    ensures var r := WalltimeLimitFrom(tiers, ncpu, queue, maximum);
      && (r.Success? <==> Admitted(tiers, ncpu))
      && (r.Success? ==> exists i :: FirstAdmitting(tiers, ncpu, i) && r.value == tiers[i].hours)
      && (r.Failure? ==> r.error == CpuCountExceedsMaximum(ncpu, if tiers == [] then maximum else LastCpuCount(tiers), queue))
  {
    if tiers != [] && ncpu > tiers[0].cpuCount {
      var rest := tiers[1..];
      WalltimeLimitFromFirstMatch(rest, ncpu, queue, tiers[0].cpuCount);
      var r := WalltimeLimitFrom(rest, ncpu, queue, tiers[0].cpuCount);
      assert Admitted(tiers, ncpu) ==> Admitted(rest, ncpu) by {
        if Admitted(tiers, ncpu) {
          var i :| 0 <= i < |tiers| && ncpu <= tiers[i].cpuCount;
          assert rest[i - 1] == tiers[i];
        }
      }
      if r.Success? {
        var i :| FirstAdmitting(rest, ncpu, i) && r.value == rest[i].hours;
        assert FirstAdmitting(tiers, ncpu, i + 1);
      } else {
        if rest != [] {
          assert LastCpuCount(rest) == LastCpuCount(tiers);
        }
      }
    } else if tiers != [] {
      assert FirstAdmitting(tiers, ncpu, 0);
    }
  }

  /**
   * `get_walltime_limit` on queue q: the hours of the first tier whose CPU
   * count is at least `ncpu`, or a failure naming the last tier's CPU count
   * (0 for a queue without tiers) and the queue.
   */
  lemma WalltimeLimitFirstMatch(q: Queue, ncpu: int)
    ensures var r := WalltimeLimit(q, ncpu);
      && (r.Success? <==> Admitted(q.walltimeLimits, ncpu))
      && (r.Success? ==> exists i :: FirstAdmitting(q.walltimeLimits, ncpu, i) && r.value == q.walltimeLimits[i].hours)
      && (r.Failure? ==> r.error == CpuCountExceedsMaximum(ncpu, LastCpuCount(q.walltimeLimits), q.name))
  {
    WalltimeLimitFromFirstMatch(q.walltimeLimits, ncpu, q.name, 0);
  }

  /**
   * The loop of `get_walltime_limit`: scans the tiers in stored order,
   * remembering the CPU count of each tier it passes, and returns at the
   * first tier that admits `ncpu`.
   */
  method GetWalltimeLimit(q: Queue, ncpu: int) returns (r: Result<int, QueueError>)
    ensures r == WalltimeLimit(q, ncpu)
    ensures r.Success? <==> Admitted(q.walltimeLimits, ncpu)
    ensures r.Failure? ==> r.error == CpuCountExceedsMaximum(ncpu, LastCpuCount(q.walltimeLimits), q.name)
  {
    WalltimeLimitFirstMatch(q, ncpu);
    var tiers := q.walltimeLimits;
    var maximum := 0;
    var i := 0;
    while i < |tiers|
      invariant 0 <= i <= |tiers|
      invariant WalltimeLimitFrom(tiers[i..], ncpu, q.name, maximum) == WalltimeLimit(q, ncpu)
    {
      var tier := tiers[i];
      if ncpu <= tier.cpuCount {
        return Success(tier.hours);
      }
      maximum := tier.cpuCount;
      i := i + 1;
    }
    return Failure(CpuCountExceedsMaximum(ncpu, maximum, q.name));
  }

  /** Tier CPU counts strictly ascend and the hours never grow along the list. */
  predicate TiersOrdered(tiers: seq<Tier>)
  {
    forall i, j :: 0 <= i < j < |tiers| ==>
      tiers[i].cpuCount < tiers[j].cpuCount && tiers[i].hours >= tiers[j].hours
  }

  /**
   * With ordered tiers, a job of more CPUs never gets a longer walltime
   * limit, and a CPU count that fits makes every smaller one fit too.
   */
  lemma WalltimeLimitMonotone(q: Queue, small: int, large: int)
    requires TiersOrdered(q.walltimeLimits)
    requires small <= large
    requires WalltimeLimit(q, large).Success?
    ensures WalltimeLimit(q, small).Success?
    ensures WalltimeLimit(q, small).value >= WalltimeLimit(q, large).value
  {
    var tiers := q.walltimeLimits;
    WalltimeLimitFirstMatch(q, small);
    WalltimeLimitFirstMatch(q, large);
    var j :| FirstAdmitting(tiers, large, j) && WalltimeLimit(q, large).value == tiers[j].hours;
    assert small <= tiers[j].cpuCount;
    var i :| FirstAdmitting(tiers, small, i) && WalltimeLimit(q, small).value == tiers[i].hours;
    assert i <= j;
  }

  // ---------------------------------------------------------------------
  // get_queue
  // ---------------------------------------------------------------------

  /** The first queue of `table` named `name`, or an unknown-queue failure. */
  function LookupQueue(table: seq<Queue>, name: string): Result<Queue, QueueError>
  {
    if table == [] then Failure(UnknownQueue(name))
    else if table[0].name == name then Success(table[0])
    else LookupQueue(table[1..], name)
  }

  /** Every queue of `table` has a name of its own. */
  predicate NamesUnique(table: seq<Queue>)
  {
    forall i, j :: 0 <= i < j < |table| ==> table[i].name != table[j].name
  }

  /**
   * The lookup returns the first entry of that name and fails exactly when
   * no entry has it.
   */
  lemma {:induction false} LookupQueueFirstMatch(table: seq<Queue>, name: string)
    ensures var r := LookupQueue(table, name);
      && (r.Success? <==> exists i :: 0 <= i < |table| && table[i].name == name)
      && (r.Success? ==> exists i :: 0 <= i < |table| && table[i] == r.value && table[i].name == name
                                     && forall j :: 0 <= j < i ==> table[j].name != name)
      && (r.Failure? ==> r.error == UnknownQueue(name))
  {
    if table != [] && table[0].name != name {
      var rest := table[1..];
      LookupQueueFirstMatch(rest, name);
      if LookupQueue(rest, name).Success? {
        var i :| 0 <= i < |rest| && rest[i] == LookupQueue(rest, name).value && rest[i].name == name
                 && forall j :: 0 <= j < i ==> rest[j].name != name;
        assert table[i + 1] == rest[i];
        assert forall j :: 0 <= j < i + 1 ==> table[j].name != name by {
          forall j | 0 <= j < i + 1 ensures table[j].name != name {
            if j > 0 { assert table[j] == rest[j - 1]; }
          }
        }
      } else {
        forall i | 0 <= i < |table| ensures table[i].name != name {
          if i > 0 { assert table[i] == rest[i - 1]; }
        }
      }
    } else if table != [] {
      assert table[0] == table[0] && table[0].name == name;
    }
  }

  /** When names are unique, the lookup finds the one entry of that name, wherever it stands. */
  lemma LookupQueueUnique(table: seq<Queue>, i: int)
    requires NamesUnique(table)
    requires 0 <= i < |table|
    ensures LookupQueue(table, table[i].name) == Success(table[i])
  {
    LookupQueueFirstMatch(table, table[i].name);
    var r := LookupQueue(table, table[i].name);
    var k :| 0 <= k < |table| && table[k] == r.value && table[k].name == table[i].name
             && forall j :: 0 <= j < k ==> table[j].name != table[i].name;
    assert k == i;
  }

  /** The loop of `get_queue` over the registry, returning at the first name that matches. */
  method GetQueue(name: string) returns (r: Result<Queue, QueueError>)
    ensures r == LookupQueue(Queues, name)
    ensures r.Success? <==> exists i :: 0 <= i < |Queues| && Queues[i].name == name
    ensures r.Success? ==> r.value in Queues && r.value.name == name
    ensures r.Failure? ==> r.error == UnknownQueue(name)
  {
    LookupQueueFirstMatch(Queues, name);
    var i := 0;
    while i < |Queues|
      invariant 0 <= i <= |Queues|
      invariant LookupQueue(Queues[i..], name) == LookupQueue(Queues, name)
    {
      var queue := Queues[i];
      if queue.name == name {
        return Success(queue);
      }
      i := i + 1;
    }
    return Failure(UnknownQueue(name));
  }

  // ---------------------------------------------------------------------
  // Facts about the registry
  // ---------------------------------------------------------------------

  /** No two queues of the registry share a name. */
  lemma RegistryNamesUnique()
    ensures NamesUnique(Queues)
  {
  }

  /** Neighbouring tiers ascend strictly in CPU count and do not grow in hours. */
  predicate NeighbourTiersOrdered(tiers: seq<Tier>)
  {
    |tiers| < 2
    || (&& tiers[0].cpuCount < tiers[1].cpuCount
        && tiers[0].hours >= tiers[1].hours
        && NeighbourTiersOrdered(tiers[1..]))
  }

  /** Ordering neighbours orders every pair. */
  lemma {:induction false} NeighboursOrderAll(tiers: seq<Tier>)
    requires NeighbourTiersOrdered(tiers)
    ensures TiersOrdered(tiers)
  {
    if |tiers| > 1 {
      var rest := tiers[1..];
      NeighboursOrderAll(rest);
      forall i, j | 0 <= i < j < |tiers|
        ensures tiers[i].cpuCount < tiers[j].cpuCount && tiers[i].hours >= tiers[j].hours
      {
        if i > 0 {
          assert tiers[i] == rest[i - 1] && tiers[j] == rest[j - 1];
        } else if j > 1 {
          assert tiers[1] == rest[0] && tiers[j] == rest[j - 1];
        }
      }
    }
  }

  /** A queue with nodes of at least one CPU and ordered tiers. */
  predicate WellFormed(q: Queue)
  {
    q.cpusPerNode > 0 && TiersOrdered(q.walltimeLimits)
  }

  /** Every queue of the table from position k on has nodes of at least one CPU and ordered neighbouring tiers. */
  predicate AllNeighbourOrderedFrom(table: seq<Queue>, k: nat)
    decreases |table| - k
  {
    k >= |table|
    || (&& table[k].cpusPerNode > 0
        && NeighbourTiersOrdered(table[k].walltimeLimits)
        && AllNeighbourOrderedFrom(table, k + 1))
  }

  /** The table-wide check makes every queue of the table from position k on well formed. */
  lemma {:induction false} AllWellFormed(table: seq<Queue>, k: nat)
    requires AllNeighbourOrderedFrom(table, k)
    ensures forall i :: k <= i < |table| ==> WellFormed(table[i])
    decreases |table| - k
  {
    if k < |table| {
      AllWellFormed(table, k + 1);
      NeighboursOrderAll(table[k].walltimeLimits);
    }
  }

  /**
   * Every queue of the registry has nodes of at least one CPU, and tiers
   * that ascend strictly in CPU count and never grow in hours.
   */
  lemma RegistryWellFormed()
    ensures forall i :: 0 <= i < |Queues| ==> WellFormed(Queues[i])
  {
    assert AllNeighbourOrderedFrom(Queues, 13);
    assert AllNeighbourOrderedFrom(Queues, 12);
    assert AllNeighbourOrderedFrom(Queues, 11);
    assert AllNeighbourOrderedFrom(Queues, 10);
    assert AllNeighbourOrderedFrom(Queues, 9);
    assert AllNeighbourOrderedFrom(Queues, 8);
    assert AllNeighbourOrderedFrom(Queues, 7);
    assert AllNeighbourOrderedFrom(Queues, 6);
    assert AllNeighbourOrderedFrom(Queues, 5);
    assert AllNeighbourOrderedFrom(Queues, 4);
    assert AllNeighbourOrderedFrom(Queues, 3);
    assert AllNeighbourOrderedFrom(Queues, 2);
    assert AllNeighbourOrderedFrom(Queues, 1);
    assert AllNeighbourOrderedFrom(Queues, 0);
    AllWellFormed(Queues, 0);
  }

  /** In every queue of the registry, a job of more CPUs never gets a longer walltime limit. */
  lemma RegistryWalltimeMonotone(i: int, small: int, large: int)
    requires 0 <= i < |Queues|
    requires small <= large
    requires WalltimeLimit(Queues[i], large).Success?
    ensures WalltimeLimit(Queues[i], small).Success?
    ensures WalltimeLimit(Queues[i], small).value >= WalltimeLimit(Queues[i], large).value
  {
    RegistryWellFormed();
    WalltimeLimitMonotone(Queues[i], small, large);
  }

  /** Looking up the name of any registry queue returns that queue. */
  lemma RegistryLookupFindsEach(i: int)
    requires 0 <= i < |Queues|
    ensures LookupQueue(Queues, Queues[i].name) == Success(Queues[i])
  {
    RegistryNamesUnique();
    LookupQueueUnique(Queues, i);
  }

  /**
   * The limits of the "normal" queue at its tier boundaries: 672 CPUs still
   * get the first tier's 48 hours, 673 fall into the next tier, 20736 is the
   * largest job admitted, and 20737 is refused naming 20736.
   */
  lemma NormalQueueBoundaries()
    ensures LookupQueue(Queues, QueueNormal) == Success(Queues[0])
    ensures WalltimeLimit(Queues[0], 100) == Success(48)
    ensures WalltimeLimit(Queues[0], 672) == Success(48)
    ensures WalltimeLimit(Queues[0], 673) == Success(24)
    ensures WalltimeLimit(Queues[0], 20000) == Success(5)
    ensures WalltimeLimit(Queues[0], 20736) == Success(5)
    ensures WalltimeLimit(Queues[0], 20737) == Failure(CpuCountExceedsMaximum(20737, 20736, QueueNormal))
  {
    var tiers := Queues[0].walltimeLimits;
    assert tiers[1..][1..][1..][1..] == [];
  }
}
