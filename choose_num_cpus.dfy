/**
 * The CPU-balance advisor: for a workload of N gridcells on nodes of M CPUs,
 * enumerate the CPU counts k*M for k = 1..max_multiplier, compute how many
 * CPUs each leaves idle in the last round of work, and rank the candidates.
 */
module ChooseNumCpus {
  import opened Wrappers
  import GadiQueues

  /** One ranked configuration: a CPU count and the CPUs it leaves idle. */
  datatype Candidate = Candidate(cpus: int, imbalance: int)

  /** Errors the search can raise. */
  datatype CpuError = DivisionByZero

  // ---------------------------------------------------------------------
  // Usage check of the command line
  // ---------------------------------------------------------------------

  /** True when "-h" or "--help" appears anywhere in the argument vector. */
  predicate HelpRequested(argv: seq<string>)
  {
    "-h" in argv || "--help" in argv
  }

  /**
   * The decision taken before anything else runs: `Some(status)` when the
   * usage text is shown and the program exits with `status`, `None` when it
   * goes on with the computation. `argv` includes the program name.
   */
  function UsageExit(argv: seq<string>): (r: Option<int>)
    ensures r.Some? <==> |argv| != 3 || HelpRequested(argv)
    ensures r.Some? ==> (r.value == 0 <==> HelpRequested(argv))
    ensures r.Some? ==> r.value == 0 || r.value == 1
  {
    var isHelp := HelpRequested(argv);
    if |argv| != 3 || isHelp then Some(if isHelp then 0 else 1) else None
  }

  /** A well-formed invocation `prog <# gridcells> <queue>` proceeds. */
  lemma WellFormedInvocationProceeds(prog: string, cells: string, queue: string)
    requires prog != "-h" && prog != "--help"
    requires cells != "-h" && cells != "--help"
    requires queue != "-h" && queue != "--help"
    ensures UsageExit([prog, cells, queue]) == None
  {
  }

  /** Asking for help succeeds whatever else is on the command line. */
  lemma HelpAlwaysExitsZero(argv: seq<string>, i: nat)
    requires i < |argv| && (argv[i] == "-h" || argv[i] == "--help")
    ensures UsageExit(argv) == Some(0)
  {
    assert argv[i] in argv;
  }

  // ---------------------------------------------------------------------
  // Integer arithmetic as Python performs it
  // ---------------------------------------------------------------------

  /**
   * Python's `a // b`: floor division (Dafny's own `/` is Euclidean, which
   * agrees with floor division only for a positive divisor).
   */
  function PyDiv(a: int, b: int): int
    requires b != 0
  {
    if b > 0 then a / b else (-a) / (-b)
  }

  /**
   * Python's `a % b`: the remainder of floor division, which has the sign of
   * the divisor (Dafny's own `%` is never negative).
   */
  function PyMod(a: int, b: int): (r: int)
    requires b != 0
    ensures b > 0 ==> r == a % b
    ensures b > 0 ==> 0 <= r < b
    ensures b < 0 ==> b < r <= 0
  {
    if b > 0 then a % b else -((-a) % (-b))
  }

  /** `//` and `%` split a into whole multiples of b and a remainder, rounding down. */
  lemma PyDivMod(a: int, b: int)
    requires b != 0
    ensures a == b * PyDiv(a, b) + PyMod(a, b)
    ensures b > 0 ==> b * PyDiv(a, b) <= a < b * PyDiv(a, b) + b
    ensures b < 0 ==> b * PyDiv(a, b) + b < a <= b * PyDiv(a, b)
  {
    if b < 0 {
      var f, e := (-a) / (-b), (-a) % (-b);
      assert -a == (-b) * f + e;
      assert b * f == -((-b) * f);
    }
  }

  /**
   * The idle CPUs in the last round when n gridcells run on `cpus` CPUs:
   * `cpus - (n % cpus)`. A workload that already divides evenly is reported
   * with a whole idle round (`cpus`), never with 0.
   */
  function Imbalance(n: int, cpus: int): (r: int)
    requires cpus != 0
    ensures cpus > 0 ==> 1 <= r <= cpus
    ensures cpus > 0 ==> (r == cpus <==> n % cpus == 0)
    ensures cpus < 0 ==> cpus <= r < 0
  {
    cpus - PyMod(n, cpus)
  }

  /**
   * The n cells plus the idle slots fill exactly `n // cpus + 1` rounds of
   * `cpus` cells: the imbalance is what n lacks to reach the next round.
   */
  lemma ImbalanceFillsRounds(n: int, cpus: int)
    requires cpus != 0
    ensures n + Imbalance(n, cpus) == cpus * (PyDiv(n, cpus) + 1)
  {
    PyDivMod(n, cpus);
    assert cpus * (PyDiv(n, cpus) + 1) == cpus * PyDiv(n, cpus) + cpus;
  }

  /** `ceil(n / d)` computed exactly, as integer ceiling division. */
  function CeilDiv(n: int, d: int): (q: int)
    requires d > 0
    ensures (q - 1) * d < n <= q * d
  {
    var f := (-n) / d;
    assert d * f <= -n < d * f + d;
    assert (-f - 1) * d == -(d * f) - d;
    assert (-f) * d == -(d * f);
    -f
  }

  /**
   * The caller's search bound: the number of node multiples needed to give
   * every gridcell a CPU, `ceil(ngridcell / cpus_per_node)`.
   */
  function MaxMultiplier(ngridcell: int, cpusPerNode: int): (k: int)
    requires cpusPerNode > 0
    ensures ngridcell >= 1 ==> k >= 1
    ensures (k - 1) * cpusPerNode < ngridcell <= k * cpusPerNode
  {
    CeilDiv(ngridcell, cpusPerNode)
  }

  // ---------------------------------------------------------------------
  // The candidates, in the order the loop builds them
  // ---------------------------------------------------------------------

  /** The candidate for multiplier k. */
  function CandidateFor(n: int, m: int, k: int): Candidate
    requires m != 0 && k >= 1
  {
    Candidate(k * m, Imbalance(n, k * m))
  }

  /**
   * The unsorted candidates for k = 1..count: the list the loop of
   * `find_optimal_cpus` appends to.
   */
  function Candidates(n: int, m: int, count: int): (cs: seq<Candidate>)
    requires m != 0 || count <= 0
    ensures |cs| == if count > 0 then count else 0
    ensures forall i :: 0 <= i < |cs| ==> cs[i] == CandidateFor(n, m, i + 1)
    decreases count
  {
    if count <= 0 then [] else Candidates(n, m, count - 1) + [CandidateFor(n, m, count)]
  }

  /** Two different multipliers give two different CPU counts. */
  lemma MultiplesDistinct(m: int, i: int, j: int)
    requires m != 0 && i != j
    ensures i * m != j * m
  {
    assert i * m - j * m == (i - j) * m;
    assert (i - j) * m != 0;
  }

  /** x is a multiple k*M with 1 <= k <= count, with the imbalance the formula gives, in [1, cpus]. */
  predicate IsCandidate(n: int, m: int, count: int, x: Candidate)
    requires m > 0
  {
    && x.cpus % m == 0 && 1 <= x.cpus / m <= count
    && x.cpus > 0
    && x.imbalance == x.cpus - n % x.cpus
    && 1 <= x.imbalance <= x.cpus
  }

  /**
   * Each candidate the loop builds, for positive M, is a multiple k*M with
   * 1 <= k <= count, and its imbalance `cpus - (n % cpus)` lies in [1, cpus].
   */
  lemma CandidateShape(n: int, m: int, count: int, x: Candidate)
    requires m > 0
    requires x in multiset(Candidates(n, m, count))
    ensures IsCandidate(n, m, count, x)
  {
    var cs := Candidates(n, m, count);
    var i :| 0 <= i < |cs| && cs[i] == x;
    assert x == CandidateFor(n, m, i + 1);
    MultipleOf(i + 1, m);
    MonotoneProduct(1, i + 1, m);
  }

  /** No two candidates have the same CPU count. */
  lemma CandidatesDistinct(n: int, m: int, count: int)
    requires m != 0
    ensures var cs := Candidates(n, m, count);
      forall i, j :: 0 <= i < j < |cs| ==> cs[i].cpus != cs[j].cpus
  {
    var cs := Candidates(n, m, count);
    forall i, j | 0 <= i < j < |cs|
      ensures cs[i].cpus != cs[j].cpus
    {
      MultiplesDistinct(m, i + 1, j + 1);
    }
  }

  /** `k * m` divided by a positive m gives back k with no remainder. */
  lemma MultipleOf(k: int, m: int)
    requires m > 0
    ensures (k * m) % m == 0 && (k * m) / m == k
  {
    var p := k * m;
    var q, r := p / m, p % m;
    assert p == m * q + r && 0 <= r < m;
    assert m * (k - q) == r;
    if k > q {
      MonotoneProduct(1, k - q, m);
    } else if k < q {
      MonotoneProduct(k - q, -1, m);
    }
  }

  /**
   * With the caller's bound, the largest candidate is the smallest multiple
   * of the node size that gives every gridcell a CPU: it reaches n, and
   * every other candidate falls short of n.
   */
  lemma CallerBoundCoversWorkload(n: int, cpusPerNode: int)
    requires n >= 1 && cpusPerNode > 0
    ensures var cs := Candidates(n, cpusPerNode, MaxMultiplier(n, cpusPerNode));
      && |cs| >= 1
      && cs[|cs| - 1].cpus >= n
      && forall i :: 0 <= i < |cs| - 1 ==> cs[i].cpus < n
  {
    var k := MaxMultiplier(n, cpusPerNode);
    var cs := Candidates(n, cpusPerNode, k);
    forall i | 0 <= i < |cs| - 1
      ensures cs[i].cpus < n
    {
      MonotoneProduct(i + 1, k - 1, cpusPerNode);
    }
  }

  /** Multiplying by a positive factor keeps the order. */
  lemma MonotoneProduct(a: int, b: int, c: int)
    requires a <= b && c > 0
    ensures a * c <= b * c
  {
    assert b * c - a * c == (b - a) * c;
  }

  // ---------------------------------------------------------------------
  // Ranking: `sorted(results, key=lambda x: (x[1], x[0]))`
  // ---------------------------------------------------------------------

  /** The ranking key (imbalance, cpus), compared lexicographically. */
  predicate KeyLe(a: Candidate, b: Candidate)
  {
    a.imbalance < b.imbalance || (a.imbalance == b.imbalance && a.cpus <= b.cpus)
  }

  /** Ascending by imbalance, fewer CPUs first when the imbalance ties. */
  predicate SortedByKey(s: seq<Candidate>)
  {
    forall i, j :: 0 <= i < j < |s| ==> KeyLe(s[i], s[j])
  }

  /**
   * Places x before the first element it does not follow, so that x stays
   * ahead of the elements whose key equals its own (the sort is stable).
   */
  function Insert(x: Candidate, s: seq<Candidate>): seq<Candidate>
  {
    if s == [] then [x]
    else if KeyLe(x, s[0]) then [x] + s
    else [s[0]] + Insert(x, s[1..])
  }

  /** The ranked list: a stable insertion sort by the key. */
  function SortByKey(s: seq<Candidate>): seq<Candidate>
  {
    if s == [] then [] else Insert(s[0], SortByKey(s[1..]))
  }

  /** Dropping the head of a sorted list leaves it sorted. */
  lemma SortedTail(s: seq<Candidate>)
    requires SortedByKey(s) && s != []
    ensures SortedByKey(s[1..])
  {
    forall p, q | 0 <= p < q < |s[1..]| ensures KeyLe(s[1..][p], s[1..][q]) {
      assert s[1..][p] == s[p + 1] && s[1..][q] == s[q + 1];
    }
  }

  /** A head that precedes every element of a sorted list extends it to a sorted list. */
  lemma SortedCons(y: Candidate, s: seq<Candidate>)
    requires SortedByKey(s)
    requires forall z | z in multiset(s) :: KeyLe(y, z)
    ensures SortedByKey([y] + s)
  {
    var t := [y] + s;
    forall p, q | 0 <= p < q < |t| ensures KeyLe(t[p], t[q]) {
      assert t[q] == s[q - 1];
      if p > 0 {
        assert t[p] == s[p - 1];
      } else {
        assert s[q - 1] in multiset(s);
      }
    }
  }

  /** Inserting into a sorted list keeps it sorted and adds exactly that element. */
  lemma {:induction false} InsertSortedPermutation(x: Candidate, s: seq<Candidate>)
    requires SortedByKey(s)
    ensures SortedByKey(Insert(x, s))
    ensures multiset(Insert(x, s)) == multiset(s) + multiset{x}
  {
    if s == [] {
    } else if KeyLe(x, s[0]) {
      SortedCons(x, s) by {
        forall z | z in multiset(s) ensures KeyLe(x, z) {
          var i :| 0 <= i < |s| && s[i] == z;
          assert KeyLe(s[0], s[i]);
        }
      }
    } else {
      var tail := s[1..];
      assert s == [s[0]] + tail;
      SortedTail(s);
      InsertSortedPermutation(x, tail);
      var rest := Insert(x, tail);
      forall z | z in multiset(rest) ensures KeyLe(s[0], z) {
        if z != x {
          assert z in multiset(tail);
          var i :| 0 <= i < |tail| && tail[i] == z;
          assert s[i + 1] == z;
        }
      }
      SortedCons(s[0], rest);
    }
  }

  /** The ranking is sorted by the key and is a permutation of its input. */
  lemma {:induction false} SortByKeySortedPermutation(s: seq<Candidate>)
    ensures SortedByKey(SortByKey(s))
    ensures multiset(SortByKey(s)) == multiset(s)
  {
    if s != [] {
      assert s == [s[0]] + s[1..];
      SortByKeySortedPermutation(s[1..]);
      InsertSortedPermutation(s[0], SortByKey(s[1..]));
    }
  }

  /**
   * The key is the whole candidate, so it orders candidates totally and
   * admits one sorted arrangement of a multiset: whatever sorting algorithm
   * is used, it returns what SortByKey returns.
   */
  lemma {:induction false} SortedPermutationUnique(a: seq<Candidate>, b: seq<Candidate>)
    requires SortedByKey(a) && SortedByKey(b)
    requires multiset(a) == multiset(b)
    ensures a == b
  {
    if a != [] {
      assert a[0] in multiset(b);
      assert b != [];
      assert b[0] in multiset(a);
      var i :| 0 <= i < |a| && a[i] == b[0];
      var j :| 0 <= j < |b| && b[j] == a[0];
      assert KeyLe(a[0], a[i]);
      assert KeyLe(b[0], b[j]);
      assert a[0] == b[0];
      assert a == [a[0]] + a[1..];
      assert b == [b[0]] + b[1..];
      assert multiset(a[1..]) == multiset(a) - multiset{a[0]};
      assert multiset(b[1..]) == multiset(b) - multiset{b[0]};
      SortedTail(a);
      SortedTail(b);
      SortedPermutationUnique(a[1..], b[1..]);
    } else {
      assert |b| == |multiset(b)|;
    }
  }

  /** The ranked list sorts the candidates and drops or adds nothing. */
  lemma RankingIsSortedPermutation(n: int, m: int, count: int)
    requires m != 0
    ensures var ranked := SortByKey(Candidates(n, m, count));
      && SortedByKey(ranked)
      && multiset(ranked) == multiset(Candidates(n, m, count))
      && |ranked| == (if count > 0 then count else 0)
      && StrictlyRanked(ranked)
  {
    var cs := Candidates(n, m, count);
    var ranked := SortByKey(cs);
    SortByKeySortedPermutation(cs);
    assert |ranked| == |multiset(ranked)| == |multiset(cs)| == |cs|;
    CandidatesDistinct(n, m, count);
    forall i, j | 0 <= i < j < |ranked|
      ensures ranked[i].cpus != ranked[j].cpus
    {
      DistinctCpusAfterSort(cs, ranked, i, j);
    }
    SortedDistinctIsStrict(ranked);
  }

  /** Strictly ascending by (imbalance, cpus): equal imbalance puts fewer CPUs first. */
  predicate StrictlyRanked(s: seq<Candidate>)
  {
    forall i, j :: 0 <= i < j < |s| ==>
      s[i].imbalance < s[j].imbalance
      || (s[i].imbalance == s[j].imbalance && s[i].cpus < s[j].cpus)
  }

  /** A sorted list with distinct CPU counts is strictly ascending by the key. */
  lemma SortedDistinctIsStrict(s: seq<Candidate>)
    requires SortedByKey(s)
    requires forall i, j :: 0 <= i < j < |s| ==> s[i].cpus != s[j].cpus
    ensures StrictlyRanked(s)
  {
  }

  /**
   * Every entry of the ranked list is one of the candidates: a multiple k*M
   * with 1 <= k <= count whose imbalance is `cpus - (n % cpus)`, in [1, cpus].
   */
  lemma RankedEntries(n: int, m: int, count: int)
    requires m > 0
    ensures var ranked := SortByKey(Candidates(n, m, count));
      forall k :: 0 <= k < |ranked| ==> IsCandidate(n, m, count, ranked[k])
  {
    var cs := Candidates(n, m, count);
    var ranked := SortByKey(cs);
    SortByKeySortedPermutation(cs);
    forall k | 0 <= k < |ranked|
      ensures IsCandidate(n, m, count, ranked[k])
    {
      assert ranked[k] in multiset(ranked);
      CandidateShape(n, m, count, ranked[k]);
    }
  }

  /** Two positions of a permutation of a list of distinct CPU counts hold distinct CPU counts. */
  lemma DistinctCpusAfterSort(cs: seq<Candidate>, ranked: seq<Candidate>, i: int, j: int)
    requires forall p, q :: 0 <= p < q < |cs| ==> cs[p].cpus != cs[q].cpus
    requires multiset(ranked) == multiset(cs)
    requires 0 <= i < j < |ranked|
    ensures ranked[i].cpus != ranked[j].cpus
  {
    if ranked[i].cpus == ranked[j].cpus {
      assert ranked[i] in multiset(cs);
      assert ranked[j] in multiset(cs);
      var p :| 0 <= p < |cs| && cs[p] == ranked[i];
      var q :| 0 <= q < |cs| && cs[q] == ranked[j];
      assert p == q;
      assert ranked[i] == ranked[j];
      var rest := ranked[..i] + ranked[i + 1..];
      assert ranked == ranked[..i] + [ranked[i]] + ranked[i + 1..];
      assert ranked[j] in rest by { assert rest[j - 1] == ranked[j]; }
      assert multiset(ranked) == multiset(rest) + multiset{ranked[i]};
      assert multiset(cs)[cs[p]] >= 2;
      CountAtMostOne(cs, p);
      assert false;
    }
  }

  /** In a list of distinct CPU counts, each candidate occurs once. */
  lemma CountAtMostOne(cs: seq<Candidate>, p: int)
    requires forall a, b :: 0 <= a < b < |cs| ==> cs[a].cpus != cs[b].cpus
    requires 0 <= p < |cs|
    ensures multiset(cs)[cs[p]] == 1
  {
    var x := cs[p];
    var before, after := cs[..p], cs[p + 1..];
    assert cs == before + [x] + after;
    assert x !in before by {
      forall a | 0 <= a < |before| ensures before[a] != x { assert before[a] == cs[a]; }
    }
    assert x !in after by {
      forall a | 0 <= a < |after| ensures after[a] != x { assert after[a] == cs[p + 1 + a]; }
    }
    assert multiset(cs) == multiset(before) + multiset{x} + multiset(after);
  }

  // ---------------------------------------------------------------------
  // find_optimal_cpus
  // ---------------------------------------------------------------------

  /**
   * Builds the candidates for k = 1..maxMultiplier with a loop and returns
   * them ranked by (imbalance, cpus). A node size of 0 makes the first
   * `N % cpus` divide by zero; with no multiplier to try nothing is divided.
   */
  method FindOptimalCpus(n: int, m: int, maxMultiplier: int) returns (r: Result<seq<Candidate>, CpuError>)
    ensures r.Failure? <==> m == 0 && maxMultiplier >= 1
    ensures r.Success? ==> r.value == SortByKey(Candidates(n, m, maxMultiplier))
  {
    var results: seq<Candidate> := [];
    var k := 1;
    while k <= maxMultiplier
      invariant 1 <= k <= if maxMultiplier >= 1 then maxMultiplier + 1 else 1
      invariant m != 0 || k == 1
      invariant results == Candidates(n, m, k - 1)
    {
      var cpus := k * m;
      if m != 0 { MultiplesDistinct(m, k, 0); }
      if cpus == 0 {
        return Failure(DivisionByZero);
      }
      var imbalance := cpus - PyMod(n, cpus);
      assert Candidates(n, m, k) == Candidates(n, m, k - 1) + [Candidate(cpus, imbalance)];
      results := results + [Candidate(cpus, imbalance)];
      k := k + 1;
    }
    return Success(SortByKey(results));
  }

  /** The worked example N=1000, M=48, max_multiplier=3, which exercises the tie-break. */
  lemma WorkedExample()
    ensures Candidates(1000, 48, 3) == [Candidate(48, 8), Candidate(96, 56), Candidate(144, 8)]
    ensures SortByKey(Candidates(1000, 48, 3)) == [Candidate(48, 8), Candidate(144, 8), Candidate(96, 56)]
  {
    var cs := Candidates(1000, 48, 3);
    assert cs == [Candidate(48, 8), Candidate(96, 56), Candidate(144, 8)];
    var expected := [Candidate(48, 8), Candidate(144, 8), Candidate(96, 56)];
    assert SortedByKey(expected);
    assert multiset(expected) == multiset(cs);
    SortByKeySortedPermutation(cs);
    SortedPermutationUnique(SortByKey(cs), expected);
  }

  // ---------------------------------------------------------------------
  // The advisor: queue lookup, search bound and search
  // ---------------------------------------------------------------------

  /**
   * The computation the advisor runs for `<# gridcells> <queue>` once the
   * arguments are read: look the queue up, bound the multiplier by
   * `ceil(ngridcell / cpus_per_node)` and rank the candidates.
   */
  method RecommendForQueue(ngridcell: int, queueName: string) returns (r: Result<seq<Candidate>, GadiQueues.QueueError>)
    ensures r.Failure? <==> GadiQueues.LookupQueue(GadiQueues.Queues, queueName).Failure?
    ensures r.Failure? ==> r.error == GadiQueues.UnknownQueue(queueName)
    ensures r.Success? ==>
      var q := GadiQueues.LookupQueue(GadiQueues.Queues, queueName).value;
      && q.cpusPerNode > 0
      && r.value == SortByKey(Candidates(ngridcell, q.cpusPerNode, MaxMultiplier(ngridcell, q.cpusPerNode)))
  {
    var found := GadiQueues.GetQueue(queueName);
    if found.Failure? {
      return Failure(found.error);
    }
    var queue := found.value;
    GadiQueues.RegistryWellFormed();
    var i :| 0 <= i < |GadiQueues.Queues| && GadiQueues.Queues[i] == queue;
    var maxMultiplier := MaxMultiplier(ngridcell, queue.cpusPerNode);
    // The node size is positive, so the search cannot divide by zero.
    var ranked := FindOptimalCpus(ngridcell, queue.cpusPerNode, maxMultiplier);
    return Success(ranked.value);
  }
}
