# gadi-scripts core, modelled in Dafny

This project models the computational core of two small command-line helpers
for users of the Gadi job queues, and proves properties of that model:

- **The CPU-balance advisor** (`choose_num_cpus.py`, module `ChooseNumCpus`).
  Given N gridcells and a node size of M CPUs, it tries the CPU counts k·M for
  k = 1..max_multiplier. For each count it computes the *imbalance*
  `cpus - (N % cpus)`, the CPUs left idle in the last round of work. It then
  ranks the candidates by (imbalance, cpus). The model has the command-line
  usage decision, the caller's bound `ceil(N / cpus_per_node)`, the loop that
  builds the candidates, and the sort. It also has the advisor's composition:
  queue lookup, then the bound, then the search.
- **The queue registry** (`gadi_queues.py`, module `GadiQueues`). This is the
  constant table of the 14 queues. It holds each queue's node size, memory,
  charge rate and walltime tiers. There are two lookups. `get_walltime_limit`
  scans the tiers for the first one that admits a CPU count. `get_queue` looks
  a queue up by name.
- **The grid-index resolver** (`gridlist_to_indices.py`, module
  `GridlistToIndices`). `index_of` is a first-match linear search. `traverse`
  handles the gridlist line by line. It skips blank lines and requires every
  other line to split, as Python's `str.split()` splits it, into exactly a
  longitude and a latitude. It then prints the positions of both in the
  dataset's coordinate arrays.

The state-changing code takes the source's form. `find_optimal_cpus`,
`get_walltime_limit`, `get_queue`, `index_of` and `traverse` are methods with
loops, and each is proved equal to a pure recursive specification function.
The properties are proved about those functions as lemmas. `Queue` is never
changed after construction, so it is an immutable datatype. Its constructor
stores its arguments unchanged by construction. `sorted(...)` and the usage
check are pure expressions in the source, so they are functions here.
`wrappers.dfy` holds the `Option` and `Result` types that carry the Python
exceptions as values.

Python arithmetic is written out explicitly. `//` and `%` are floor division
(`PyDiv`, `PyMod`), so a negative node size behaves as in Python. A node size
of 0 is Python's `ZeroDivisionError`, modelled as `Failure(DivisionByZero)`.
That error happens only when there is at least one multiplier to try.

Behaviour kept as the code has it:

- Imbalance for an exact multiple. When N is an exact multiple of the CPU
  count, the imbalance is the whole CPU count, not 0.
- Worked example. For N = 1000, M = 48 and max_multiplier = 3, the candidates
  are (48, 8), (96, 56), (144, 8). They rank as (48, 8), (144, 8), (96, 56).
  The 48-CPU candidate has imbalance 48 − 40 = 8, not N mod 48 = 40.
- Walltime limits of the "normal" queue. A job of 20000 CPUs gets 5 hours,
  because 20000 ≤ 20736. Only counts above 20736 are refused. The error names
  the CPU count of the last tier scanned, or 0 for a queue with no tiers.
- Extra tokens on a gridlist line. A line with three or more tokens is an
  error, because the tuple unpacking fails. So is a line of only whitespace
  other than `"\n"`. Neither is ignored.
- A coordinate that is absent. It silently yields index −1.

## Model

| member | source | states |
|---|---|---|
| `ChooseNumCpus.UsageExit` | choose_num_cpus.py:6-9 | the usage text is shown iff argv does not have exactly 3 entries or "-h"/"--help" occurs anywhere in it; the exit status is then 0 exactly when help was asked for, otherwise 1 |
| `ChooseNumCpus.HelpAlwaysExitsZero` | choose_num_cpus.py:6-9 | a "-h" or "--help" at any position exits with status 0, whatever the argument count |
| `ChooseNumCpus.WellFormedInvocationProceeds` | choose_num_cpus.py:6-9 | a three-entry argv with no help flag goes on to the computation |
| `ChooseNumCpus.PyMod` | choose_num_cpus.py:32 | Python's `%`: for a positive divisor it is Dafny's remainder, in [0, b); for a negative divisor it lies in (b, 0] |
| `ChooseNumCpus.PyDivMod` | choose_num_cpus.py:32 | `a == b * (a // b) + a % b`, with the quotient rounded down on both signs of b |
| `ChooseNumCpus.Imbalance` | choose_num_cpus.py:32 | for a positive CPU count the imbalance lies in [1, cpus], and it equals cpus exactly when N is a multiple of cpus (never 0); for a negative count it lies in [cpus, 0) |
| `ChooseNumCpus.ImbalanceFillsRounds` | choose_num_cpus.py:32 | N plus the imbalance fills exactly `N // cpus + 1` rounds of `cpus` cells |
| `ChooseNumCpus.CeilDiv` | choose_num_cpus.py:67 | the integer ceiling q of n/d: `(q-1)*d < n <= q*d` |
| `ChooseNumCpus.MaxMultiplier` | choose_num_cpus.py:66-67 | the caller's bound is the least k with `k * cpus_per_node >= ngridcell`, and is at least 1 for ngridcell >= 1 |
| `ChooseNumCpus.CallerBoundCoversWorkload` | choose_num_cpus.py:66-67 | with that bound, the largest candidate is the smallest multiple of the node size that is ≥ N, and every other candidate is < N |
| `ChooseNumCpus.Candidates` | choose_num_cpus.py:29-33 | the loop builds max(max_multiplier, 0) entries, entry i being (k·M, imbalance of k·M) for k = i + 1 |
| `ChooseNumCpus.CandidateShape` | choose_num_cpus.py:30-32 | for M > 0 every candidate's CPU count is k·M with 1 ≤ k ≤ max_multiplier, and its imbalance is `cpus - N % cpus` in [1, cpus] |
| `ChooseNumCpus.CandidatesDistinct` | choose_num_cpus.py:30-31 | the candidates' CPU counts are pairwise distinct for any M ≠ 0 |
| `ChooseNumCpus.InsertSortedPermutation` | choose_num_cpus.py:35 | stable insertion into a list sorted by (imbalance, cpus) keeps it sorted and adds exactly that element |
| `ChooseNumCpus.SortByKeySortedPermutation` | choose_num_cpus.py:34-35 | the ranking is sorted ascending by (imbalance, cpus) and is a permutation of its input |
| `ChooseNumCpus.SortedPermutationUnique` | choose_num_cpus.py:34-35 | two lists sorted by the key with the same elements are equal, so the ranking is the one Python's `sorted` returns |
| `ChooseNumCpus.RankingIsSortedPermutation` | choose_num_cpus.py:29-35 | the ranked list is sorted, a permutation of the candidates, of length max(max_multiplier, 0), and strictly increasing in (imbalance, cpus): equal imbalance puts fewer CPUs first |
| `ChooseNumCpus.RankedEntries` | choose_num_cpus.py:29-35 | for M > 0 every ranked entry is a multiple k·M with 1 ≤ k ≤ max_multiplier whose imbalance is `cpus - N % cpus` in [1, cpus] |
| `ChooseNumCpus.DistinctCpusAfterSort` | choose_num_cpus.py:33-35 | sorting keeps the CPU counts pairwise distinct |
| `ChooseNumCpus.SortedDistinctIsStrict` | choose_num_cpus.py:34-35 | a list sorted by the key whose CPU counts are distinct is strictly ascending: on equal imbalance the smaller CPU count comes first |
| `ChooseNumCpus.FindOptimalCpus` | choose_num_cpus.py:14-35 | the loop fails with a division by zero exactly when M = 0 and there is a multiplier to try; otherwise it returns the ranking of the candidates for k = 1..max_multiplier |
| `ChooseNumCpus.WorkedExample` | choose_num_cpus.py:29-35 | N=1000, M=48, max_multiplier=3 builds [(48,8),(96,56),(144,8)] and ranks it [(48,8),(144,8),(96,56)] |
| `ChooseNumCpus.RecommendForQueue` | choose_num_cpus.py:64-70 | the advisor fails with "Unknown queue" exactly when the name is not in the registry; otherwise it ranks the candidates up to `ceil(N / cpus_per_node)` for that queue's positive node size, and the search cannot fail |
| `GadiQueues.WalltimeLimitFromFirstMatch` | gadi_queues.py:29-34 | the scan succeeds iff some tier's cpu_count ≥ ncpu, returns the hours of the first such tier in stored order, and otherwise fails naming the last tier's cpu_count |
| `GadiQueues.WalltimeLimitFirstMatch` | gadi_queues.py:22-34 | `get_walltime_limit(ncpu)` returns the hours of the first tier with cpu_count ≥ ncpu; if none, it fails naming ncpu, the last tier's cpu_count (0 without tiers) and the queue |
| `GadiQueues.GetWalltimeLimit` | gadi_queues.py:22-34 | the loop with its running `max` and early return computes exactly that result |
| `GadiQueues.WalltimeLimitMonotone` | gadi_queues.py:30-32 | with ordered tiers, if a CPU count is admitted then every smaller count is too, with a walltime limit at least as long |
| `GadiQueues.LookupQueueFirstMatch` | gadi_queues.py:57-60 | the lookup succeeds iff some entry has the name, returns the first such entry, and otherwise fails with UnknownQueue(name) |
| `GadiQueues.LookupQueueUnique` | gadi_queues.py:57-60 | in a table with unique names, looking up any entry's name returns that entry |
| `GadiQueues.GetQueue` | gadi_queues.py:53-60 | the loop over the registry returns the first queue of that name, a member of the registry, or fails with UnknownQueue(name) |
| `GadiQueues.RegistryNamesUnique` | gadi_queues.py:36-51 | the queue names of the registry are pairwise distinct |
| `GadiQueues.NeighboursOrderAll` | gadi_queues.py:36-51 | tiers ordered pairwise between neighbours are ordered across all pairs |
| `GadiQueues.AllWellFormed` | gadi_queues.py:36-51 | a table whose every queue has a positive node size and ordered neighbouring tiers has only well-formed queues |
| `GadiQueues.RegistryWellFormed` | gadi_queues.py:36-51 | every registry queue has a positive node size, and tiers strictly ascending in cpu_count and non-increasing in hours |
| `GadiQueues.RegistryWalltimeMonotone` | gadi_queues.py:30-51 | in every registry queue, within range, a larger CPU count never gets a longer walltime limit |
| `GadiQueues.RegistryLookupFindsEach` | gadi_queues.py:36-60 | looking up the name of any registry queue returns that queue |
| `GadiQueues.NormalQueueBoundaries` | gadi_queues.py:30-37 | "normal": ncpu 100 → 48, 672 → 48, 673 → 24, 20000 → 5, 20736 → 5, and 20737 fails naming 20736 |
| `GridlistToIndices.FirstIndexSpec` | gridlist_to_indices.py:8-12 | the search result lies in [-1, len); a result ≥ 0 holds the needle with no earlier copy; it is -1 iff the needle is absent |
| `GridlistToIndices.IndexOf` | gridlist_to_indices.py:8-12 | the loop returns the smallest index holding the needle, or -1 exactly when there is none |
| `GridlistToIndices.TokenLength` | gridlist_to_indices.py:27 | the length of the leading run of non-whitespace characters, which ends at whitespace or at the end |
| `GridlistToIndices.Split` | gridlist_to_indices.py:27 | every token `str.split()` yields is non-empty and free of whitespace |
| `GridlistToIndices.SplitAtSpace` | gridlist_to_indices.py:27 | splitting a string at a whitespace character splits the two sides independently |
| `GridlistToIndices.SplitToken` | gridlist_to_indices.py:27 | a single token splits into itself |
| `GridlistToIndices.SplitBlank` | gridlist_to_indices.py:27 | a string of whitespace only splits into no tokens |
| `GridlistToIndices.SplitJoinRoundTrip` | gridlist_to_indices.py:27 | splitting tokens joined by single spaces gives the tokens back |
| `GridlistToIndices.SplitKeepsContent` | gridlist_to_indices.py:27 | the tokens, laid end to end, are exactly the non-whitespace characters of the line, in order |
| `GridlistToIndices.NonBlank` | gridlist_to_indices.py:25-26 | the lines that are not skipped, in order, none of them blank |
| `GridlistToIndices.OnePairPerLine` | gridlist_to_indices.py:24-33 | a run without error prints exactly one pair per non-blank line, in input order, each the result of that line |
| `GridlistToIndices.StopsAtFirstFailure` | gridlist_to_indices.py:24-33 | a failing run stops at the first failing line, after printing exactly what the lines before it print |
| `GridlistToIndices.Traverse` | gridlist_to_indices.py:21-33 | the loop with `continue` and its early exits prints and fails exactly as the line-by-line specification says |
| `GridlistToIndices.TwoTokenLineEmits` | gridlist_to_indices.py:25-33 | a line "<lon> <lat>\n" yields the first positions of the parsed coordinates |
| `GridlistToIndices.ExtraTokenFails` | gridlist_to_indices.py:27 | a line of three tokens fails the unpacking with a count of 3 |
| `GridlistToIndices.WhitespaceLineFails` | gridlist_to_indices.py:25-27 | a non-skipped line of only whitespace fails with a count of 0 |
| `GridlistToIndices.SplitLine` | gridlist_to_indices.py:27 | tokens joined by spaces and ended by a newline split back into the tokens |

## Left out

- src/ncmc/ncmc.c is not part of this model. It is a wrapper over the netCDF C library. Its only logic, the variable-name search, depends on foreign calls.
- The efficiency percentage and table printing of `print_optimal_cpus` (choose_num_cpus.py:37-54) are left out. They are floating-point division and formatted output.
- `MaxMultiplier` uses exact integer ceiling division. Python computes `ceil(ngridcell / cpus_per_node)` through a float, which can round differently for very large counts.
- The reading of `argv[1]` with `int(...)`, the printing of the usage text, and the `__main__` plumbing are left out. The model starts from an integer gridcell count and a queue name.
- `FindOptimalCpus` takes `max_multiplier` explicitly. Python's default value of 10 is not modelled.
- `charge_rate` and `mem_per_node` are carried in the table but nothing reads them. The float `charge_rate` is stored as a whole number of hundredths, which is exact for every value in the table.
- Reading the netCDF dataset is left out. The coordinate arrays are parameters.
- Opening the gridlist file is left out. The lines are given as strings, each with its newline, as Python's file iteration yields them.
- `float()` parsing is left out. The parser is a parameter `string -> Option<T>`, with `None` for a rejected token.
- The `"<ilon> <ilat>"` formatting is left out. The output is a sequence of index pairs.
- `IndexOf`: coordinates are compared with an equality that is reflexive. The model does not capture that a float NaN in Python never equals itself.
- The ValueError message texts are left out. Errors are datatype values that carry the message's data: ncpu, the maximum and the queue name, the unknown name, or the offending line and its token count.
