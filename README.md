# Process scheduler

A model of a small CPU-scheduling program. Process records (name, size,
arrival id, burst time, priority) are kept in a singly linked list. Records are
appended at the tail. The list is reordered in place by an exchange (bubble)
sort that swaps the payloads of neighbouring nodes and never relinks them. The
program offers three orderings, each a comparator handed to that sort:

- priority scheduling, by ascending priority value;
- shortest job first, by ascending burst time;
- first come first served, by ascending arrival id.

The driver reads `n` records and gives them ids 1..n in input order. It then
applies menu choices until the exit choice.

The project has four modules:

- `Processes` (`process.dfy`): the record and the three comparators, as a
  `Policy` with its `Key` and `Compare`.
- `Ordering` (`ordering.dfy`): the specification of what the sort does.
  - `Sorted`: keys ascend.
  - `InOrder`: no adjacent pair the comparator would exchange.
  - `Filter`: the subsequence of records with one key value. Stability means
    every such subsequence is unchanged.
  - `StableSort`: a reference stable insertion sort.
  - The lemmas tying these together.
- `Scheduling` (`scheduler.dfy`): the scheduler object as a class. Its
  `procs` field holds the node payloads in list order. Its methods are the
  source's methods, with loops and invariants.
- `Sessions` (`session.dfy`): the driver without the console.
  - The input is a sequence of entries and a sequence of menu choices.
  - It proves what the list looks like after any session.
  - It includes a worked three-process example.

## Model

| member | source | states |
|---|---|---|
| Processes.Compare | os.cpp:78-100 | each policy's comparator holds exactly when the first record's key (priority, burst time or id) is strictly larger than the second's |
| Ordering.Swapped | os.cpp:23-29 | exchanging two payloads puts each at the other's position, leaves every other position alone and keeps the multiset of records |
| Ordering.SwapKeepsFilter | os.cpp:39-40 | a swap the comparator asks for never reorders two records with the same key |
| Ordering.InOrderIffSorted | os.cpp:35-44 | no adjacent pair the comparator would exchange holds if and only if keys ascend over every pair of positions |
| Ordering.BubbleStep | os.cpp:37-42 | one compare-and-swap step carries the largest key seen in the pass one position forward and keeps the settled tail settled |
| Ordering.PassSettles | os.cpp:35-44 | after a full inner pass, the largest key of the unsettled prefix sits at its end, so the settled tail grows by one |
| Ordering.SortedFilterUnique | os.cpp:32-45 | two key-ordered sequences with the same subsequence for every key are equal, so a stable sort's result is unique |
| Ordering.DistinctKeysPermutationUnique | os.cpp:94-100 | a key-ordered permutation of a sequence with strictly ascending keys is that sequence |
| Ordering.StableSortProperties | os.cpp:32-45 | the reference sort orders by key, is a permutation, and keeps the relative order of equal keys |
| Ordering.SortOutcome | os.cpp:32-45 | what the sort's loops establish implies adjacent order, key order, the reference stable sort, a permutation, and no change for input already in order |
| Ordering.StableSortCharacterized | os.cpp:32-45 | any key-ordered sequence with the input's per-key subsequences is the reference stable sort of the input |
| Ordering.StableSortOfSorted | os.cpp:39 | sorting a sequence already in key order changes nothing, because equal keys are never exchanged |
| Ordering.StableSortIdempotent | os.cpp:32-45 | sorting twice by one policy gives the same list as sorting once |
| Scheduling.ProcessScheduler.constructor | os.cpp:48 | a new scheduler holds an empty list |
| Scheduling.ProcessScheduler.InsertProcess | os.cpp:59-76 | the new record goes at the tail with the given fields; earlier records keep their places |
| Scheduling.ProcessScheduler.SwapData | os.cpp:23-29 | the payloads at the two positions are exchanged; nothing else changes |
| Scheduling.ProcessScheduler.BubbleSort | os.cpp:32-45 | for n at most 1 the list is unchanged. Otherwise the first n records end in key order with no adjacent pair the comparator would exchange. They are the stable sort of the old first n records, a permutation of them with equal keys in their old relative order. Records past n are untouched. A prefix already in order is left as it is |
| Scheduling.ProcessScheduler.Pass | os.cpp:36-43 | one outer iteration keeps every key's subsequence and records past n. It extends the settled tail, where every key is at least every key before it, by one position |
| Scheduling.ProcessScheduler.PriorityScheduling | os.cpp:78-84 | the first n records end in ascending priority value as the stable sort by priority; a permutation; no-op for n at most 1 |
| Scheduling.ProcessScheduler.Sjf | os.cpp:86-92 | the first n records end in ascending burst time as the stable sort by burst time; a permutation; no-op for n at most 1 |
| Scheduling.ProcessScheduler.Fcfs | os.cpp:94-100 | the first n records end in ascending arrival id as the stable sort by id; a permutation; no-op for n at most 1 |
| Sessions.Inserted | os.cpp:129-141 | the list built from n entries has n records whose arrival ids are 1..n in list order, so it is in strictly ascending id order |
| Sessions.PolicyOf | os.cpp:161-182 | a menu choice selects a policy if and only if it is 1, 2 or 3 |
| Sessions.Admission | os.cpp:126-141 | reading n entries gives the list of those entries with ids 1..n in input order |
| Sessions.ApplyChoice | os.cpp:161-182 | a policy choice replaces the list by its stable sort under that policy; any other non-exit choice leaves it unchanged |
| Sessions.Session | os.cpp:121-186 | a session's final list is the reference replay of the policies chosen before the first exit choice, with rejected choices skipped |
| Sessions.ReplayPermutation | os.cpp:145-183 | any series of policies run only permutes the records |
| Sessions.ReplaySortedByLast | os.cpp:145-183 | after a non-empty series of policies run the list is in key order for the last one |
| Sessions.ReplayEndingInFcfsRestores | os.cpp:94-100 | on a list with strictly ascending ids, any series of policies run that ends with first come first served restores the original list |
| Sessions.SessionOutcome | os.cpp:121-186 | for the list built by the driver, any series of policies run permutes it, sorts it by the last policy run, and restores arrival order 1..n when that policy is first come first served |
| Sessions.WorkedExampleSorts | os.cpp:78-92 | on A(id 1, burst 50, priority 3), B(2, 20, 1), C(3, 80, 2), priority gives B, C, A and then burst time gives B, A, C |
| Sessions.WorkedExample | os.cpp:121-186 | driving the scheduler with those three processes and choices 1 then 2 yields id orders [2, 3, 1] and then [2, 1, 3] |

## Left out

- Console input and output are not modelled. The driver's prompts, `display`
  (os.cpp:102-118) and the messages for exit and invalid choices are left out.
  A session takes its entries and menu choices as sequences instead of reading
  them.
- A session whose choices run out before an exit choice ends at the last
  choice. The program would instead wait for more input.
- The destructor (os.cpp:50-57) is not modelled. Memory release has no
  counterpart in the model.
- Nodes and links are not modelled. The list is the sequence of payloads in
  link order. Walking to a position through `next` pointers is indexing into
  that sequence. The tail walk in `insertProcess` is appending to the
  sequence. Aliasing between nodes cannot arise, because the sort never
  relinks nodes.
- `size` is carried as a payload field only. Nothing in the core reads it.
- Scheduling.ProcessScheduler.BubbleSort: it requires `n <= 1 || n <= |procs|`.
  The program dereferences null for a larger `n`, so such calls have no
  defined behaviour to model.
- Record fields are unbounded integers rather than 32-bit `int`. The core only
  compares them, so no overflow or wrap-around can arise.
- A negative count read by the driver gives an empty list, exactly like a zero
  count. Sorting then starts with `n <= 1` and returns at once.
- The source has no capacity check on the number of processes, and none is
  modelled.
- Malformed numeric input (a failed `cin` read) is not modelled. Every entry
  and choice is taken to be an integer.
