/** The scheduler object: a list of process records, built by appending and
    reordered in place by an exchange (bubble) sort that moves payloads between
    list positions and never relinks the list. */
module Scheduling {
  import opened Processes
  import opened Ordering

  class ProcessScheduler {
    /** The payloads of the list's nodes, head first. A node's position in
        this sequence is its place in the linked list; node identity and links
        never change once a node is appended. */
    var procs: seq<Process>

    /** An empty list. */
    constructor ()
      ensures procs == []
    {
      procs := [];
    }

    /** Appends a new record at the tail; earlier records keep their place. */
    method InsertProcess(id: int, name: string, size: int, rt: int, pr: int)
      modifies this
      ensures procs == old(procs) + [Process(name, size, id, rt, pr)]
    {
      procs := procs + [Process(name, size, id, rt, pr)];
    }

    /** Exchanges the payloads of the nodes at positions `i` and `j`. */
    method SwapData(i: nat, j: nat)
      requires i < |procs| && j < |procs|
      modifies this
      ensures procs == Swapped(old(procs), i, j)
    {
      procs := procs[i := procs[j]][j := procs[i]];
    }

    /** The exchange sort over the first `n` nodes. For `n > 1` it walks nodes
        0..n-1, so the list must hold at least `n` nodes. The result is the
        stable sort of the first `n` records by the policy's key; the rest of
        the list is untouched. */
    method BubbleSort(n: int, policy: Policy)
      requires n <= 1 || n <= |procs|
      modifies this
      ensures |procs| == |old(procs)|
      ensures multiset(procs) == multiset(old(procs))
      ensures n <= 1 ==> procs == old(procs)
      ensures n > 1 ==> procs[n..] == old(procs)[n..]
      ensures n > 1 ==> InOrder(policy, procs[..n]) && Sorted(policy, procs[..n])
      ensures n > 1 ==> forall k :: Filter(policy, procs[..n], k) == Filter(policy, old(procs)[..n], k)
      ensures n > 1 ==> procs[..n] == StableSort(policy, old(procs)[..n])
      ensures n > 1 && InOrder(policy, old(procs)[..n]) ==> procs == old(procs)
    {
      if n <= 1 {
        return;
      }
      ghost var before := procs[..n];
      var i := 0;
      while i < n - 1
        invariant 0 <= i <= n - 1
        invariant |procs| == |old(procs)|
        invariant procs[n..] == old(procs)[n..]
        invariant forall k :: Filter(policy, procs[..n], k) == Filter(policy, before, k)
        invariant SettledFrom(policy, procs[..n], n - i)
      {
        Pass(n, n - i, policy);
        i := i + 1;
      }
      assert procs == procs[..n] + procs[n..];
      assert old(procs) == before + old(procs)[n..];
      SortOutcome(policy, before, procs[..n]);
    }

    /** One pass of the exchange sort's outer loop: walks positions
        0..m-2, exchanging each record with its successor when the comparator
        says so, which carries the largest key of positions 0..m-1 to m-1. */
    method Pass(n: int, m: int, policy: Policy)
      requires 2 <= m <= n <= |procs|
      requires SettledFrom(policy, procs[..n], m)
      modifies this
      ensures |procs| == |old(procs)| && procs[n..] == old(procs)[n..]
      ensures forall k :: Filter(policy, procs[..n], k) == Filter(policy, old(procs)[..n], k)
      ensures SettledFrom(policy, procs[..n], m - 1)
    {
      var j := 0;
      while j < m - 1
        invariant 0 <= j <= m - 1
        invariant |procs| == |old(procs)|
        invariant procs[n..] == old(procs)[n..]
        invariant forall k :: Filter(policy, procs[..n], k) == Filter(policy, old(procs)[..n], k)
        invariant SettledFrom(policy, procs[..n], m)
        invariant MaxAt(policy, procs[..n], j)
      {
        ghost var prefix := procs[..n];
        if Compare(policy, procs[j], procs[j + 1]) {
          SwapKeepsFilters(policy, prefix, j);
          SwapData(j, j + 1);
          assert procs[..n] == Swapped(prefix, j, j + 1);
        }
        BubbleStep(policy, prefix, j, m);
        j := j + 1;
      }
      PassSettles(policy, procs[..n], m);
    }

    /** Priority scheduling: ascending priority value (a lower number runs first). */
    method PriorityScheduling(n: int)
      requires n <= 1 || n <= |procs|
      modifies this
      ensures multiset(procs) == multiset(old(procs))
      ensures n <= 1 ==> procs == old(procs)
      ensures n > 1 ==> |procs| == |old(procs)| && procs[n..] == old(procs)[n..]
      ensures n > 1 ==> forall a, b :: 0 <= a < b < n ==> procs[a].pr <= procs[b].pr
      ensures n > 1 ==> procs[..n] == StableSort(Priority, old(procs)[..n])
    {
      BubbleSort(n, Priority);
    }

    /** Shortest job first: ascending burst time. */
    method Sjf(n: int)
      requires n <= 1 || n <= |procs|
      modifies this
      ensures multiset(procs) == multiset(old(procs))
      ensures n <= 1 ==> procs == old(procs)
      ensures n > 1 ==> |procs| == |old(procs)| && procs[n..] == old(procs)[n..]
      ensures n > 1 ==> forall a, b :: 0 <= a < b < n ==> procs[a].rt <= procs[b].rt
      ensures n > 1 ==> procs[..n] == StableSort(SJF, old(procs)[..n])
    {
      BubbleSort(n, SJF);
    }

    /** First come first served: ascending arrival id. */
    method Fcfs(n: int)
      requires n <= 1 || n <= |procs|
      modifies this
      ensures multiset(procs) == multiset(old(procs))
      ensures n <= 1 ==> procs == old(procs)
      ensures n > 1 ==> |procs| == |old(procs)| && procs[n..] == old(procs)[n..]
      ensures n > 1 ==> forall a, b :: 0 <= a < b < n ==> procs[a].id <= procs[b].id
      ensures n > 1 ==> procs[..n] == StableSort(FCFS, old(procs)[..n])
    {
      BubbleSort(n, FCFS);
    }
  }
}
