/** A scheduling session as the program's driver runs it, with the console taken
    away: `n` records are appended with arrival ids 1..n, then menu choices are
    applied one after another until the exit choice. */
module Sessions {
  import opened Processes
  import opened Ordering
  import opened Scheduling

  datatype Option<T> = None | Some(value: T)

  /** What the user types for one process: everything but the id, which is
      the process's position in the input, counting from 1. */
  datatype Entry = Entry(name: string, size: int, rt: int, pr: int)

  /** The record appended for the entry typed as process number `id`. */
  function Admit(id: int, e: Entry): Process
  {
    Process(e.name, e.size, id, e.rt, e.pr)
  }

  /** The list after all entries are appended, before any menu choice: the
      entry typed as process number i gets arrival id i, so the list is
      strictly ordered by arrival. */
  function Inserted(entries: seq<Entry>): (r: seq<Process>)
    ensures |r| == |entries| && forall i :: 0 <= i < |r| ==> r[i].id == i + 1
    ensures StrictlySorted(FCFS, r)
  {
    seq(|entries|, i requires 0 <= i < |entries| => Admit(i + 1, entries[i]))
  }

  /** Menu choices 1, 2 and 3 select a policy; every other choice but the exit
      choice 4 is rejected and changes nothing. */
  function PolicyOf(choice: int): (r: Option<Policy>)
    ensures r.Some? <==> 1 <= choice <= 3
  {
    if choice == 1 then Some(Priority)
    else if choice == 2 then Some(SJF)
    else if choice == 3 then Some(FCFS)
    else None
  }

  /** The policies actually run for a sequence of menu choices: those before the
      first exit choice, skipping rejected ones. */
  function Effective(choices: seq<int>): seq<Policy>
  {
    if choices == [] || choices[0] == 4 then []
    else Selected(choices[0]) + Effective(choices[1..])
  }

  /** The policy a single non-exit choice runs, if any. */
  function Selected(choice: int): seq<Policy>
  {
    match PolicyOf(choice)
    case Some(p) => [p]
    case None => []
  }

  /** The list after running `policies` in order on `s`, each one a stable
      sort of the result of the previous one. */
  function Replay(s: seq<Process>, policies: seq<Policy>): seq<Process>
  {
    if policies == [] then s
    else StableSort(policies[|policies| - 1], Replay(s, policies[..|policies| - 1]))
  }

  /** Running one more policy sorts the previous result by it. */
  lemma ReplaySnoc(s: seq<Process>, policies: seq<Policy>, p: Policy)
    ensures Replay(s, policies + [p]) == StableSort(p, Replay(s, policies))
  {
    assert (policies + [p])[..|policies|] == policies;
  }

  /** No sequence of policies creates, drops or duplicates a record. */
  lemma {:induction false} ReplayPermutation(s: seq<Process>, policies: seq<Policy>)
    ensures multiset(Replay(s, policies)) == multiset(s)
  {
    if policies != [] {
      var init := policies[..|policies| - 1];
      ReplayPermutation(s, init);
      StableSortProperties(policies[|policies| - 1], Replay(s, init));
    }
  }

  /** After a sequence of policies the list is in the order of the last one. */
  lemma ReplaySortedByLast(s: seq<Process>, policies: seq<Policy>)
    requires policies != []
    ensures Sorted(policies[|policies| - 1], Replay(s, policies))
  {
    StableSortProperties(policies[|policies| - 1], Replay(s, policies[..|policies| - 1]));
  }

  /** Whatever ran before, ending with first come first served gives back a
      list that was strictly in arrival order. */
  lemma ReplayEndingInFcfsRestores(s: seq<Process>, policies: seq<Policy>)
    requires StrictlySorted(FCFS, s)
    requires policies != [] && policies[|policies| - 1] == FCFS
    ensures Replay(s, policies) == s
  {
    ReplaySortedByLast(s, policies);
    ReplayPermutation(s, policies);
    DistinctKeysPermutationUnique(FCFS, Replay(s, policies), s);
  }

  /** The ids of a list, head first (what the listing shows in its ID column). */
  function Ids(s: seq<Process>): seq<int>
  {
    seq(|s|, i requires 0 <= i < |s| => s[i].id)
  }

  /** Appends the entries with ids 1..n to a new scheduler. */
  method Admission(entries: seq<Entry>) returns (scheduler: ProcessScheduler)
    ensures fresh(scheduler)
    ensures scheduler.procs == Inserted(entries)
  {
    scheduler := new ProcessScheduler();
    var i := 1;
    while i <= |entries|
      invariant 1 <= i <= |entries| + 1
      invariant scheduler.procs == Inserted(entries[..i - 1])
    {
      var e := entries[i - 1];
      scheduler.InsertProcess(i, e.name, e.size, e.rt, e.pr);
      assert entries[..i] == entries[..i - 1] + [e];
      i := i + 1;
    }
    assert entries[..|entries|] == entries;
  }

  /** One pass through the menu's switch for a choice other than exit: a
      policy choice sorts the whole list by that policy, any other choice
      leaves it as it is. */
  method ApplyChoice(scheduler: ProcessScheduler, choice: int)
    modifies scheduler
    ensures PolicyOf(choice).Some? ==> scheduler.procs == StableSort(PolicyOf(choice).value, old(scheduler.procs))
    ensures PolicyOf(choice).None? ==> scheduler.procs == old(scheduler.procs)
  {
    var n := |scheduler.procs|;
    if choice == 1 {
      scheduler.PriorityScheduling(n);
    } else if choice == 2 {
      scheduler.Sjf(n);
    } else if choice == 3 {
      scheduler.Fcfs(n);
    }
    assert old(scheduler.procs)[..n] == old(scheduler.procs);
    assert n > 1 ==> scheduler.procs == scheduler.procs[..n];
    if n <= 1 && PolicyOf(choice).Some? {
      StableSortOfSorted(PolicyOf(choice).value, old(scheduler.procs));
    }
  }

  /** Runs a session: appends the entries with ids 1..n, then applies the menu
      choices until the exit choice, and returns the list as it stands. */
  method Session(entries: seq<Entry>, choices: seq<int>) returns (order: seq<Process>)
    ensures order == Replay(Inserted(entries), Effective(choices))
  {
    var scheduler := Admission(entries);
    ghost var applied: seq<Policy> := [];
    var c := 0;
    while c < |choices|
      invariant 0 <= c <= |choices|
      invariant Effective(choices) == applied + Effective(choices[c..])
      invariant scheduler.procs == Replay(Inserted(entries), applied)
    {
      var choice := choices[c];
      if choice == 4 {
        EffectiveAtExit(choices, c, applied);
        break;
      }
      ApplyChoice(scheduler, choice);
      ReplayChoice(Inserted(entries), applied, choice);
      EffectiveAtChoice(choices, c, applied);
      applied := applied + Selected(choice);
      c := c + 1;
    }
    EffectiveAtEnd(choices, c, applied);
    order := scheduler.procs;
  }

  /** Running what one menu choice selects after `applied`. */
  lemma ReplayChoice(s: seq<Process>, applied: seq<Policy>, choice: int)
    ensures PolicyOf(choice).Some? ==>
              Replay(s, applied + Selected(choice)) == StableSort(PolicyOf(choice).value, Replay(s, applied))
    ensures PolicyOf(choice).None? ==> Replay(s, applied + Selected(choice)) == Replay(s, applied)
  {
    if PolicyOf(choice).Some? {
      ReplaySnoc(s, applied, PolicyOf(choice).value);
    } else {
      assert applied + Selected(choice) == applied;
    }
  }

  lemma EffectiveAtExit(choices: seq<int>, c: nat, applied: seq<Policy>)
    requires c < |choices| && choices[c] == 4
    requires Effective(choices) == applied + Effective(choices[c..])
    ensures Effective(choices) == applied
  {
    EffectiveFrom(choices, c);
  }

  lemma EffectiveAtChoice(choices: seq<int>, c: nat, applied: seq<Policy>)
    requires c < |choices| && choices[c] != 4
    requires Effective(choices) == applied + Effective(choices[c..])
    ensures Effective(choices) == (applied + Selected(choices[c])) + Effective(choices[c + 1..])
  {
    EffectiveFrom(choices, c);
  }

  lemma EffectiveAtEnd(choices: seq<int>, c: nat, applied: seq<Policy>)
    requires c <= |choices|
    requires Effective(choices) == applied + Effective(choices[c..])
    requires c == |choices| || Effective(choices) == applied
    ensures Effective(choices) == applied
  {
    assert c == |choices| ==> choices[c..] == [];
  }

  /** Unfolds `Effective` at position `c` of the choices. */
  lemma EffectiveFrom(choices: seq<int>, c: nat)
    requires c < |choices|
    ensures Effective(choices[c..])
            == if choices[c] == 4 then [] else Selected(choices[c]) + Effective(choices[c + 1..])
  {
    assert choices[c..][1..] == choices[c + 1..];
  }

  /** What a session's final list is known to satisfy, for any policies run. */
  lemma SessionOutcome(entries: seq<Entry>, policies: seq<Policy>)
    ensures multiset(Replay(Inserted(entries), policies)) == multiset(Inserted(entries))
    ensures policies == [] ==> Replay(Inserted(entries), policies) == Inserted(entries)
    ensures policies != [] ==> Sorted(policies[|policies| - 1], Replay(Inserted(entries), policies))
    ensures policies != [] && policies[|policies| - 1] == FCFS
            ==> Replay(Inserted(entries), policies) == Inserted(entries)
  {
    ReplayPermutation(Inserted(entries), policies);
    if policies != [] {
      ReplaySortedByLast(Inserted(entries), policies);
      if policies[|policies| - 1] == FCFS {
        ReplayEndingInFcfsRestores(Inserted(entries), policies);
      }
    }
  }

  /** The worked example's three processes: (id, priority, burst) = (1, 3, 50),
      (2, 1, 20), (3, 2, 80). */
  const ProcA := Process("A", 10, 1, 50, 3)
  const ProcB := Process("B", 20, 2, 20, 1)
  const ProcC := Process("C", 30, 3, 80, 2)

  /** The two sorts of the worked example, computed on the reference sort. */
  lemma WorkedExampleSorts()
    ensures StableSort(Priority, [ProcA, ProcB, ProcC]) == [ProcB, ProcC, ProcA]
    ensures StableSort(SJF, [ProcB, ProcC, ProcA]) == [ProcB, ProcA, ProcC]
  {
    assert [ProcA, ProcB, ProcC][..2] == [ProcA, ProcB];
    assert [ProcA, ProcB][..1] == [ProcA];
    assert StableSort(Priority, [ProcA]) == [ProcA] by {
      assert [ProcA][..0] == [];
    }
    assert StableSort(Priority, [ProcA, ProcB]) == [ProcB, ProcA];
    assert [ProcB, ProcA][1..] == [ProcA];
    assert Insert(Priority, ProcC, [ProcA]) == [ProcC, ProcA];
    assert Insert(Priority, ProcC, [ProcB, ProcA]) == [ProcB, ProcC, ProcA];
    assert [ProcB, ProcC, ProcA][..2] == [ProcB, ProcC];
    assert [ProcB, ProcC][..1] == [ProcB];
    assert StableSort(SJF, [ProcB]) == [ProcB] by {
      assert [ProcB][..0] == [];
    }
    assert [ProcB][1..] == [];
    assert Insert(SJF, ProcC, [ProcB]) == [ProcB, ProcC];
    assert StableSort(SJF, [ProcB, ProcC]) == [ProcB, ProcC];
    assert [ProcB, ProcC][1..] == [ProcC];
    assert Insert(SJF, ProcA, [ProcC]) == [ProcA, ProcC];
    assert Insert(SJF, ProcA, [ProcB, ProcC]) == [ProcB, ProcA, ProcC];
  }

  /** Priority scheduling of the three lists ids 2, 3, 1; shortest job first
      applied to that lists ids 2, 1, 3. */
  method WorkedExample() returns (afterPriority: seq<int>, afterSjf: seq<int>)
    ensures afterPriority == [2, 3, 1]
    ensures afterSjf == [2, 1, 3]
  {
    var entries := [Entry("A", 10, 50, 3), Entry("B", 20, 20, 1), Entry("C", 30, 80, 2)];
    var scheduler := Admission(entries);
    assert scheduler.procs == [ProcA, ProcB, ProcC];
    WorkedExampleSorts();
    ApplyChoice(scheduler, 1);
    afterPriority := Ids(scheduler.procs);
    ApplyChoice(scheduler, 2);
    afterSjf := Ids(scheduler.procs);
  }
}
